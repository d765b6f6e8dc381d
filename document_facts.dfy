/** What `RobotsParser.serialize(RobotsParser.parse(content))` gives for a
    whole document: every raw line rendered from its freshly parsed fields, so
    the document comes back unchanged (with a final line feed) exactly when
    every one of its lines round-trips. */
module RobotsDocumentFacts {
  import opened JsText
  import opened RobotsLines
  import opened RobotsLineFacts
  import opened RobotsParser

  /** `f` applied to every part, the results one after the other. */
  function ConcatMap(f: string -> string, parts: seq<string>): (text: string)
  {
    if |parts| == 0 then "" else ConcatMap(f, parts[..|parts| - 1]) + f(parts[|parts| - 1])
  }

  /** When `f` turns every part into its body followed by `eol`, mapping and
      concatenating is terminating the bodies. */
  lemma {:induction false} ConcatMapTerminated(f: string -> string, parts: seq<string>, bodies: seq<string>, eol: string)
    requires |bodies| == |parts|
    requires forall k :: 0 <= k < |parts| ==> f(parts[k]) == bodies[k] + eol
    ensures ConcatMap(f, parts) == Terminated(bodies, eol)
    decreases |parts|
  {
    var n := |parts|;
    if n > 0 {
      var init, front := parts[..n - 1], bodies[..n - 1];
      assert forall k :: 0 <= k < |init| ==> init[k] == parts[k] && front[k] == bodies[k];
      ConcatMapTerminated(f, init, front, eol);
    }
  }

  /** A raw line rendered from the fields a fresh `parse()` gives it. */
  function RenderParsed(eol: string): (render: string -> string)
  {
    line => Render(Parsed(line, Blank), eol)
  }

  /** The raw lines, each rendered from the fields a fresh `parse()` gives it. */
  function RenderedLines(segs: seq<string>, eol: string): (text: string)
  {
    ConcatMap(RenderParsed(eol), segs)
  }

  /** Lines that hold freshly parsed fields serialise to the rendered raw
      lines. */
  lemma {:induction false} SerializedParsed(ls: seq<RobotsLine>, segs: seq<string>, eol: string)
    requires |ls| == |segs|
    requires forall k :: 0 <= k < |ls| ==> ls[k].Snapshot() == Parsed(segs[k], Blank)
    ensures SerializedText(ls, eol) == RenderedLines(segs, eol)
    decreases |ls|
  {
    var n := |ls|;
    if n > 0 {
      SerializedParsed(ls[..n - 1], segs[..n - 1], eol);
      assert segs[..n - 1] == segs[..|segs| - 1];
    }
  }

  /** `serialize(parse(content))`: the document's raw lines, each rendered
      from its freshly parsed fields. */
  method ParseThenSerialize(content: string, eol: string) returns (out: string)
    ensures out == RenderedLines(Segments(content), eol)
  {
    var list := Parse(content);
    out := Serialize(list, eol);
    SerializedParsed(list.items, Segments(content), eol);
  }

  /** The rendered lines are the rendered line bodies, each followed by
      `eol`. */
  lemma RenderedBodies(segs: seq<string>, eol: string)
    ensures RenderedLines(segs, eol) == Terminated(Bodies(segs), eol)
  {
    var bodies := Bodies(segs);
    forall k | 0 <= k < |segs|
      ensures RenderParsed(eol)(segs[k]) == bodies[k] + eol
    {
      RenderEol(Parsed(segs[k], Blank), eol);
    }
    ConcatMapTerminated(RenderParsed(eol), segs, bodies, eol);
  }

  /** The rendered lines without their line terminators. */
  function Bodies(segs: seq<string>): (bodies: seq<string>)
    ensures |bodies| == |segs|
    ensures forall k :: 0 <= k < |segs| ==> bodies[k] == Render(Parsed(segs[k], Blank), "")
  {
    seq(|segs|, k requires 0 <= k < |segs| => Render(Parsed(segs[k], Blank), ""))
  }

  /** When every line round-trips, the rendered lines are the raw lines, each
      followed by `eol`. */
  lemma RenderedRoundTrips(segs: seq<string>, eol: string)
    requires forall k :: 0 <= k < |segs| ==> RoundTrips(segs[k])
    ensures RenderedLines(segs, eol) == Terminated(segs, eol)
  {
    forall k | 0 <= k < |segs|
      ensures RenderParsed(eol)(segs[k]) == segs[k] + eol
    {
      RoundTripIff(segs[k], eol);
    }
    ConcatMapTerminated(RenderParsed(eol), segs, segs, eol);
  }

  /** When the rendered lines give the document back, the rendered line
      bodies are the raw lines. */
  lemma BodiesMatch(content: string)
    requires RenderedLines(Segments(content), "\n") == NewlineTerminated(content)
    ensures Bodies(Segments(content)) == Segments(content)
  {
    var segs := Segments(content);
    var bodies := Bodies(segs);
    SegmentsText(content);
    RenderedBodies(segs, "\n");
    forall k | 0 <= k < |bodies|
      ensures '\n' !in bodies[k]
    {
      RenderAvoids(segs[k], '\n');
    }
    SegmentsOfTerminated(bodies);
    SegmentsOfTerminated(segs);
  }

  /** The whole-document round trip, both ways: `serialize(parse(content))`
      with line feeds gives back `content` (with a line feed added at the end
      if it has none) exactly when every raw line round-trips. */
  lemma DocumentRoundTrip(content: string)
    ensures RenderedLines(Segments(content), "\n") == NewlineTerminated(content)
        <==> forall k :: 0 <= k < |Segments(content)| ==> RoundTrips(Segments(content)[k])
  {
    var segs := Segments(content);
    if forall k :: 0 <= k < |segs| ==> RoundTrips(segs[k]) {
      SegmentsText(content);
      RenderedRoundTrips(segs, "\n");
    }
    if RenderedLines(segs, "\n") == NewlineTerminated(content) {
      BodiesMatch(content);
      forall k | 0 <= k < |segs|
        ensures RoundTrips(segs[k])
      {
        RenderEol(Parsed(segs[k], Blank), "\n");
        RoundTripIff(segs[k], "\n");
      }
    }
  }
}
