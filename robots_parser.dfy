/** `RobotsParser` (lib/parser.ts): splits a robots.txt document into lines,
    parses each into a `RobotsLine`, and joins the serialised lines back into
    a document. The class has no state, so its two methods are methods of
    this module. */
module RobotsParser {
  import opened JsText
  import opened RobotsLines

  /** `content.split('\n')` with its last piece dropped when that piece is
      empty: the raw lines `parse()` walks over. */
  function Segments(content: string): (segs: seq<string>)
    ensures forall k :: 0 <= k < |segs| ==> '\n' !in segs[k]
  {
    DropEmptyLast(Split(content, '\n'))
  }

  /** The parts without the last one when that one is empty. */
  function DropEmptyLast(parts: seq<string>): (r: seq<string>)
    requires |parts| >= 1
    ensures r == parts || (parts[|parts| - 1] == "" && r + [""] == parts)
  {
    if parts[|parts| - 1] == "" then parts[..|parts| - 1] else parts
  }

  /** Each part followed by `eol`, one after the other. */
  function Terminated(parts: seq<string>, eol: string): (text: string)
  {
    if |parts| == 0 then "" else Terminated(parts[..|parts| - 1], eol) + parts[|parts| - 1] + eol
  }

  /** Whether `content` is empty or already ends with a line feed. */
  predicate EndsWithNewline(content: string) {
    content == "" || content[|content| - 1] == '\n'
  }

  /** `content` with a line feed added unless it is empty or ends with one. */
  function NewlineTerminated(content: string): (text: string) {
    if EndsWithNewline(content) then content else content + "\n"
  }

  // ---------------------------------------------------------------------------
  // Splitting and joining
  // ---------------------------------------------------------------------------

  /** Joining one more part adds the separator and the part at the end. */
  lemma {:induction false} JoinSnoc(parts: seq<string>, p: string, sep: char)
    requires |parts| >= 1
    ensures Join(parts + [p], sep) == Join(parts, sep) + [sep] + p
    decreases |parts|
  {
    if |parts| == 1 {
      assert (parts + [p])[1..] == [p];
    } else {
      assert (parts + [p])[1..] == parts[1..] + [p];
      JoinSnoc(parts[1..], p, sep);
    }
  }

  /** A non-empty list of parts, each terminated, is the parts joined and one
      more separator. */
  lemma {:induction false} TerminatedJoin(parts: seq<string>, sep: char)
    requires |parts| >= 1
    ensures Terminated(parts, [sep]) == Join(parts, sep) + [sep]
    decreases |parts|
  {
    var n := |parts|;
    if n > 1 {
      TerminatedJoin(parts[..n - 1], sep);
      JoinSnoc(parts[..n - 1], parts[n - 1], sep);
      assert parts[..n - 1] + [parts[n - 1]] == parts;
    }
  }

  /** Adding a part at the end adds it and `eol` to the text. */
  lemma TerminatedSnoc(parts: seq<string>, p: string, eol: string)
    ensures Terminated(parts + [p], eol) == Terminated(parts, eol) + p + eol
  {
    assert (parts + [p])[..|parts|] == parts;
  }

  /** A join ends with its last part, and, when there are several parts, with
      the separator just before it. */
  lemma {:induction false} JoinLast(parts: seq<string>, sep: char)
    requires |parts| >= 1
    ensures var s, last := Join(parts, sep), parts[|parts| - 1];
      && |last| <= |s| && s[|s| - |last|..] == last
      && (|parts| == 1 ==> s == last)
      && (|parts| > 1 ==> |last| < |s| && s[|s| - |last| - 1] == sep)
  {
    var n := |parts|;
    if n > 1 {
      var init, last := parts[..n - 1], parts[n - 1];
      JoinSnoc(init, last, sep);
      assert init + [last] == parts;
      var s := Join(init, sep) + [sep] + last;
      assert s[|s| - |last|..] == last;
      assert s[|s| - |last| - 1] == sep;
    }
  }

  /** The last of some line-feed-free parts is empty exactly when their join
      is empty or ends with a line feed. */
  lemma LastPart(parts: seq<string>, content: string)
    requires |parts| >= 1 && Join(parts, '\n') == content
    requires forall k :: 0 <= k < |parts| ==> '\n' !in parts[k]
    ensures parts[|parts| - 1] == "" <==> EndsWithNewline(content)
  {
    var last := parts[|parts| - 1];
    JoinLast(parts, '\n');
    if last != "" {
      assert '\n' !in last;
      assert content[|content| - 1] == last[|last| - 1];
    }
  }

  /** The last piece of `split('\n')` is empty exactly when the document is
      empty or ends with a line feed. */
  lemma LastPiece(content: string)
    ensures var lines := Split(content, '\n');
      lines[|lines| - 1] == "" <==> EndsWithNewline(content)
  {
    LastPart(Split(content, '\n'), content);
  }

  /** Parts whose last one is empty: the others, each terminated, are the
      join of all. */
  lemma TerminatedInit(parts: seq<string>, sep: char)
    requires |parts| > 1 && parts[|parts| - 1] == ""
    ensures Terminated(parts[..|parts| - 1], [sep]) == Join(parts, sep)
  {
    var init := parts[..|parts| - 1];
    TerminatedJoin(init, sep);
    JoinSnoc(init, "", sep);
    assert init + [""] == parts;
  }

  /** Line-feed-free parts that join into `content`, the empty last one
      dropped and each given a line feed, are `content` with a line feed added
      when it does not end with one. */
  lemma TerminatedParts(parts: seq<string>, content: string)
    requires |parts| >= 1 && Join(parts, '\n') == content
    requires forall k :: 0 <= k < |parts| ==> '\n' !in parts[k]
    ensures Terminated(DropEmptyLast(parts), "\n") == NewlineTerminated(content)
  {
    LastPart(parts, content);
    if parts[|parts| - 1] != "" {
      TerminatedJoin(parts, '\n');
    } else if |parts| > 1 {
      TerminatedInit(parts, '\n');
    }
  }

  /** The raw lines, each given back its line feed, are the document with a
      line feed added when it does not end with one. */
  lemma SegmentsText(content: string)
    ensures Terminated(Segments(content), "\n") == NewlineTerminated(content)
  {
    TerminatedParts(Split(content, '\n'), content);
  }

  /** A document has one raw line per line feed, plus one for a last line
      that does not end with a line feed. */
  lemma SegmentsCount(content: string)
    ensures |Segments(content)| == multiset(content)['\n'] + (if EndsWithNewline(content) then 0 else 1)
  {
    var parts := Split(content, '\n');
    SplitCount(content, '\n');
    LastPart(parts, content);
  }

  /** Terminating each part is joining them with one more, empty, part. */
  lemma TerminatedAsJoin(lines: seq<string>, sep: char)
    ensures Terminated(lines, [sep]) == Join(lines + [""], sep)
  {
    if |lines| > 0 {
      TerminatedJoin(lines, sep);
      JoinSnoc(lines, "", sep);
    }
  }

  /** Line-feed-free lines with an empty part added stay line-feed-free. */
  lemma SnocEmptyAvoids(lines: seq<string>)
    requires forall k :: 0 <= k < |lines| ==> '\n' !in lines[k]
    ensures forall k :: 0 <= k < |lines| + 1 ==> '\n' !in (lines + [""])[k]
  {
    forall k | 0 <= k < |lines| + 1
      ensures '\n' !in (lines + [""])[k]
    {
      if k < |lines| {
        assert (lines + [""])[k] == lines[k];
      }
    }
  }

  /** Splitting undoes terminating: lines free of line feeds, each followed by
      one, split back into the same lines. */
  lemma SegmentsOfTerminated(lines: seq<string>)
    requires forall k :: 0 <= k < |lines| ==> '\n' !in lines[k]
    ensures Segments(Terminated(lines, "\n")) == lines
  {
    var parts := lines + [""];
    SnocEmptyAvoids(lines);
    TerminatedAsJoin(lines, '\n');
    SplitJoin(parts, '\n');
    assert DropEmptyLast(parts) == lines by {
      assert parts[..|lines|] == lines;
    }
  }

  /** Parts whose last one is empty: the others joined, and the separator,
      are the join of all. */
  lemma JoinInit(parts: seq<string>, sep: char)
    requires |parts| > 1 && parts[|parts| - 1] == ""
    ensures Join(parts[..|parts| - 1], sep) + [sep] == Join(parts, sep)
  {
    var init := parts[..|parts| - 1];
    JoinSnoc(init, "", sep);
    assert init + [""] == parts;
  }

  /** Line-feed-free parts that join into `content`, the empty last one
      dropped and joined again, are `content` without the line feed that the
      dropped part stood after. */
  lemma JoinDropped(parts: seq<string>, content: string)
    requires |parts| >= 1 && Join(parts, '\n') == content
    requires forall k :: 0 <= k < |parts| ==> '\n' !in parts[k]
    ensures Join(DropEmptyLast(parts), '\n') + (if content != "" && EndsWithNewline(content) then "\n" else "") == content
  {
    LastPart(parts, content);
    if parts[|parts| - 1] == "" && |parts| > 1 {
      JoinInit(parts, '\n');
    }
  }

  /** The raw lines joined with line feeds, and the line feed after the last
      one when the document ends with one, are the document. */
  lemma SegmentsJoin(content: string)
    ensures Join(Segments(content), '\n') + (if content != "" && EndsWithNewline(content) then "\n" else "") == content
  {
    JoinDropped(Split(content, '\n'), content);
  }

  /** The empty document has no raw line. */
  lemma NoSegments()
    ensures Segments("") == []
  {
    SegmentsOfTerminated([]);
  }

  /** A line and a line feed give that one raw line: the empty piece after
      the line feed is dropped. */
  lemma OneSegment(a: string)
    requires '\n' !in a
    ensures Segments(a + "\n") == [a]
  {
    var lines := [a];
    assert Terminated(lines, "\n") == a + "\n" by {
      assert lines[..0] == [];
    }
    SegmentsOfTerminated(lines);
  }

  /** A line and two line feeds give that line and an empty one: only one
      final empty piece is dropped. */
  lemma TwoSegments(a: string)
    requires '\n' !in a
    ensures Segments(a + "\n\n") == [a, ""]
  {
    var lines := [a, ""];
    assert Terminated([a], "\n") == a + "\n" by {
      assert [a][..0] == [];
    }
    TerminatedSnoc([a], "", "\n");
    assert [a] + [""] == lines;
    assert (a + "\n") + "" + "\n" == a + "\n\n";
    SegmentsOfTerminated(lines);
  }

  // ---------------------------------------------------------------------------
  // The two operations
  // ---------------------------------------------------------------------------

  /** The loop of `parse(content)` over its raw lines: one `RobotsLine` per
      raw line, numbered from zero and parsed in place, pushed onto a new
      list. */
  method ParseLines(lines: seq<string>) returns (list: RobotsList)
    ensures fresh(list)
    ensures |list.items| == |lines|
    ensures forall k :: 0 <= k < |lines| ==> fresh(list.items[k])
    ensures forall j, k :: 0 <= j < k < |lines| ==> list.items[j] != list.items[k]
    ensures forall k :: 0 <= k < |lines| ==> list.items[k].line == lines[k] && list.items[k].index == k
    ensures forall k :: 0 <= k < |lines| ==> list.items[k].Snapshot() == Parsed(lines[k], Blank)
  {
    list := new RobotsList();
    var i := 0;
    while i < |lines|
      invariant 0 <= i <= |lines|
      invariant fresh(list)
      invariant |list.items| == i
      invariant forall k :: 0 <= k < i ==> fresh(list.items[k])
      invariant forall j, k :: 0 <= j < k < i ==> list.items[j] != list.items[k]
      invariant forall k :: 0 <= k < i ==> list.items[k].line == lines[k] && list.items[k].index == k
      invariant forall k :: 0 <= k < i ==> list.items[k].Snapshot() == Parsed(lines[k], Blank)
    {
      var item := new RobotsLine(lines[i], i, "", "");
      var parsed := item.Parse();
      list.Push(parsed);
      i := i + 1;
    }
  }

  /** `parse(content)`: splits the document at line feeds, drops the empty
      piece after a final line feed, and parses every raw line into a new
      list. */
  method Parse(content: string) returns (list: RobotsList)
    ensures fresh(list)
    ensures |list.items| == |Segments(content)|
    ensures forall k :: 0 <= k < |list.items| ==> fresh(list.items[k])
    ensures forall j, k :: 0 <= j < k < |list.items| ==> list.items[j] != list.items[k]
    ensures forall k :: 0 <= k < |list.items| ==>
      && list.items[k].line == Segments(content)[k]
      && list.items[k].LineNo() == k + 1
      && list.items[k].Snapshot() == Parsed(Segments(content)[k], Blank)
    ensures list.Numbered()
  {
    var lines := Split(content, '\n');
    // remove trailing newline
    if lines[|lines| - 1] == "" {
      lines := lines[..|lines| - 1];
    }
    assert lines == Segments(content);
    list := ParseLines(lines);
  }

  /** The serialised lines of `ls`, one after the other. */
  function SerializedText(ls: seq<RobotsLine>, eol: string): (text: string)
    reads set l | l in ls
  {
    if |ls| == 0 then "" else SerializedText(ls[..|ls| - 1], eol) + ls[|ls| - 1].Serialize(eol)
  }

  /** `serialize(list)`: every line serialised, in order. */
  method Serialize(list: RobotsList, eol: string) returns (content: string)
    ensures content == SerializedText(list.items, eol)
  {
    content := "";
    var items := list.items;
    for i := 0 to |items|
      invariant content == SerializedText(items[..i], eol)
    {
      assert items[..i + 1][..i] == items[..i];
      content := content + items[i].Serialize(eol);
    }
    assert items[..|items|] == items;
  }
}
