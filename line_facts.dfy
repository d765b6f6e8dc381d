/** What `RobotsLine.parse()` and `RobotsLine.serialize()` do to one line, stated
    on the value model of module RobotsLines: how a line is classified, how a
    key/value line is cut up, the padding the two regular expressions leave,
    and exactly which freshly parsed lines serialise back to themselves. */
module RobotsLineFacts {
  import opened JsText
  import opened RobotsLines

  /** A comment line keeps key, value and padding, and gets as comment the
      suffix starting at its first `#`, which only whitespace precedes. This
      holds whether or not the line contains a `:`. */
  lemma CommentLineFields(line: string, f: Fields)
    requires IsCommentLine(line)
    ensures |Parsed(line, f).comment| <= |line|
    ensures var g := Parsed(line, f);
      && g == f.(comment := g.comment)
      && g.comment != "" && g.comment[0] == '#'
      && line == line[..|line| - |g.comment|] + g.comment
      && forall k :: 0 <= k < |line| - |g.comment| ==> IsWs(line[k])
  {
    ParsedCommentLine(line, f);
    WsPrefixRun(line);
  }

  /** A key/value line is the key, a `:`, the value region and the comment.
      The key is everything before the first `:`; the comment is the rest from
      the first `#` after it (the old comment stays when there is none). */
  lemma KeyValueSplit(line: string, f: Fields)
    requires !IsCommentLine(line) && ':' in line
    ensures var g, rest, region := Parsed(line, f), AfterColon(line), ValueRegion(line);
      && line == g.key + ":" + rest
      && ':' !in g.key
      && ('#' in rest ==> rest == region + g.comment && g.comment[0] == '#')
      && ('#' !in rest ==> rest == region && g.comment == f.comment)
  {
    ParsedKeyValue(line, f);
    SplitAtColon(line);
    SplitAtHash(AfterColon(line), f.comment, line);
  }

  /** The line is its key, the first `:` and the text after it. */
  lemma SplitAtColon(line: string)
    requires ':' in line
    ensures line == KeyOf(line) + ":" + AfterColon(line)
  {
    var i := IndexOf(line, ':');
    IndexOfFirst(line, ':');
    assert line == line[..i] + ":" + line[i + 1..];
  }

  /** The text after the first `:` is the value region and, from its first
      `#` on, the comment. */
  lemma SplitAtHash(rest: string, previous: string, line: string)
    requires ':' in line && rest == AfterColon(line)
    ensures '#' in rest ==> rest == ValueRegion(line) + CommentAfterColon(line, previous)
    ensures '#' in rest ==> CommentAfterColon(line, previous)[0] == '#'
    ensures '#' !in rest ==> rest == ValueRegion(line) && CommentAfterColon(line, previous) == previous
  {
    IndexOfFirst(rest, '#');
    var hash := IndexOf(rest, '#');
    if hash != -1 {
      assert rest == rest[..hash] + rest[hash..];
    }
  }

  /** The value of a key/value line is its value region trimmed, so it holds
      no `#` and neither starts nor ends with whitespace. */
  lemma KeyValueValue(line: string, f: Fields)
    requires !IsCommentLine(line) && ':' in line
    ensures var g := Parsed(line, f);
      && g.value == Trim(ValueRegion(line))
      && '#' !in g.value
      && (g.value == "" || (!IsWs(g.value[0]) && !IsWs(g.value[|g.value| - 1])))
  {
    var region := ValueRegion(line);
    TrimEnds(region);
    TrimAvoids(region, '#');
    ParsedKeyValue(line, f);
  }

  /** The padding the two regular expressions leave. `before` is the whole
      region unless the region starts with whitespace, and then it is the
      leading whitespace run followed by the rest of the region from the first
      line terminator after the run, if any. `after` is the
      whole region when the region ends with whitespace, and is otherwise left
      as it was. */
  lemma PaddingFields(line: string, f: Fields)
    requires !IsCommentLine(line) && ':' in line
    ensures var g, region := Parsed(line, f), ValueRegion(line);
      && (!StartsWithWs(region) ==> g.before == region)
      && (StartsWithWs(region) ==>
            && 0 < WsPrefixLen(region) <= |g.before|
            && g.before[..WsPrefixLen(region)] == region[..WsPrefixLen(region)]
            && (forall k :: 0 <= k < WsPrefixLen(region) ==> IsWs(g.before[k]))
            && g.before[WsPrefixLen(region)..] == region[|region| - (|g.before| - WsPrefixLen(region))..]
            && (|g.before| == WsPrefixLen(region) || IsLineTerminator(g.before[WsPrefixLen(region)]))
            && (forall k :: WsPrefixLen(region) <= k < |region| - (|g.before| - WsPrefixLen(region)) ==>
                  !IsLineTerminator(region[k]))
            && (g.before == region[..WsPrefixLen(region)] <==>
                forall k :: WsPrefixLen(region) <= k < |region| ==> !IsLineTerminator(region[k])))
      && (EndsWithWs(region) ==> g.after == region)
      && (!EndsWithWs(region) ==> g.after == f.after)
  {
    var region := ValueRegion(line);
    ParsedPadding(line, f);
    LeadingRunReplacement(region);
    if StartsWithWs(region) {
      var r, w := ReplaceLeadingRun(region), WsPrefixLen(region);
      var g := Parsed(line, f);
      assert |g.before| == |r|;
      assert g.before[w..] == region[|region| - (|g.before| - w)..] by {
        assert g.before[w..] == r[w..];
      }
    }
  }

  /** The two padding fields of a key/value line, apart from the rest. */
  lemma ParsedPadding(line: string, f: Fields)
    requires !IsCommentLine(line) && ':' in line
    ensures Parsed(line, f).before == ReplaceLeadingRun(ValueRegion(line))
    ensures Parsed(line, f).after == if EndsWithWs(ValueRegion(line)) then ValueRegion(line) else f.after
  {
    ParsedKeyValue(line, f);
  }

  /** Parsing recovers the parts a key/value line is made of. */
  lemma ComposedKeyValue(key: string, region: string, comment: string, f: Fields)
    requires ':' !in key && '#' !in region
    requires comment == "" || comment[0] == '#'
    requires !IsCommentLine(key + ":" + region + comment)
    ensures Parsed(key + ":" + region + comment, f) == Fields(
      key,
      Trim(region),
      if comment == "" then f.comment else comment,
      ReplaceLeadingRun(region),
      if EndsWithWs(region) then region else f.after)
  {
    var line := key + ":" + region + comment;
    assert line[..|key|] == key;
    IndexOfAt(line, ':', |key|);
    assert ':' in line;
    var rest := AfterColon(line);
    assert rest == region + comment;
    if comment == "" {
      IndexOfFirst(rest, '#');
      assert rest == region;
    } else {
      assert rest[..|region|] == region;
      IndexOfAt(rest, '#', |region|);
      assert rest[..|region|] == region;
    }
    assert ValueRegion(line) == region;
    ParsedKeyValue(line, f);
  }

  /** `x + m + y == x + n + y` holds only when `m == n`. */
  lemma CancelAround(x: string, m: string, n: string, y: string)
    ensures x + m + y == x + n + y <==> m == n
  {
    if x + m + y == x + n + y {
      assert |m| == |n|;
      assert m == (x + m + y)[|x|..|x| + |m|];
      assert n == (x + n + y)[|x|..|x| + |n|];
    }
  }

  /** `m + y == n + y` holds only when `m == n`. */
  lemma CancelRight(m: string, n: string, y: string)
    ensures m + y == n + y <==> m == n
  {
    if m + y == n + y {
      assert m == (m + y)[..|m|];
      assert n == (n + y)[..|n|];
    }
  }

  /** What a fresh `parse()` leaves around the value rebuilds the region
      exactly when `RebuildsRegion` holds. */
  lemma {:induction false} RegionRebuilt(region: string)
    ensures
      var after := if EndsWithWs(region) then region else "";
      ReplaceLeadingRun(region) + Trim(region) + after == region <==> RebuildsRegion(region)
  {
    var b, t := ReplaceLeadingRun(region), Trim(region);
    var a := if EndsWithWs(region) then region else "";
    var w := WsPrefixLen(region);
    TrimShape(region);
    LeadingRunReplacement(region);
    WsPrefixRun(region);
    if region == "" {
    } else if !StartsWithWs(region) {
      assert !AllWs(region);
      assert |b + t + a| > |region|;
    } else if EndsWithWs(region) {
      assert |b + t + a| > |region|;
    } else {
      assert !AllWs(region);
      assert w + |t| == |region|;
      assert t == region[w..];
      if b + t + a == region {
        assert |b| == w;
        assert b == region[..w];
      }
      if RebuildsRegion(region) {
        assert b == region[..w];
        assert b + t == region;
      }
    }
  }

  /** A comment line serialises as `:` and its comment, which never gives
      the line back. */
  lemma CommentLineRender(line: string, eol: string)
    requires IsCommentLine(line)
    ensures Render(Parsed(line, Blank), eol) == ":" + line[WsPrefixLen(line)..] + eol
    ensures Render(Parsed(line, Blank), eol) != line + eol
  {
    ParsedCommentLine(line, Blank);
    var c := line[WsPrefixLen(line)..];
    var out := Render(Parsed(line, Blank), eol);
    assert out == (":" + c) + eol;
    CancelRight(":" + c, line, eol);
  }

  /** A line that is neither a comment line nor has a `:`, the blank line
      among them, serialises as a lone `:`, which never gives the line back. */
  lemma NoColonRender(line: string, eol: string)
    requires !IsCommentLine(line) && ':' !in line
    ensures Render(Parsed(line, Blank), eol) == ":" + eol
    ensures Render(Parsed(line, Blank), eol) != line + eol
  {
    ParsedNoColon(line, Blank);
    CancelRight(":", line, eol);
  }

  /** A key/value line serialises back to itself exactly when its value
      region `RebuildsRegion`. */
  lemma KeyValueRender(line: string, eol: string)
    requires !IsCommentLine(line) && ':' in line
    ensures Render(Parsed(line, Blank), eol) == line + eol <==> RebuildsRegion(ValueRegion(line))
  {
    var g := Parsed(line, Blank);
    var region := ValueRegion(line);
    ParsedKeyValue(line, Blank);
    SplitAtColon(line);
    SplitAtHash(AfterColon(line), "", line);
    RegionRebuilt(region);
    RenderAgainst(line, g, region, eol);
  }

  /** A key/value line `key:` + region + comment serialises back to itself
      exactly when the padding and value put the region back together. */
  lemma RenderAgainst(line: string, g: Fields, region: string, eol: string)
    requires line == g.key + ":" + (region + g.comment)
    ensures Render(g, eol) == line + eol <==> g.before + g.value + g.after == region
  {
    var mid := g.before + g.value + g.after;
    assert Render(g, eol) == (g.key + ":") + mid + (g.comment + eol);
    assert line + eol == (g.key + ":") + region + (g.comment + eol);
    CancelAround(g.key + ":", mid, region, g.comment + eol);
  }

  /** The partial round trip, both ways: a freshly parsed line serialises back
      to itself followed by `eol` exactly when `RoundTrips` holds. Comment
      lines, blank lines and lines without a `:` never do. */
  lemma RoundTripIff(line: string, eol: string)
    ensures Render(Parsed(line, Blank), eol) == line + eol <==> RoundTrips(line)
  {
    if IsCommentLine(line) {
      CommentLineRender(line, eol);
    } else if ':' !in line {
      NoColonRender(line, eol);
    } else {
      KeyValueRender(line, eol);
    }
  }

  /** The terminator comes last: rendering with `eol` is rendering without
      one and then appending `eol`. */
  lemma RenderEol(g: Fields, eol: string)
    ensures Render(g, eol) == Render(g, "") + eol
  {
    assert Render(g, "") == g.key + ":" + g.before + g.value + g.after + g.comment;
  }

  /** The pieces of a key/value line are pieces of the line. */
  lemma PiecesAvoid(line: string, c: char)
    requires ':' in line && c !in line
    ensures c !in KeyOf(line) && c !in ValueRegion(line) && c !in CommentAfterColon(line, "")
  {
    IndexOfFirst(line, ':');
    var rest := AfterColon(line);
    SliceAvoids(line, c, IndexOf(line, ':') + 1, |line|);
    IndexOfFirst(rest, '#');
  }

  /** `serialize()` after a fresh `parse()` writes no character, other than
      `:` and `eol`, that the raw line does not hold: in particular no line
      feed into a line that has none. */
  lemma RenderAvoids(line: string, c: char)
    requires c !in line && c != ':'
    ensures c !in Render(Parsed(line, Blank), "")
  {
    if IsCommentLine(line) {
      ParsedCommentLine(line, Blank);
      SliceAvoids(line, c, WsPrefixLen(line), |line|);
    } else if ':' !in line {
      ParsedNoColon(line, Blank);
    } else {
      var region := ValueRegion(line);
      PiecesAvoid(line, c);
      TrimAvoids(region, c);
      LeadingRunAvoids(region, c);
      ParsedKeyValue(line, Blank);
    }
  }

  // ---------------------------------------------------------------------------
  // The common line shapes, and the lines from the documentation of
  // `RobotsParser.parse`
  // ---------------------------------------------------------------------------

  /** A value that `trim()` leaves alone, holds no `#` and no line terminator. */
  predicate PlainValue(v: string) {
    && v != ""
    && !IsWs(v[0]) && !IsWs(v[|v| - 1])
    && '#' !in v
    && forall k :: 0 <= k < |v| ==> !IsLineTerminator(v[k])
  }

  // Each shape below is proved in three steps, the fields, the text and the
  // two together, which keeps `Parsed` and `Render` out of each other's way.

  lemma SpacedRegion(v: string, region: string)
    requires PlainValue(v) && region == " " + v
    ensures Trim(region) == v && ReplaceLeadingRun(region) == " " && !EndsWithWs(region)
  {
    assert region == " " + v + "";
    TrimUnique(" ", v, "");
    assert region[1..] == v;
    assert WsPrefixLen(region) == 1;
    LeadingRunReplacement(region);
    assert region[..1] == " ";
  }

  lemma SpacedFields(key: string, v: string)
    requires ':' !in key && PlainValue(v) && !IsCommentLine(key + ": " + v)
    ensures Parsed(key + ": " + v, Blank) == Fields(key, v, "", " ", "")
  {
    var region := " " + v;
    assert key + ": " + v == key + ":" + region + "";
    SpacedRegion(v, region);
    ComposedKeyValue(key, region, "", Blank);
  }

  lemma SpacedText(key: string, v: string, eol: string)
    ensures Render(Fields(key, v, "", " ", ""), eol) == key + ": " + v + eol
  {
    assert key + ":" + " " + v + "" + "" == key + ": " + v;
  }

  /** `key: value`, with one space after the `:`, parses to that key and value
      and serialises back to itself. */
  lemma SpacedPair(key: string, v: string, eol: string)
    requires ':' !in key && PlainValue(v) && !IsCommentLine(key + ": " + v)
    ensures Parsed(key + ": " + v, Blank) == Fields(key, v, "", " ", "")
    ensures Render(Parsed(key + ": " + v, Blank), eol) == key + ": " + v + eol
  {
    SpacedFields(key, v);
    SpacedText(key, v, eol);
  }

  lemma CommentedRegion(v: string, region: string)
    requires PlainValue(v) && region == " " + v + " "
    ensures Trim(region) == v && ReplaceLeadingRun(region) == " " && EndsWithWs(region)
  {
    TrimUnique(" ", v, " ");
    assert region[1..] == v + " ";
    assert WsPrefixLen(region) == 1;
    LeadingRunReplacement(region);
    assert region[..1] == " ";
  }

  lemma CommentedFields(key: string, v: string, comment: string)
    requires ':' !in key && PlainValue(v) && comment != "" && comment[0] == '#'
    requires !IsCommentLine(key + ": " + v + " " + comment)
    ensures Parsed(key + ": " + v + " " + comment, Blank) == Fields(key, v, comment, " ", " " + v + " ")
  {
    var region := " " + v + " ";
    assert key + ": " + v + " " + comment == key + ":" + region + comment;
    CommentedRegion(v, region);
    ComposedKeyValue(key, region, comment, Blank);
  }

  lemma CommentedText(key: string, v: string, comment: string, eol: string)
    ensures Render(Fields(key, v, comment, " ", " " + v + " "), eol)
         == key + ": " + v + " " + v + " " + comment + eol
  {
    assert key + ":" + " " + v + (" " + v + " ") + comment == key + ": " + v + " " + v + " " + comment;
  }

  /** `key: value # comment` parses to that key, value and comment, but its
      value region ends with whitespace, so `serialize()` writes the value a
      second time: `key: value value # comment`. */
  lemma SpacedPairWithComment(key: string, v: string, comment: string, eol: string)
    requires ':' !in key && PlainValue(v) && comment != "" && comment[0] == '#'
    requires !IsCommentLine(key + ": " + v + " " + comment)
    ensures Parsed(key + ": " + v + " " + comment, Blank) == Fields(key, v, comment, " ", " " + v + " ")
    ensures Render(Parsed(key + ": " + v + " " + comment, Blank), eol)
         == key + ": " + v + " " + v + " " + comment + eol
  {
    CommentedFields(key, v, comment);
    CommentedText(key, v, comment, eol);
  }

  lemma UnspacedFields(key: string, v: string)
    requires ':' !in key && v != "" && !IsWs(v[0]) && !IsWs(v[|v| - 1]) && '#' !in v
    requires !IsCommentLine(key + ":" + v)
    ensures Parsed(key + ":" + v, Blank) == Fields(key, v, "", v, "")
  {
    assert key + ":" + v == key + ":" + v + "";
    assert v == "" + v + "";
    TrimUnique("", v, "");
    LeadingRunReplacement(v);
    ComposedKeyValue(key, v, "", Blank);
  }

  lemma UnspacedText(key: string, v: string, eol: string)
    ensures Render(Fields(key, v, "", v, ""), eol) == key + ":" + v + v + eol
  {
    assert key + ":" + v + v + "" + "" == key + ":" + v + v;
  }

  /** `key:value`, with nothing between the `:` and the value, leaves the
      whole value in `before`, so `serialize()` writes the value twice:
      `key:valuevalue`. */
  lemma UnspacedPair(key: string, v: string, eol: string)
    requires ':' !in key && v != "" && !IsWs(v[0]) && !IsWs(v[|v| - 1]) && '#' !in v
    requires !IsCommentLine(key + ":" + v)
    ensures Parsed(key + ":" + v, Blank) == Fields(key, v, "", v, "")
    ensures Render(Parsed(key + ":" + v, Blank), eol) == key + ":" + v + v + eol
  {
    UnspacedFields(key, v);
    UnspacedText(key, v, eol);
  }

  /** `User-Agent: *` parses to key `User-Agent` and value `*`, and
      serialises back to itself. */
  lemma UserAgentLine(eol: string)
    ensures Parsed("User-Agent: *", Blank) == Fields("User-Agent", "*", "", " ", "")
    ensures Render(Parsed("User-Agent: *", Blank), eol) == "User-Agent: *" + eol
  {
    assert "User-Agent: *" == "User-Agent" + ": " + "*";
    SpacedPair("User-Agent", "*", eol);
  }

  /** A line that starts with neither whitespace nor `#` is no comment line. */
  lemma PlainStart(line: string)
    requires line != "" && !IsWs(line[0]) && line[0] != '#'
    ensures !IsCommentLine(line)
  {
  }

  /** The documented line `Disallow: /private/ # does not block indexing, add
      meta noindex`, for that comment or any other, parses to the documented
      key, value and comment, and serialises with the value doubled. The line
      is written as the concatenation of its parts. */
  lemma DisallowCommentLine(comment: string, eol: string)
    requires comment != "" && comment[0] == '#'
    ensures Parsed("Disallow" + ": " + "/private/" + " " + comment, Blank)
         == Fields("Disallow", "/private/", comment, " ", " " + "/private/" + " ")
    ensures Render(Parsed("Disallow" + ": " + "/private/" + " " + comment, Blank), eol)
         == "Disallow" + ": " + "/private/" + " " + "/private/" + " " + comment + eol
  {
    PlainStart("Disallow" + ": " + "/private/" + " " + comment);
    SpacedPairWithComment("Disallow", "/private/", comment, eol);
  }

  /** `Disallow:/x` serialises as `Disallow:/x/x`. The line is written as the
      concatenation of its parts. */
  lemma UnspacedLine(eol: string)
    ensures Parsed("Disallow" + ":" + "/x", Blank) == Fields("Disallow", "/x", "", "/x", "")
    ensures Render(Parsed("Disallow" + ":" + "/x", Blank), eol) == "Disallow" + ":" + "/x" + "/x" + eol
  {
    PlainStart("Disallow" + ":" + "/x");
    UnspacedPair("Disallow", "/x", eol);
  }

  /** A blank line serialises as a lone `:`. */
  lemma BlankLine(eol: string)
    ensures Render(Parsed("", Blank), eol) == ":" + eol
  {
    NoColonRender("", eol);
  }
}
