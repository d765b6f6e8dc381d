/** One line of a robots.txt document (lib/parser.ts `RobotsLine`) and the list
    of lines a document becomes (`RobotsList`). The five fields that `parse()`
    writes are also given as a value, `Fields`, so that what `parse()` and
    `serialize()` do can be stated and proved as functions on values. */
module RobotsLines {
  import opened JsText

  datatype Option<T> = None | Some(value: T)

  /** The fields of a line that `parse()` may write: `_key`, `_value`,
      `_comment`, `_before` and `_after`. */
  datatype Fields = Fields(key: string, value: string, comment: string, before: string, after: string)

  /** The fields of a line constructed without a key and a value. */
  const Blank: Fields := Fields("", "", "", "", "")

  /** `/^\s*#/.test(line)`: the first character after the leading whitespace
      is `#`. */
  predicate IsCommentLine(line: string) {
    var w := WsPrefixLen(line);
    w < |line| && line[w] == '#'
  }

  /** `IsCommentLine` is the pattern `^\s*#` read literally: some `#` has only
      whitespace before it. The first `#` of a comment line is then the one
      right after its leading whitespace. */
  lemma {:induction false} CommentLineRegex(line: string)
    ensures IsCommentLine(line) <==> exists k :: 0 <= k < |line| && line[k] == '#' && AllWs(line[..k])
    ensures IsCommentLine(line) ==> IndexOf(line, '#') == WsPrefixLen(line)
  {
    var w := WsPrefixLen(line);
    WsPrefixRun(line);
    IndexOfFirst(line, '#');
    if exists k :: 0 <= k < |line| && line[k] == '#' && AllWs(line[..k]) {
      var k :| 0 <= k < |line| && line[k] == '#' && AllWs(line[..k]);
      assert w == k;
    }
    if IsCommentLine(line) {
      assert line[w] == '#' && AllWs(line[..w]);
    }
  }

  /** The text after the first `:` of the line. */
  function AfterColon(line: string): (rest: string)
    requires ':' in line
    ensures |rest| < |line|
  {
    IndexOfFirst(line, ':');
    line[IndexOf(line, ':') + 1..]
  }

  /** The text before the first `:` of the line. */
  function KeyOf(line: string): (key: string)
    requires ':' in line
    ensures ':' !in key
  {
    IndexOfFirst(line, ':');
    line[..IndexOf(line, ':')]
  }

  /** The part of `AfterColon(line)` before its first `#`: the value together
      with the padding around it. */
  function ValueRegion(line: string): (region: string)
    requires ':' in line
    ensures '#' !in region
  {
    var rest := AfterColon(line);
    var hash := IndexOf(rest, '#');
    IndexOfFirst(rest, '#');
    if hash == -1 then rest else rest[..hash]
  }

  /** The comment of a key/value line: `AfterColon(line)` from its first `#`
      on, or `previous` when it has no `#`. */
  function CommentAfterColon(line: string, previous: string): (comment: string)
    requires ':' in line
  {
    var rest := AfterColon(line);
    var hash := IndexOf(rest, '#');
    IndexOfFirst(rest, '#');
    if hash == -1 then previous else rest[hash..]
  }

  /** The fields after `parse()` on the raw line `line`, when they held `f`
      before. A field that `parse()` does not assign keeps its value. */
  function Parsed(line: string, f: Fields): (g: Fields)
  {
    IndexOfFirst(line, ':');
    IndexOfFirst(line, '#');
    if IsCommentLine(line) then
      f.(comment := line[IndexOf(line, '#')..])
    else if IndexOf(line, ':') != -1 then
      var region := ValueRegion(line);
      Fields(
        KeyOf(line),
        Trim(region),
        CommentAfterColon(line, f.comment),
        ReplaceLeadingRun(region),
        if EndsWithWs(region) then ReplaceTrailingRun(region) else f.after)
    else
      f
  }

  /** `Parsed` on a comment line, unfolded one step. */
  lemma ParsedCommentLine(line: string, f: Fields)
    requires IsCommentLine(line)
    ensures IndexOf(line, '#') == WsPrefixLen(line)
    ensures Parsed(line, f) == f.(comment := line[WsPrefixLen(line)..])
  {
    CommentLineRegex(line);
  }

  /** A line that is not a comment and has no `:` leaves every field as it was. */
  lemma ParsedNoColon(line: string, f: Fields)
    requires !IsCommentLine(line) && ':' !in line
    ensures Parsed(line, f) == f
  {
    IndexOfFirst(line, ':');
  }

  /** `Parsed` on a key/value line, unfolded one step. */
  lemma ParsedKeyValue(line: string, f: Fields)
    requires !IsCommentLine(line) && ':' in line
    ensures
      var region := ValueRegion(line);
      Parsed(line, f) == Fields(
        KeyOf(line),
        Trim(region),
        CommentAfterColon(line, f.comment),
        ReplaceLeadingRun(region),
        if EndsWithWs(region) then region else f.after)
  {
    IndexOfFirst(line, ':');
  }

  /** The text `serialize()` builds from the fields, ending in `eol`. */
  function Render(f: Fields, eol: string): (text: string)
  {
    f.key + ":" + f.before + f.value + f.after + f.comment + eol
  }

  /** The value regions that padding, trimmed value and padding, as a fresh
      `parse()` leaves them, put back together: the empty region, and a region
      that starts with whitespace, does not end with whitespace and holds no
      line terminator after its leading whitespace. */
  predicate RebuildsRegion(region: string) {
    || region == ""
    || (&& StartsWithWs(region)
        && !EndsWithWs(region)
        && forall k :: WsPrefixLen(region) <= k < |region| ==> !IsLineTerminator(region[k]))
  }

  /** The lines that a fresh `parse()` followed by `serialize()` reproduces:
      key/value lines whose value region `RebuildsRegion`. */
  predicate RoundTrips(line: string) {
    !IsCommentLine(line) && ':' in line && RebuildsRegion(ValueRegion(line))
  }

  // ---------------------------------------------------------------------------
  // The per-line record
  // ---------------------------------------------------------------------------

  class RobotsLine {
    /** The raw line, without its terminator. */
    const line: string
    /** The zero-based position in the document. */
    const index: nat
    var key: string
    var value: string
    var comment: string
    /** The padding written before the value. */
    var before: string
    /** The padding written after the value. */
    var after: string

    function Snapshot(): Fields
      reads this
    {
      Fields(key, value, comment, before, after)
    }

    constructor (line: string, index: nat, key: string, value: string)
      ensures this.line == line && this.index == index
      ensures Snapshot() == Fields(key, value, "", "", "")
    {
      this.line := line;
      this.index := index;
      this.key := key;
      this.value := value;
      this.comment := "";
      this.before := "";
      this.after := "";
    }

    /** `lineno`: the one-based line number. */
    function LineNo(): (n: nat)
      ensures n >= 1 && n - 1 == index
    {
      index + 1
    }

    /** The `key` setter. */
    method SetKey(val: string)
      modifies this
      ensures Snapshot() == old(Snapshot()).(key := val)
    {
      key := val;
    }

    /** The `value` setter. It turns a falsy argument into `''`; the only falsy
        string is `''` itself, so the value stored is the argument. */
    method SetValue(val: string)
      modifies this
      ensures Snapshot() == old(Snapshot()).(value := val)
    {
      var v := val;
      if v == "" {
        v := "";
      }
      value := v;
    }

    /** `hasComment()`: the comment is not `undefined`. Every field of this
        model holds a string, so this is always the case. */
    predicate HasComment(): (r: bool)
      reads this
      ensures r
    {
      true
    }

    /** `hasKeyPair()`: neither key nor value is `undefined`; always the case,
        as for `HasComment`. */
    predicate HasKeyPair(): (r: bool)
      reads this
      ensures r
    {
      true
    }

    /** `parse()`: classifies the raw line and fills in the fields in place. */
    method Parse() returns (self: RobotsLine)
      modifies this
      ensures self == this
      ensures Snapshot() == Parsed(line, old(Snapshot()))
    {
      ghost var f := Snapshot();
      var ln := line;
      var ind := IndexOf(ln, ':');
      IndexOfFirst(ln, ':');
      var isCommentLine := IsCommentLine(ln);
      if isCommentLine {
        ParsedCommentLine(ln, f);
        comment := ln[IndexOf(ln, '#')..];
      } else if ind != -1 {
        ParsedKeyValue(ln, f);
        assert AfterColon(ln) == ln[ind + 1..];
        var k := ln[..ind];
        var val := ln[ind + 1..];
        var hash := IndexOf(val, '#');
        if hash != -1 {
          comment := val[hash..];
          val := val[..hash];
        }
        assert val == ValueRegion(ln);
        assert comment == CommentAfterColon(ln, f.comment);
        before := ReplaceLeadingRun(val);
        if EndsWithWs(val) {
          after := ReplaceTrailingRun(val);
        }
        SetKey(k);
        SetValue(Trim(val));
      } else {
        ParsedNoColon(ln, f);
      }
      self := this;
    }

    /** `serialize()`: the line rebuilt from the current fields. */
    function Serialize(eol: string): (r: string)
      reads this
      ensures r == Render(Snapshot(), eol)
    {
      var content :=
        if HasKeyPair() then
          key + ":" + before + value + after + (if HasComment() then comment else "")
        else
          line;
      content + eol
    }
  }

  // ---------------------------------------------------------------------------
  // The list of lines
  // ---------------------------------------------------------------------------

  /** `line || (key + ': ' + value)`: the raw line `append` records. */
  function SynthesizedLine(key: string, value: string, line: Option<string>): (raw: string)
    ensures raw != ""
    ensures line.Some? && line.value != "" ==> raw == line.value
    ensures line.None? || line.value == "" ==> raw == key + ": " + value
  {
    if line.Some? && line.value != "" then line.value else key + ": " + value
  }

  class RobotsList {
    var items: seq<RobotsLine>

    constructor ()
      ensures items == []
    {
      items := [];
    }

    /** Every line's index is its position in the list. */
    predicate Numbered()
      reads this
    {
      forall k :: 0 <= k < |items| ==> items[k].index == k
    }

    /** `Array.prototype.push` of one line. */
    method Push(x: RobotsLine)
      modifies this
      ensures items == old(items) + [x]
    {
      items := items + [x];
    }

    /** `append(key, value, line?)`: pushes a new key/value line whose padding
        before the value is one space. */
    method Append(key: string, value: string, line: Option<string>)
      modifies this
      ensures |items| == |old(items)| + 1 && items[..|old(items)|] == old(items)
      ensures fresh(items[|old(items)|])
      ensures items[|old(items)|].index == |old(items)|
      ensures items[|old(items)|].line == SynthesizedLine(key, value, line)
      ensures items[|old(items)|].Snapshot() == Fields(key, value, "", " ", "")
      ensures forall eol :: items[|old(items)|].Serialize(eol) == key + ": " + value + eol
      ensures forall k :: 0 <= k < |old(items)| ==> items[k].Snapshot() == old(items[k].Snapshot())
      ensures old(Numbered()) ==> Numbered()
    {
      var raw := SynthesizedLine(key, value, line);
      var next := new RobotsLine(raw, |items|, key, value);
      next.before := " ";
      Push(next);
    }
  }
}
