/** The JavaScript string primitives that lib/parser.ts leans on: the `\s` character
    class, `indexOf`, `trim`, the two regular-expression replacements of
    `RobotsLine.parse`, and `split`/`join` on a single character. Strings are
    sequences of UTF-16 code units in JavaScript; here they are `seq<char>`. */
module JsText {

  /** ECMAScript LineTerminator: the characters that `.` in a regular expression
      does not match. */
  predicate IsLineTerminator(c: char) {
    c == '\n' || c == '\r' || c as int == 0x2028 || c as int == 0x2029
  }

  /** The set that `\s` matches, which is also the set `String.prototype.trim`
      removes: tab, line feed, vertical tab, form feed, carriage return, space,
      no-break space, ogham space mark, the spaces U+2000 to U+200A, line and
      paragraph separator, narrow no-break space, medium mathematical space,
      ideographic space and the byte order mark. */
  predicate IsWs(c: char) {
    var x := c as int;
    || (0x09 <= x <= 0x0D) || x == 0x20 || x == 0xA0 || x == 0x1680
    || (0x2000 <= x <= 0x200A) || x == 0x2028 || x == 0x2029 || x == 0x202F
    || x == 0x205F || x == 0x3000 || x == 0xFEFF
  }

  predicate AllWs(s: string) {
    forall k :: 0 <= k < |s| ==> IsWs(s[k])
  }

  predicate StartsWithWs(s: string) {
    |s| > 0 && IsWs(s[0])
  }

  predicate EndsWithWs(s: string) {
    |s| > 0 && IsWs(s[|s| - 1])
  }

  /** `s.indexOf(c)`: the index of the first `c`, or -1 when there is none. */
  function IndexOf(s: string, c: char): (i: int)
    ensures -1 <= i < |s|
  {
    if |s| == 0 then -1
    else if s[0] == c then 0
    else
      var j := IndexOf(s[1..], c);
      if j == -1 then -1 else j + 1
  }

  /** `IndexOf` finds the first occurrence, and -1 exactly when there is none. */
  lemma {:induction false} IndexOfFirst(s: string, c: char)
    ensures IndexOf(s, c) == -1 <==> c !in s
    ensures 0 <= IndexOf(s, c) ==> s[IndexOf(s, c)] == c && c !in s[..IndexOf(s, c)]
  {
    if |s| > 0 && s[0] != c {
      IndexOfFirst(s[1..], c);
      var j := IndexOf(s[1..], c);
      if j != -1 {
        assert s[..j + 1] == [s[0]] + s[1..][..j];
      } else {
        assert s == [s[0]] + s[1..];
      }
    }
  }

  /** A `c` with no `c` before it is the one `IndexOf` finds. */
  lemma IndexOfAt(s: string, c: char, i: nat)
    requires i < |s| && s[i] == c && c !in s[..i]
    ensures IndexOf(s, c) == i
  {
    IndexOfFirst(s, c);
  }

  /** Length of the maximal run of whitespace at the start of `s`. */
  function WsPrefixLen(s: string): (n: nat)
    ensures n <= |s|
  {
    if |s| == 0 || !IsWs(s[0]) then 0 else WsPrefixLen(s[1..]) + 1
  }

  /** The leading run is all whitespace, and no whitespace follows it. */
  lemma {:induction false} WsPrefixRun(s: string)
    ensures forall k :: 0 <= k < WsPrefixLen(s) ==> IsWs(s[k])
    ensures WsPrefixLen(s) < |s| ==> !IsWs(s[WsPrefixLen(s)])
  {
    if |s| > 0 && IsWs(s[0]) {
      WsPrefixRun(s[1..]);
    }
  }

  /** Start of the maximal run of whitespace at the end of `s`. */
  function WsSuffixStart(s: string): (n: nat)
    ensures n <= |s|
  {
    if |s| == 0 || !IsWs(s[|s| - 1]) then |s| else WsSuffixStart(s[..|s| - 1])
  }

  /** The trailing run is all whitespace, and no whitespace precedes it. */
  lemma {:induction false} WsSuffixRun(s: string)
    ensures forall k :: WsSuffixStart(s) <= k < |s| ==> IsWs(s[k])
    ensures 0 < WsSuffixStart(s) ==> !IsWs(s[WsSuffixStart(s) - 1])
  {
    if |s| > 0 && IsWs(s[|s| - 1]) {
      WsSuffixRun(s[..|s| - 1]);
    }
  }

  /** `s.trim()`: `s` without its leading and trailing whitespace. */
  function Trim(s: string): (t: string)
    ensures |t| <= |s|
  {
    var a := WsPrefixLen(s);
    if a == |s| then ""
    else
      WsPrefixRun(s);
      WsSuffixRun(s);
      var b := WsSuffixStart(s);
      assert a < b;
      s[a..b]
  }

  /** The trim is what lies between the leading and the trailing whitespace
      run: it is empty exactly when `s` is all whitespace, and otherwise starts
      and ends with a non-whitespace character. */
  lemma TrimShape(s: string)
    ensures Trim(s) == "" <==> AllWs(s)
    ensures Trim(s) == "" || (!IsWs(Trim(s)[0]) && !IsWs(Trim(s)[|Trim(s)| - 1]))
    ensures WsPrefixLen(s) + |Trim(s)| <= |s|
    ensures Trim(s) == s[WsPrefixLen(s)..WsPrefixLen(s) + |Trim(s)|]
    ensures forall k :: WsPrefixLen(s) + |Trim(s)| <= k < |s| ==> IsWs(s[k])
  {
    WsPrefixRun(s);
    var a := WsPrefixLen(s);
    if a == |s| {
      assert Trim(s) == "";
      assert AllWs(s);
    } else {
      TrimInner(s);
    }
  }

  /** When `s` is not all whitespace, the trim is the slice between the two
      whitespace runs, and that slice is not empty. */
  lemma TrimSlice(s: string)
    requires WsPrefixLen(s) < |s|
    ensures WsPrefixLen(s) < WsSuffixStart(s)
    ensures Trim(s) == s[WsPrefixLen(s)..WsSuffixStart(s)]
  {
    WsPrefixRun(s);
    WsSuffixRun(s);
  }

  /** `TrimShape` when `s` is not all whitespace. */
  lemma TrimInner(s: string)
    requires WsPrefixLen(s) < |s|
    ensures var a, t := WsPrefixLen(s), Trim(s);
      && t != "" && !AllWs(s) && !IsWs(t[0]) && !IsWs(t[|t| - 1])
      && a + |t| <= |s|
      && t == s[a..a + |t|]
      && forall k :: a + |t| <= k < |s| ==> IsWs(s[k])
  {
    var a, b := WsPrefixLen(s), WsSuffixStart(s);
    TrimSlice(s);
    WsPrefixRun(s);
    WsSuffixRun(s);
    assert Trim(s)[0] == s[a];
    assert Trim(s)[b - a - 1] == s[b - 1];
  }

  /** The first index at or after `from` that holds a line terminator, or `|s|`:
      where a regular-expression `.*` that starts at `from` stops. */
  function LineEnd(s: string, from: nat): (e: nat)
    requires from <= |s|
    ensures from <= e <= |s|
    decreases |s| - from
  {
    if from == |s| || IsLineTerminator(s[from]) then from else LineEnd(s, from + 1)
  }

  /** No line terminator lies before `LineEnd`, and one lies at it unless it
      is the end of `s`. */
  lemma {:induction false} LineEndStops(s: string, from: nat)
    requires from <= |s|
    ensures forall k :: from <= k < LineEnd(s, from) ==> !IsLineTerminator(s[k])
    ensures LineEnd(s, from) < |s| ==> IsLineTerminator(s[LineEnd(s, from)])
    decreases |s| - from
  {
    if from < |s| && !IsLineTerminator(s[from]) {
      LineEndStops(s, from + 1);
    }
  }

  // `s.replace(/^(\s+).*/, '$1')`. Without leading whitespace the pattern does
  // not match and `s` comes back unchanged. Otherwise the match is the leading
  // whitespace run followed by everything up to the next line terminator, and
  // it is replaced by the run alone.
  function ReplaceLeadingRun(s: string): (r: string)
    ensures |r| <= |s|
  {
    var w := WsPrefixLen(s);
    if w == 0 then s else s[..w] + s[LineEnd(s, w)..]
  }

  /** Without leading whitespace the replacement is the identity. With it, the
      result keeps the run and then the suffix of `s` from the first line
      terminator after the run (nothing when there is none); it is the run
      alone exactly when no line terminator follows the run. */
  lemma LeadingRunReplacement(s: string)
    ensures !StartsWithWs(s) ==> ReplaceLeadingRun(s) == s
    ensures StartsWithWs(s) ==>
      var r, w := ReplaceLeadingRun(s), WsPrefixLen(s);
      && 0 < w <= |r|
      && r[..w] == s[..w]
      && r[w..] == s[|s| - (|r| - w)..]
      && forall k :: 0 <= k < w ==> IsWs(r[k])
    ensures StartsWithWs(s) ==>
      var r, w := ReplaceLeadingRun(s), WsPrefixLen(s);
      && (|r| == w || IsLineTerminator(r[w]))
      && forall k :: w <= k < |s| - (|r| - w) ==> !IsLineTerminator(s[k])
    ensures StartsWithWs(s) ==>
      (ReplaceLeadingRun(s) == s[..WsPrefixLen(s)] <==>
       forall k :: WsPrefixLen(s) <= k < |s| ==> !IsLineTerminator(s[k]))
  {
    var w := WsPrefixLen(s);
    if StartsWithWs(s) {
      var e := LineEnd(s, w);
      LineEndStops(s, w);
      var r := s[..w] + s[e..];
      assert r[..w] == s[..w];
      assert r[w..] == s[e..];
      assert |s| - (|r| - w) == e;
      assert e < |s| ==> r[w] == s[e];
      WsPrefixRun(s);
      assert forall k :: 0 <= k < w ==> r[k] == s[k];
    }
  }

  // `s.replace(/(\s+)$/, '$1')`. The leftmost match is the trailing whitespace
  // run, and it is replaced by its own capture, so the call returns `s` itself
  // whether or not there is a match.
  function ReplaceTrailingRun(s: string): (r: string)
    ensures r == s
  {
    var p := WsSuffixStart(s);
    if p == |s| then s else s[..p] + s[p..]
  }

  /** `parts.join(sep)` for a one-character separator. */
  function Join(parts: seq<string>, sep: char): (joined: string)
  {
    if |parts| == 0 then ""
    else if |parts| == 1 then parts[0]
    else parts[0] + [sep] + Join(parts[1..], sep)
  }

  /** `s.split(sep)` for a one-character separator: the maximal pieces of `s`
      between separators, at least one of them. */
  function Split(s: string, sep: char): (parts: seq<string>)
    ensures |parts| >= 1
    ensures forall k :: 0 <= k < |parts| ==> sep !in parts[k]
    ensures Join(parts, sep) == s
    decreases |s|
  {
    var i := IndexOf(s, sep);
    IndexOfFirst(s, sep);
    if i == -1 then [s]
    else
      var rest := Split(s[i + 1..], sep);
      var parts := [s[..i]] + rest;
      assert parts[1..] == rest;
      assert forall k :: 1 <= k < |parts| ==> parts[k] == rest[k - 1];
      assert s == s[..i] + [sep] + s[i + 1..];
      parts
  }

  /** Splitting undoes joining, for pieces free of the separator. */
  lemma {:induction false} SplitJoin(parts: seq<string>, sep: char)
    requires |parts| >= 1
    requires forall k :: 0 <= k < |parts| ==> sep !in parts[k]
    ensures Split(Join(parts, sep), sep) == parts
  {
    if |parts| > 1 {
      var s := Join(parts, sep);
      SplitJoin(parts[1..], sep);
      assert s[..|parts[0]|] == parts[0];
      assert s[|parts[0]|] == sep;
      assert s[|parts[0]| + 1..] == Join(parts[1..], sep);
      IndexOfFirst(s, sep);
      assert IndexOf(s, sep) == |parts[0]| by {
        assert sep !in s[..|parts[0]|];
      }
    }
  }

  /** `s.split(sep)` has exactly one piece more than `s` has separators. */
  lemma {:induction false} SplitCount(s: string, sep: char)
    ensures |Split(s, sep)| == multiset(s)[sep] + 1
    decreases |s|
  {
    IndexOfFirst(s, sep);
    var i := IndexOf(s, sep);
    if i == -1 {
      assert multiset(s)[sep] == 0;
    } else {
      var a, b := s[..i], s[i + 1..];
      SplitCount(b, sep);
      assert |Split(s, sep)| == 1 + |Split(b, sep)|;
      assert s == a + [sep] + b;
      assert multiset(s)[sep] == multiset(a)[sep] + 1 + multiset(b)[sep];
      assert multiset(a)[sep] == 0;
    }
  }

  /** A character absent from `s` is absent from every slice of it. */
  lemma SliceAvoids(s: string, c: char, a: nat, b: nat)
    requires a <= b <= |s| && c !in s
    ensures c !in s[a..b]
  {
  }

  /** A character absent from `s` is absent from `ReplaceLeadingRun(s)`. */
  lemma LeadingRunAvoids(s: string, c: char)
    requires c !in s
    ensures c !in ReplaceLeadingRun(s)
  {
    var w := WsPrefixLen(s);
    if w != 0 {
      SliceAvoids(s, c, 0, w);
      SliceAvoids(s, c, LineEnd(s, w), |s|);
    }
  }

  /** `Trim(s)` neither starts nor ends with whitespace. */
  lemma TrimEnds(s: string)
    ensures Trim(s) == "" || (!IsWs(Trim(s)[0]) && !IsWs(Trim(s)[|Trim(s)| - 1]))
  {
    TrimShape(s);
  }

  /** A character absent from `s` is absent from `Trim(s)`. */
  lemma TrimAvoids(s: string, c: char)
    requires c !in s
    ensures c !in Trim(s)
  {
    TrimShape(s);
    SliceAvoids(s, c, WsPrefixLen(s), WsPrefixLen(s) + |Trim(s)|);
  }

  /** A whitespace prefix followed by a non-whitespace character is the
      leading run. */
  lemma {:induction false} WsPrefixOf(p: string, rest: string)
    requires AllWs(p) && rest != "" && !IsWs(rest[0])
    ensures WsPrefixLen(p + rest) == |p|
    decreases |p|
  {
    if |p| == 0 {
      assert p + rest == rest;
    } else {
      assert (p + rest)[0] == p[0];
      assert (p + rest)[1..] == p[1..] + rest;
      assert AllWs(p[1..]) by {
        assert forall k :: 0 <= k < |p| - 1 ==> p[1..][k] == p[k + 1];
      }
      WsPrefixOf(p[1..], rest);
    }
  }

  /** A whitespace suffix preceded by a non-whitespace character is the
      trailing run. */
  lemma {:induction false} WsSuffixOf(front: string, q: string)
    requires AllWs(q) && front != "" && !IsWs(front[|front| - 1])
    ensures WsSuffixStart(front + q) == |front|
    decreases |q|
  {
    var s := front + q;
    if |q| == 0 {
      assert s == front;
    } else {
      var init := q[..|q| - 1];
      assert s[|s| - 1] == q[|q| - 1];
      assert s[..|s| - 1] == front + init;
      assert AllWs(init) by {
        assert forall k :: 0 <= k < |init| ==> init[k] == q[k];
      }
      WsSuffixOf(front, init);
    }
  }

  /** Two whitespace strings joined are whitespace. */
  lemma AllWsConcat(p: string, q: string)
    requires AllWs(p) && AllWs(q)
    ensures AllWs(p + q)
  {
    var s := p + q;
    forall k | 0 <= k < |s|
      ensures IsWs(s[k])
    {
      if k < |p| {
        assert s[k] == p[k];
      } else {
        assert s[k] == q[k - |p|];
      }
    }
  }

  /** `Trim` is determined by its decomposition: whatever is left between a
      whitespace prefix and a whitespace suffix, if it neither starts nor ends
      with whitespace, is the trim. */
  lemma {:induction false} TrimUnique(p: string, t: string, q: string)
    requires AllWs(p) && AllWs(q)
    requires t == "" || (!IsWs(t[0]) && !IsWs(t[|t| - 1]))
    ensures Trim(p + t + q) == t
  {
    var s := p + t + q;
    if t == "" {
      assert s == p + q;
      AllWsConcat(p, q);
      TrimShape(s);
    } else {
      assert s == p + (t + q);
      WsPrefixOf(p, t + q);
      assert s == (p + t) + q;
      WsSuffixOf(p + t, q);
      TrimSlice(s);
      assert s[|p|..|p| + |t|] == t;
    }
  }
}
