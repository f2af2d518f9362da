/** The pieces of Python's `str` (and of `float()` on a `str`) that the chat
    handlers rely on: `str.isspace` on one character, `str.rstrip()`,
    `str.split(sep)` for a one-character separator, substring `in`, and what
    `float()` does with the whitespace around a literal. `Join` (`sep.join`) is
    not called by the handlers; it states what `Split` computes. */
module PyStr {
  import opened Wrappers

  /** Python's `str.isspace()` on a single character: general category Zs, or
      bidirectional class WS, B or S. */
  predicate IsSpace(c: char) {
    ('\t' <= c <= '\r') || ('\U{1C}' <= c <= ' ') || c == '\U{85}' || c == '\U{A0}'
    || c == '\U{1680}' || ('\U{2000}' <= c <= '\U{200A}') || c == '\U{2028}' || c == '\U{2029}'
    || c == '\U{202F}' || c == '\U{205F}' || c == '\U{3000}'
  }

  /** The whitespace `float()` ignores around a literal. CPython first turns each
      non-ASCII `isspace` character into a space and keeps ASCII characters as
      they are, then trims the ASCII whitespace of C's `isspace`. So the four
      ASCII separators U+001C..U+001F, which `str.isspace` accepts, are not
      trimmed: they reach the literal grammar, which rejects them. */
  predicate FloatSpace(c: char) {
    IsSpace(c) && !('\U{1C}' <= c <= '\U{1F}')
  }

  /** On ASCII, `IsSpace` is tab, line feed, vertical tab, form feed, carriage
      return, the four separators U+001C..U+001F and the space. */
  lemma IsSpaceOnAscii()
    ensures forall c: char :: c < '\U{80}' ==>
      (IsSpace(c) <==> c in "\t\n\U{0B}\U{0C}\r\U{1C}\U{1D}\U{1E}\U{1F} ")
  {
  }

  /** `FloatSpace` is C's `isspace` on ASCII and `IsSpace` beyond it. */
  lemma FloatSpaceOnAscii()
    ensures forall c: char :: c < '\U{80}' ==> (FloatSpace(c) <==> c in "\t\n\U{0B}\U{0C}\r ")
    ensures forall c: char :: c >= '\U{80}' ==> (FloatSpace(c) <==> IsSpace(c))
  {
  }

  /** Every character of `s` satisfies `ws`. */
  predicate AllOf(s: string, ws: char -> bool) {
    forall i :: 0 <= i < |s| ==> ws(s[i])
  }

  /** Drop the trailing run of characters satisfying `ws`: `s.rstrip()` is
      `TrimEnd(s, IsSpace)`. */
  function TrimEnd(s: string, ws: char -> bool): (r: string)
    ensures r <= s
    ensures r == [] || !ws(r[|r| - 1])
    ensures forall i :: |r| <= i < |s| ==> ws(s[i])
  {
    if |s| > 0 && ws(s[|s| - 1]) then TrimEnd(s[..|s| - 1], ws) else s
  }

  /** Drop the leading run of characters satisfying `ws`. */
  function TrimStart(s: string, ws: char -> bool): (r: string)
    ensures |r| <= |s| && r == s[|s| - |r|..]
    ensures r == [] || !ws(r[0])
    ensures forall i :: 0 <= i < |s| - |r| ==> ws(s[i])
  {
    if |s| > 0 && ws(s[0]) then
      var r := TrimStart(s[1..], ws);
      assert s[1..][|s| - 1 - |r|..] == s[|s| - |r|..];
      assert forall i :: 1 <= i < |s| - |r| ==> s[i] == s[1..][i - 1];
      r
    else
      s
  }

  /** Trim both ends: the result is the stretch of `s` left between a leading
      and a trailing run of `ws` characters; nothing is left exactly when every
      character satisfies `ws`. */
  function Trim(s: string, ws: char -> bool): (r: string)
    ensures exists k ::
      0 <= k && k + |r| <= |s| && r == s[k..k + |r|] && AllOf(s[..k], ws) && AllOf(s[k + |r|..], ws)
    ensures r == [] <==> AllOf(s, ws)
    ensures r != [] ==> !ws(r[0]) && !ws(r[|r| - 1])
  {
    TrimBothEnds(s, ws, TrimEnd(s, ws), TrimStart(TrimEnd(s, ws), ws));
    TrimStart(TrimEnd(s, ws), ws)
  }

  /** What `Trim` promises follows from what its two halves promise. */
  lemma TrimBothEnds(s: string, ws: char -> bool, e: string, r: string)
    requires e <= s && (e == [] || !ws(e[|e| - 1]))
    requires forall i :: |e| <= i < |s| ==> ws(s[i])
    requires |r| <= |e| && r == e[|e| - |r|..] && (r == [] || !ws(r[0]))
    requires forall i :: 0 <= i < |e| - |r| ==> ws(e[i])
    ensures exists k ::
      0 <= k && k + |r| <= |s| && r == s[k..k + |r|] && AllOf(s[..k], ws) && AllOf(s[k + |r|..], ws)
    ensures r == [] <==> AllOf(s, ws)
    ensures r != [] ==> !ws(r[0]) && !ws(r[|r| - 1])
  {
    var k := |e| - |r|;
    assert r == s[k..k + |r|];
    assert forall i :: 0 <= i < k ==> s[..k][i] == e[i];
    assert forall i :: 0 <= i < |s| - |e| ==> s[|e|..][i] == s[|e| + i];
    if r == [] {
      assert e == [];
    } else {
      assert r[0] == s[|e| - |r|];
      assert r[|r| - 1] == e[|e| - 1];
    }
  }

  /** The three facts `TrimEnd` ensures determine its result: it is the only
      prefix that ends in a character outside `ws` and leaves only `ws` behind. */
  lemma TrimEndUnique(s: string, ws: char -> bool, r: string)
    requires r <= s
    requires r == [] || !ws(r[|r| - 1])
    requires forall i :: |r| <= i < |s| ==> ws(s[i])
    ensures r == TrimEnd(s, ws)
  {
  }

  /** The mirror image of `TrimEndUnique` for `TrimStart`. */
  lemma TrimStartUnique(s: string, ws: char -> bool, r: string)
    requires |r| <= |s| && r == s[|s| - |r|..]
    requires r == [] || !ws(r[0])
    requires forall i :: 0 <= i < |s| - |r| ==> ws(s[i])
    ensures r == TrimStart(s, ws)
  {
  }

  lemma TrimEndSuffix(x: string, post: string, ws: char -> bool)
    requires AllOf(post, ws)
    ensures TrimEnd(x + post, ws) == TrimEnd(x, ws)
  {
    var r := TrimEnd(x, ws);
    assert r <= x + post;
    TrimEndUnique(x + post, ws, r);
  }

  lemma TrimEndPrefix(pre: string, x: string, ws: char -> bool)
    requires AllOf(pre, ws)
    ensures TrimEnd(pre + x, ws) == if TrimEnd(x, ws) == [] then [] else pre + TrimEnd(x, ws)
  {
    var r := TrimEnd(x, ws);
    if r == [] {
      TrimEndUnique(pre + x, ws, r);
    } else {
      assert pre + r <= pre + x;
      TrimEndUnique(pre + x, ws, pre + r);
    }
  }

  lemma TrimStartPrefix(pre: string, y: string, ws: char -> bool)
    requires AllOf(pre, ws)
    ensures TrimStart(pre + y, ws) == TrimStart(y, ws)
  {
    var r := TrimStart(y, ws);
    var t := pre + y;
    assert t[|t| - |r|..] == y[|y| - |r|..];
    assert forall i :: 0 <= i < |pre| ==> t[i] == pre[i];
    assert forall i :: |pre| <= i < |t| ==> t[i] == y[i - |pre|];
    TrimStartUnique(t, ws, r);
  }

  /** Characters of `ws` added before or after a string do not change what `Trim` keeps. */
  lemma TrimIgnoresSurrounding(pre: string, s: string, post: string, ws: char -> bool)
    requires AllOf(pre, ws) && AllOf(post, ws)
    ensures Trim(pre + s + post, ws) == Trim(s, ws)
  {
    TrimEndSuffix(pre + s, post, ws);
    TrimEndPrefix(pre, s, ws);
    if TrimEnd(s, ws) != [] {
      TrimStartPrefix(pre, TrimEnd(s, ws), ws);
    }
  }

  /** `' '.join(parts)` with any separator character. */
  function Join(parts: seq<string>, sep: char): string
    decreases |parts|
  {
    if |parts| == 0 then ""
    else if |parts| == 1 then parts[0]
    else parts[0] + [sep] + Join(parts[1..], sep)
  }

  /** Joining a first part onto a non-empty rest. */
  lemma JoinCons(p: string, rest: seq<string>, sep: char)
    requires |rest| >= 1
    ensures Join([p] + rest, sep) == p + [sep] + Join(rest, sep)
  {
    assert ([p] + rest)[1..] == rest;
  }

  /** `Join` of five parts, written out. */
  lemma JoinFive(parts: seq<string>)
    requires |parts| == 5
    ensures Join(parts, ' ') == parts[0] + " " + parts[1] + " " + parts[2] + " " + parts[3] + " " + parts[4]
  {
    assert parts == [parts[0]] + parts[1..];
    assert parts[1..] == [parts[1]] + parts[2..];
    assert parts[2..] == [parts[2]] + parts[3..];
    assert parts[3..] == [parts[3]] + parts[4..];
    JoinCons(parts[3], parts[4..], ' ');
    JoinCons(parts[2], parts[3..], ' ');
    JoinCons(parts[1], parts[2..], ' ');
    JoinCons(parts[0], parts[1..], ' ');
  }

  /** `s.split(sep)` for a one-character separator: the maximal runs between
      separators, so two adjacent separators give an empty piece. */
  function Split(s: string, sep: char): (r: seq<string>)
    ensures |r| >= 1
    ensures forall i :: 0 <= i < |r| ==> sep !in r[i]
    ensures Join(r, sep) == s
  {
    if s == [] then [[]]
    else
      var rest := Split(s[1..], sep);
      if s[0] == sep then
        assert Join([[]] + rest, sep) == [] + [sep] + Join(rest, sep);
        [[]] + rest
      else
        var r := [[s[0]] + rest[0]] + rest[1..];
        assert |rest| > 1 ==> Join(rest, sep) == rest[0] + [sep] + Join(rest[1..], sep);
        assert |rest| > 1 ==> Join(r, sep) == [s[0]] + rest[0] + [sep] + Join(rest[1..], sep) by {
          assert r[1..] == rest[1..];
        }
        r
  }

  /** A string without the separator is a single piece. */
  lemma SplitWithoutSeparator(s: string, sep: char)
    requires sep !in s
    ensures Split(s, sep) == [s]
  {
  }

  /** Splitting at the first separator. */
  lemma {:induction false} SplitAtFirstSeparator(a: string, sep: char, b: string)
    requires sep !in a
    ensures Split(a + [sep] + b, sep) == [a] + Split(b, sep)
  {
    var s := a + [sep] + b;
    if a == [] {
      assert s[1..] == b;
    } else {
      assert s[1..] == a[1..] + [sep] + b;
      assert sep !in a[1..];
      SplitAtFirstSeparator(a[1..], sep, b);
      assert [a[0]] + a[1..] == a;
    }
  }

  /** `split` undoes `join` whenever no part contains the separator, so any
      message is `Join(Split(m))` and its tokens are exactly the joined parts. */
  lemma {:induction false} SplitJoin(parts: seq<string>, sep: char)
    requires |parts| >= 1
    requires forall i :: 0 <= i < |parts| ==> sep !in parts[i]
    ensures Split(Join(parts, sep), sep) == parts
  {
    if |parts| == 1 {
      SplitWithoutSeparator(parts[0], sep);
    } else {
      SplitJoin(parts[1..], sep);
      SplitAtFirstSeparator(parts[0], sep, Join(parts[1..], sep));
    }
  }

  /** Python's `w in t` on strings: `w` occurs as a contiguous substring of `t`. */
  function Contains(t: string, w: string): (b: bool)
    ensures b ==> |w| <= |t|
  {
    w <= t || (|t| > 0 && Contains(t[1..], w))
  }

  /** `w` occurs in `t` starting at index `i`. */
  ghost predicate OccursAt(t: string, w: string, i: int) {
    0 <= i && i + |w| <= |t| && t[i..i + |w|] == w
  }

  /** `Contains` agrees with the positional definition, in both directions. */
  lemma {:induction false} ContainsIff(t: string, w: string)
    ensures Contains(t, w) <==> exists i :: OccursAt(t, w, i)
  {
    if w <= t {
      assert OccursAt(t, w, 0);
    } else if |t| == 0 {
    } else {
      ContainsIff(t[1..], w);
      if exists i :: OccursAt(t[1..], w, i) {
        var i :| OccursAt(t[1..], w, i);
        assert t[1..][i..i + |w|] == t[i + 1..i + 1 + |w|];
        assert OccursAt(t, w, i + 1);
      }
      if exists i :: OccursAt(t, w, i) {
        var i :| OccursAt(t, w, i);
        assert i > 0;
        assert t[1..][i - 1..i - 1 + |w|] == t[i..i + |w|];
        assert OccursAt(t[1..], w, i - 1);
      }
    }
  }

  /** A word placed anywhere inside a text is found by `in`. */
  lemma ContainsInfix(pre: string, w: string, post: string)
    ensures Contains(pre + w + post, w)
  {
    var t := pre + w + post;
    assert t[|pre|..|pre| + |w|] == w;
    assert OccursAt(t, w, |pre|);
    ContainsIff(t, w);
  }

  /** `float(s)` for a `str`: the `FloatSpace` characters around the literal
      are ignored, and a token made only of them (the empty token included)
      raises `ValueError`, here `None`. What is left is read by `numeral`, which
      stands for CPython's float-literal grammar (digits, sign, point, exponent,
      underscores, `inf`, `nan`, non-ASCII digits). */
  function ParseFloat<R>(numeral: string -> Option<R>, s: string): (r: Option<R>)
    ensures AllOf(s, FloatSpace) ==> r == None
    ensures !AllOf(s, FloatSpace) ==> r == numeral(Trim(s, FloatSpace))
  {
    var t := Trim(s, FloatSpace);
    if t == [] then None else numeral(t)
  }

  /** `float()`'s whitespace around an amount does not change how it is read. */
  lemma ParseFloatIgnoresSurroundingSpace<R>(numeral: string -> Option<R>, pre: string, s: string, post: string)
    requires AllOf(pre, FloatSpace) && AllOf(post, FloatSpace)
    ensures ParseFloat(numeral, pre + s + post) == ParseFloat(numeral, s)
  {
    TrimIgnoresSurrounding(pre, s, post, FloatSpace);
  }

  /** A token starting with one of the separators U+001C..U+001F, which
      `str.isspace` (and so `rstrip()`) treats as whitespace, keeps that
      character in what `float()` hands to the literal grammar. */
  lemma ParseFloatKeepsSeparators<R>(numeral: string -> Option<R>, s: string)
    requires |s| > 0 && '\U{1C}' <= s[0] <= '\U{1F}'
    ensures IsSpace(s[0])
    ensures ParseFloat(numeral, s) == numeral(TrimEnd(s, FloatSpace))
  {
    var e := TrimEnd(s, FloatSpace);
    assert e != [] && e[0] == s[0];
    assert TrimStart(e, FloatSpace) == e;
  }
}
