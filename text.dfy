/**
 * The Python string builtins the backend relies on: `isspace`/`strip`, `lower`,
 * `startswith`/`endswith`, `find`/`in`, slicing, `split` and `join`, and the
 * ordering `sorted` uses on strings.
 */
module Text {

  /** `c.isspace()`: the characters Python 3 treats as whitespace. */
  predicate IsSpace(c: char) {
    || ('\t' <= c <= '\r')
    || ('\U{1C}' <= c <= '\U{1F}')
    || c == ' ' || c == '\U{85}' || c == '\U{A0}' || c == '\U{1680}'
    || ('\U{2000}' <= c <= '\U{200A}')
    || c == '\U{2028}' || c == '\U{2029}' || c == '\U{202F}' || c == '\U{205F}' || c == '\U{3000}'
  }

  /** `c.lower()` on the ASCII letters; every other character is its own lower case here. */
  function LowerChar(c: char): char {
    if 'A' <= c <= 'Z' then (c as int + 32) as char else c
  }

  /** `s.lower()`. */
  function Lower(s: string): string {
    seq(|s|, i requires 0 <= i < |s| => LowerChar(s[i]))
  }

  /** The first index at or after `i` that is not whitespace (or `|s|`). */
  function SpaceRun(s: string, i: nat): (k: nat)
    requires i <= |s|
    ensures i <= k <= |s| && (k < |s| ==> !IsSpace(s[k]))
    ensures forall j :: i <= j < k ==> IsSpace(s[j])
    decreases |s| - i
  {
    if i < |s| && IsSpace(s[i]) then SpaceRun(s, i + 1) else i
  }

  /** The end of `s[lo..j]` once its trailing whitespace is dropped. */
  function SpaceRunBack(s: string, lo: nat, j: nat): (k: nat)
    requires lo <= j <= |s|
    ensures lo <= k <= j && (k > lo ==> !IsSpace(s[k - 1]))
    ensures forall m :: k <= m < j ==> IsSpace(s[m])
  {
    if j > lo && IsSpace(s[j - 1]) then SpaceRunBack(s, lo, j - 1) else j
  }

  /** The leading run of whitespace ends at the same place in `a` as in its prefix `p` when `a` goes on with a non-space. */
  lemma {:induction false} SpaceRunPrefix(a: string, p: string, i: nat)
    requires p <= a && i <= |p|
    requires |a| > |p| ==> !IsSpace(a[|p|])
    ensures SpaceRun(a, i) == SpaceRun(p, i)
    decreases |p| - i
  {
    if i < |p| {
      assert a[i] == p[i];
      if IsSpace(p[i]) {
        SpaceRunPrefix(a, p, i + 1);
      }
    }
  }

  /** Text ending in a non-space loses only its leading whitespace. */
  lemma StripNonSpaceEnd(s: string)
    requires s != [] && !IsSpace(s[|s| - 1])
    ensures Strip(s) == s[SpaceRun(s, 0)..]
  {
    var lo := SpaceRun(s, 0);
    assert lo < |s|;
    assert SpaceRunBack(s, lo, |s|) == |s|;
  }

  /** Stripping text that ends in a non-space suffix removes only its leading whitespace. */
  lemma StripBeforeSuffix(raw: string, q: string)
    requires q != [] && !IsSpace(q[0]) && !IsSpace(q[|q| - 1])
    ensures Strip(raw + q) == raw[SpaceRun(raw, 0)..] + q
  {
    var x := raw + q;
    var lo := SpaceRun(raw, 0);
    calc {
      Strip(x);
      { assert x[|x| - 1] == q[|q| - 1]; StripNonSpaceEnd(x); }
      x[SpaceRun(x, 0)..];
      { assert raw <= x && x[|raw|] == q[0]; SpaceRunPrefix(x, raw, 0); }
      x[lo..];
      { SliceOfConcat(raw, q, lo); }
      raw[lo..] + q;
    }
  }

  lemma SliceOfConcat(a: string, b: string, lo: nat)
    requires lo <= |a|
    ensures (a + b)[lo..] == a[lo..] + b
  {
  }

  /** `s.strip()`: a piece of `s` with no whitespace at either end. */
  function Strip(s: string): (r: string)
    ensures |r| <= |s|
    ensures IsTrimmed(r)
    ensures forall x :: x in r ==> x in s
  {
    var lo := SpaceRun(s, 0);
    var hi := SpaceRunBack(s, lo, |s|);
    var r := s[lo..hi];
    assert forall k :: 0 <= k < |r| ==> r[k] == s[lo + k];
    r
  }

  /**
   * What `strip()` returns: the piece of `s` left once its leading and trailing
   * whitespace is cut off. With `IsTrimmed(Strip(s))` this determines the result.
   */
  lemma StripExact(s: string)
    ensures exists lo, hi ::
      (0 <= lo <= hi <= |s| && Strip(s) == s[lo..hi]
       && (forall k :: 0 <= k < lo ==> IsSpace(s[k])) && (forall k :: hi <= k < |s| ==> IsSpace(s[k])))
  {
    var lo := SpaceRun(s, 0);
    var hi := SpaceRunBack(s, lo, |s|);
    assert Strip(s) == s[lo..hi];
  }

  /** A string that `strip()` leaves unchanged. */
  predicate IsTrimmed(s: string) {
    s == [] || (!IsSpace(s[0]) && !IsSpace(s[|s| - 1]))
  }

  /** The truthiness test `if s.strip():` fails exactly on blank strings. */
  predicate IsBlank(s: string) {
    Strip(s) == []
  }

  lemma StripOfTrimmed(s: string)
    requires IsTrimmed(s)
    ensures Strip(s) == s
  {
    if s != [] {
      assert SpaceRun(s, 0) == 0;
      assert SpaceRunBack(s, 0, |s|) == |s|;
    }
  }

  lemma StripIdempotent(s: string)
    ensures Strip(Strip(s)) == Strip(s)
  {
    StripOfTrimmed(Strip(s));
  }

  /** A string is blank exactly when all of its characters are whitespace. */
  lemma BlankIffAllSpace(s: string)
    ensures IsBlank(s) <==> forall i :: 0 <= i < |s| ==> IsSpace(s[i])
  {
    var lo := SpaceRun(s, 0);
    if lo < |s| {
      assert SpaceRunBack(s, lo, |s|) > lo by {
        assert !IsSpace(s[lo]);
      }
    }
  }

  lemma LowerCharFacts(c: char)
    ensures IsSpace(LowerChar(c)) <==> IsSpace(c)
    ensures LowerChar(LowerChar(c)) == LowerChar(c)
  {
  }

  lemma LowerConcat(a: string, b: string)
    ensures Lower(a + b) == Lower(a) + Lower(b)
  {
  }

  lemma LowerIdempotent(s: string)
    ensures Lower(Lower(s)) == Lower(s)
  {
    forall i | 0 <= i < |s| ensures Lower(Lower(s))[i] == Lower(s)[i] {
      LowerCharFacts(s[i]);
    }
  }

  /** Lower-casing keeps whitespace where it is, so the leading run is the same. */
  lemma {:induction false} SpaceRunLower(s: string, i: nat)
    requires i <= |s|
    ensures SpaceRun(Lower(s), i) == SpaceRun(s, i)
    decreases |s| - i
  {
    if i < |s| {
      LowerCharFacts(s[i]);
      if IsSpace(s[i]) {
        SpaceRunLower(s, i + 1);
      }
    }
  }

  /** The trailing run too. */
  lemma {:induction false} SpaceRunBackLower(s: string, lo: nat, j: nat)
    requires lo <= j <= |s|
    ensures SpaceRunBack(Lower(s), lo, j) == SpaceRunBack(s, lo, j)
  {
    if j > lo {
      LowerCharFacts(s[j - 1]);
      if IsSpace(s[j - 1]) {
        SpaceRunBackLower(s, lo, j - 1);
      }
    }
  }

  /** Lower-casing and stripping commute, so `s.lower().strip()` equals `s.strip().lower()`. */
  lemma StripLowerCommute(s: string)
    ensures Strip(Lower(s)) == Lower(Strip(s))
  {
    var lo := SpaceRun(s, 0);
    SpaceRunLower(s, 0);
    SpaceRunBackLower(s, lo, |s|);
    StripIsSlice(s);
    StripIsSlice(Lower(s));
    LowerSlice(s, lo, SpaceRunBack(s, lo, |s|));
  }

  lemma StripIsSlice(s: string)
    ensures var lo := SpaceRun(s, 0); Strip(s) == s[lo..SpaceRunBack(s, lo, |s|)]
  {
  }

  lemma LowerSlice(s: string, lo: nat, hi: nat)
    requires lo <= hi <= |s|
    ensures Lower(s)[lo..hi] == Lower(s[lo..hi])
  {
    var a, b := Lower(s)[lo..hi], Lower(s[lo..hi]);
    forall k | 0 <= k < hi - lo ensures a[k] == b[k] {
      assert s[lo..hi][k] == s[lo + k];
    }
  }

  /** `s.startswith(p)`. */
  predicate StartsWith(s: string, p: string) {
    |p| <= |s| && s[..|p|] == p
  }

  /** `s.endswith(p)`. */
  predicate EndsWith(s: string, p: string) {
    |p| <= |s| && s[|s| - |p|..] == p
  }

  /** A one-character suffix is the last character. */
  lemma EndsWithChar(s: string, c: char)
    ensures EndsWith(s, [c]) <==> s != [] && s[|s| - 1] == c
  {
    if s != [] {
      assert s[|s| - 1..] == [s[|s| - 1]];
    }
  }

  /** `p` occurs in `s` starting at index `k`. */
  predicate OccursAt(s: string, p: string, k: int) {
    0 <= k && k + |p| <= |s| && s[k..k + |p|] == p
  }

  /** `s.find(p, start)`: the first occurrence at or after `start`, or -1. */
  function Find(s: string, p: string, start: nat): (r: int)
    ensures r == -1 || (start <= r && OccursAt(s, p, r))
    ensures forall k :: start <= k && (r == -1 || k < r) ==> !OccursAt(s, p, k)
    decreases |s| - start
  {
    if start + |p| > |s| then -1
    else if OccursAt(s, p, start) then start
    else Find(s, p, start + 1)
  }

  /** `find` answers the first occurrence at or after `start`, whatever the way it was found. */
  lemma FindAt(s: string, p: string, start: nat, k: nat)
    requires start <= k && OccursAt(s, p, k)
    requires forall m :: start <= m < k ==> !OccursAt(s, p, m)
    ensures Find(s, p, start) == k
  {
  }

  /** `find` answers -1 exactly when nothing occurs at or after `start`. */
  lemma FindNone(s: string, p: string, start: nat)
    requires forall m :: start <= m ==> !OccursAt(s, p, m)
    ensures Find(s, p, start) == -1
  {
  }

  /** `p in s`. */
  predicate Contains(s: string, p: string) {
    Find(s, p, 0) != -1
  }

  /**
   * `s[i:j]` for a start `i >= 0` and an end that may be negative: a negative end
   * counts from the end of `s`, and both bounds are clamped to the string.
   */
  function PySlice(s: string, i: nat, j: int): (r: string)
    ensures |r| <= |s|
  {
    var end := if j < 0 then (if j + |s| < 0 then 0 else j + |s|) else (if j > |s| then |s| else j);
    var start := if i > |s| then |s| else i;
    if start >= end then [] else s[start..end]
  }

  /** `s[:n]`: at most the first `n` characters. */
  function Take<T>(s: seq<T>, n: nat): (r: seq<T>)
    ensures |r| <= n && |r| <= |s|
    ensures r == s[..|r|]
    ensures |s| <= n ==> r == s
    ensures |s| > n ==> |r| == n
  {
    if |s| <= n then s else s[..n]
  }

  /** `sep.join(parts)`. */
  function Join(parts: seq<string>, sep: string): string {
    if |parts| == 0 then []
    else if |parts| == 1 then parts[0]
    else Join(parts[..|parts| - 1], sep) + sep + parts[|parts| - 1]
  }

  /** The index of the first `c` in `s`. */
  function IndexOf(s: string, c: char): (k: nat)
    requires c in s
    ensures k < |s| && s[k] == c && c !in s[..k]
  {
    if s[0] == c then 0 else 1 + IndexOf(s[1..], c)
  }

  /**
   * `s.split(c)` for a one-character separator: the pieces between separators (a
   * separator at the end gives a last, empty piece).
   */
  function Split(s: string, c: char): (parts: seq<string>)
    ensures |parts| >= 1
  {
    if s == [] then [[]]
    else
      var init := Split(s[..|s| - 1], c);
      var x := s[|s| - 1];
      if x == c then init + [[]]
      else init[..|init| - 1] + [init[|init| - 1] + [x]]
  }

  lemma JoinExtendLast(ps: seq<string>, p: string, x: char, sep: string)
    ensures Join(ps + [p + [x]], sep) == Join(ps + [p], sep) + [x]
  {
    if ps != [] {
      assert (ps + [p + [x]])[..|ps|] == ps == (ps + [p])[..|ps|];
    }
  }

  lemma JoinAppendEmpty(ps: seq<string>, sep: string)
    requires ps != []
    ensures Join(ps + [[]], sep) == Join(ps, sep) + sep
  {
    assert (ps + [[]])[..|ps|] == ps;
  }

  /** Joining the pieces with the separator gives back the original string. */
  lemma {:induction false} SplitJoin(s: string, c: char)
    ensures Join(Split(s, c), [c]) == s
    decreases |s|
  {
    if s != [] {
      var init, x := s[..|s| - 1], s[|s| - 1];
      SplitJoin(init, c);
      assert s == init + [x];
      SplitJoinStep(init, x, c);
    }
  }

  lemma SplitJoinStep(init: string, x: char, c: char)
    requires Join(Split(init, c), [c]) == init
    ensures Join(Split(init + [x], c), [c]) == init + [x]
  {
    var s := init + [x];
    assert s[..|s| - 1] == init && s[|s| - 1] == x;
    var ps := Split(init, c);
    if x == c {
      assert Split(s, c) == ps + [[]];
      JoinAppendEmpty(ps, [c]);
    } else {
      var q := ps[..|ps| - 1];
      assert ps == q + [ps[|ps| - 1]];
      assert Split(s, c) == q + [ps[|ps| - 1] + [x]];
      JoinExtendLast(q, ps[|ps| - 1], x, [c]);
    }
  }

  /** No piece contains the separator. */
  lemma {:induction false} SplitPiecesFree(s: string, c: char)
    ensures forall p :: p in Split(s, c) ==> c !in p
    decreases |s|
  {
    if s != [] {
      var init, x := s[..|s| - 1], s[|s| - 1];
      SplitPiecesFree(init, c);
      var ps := Split(init, c);
      if x != c {
        var last := ps[|ps| - 1];
        assert last in ps;
        assert Split(s, c) == ps[..|ps| - 1] + [last + [x]];
        forall p | p in Split(s, c) ensures c !in p {
          if p != last + [x] {
            var i :| 0 <= i < |ps| - 1 && ps[..|ps| - 1][i] == p;
            assert ps[i] == p;
          }
        }
      }
    }
  }

  /** A string without the separator splits into itself alone. */
  lemma {:induction false} SplitFree(s: string, c: char)
    requires c !in s
    ensures Split(s, c) == [s]
    decreases |s|
  {
    if s != [] {
      var init, x := s[..|s| - 1], s[|s| - 1];
      assert c !in init by {
        assert forall y :: y in init ==> y in s;
      }
      assert x != c by {
        assert x in s;
      }
      SplitFree(init, c);
      assert Split(s, c) == [init + [x]];
      assert init + [x] == s;
    }
  }

  /** Appending a separator and a separator-free piece appends that piece. */
  lemma {:induction false} SplitSnocPiece(x: string, c: char, p: string)
    requires c !in p
    ensures Split(x + [c] + p, c) == Split(x, c) + [p]
    decreases |p|
  {
    var s := x + [c] + p;
    if p == [] {
      assert s[..|s| - 1] == x;
    } else {
      var q := p[..|p| - 1];
      assert c !in q by {
        assert forall y :: y in q ==> y in p;
      }
      SplitSnocPiece(x, c, q);
      assert s[..|s| - 1] == x + [c] + q;
      assert s[|s| - 1] == p[|p| - 1];
      assert q + [p[|p| - 1]] == p;
    }
  }

  /** Splitting a join of separator-free pieces gives the pieces back. */
  lemma {:induction false} JoinSplit(ps: seq<string>, c: char)
    requires |ps| >= 1
    requires forall i :: 0 <= i < |ps| ==> c !in ps[i]
    ensures Split(Join(ps, [c]), c) == ps
    decreases |ps|
  {
    if |ps| == 1 {
      SplitFree(ps[0], c);
    } else {
      var init := ps[..|ps| - 1];
      JoinSplit(init, c);
      SplitSnocPiece(Join(init, [c]), c, ps[|ps| - 1]);
      assert init + [ps[|ps| - 1]] == ps;
    }
  }

  /** `s.split(c, 1)` when `c` occurs: the text before the first `c` and everything after it. */
  function SplitFirst(s: string, c: char): (r: (string, string))
    requires c in s
    ensures c !in r.0
    ensures r.0 + [c] + r.1 == s
  {
    var k := IndexOf(s, c);
    assert s == s[..k] + [c] + s[k + 1..];
    (s[..k], s[k + 1..])
  }

  /**
   * `s.split(c)[-1]`: the text after the last `c`, or all of `s` when `c` does not
   * occur; it is a suffix of `s` free of `c`, preceded in `s` by a `c` unless it is all of `s`.
   */
  function AfterLast(s: string, c: char): (r: string)
    ensures c !in r && |r| <= |s|
    ensures forall k :: 0 <= k < |r| ==> r[k] == s[|s| - |r| + k]
    ensures |r| < |s| ==> s[|s| - |r| - 1] == c
  {
    if s == [] then []
    else if s[|s| - 1] == c then []
    else
      var init := s[..|s| - 1];
      var r := AfterLast(init, c);
      assert forall k :: 0 <= k < |init| ==> init[k] == s[k];
      r + [s[|s| - 1]]
  }

  /** Without a `c`, the whole string is the last piece. */
  lemma AfterLastWithout(s: string, c: char)
    requires c !in s
    ensures AfterLast(s, c) == s
  {
  }

  /** Whatever comes before the last separator does not matter. */
  lemma {:induction false} AfterLastAfterSep(p: string, c: char, b: string)
    ensures AfterLast(p + [c] + b, c) == AfterLast(b, c)
    decreases |b|
  {
    if b == [] {
      var s := p + [c];
      assert s[|s| - 1] == c;
    } else {
      var init, x := b[..|b| - 1], b[|b| - 1];
      AfterLastAfterSep(p, c, init);
      assert b == init + [x];
      assert p + [c] + b == (p + [c] + init) + [x];
      AfterLastSnoc(p + [c] + init, x, c);
      AfterLastSnoc(init, x, c);
    }
  }

  lemma AfterLastSnoc(s: string, x: char, c: char)
    ensures AfterLast(s + [x], c) == if x == c then [] else AfterLast(s, c) + [x]
  {
    var t := s + [x];
    assert t[|t| - 1] == x && t[..|t| - 1] == s;
  }

  /** `AfterLast` is indeed the last piece that `Split` produces. */
  lemma {:induction false} AfterLastIsLastPiece(s: string, c: char)
    ensures Split(s, c)[|Split(s, c)| - 1] == AfterLast(s, c)
    decreases |s|
  {
    if s != [] {
      var init := s[..|s| - 1];
      AfterLastIsLastPiece(init, c);
    }
  }

  /** Python's `a < b` on strings: lexicographic by code point. */
  predicate StrLess(a: string, b: string) {
    if a == [] then b != []
    else if b == [] then false
    else a[0] < b[0] || (a[0] == b[0] && StrLess(a[1..], b[1..]))
  }

  lemma {:induction false} StrLessTotal(a: string, b: string)
    ensures a == b || StrLess(a, b) || StrLess(b, a)
  {
    if a != [] && b != [] && a[0] == b[0] {
      StrLessTotal(a[1..], b[1..]);
      if a[1..] == b[1..] {
        assert a == [a[0]] + a[1..] && b == [b[0]] + b[1..];
      }
    }
  }

  lemma {:induction false} StrLessAsymmetric(a: string, b: string)
    ensures !(StrLess(a, b) && StrLess(b, a))
  {
    if a != [] && b != [] && a[0] == b[0] {
      StrLessAsymmetric(a[1..], b[1..]);
    }
  }

  /** The index of the first character at or after `i` that is not `c` (or `|s|`). */
  function SkipLeading(s: string, c: char, i: nat): (k: nat)
    requires i <= |s|
    ensures i <= k <= |s| && (k < |s| ==> s[k] != c)
    ensures forall j :: i <= j < k ==> s[j] == c
    decreases |s| - i
  {
    if i < |s| && s[i] == c then SkipLeading(s, c, i + 1) else i
  }

  /** The index just past the last character before `j`, and not before `lo`, that is not `c`. */
  function SkipTrailing(s: string, c: char, lo: nat, j: nat): (k: nat)
    requires lo <= j <= |s|
    ensures lo <= k <= j && (k > lo ==> s[k - 1] != c)
    ensures forall m :: k <= m < j ==> s[m] == c
  {
    if j > lo && s[j - 1] == c then SkipTrailing(s, c, lo, j - 1) else j
  }

  /**
   * `s.strip(c)`: drops every leading and trailing `c`. What is kept is a contiguous piece
   * of `s` that neither starts nor ends with `c`, and a string that neither starts nor
   * ends with `c` is kept whole.
   */
  function StripChar(s: string, c: char): (r: string)
    ensures |r| <= |s|
    ensures forall x :: x in r ==> x in s
    ensures r == [] || (r[0] != c && r[|r| - 1] != c)
    ensures exists lo, hi ::
      (0 <= lo <= hi <= |s| && r == s[lo..hi]
       && (forall k :: 0 <= k < lo ==> s[k] == c) && (forall k :: hi <= k < |s| ==> s[k] == c))
    ensures |s| > 0 && s[0] != c && s[|s| - 1] != c ==> r == s
  {
    var lo := SkipLeading(s, c, 0);
    var hi := SkipTrailing(s, c, lo, |s|);
    var r := s[lo..hi];
    assert forall k :: 0 <= k < |r| ==> r[k] == s[lo + k];
    r
  }
}
