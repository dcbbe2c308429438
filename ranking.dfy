/**
 * Python's `sorted(xs, key=k, reverse=True)` and `xs.sort(key=k, reverse=True)`:
 * a stable sort into non-increasing key order. Both ranking call sites
 * (the recommender and the two routers that re-rank listings) use it.
 */
module Ranking {

  /** Keys never increase from left to right. */
  predicate SortedDesc<T>(xs: seq<T>, key: T -> real) {
    forall i, j :: 0 <= i < j < |xs| ==> key(xs[i]) >= key(xs[j])
  }

  /** The elements of `xs` whose key is `k`, in their order in `xs`. */
  function WithKey<T>(xs: seq<T>, key: T -> real, k: real): seq<T> {
    if xs == [] then []
    else (if key(xs[0]) == k then [xs[0]] else []) + WithKey(xs[1..], key, k)
  }

  /** `f` applied to every element, in order (a list comprehension). */
  function Project<T, U>(xs: seq<T>, f: T -> U): (r: seq<U>)
    ensures |r| == |xs|
    ensures forall i :: 0 <= i < |xs| ==> r[i] == f(xs[i])
  {
    seq(|xs|, i requires 0 <= i < |xs| => f(xs[i]))
  }

  /** Extending the input by one element extends the result by its image. */
  lemma ProjectSnoc<T, U>(xs: seq<T>, i: nat, f: T -> U)
    requires i < |xs|
    ensures Project(xs[..i + 1], f) == Project(xs[..i], f) + [f(xs[i])]
  {
    var longer, shorter := Project(xs[..i + 1], f), Project(xs[..i], f);
    assert forall k :: 0 <= k < i ==> longer[k] == shorter[k];
  }

  /**
   * Places `x` in front of the first element whose key is not larger, so that
   * `x` precedes every element with the same key: this is what keeps the sort stable.
   */
  function Insert<T>(x: T, ys: seq<T>, key: T -> real): (r: seq<T>)
    ensures multiset(r) == multiset(ys) + multiset{x}
    ensures |r| == |ys| + 1
  {
    if ys == [] || key(ys[0]) <= key(x) then [x] + ys
    else
      assert ys == [ys[0]] + ys[1..];
      [ys[0]] + Insert(x, ys[1..], key)
  }

  lemma {:induction false} InsertSorted<T>(x: T, ys: seq<T>, key: T -> real)
    requires SortedDesc(ys, key)
    ensures SortedDesc(Insert(x, ys, key), key)
  {
    if ys != [] && key(ys[0]) > key(x) {
      var tail := ys[1..];
      assert SortedDesc(tail, key) by {
        assert forall i :: 0 <= i < |tail| ==> tail[i] == ys[i + 1];
      }
      InsertSorted(x, tail, key);
      InsertBehindSorted(x, ys, key);
    }
  }

  /** The step of `InsertSorted` where `x` goes behind the first element. */
  lemma InsertBehindSorted<T>(x: T, ys: seq<T>, key: T -> real)
    requires SortedDesc(ys, key) && ys != [] && key(ys[0]) > key(x)
    requires SortedDesc(Insert(x, ys[1..], key), key)
    ensures SortedDesc(Insert(x, ys, key), key)
  {
    var y, tail := ys[0], ys[1..];
    assert AllAtMost(tail, key, key(y)) by {
      assert forall m :: 0 <= m < |tail| ==> tail[m] == ys[m + 1];
    }
    InsertBounded(x, tail, key, key(y));
    ConsSorted(y, Insert(x, tail, key), key);
  }

  /** Every key is at most `bound`. */
  predicate AllAtMost<T>(xs: seq<T>, key: T -> real, bound: real) {
    forall i :: 0 <= i < |xs| ==> key(xs[i]) <= bound
  }

  lemma {:induction false} InsertBounded<T>(x: T, ys: seq<T>, key: T -> real, bound: real)
    requires key(x) <= bound && AllAtMost(ys, key, bound)
    ensures AllAtMost(Insert(x, ys, key), key, bound)
  {
    if ys != [] && key(ys[0]) > key(x) {
      var tail := ys[1..];
      assert forall m :: 0 <= m < |tail| ==> tail[m] == ys[m + 1];
      InsertBounded(x, tail, key, bound);
      var rest := Insert(x, tail, key);
      assert forall m :: 0 < m <= |rest| ==> ([ys[0]] + rest)[m] == rest[m - 1];
    }
  }

  lemma ConsSorted<T>(y: T, rest: seq<T>, key: T -> real)
    requires SortedDesc(rest, key) && AllAtMost(rest, key, key(y))
    ensures SortedDesc([y] + rest, key)
  {
    var r := [y] + rest;
    assert forall m :: 0 < m < |r| ==> r[m] == rest[m - 1];
  }

  /** `sorted(xs, key=key, reverse=True)`: a permutation of `xs` in non-increasing key order. */
  function SortDesc<T>(xs: seq<T>, key: T -> real): (r: seq<T>)
    ensures multiset(r) == multiset(xs)
    ensures |r| == |xs|
    ensures SortedDesc(r, key)
  {
    if xs == [] then []
    else
      assert xs == [xs[0]] + xs[1..];
      var rest := SortDesc(xs[1..], key);
      InsertSorted(xs[0], rest, key);
      Insert(xs[0], rest, key)
  }

  lemma {:induction false} InsertStable<T>(x: T, ys: seq<T>, key: T -> real, k: real)
    requires SortedDesc(ys, key)
    ensures WithKey(Insert(x, ys, key), key, k) == (if key(x) == k then [x] else []) + WithKey(ys, key, k)
  {
    if ys == [] || key(ys[0]) <= key(x) {
      WithKeyCons(x, ys, key, k);
    } else {
      var tail := ys[1..];
      assert SortedDesc(tail, key) by {
        assert forall i :: 0 <= i < |tail| ==> tail[i] == ys[i + 1];
      }
      InsertStable(x, tail, key, k);
      InsertBehindStable(x, ys, key, k);
    }
  }

  /** The step of `InsertStable` where `x` goes behind the first element. */
  lemma InsertBehindStable<T>(x: T, ys: seq<T>, key: T -> real, k: real)
    requires ys != [] && key(ys[0]) > key(x)
    requires WithKey(Insert(x, ys[1..], key), key, k) == (if key(x) == k then [x] else []) + WithKey(ys[1..], key, k)
    ensures WithKey(Insert(x, ys, key), key, k) == (if key(x) == k then [x] else []) + WithKey(ys, key, k)
  {
    var y, tail := ys[0], ys[1..];
    var rest := Insert(x, tail, key);
    assert Insert(x, ys, key) == [y] + rest;
    assert ys == [y] + tail;
    WithKeyCons(y, rest, key, k);
    WithKeyCons(y, tail, key, k);
    var w := WithKey(tail, key, k);
    if key(x) == k {
      assert key(y) != k;
      calc {
        WithKey(Insert(x, ys, key), key, k);
        WithKey(rest, key, k);
        [x] + w;
        [x] + WithKey(ys, key, k);
      }
    } else {
      var a := if key(y) == k then [y] else [];
      calc {
        WithKey(Insert(x, ys, key), key, k);
        a + WithKey(rest, key, k);
        { assert [] + w == w; }
        a + w;
        WithKey(ys, key, k);
      }
    }
  }

  lemma WithKeyCons<T>(y: T, ys: seq<T>, key: T -> real, k: real)
    ensures WithKey([y] + ys, key, k) == (if key(y) == k then [y] else []) + WithKey(ys, key, k)
  {
    assert ([y] + ys)[1..] == ys;
  }

  /**
   * Stability: for every key value, the elements carrying it keep their input order,
   * so ties are broken by position in the input.
   */
  lemma {:induction false} SortDescStable<T>(xs: seq<T>, key: T -> real, k: real)
    ensures WithKey(SortDesc(xs, key), key, k) == WithKey(xs, key, k)
  {
    if xs != [] {
      SortDescStable(xs[1..], key, k);
      InsertStable(xs[0], SortDesc(xs[1..], key), key, k);
    }
  }

  /** An element picked out by `WithKey` comes from the list and carries the key. */
  lemma {:induction false} WithKeyMember<T>(xs: seq<T>, key: T -> real, k: real, x: T)
    requires x in WithKey(xs, key, k)
    ensures x in xs && key(x) == k
  {
    if key(xs[0]) != k || x != xs[0] {
      WithKeyMember(xs[1..], key, k, x);
    }
  }

  /** Lists that agree key by key are empty together. */
  lemma WithKeyAgreeEmpty<T>(a: seq<T>, b: seq<T>, key: T -> real)
    requires forall k :: WithKey(a, key, k) == WithKey(b, key, k)
    ensures a == [] <==> b == []
  {
    if a != [] {
      assert WithKey(b, key, key(a[0])) == WithKey(a, key, key(a[0])) != [];
    }
    if b != [] {
      assert WithKey(a, key, key(b[0])) == WithKey(b, key, key(b[0])) != [];
    }
  }

  /**
   * A stable descending order is unique: two sorted lists that agree, key by key, on
   * the order of their elements are the same list.
   */
  lemma {:induction false} StableSortUnique<T>(a: seq<T>, b: seq<T>, key: T -> real)
    requires SortedDesc(a, key) && SortedDesc(b, key)
    requires forall k :: WithKey(a, key, k) == WithKey(b, key, k)
    ensures a == b
    decreases |a|
  {
    WithKeyAgreeEmpty(a, b, key);
    if a != [] {
      var x, y := a[0], b[0];
      assert a == [x] + a[1..] && b == [y] + b[1..];
      WithKeyCons(x, a[1..], key, key(x));
      WithKeyCons(y, b[1..], key, key(y));
      assert key(x) == key(y) by {
        assert x in WithKey(b, key, key(x));
        WithKeyMember(b, key, key(x), x);
        assert y in WithKey(a, key, key(y));
        WithKeyMember(a, key, key(y), y);
      }
      assert x == WithKey(a, key, key(x))[0];
      assert y == WithKey(b, key, key(x))[0];
      forall k ensures WithKey(a[1..], key, k) == WithKey(b[1..], key, k) {
        WithKeyCons(x, a[1..], key, k);
        WithKeyCons(y, b[1..], key, k);
        if key(x) == k {
          assert WithKey(a, key, k)[1..] == WithKey(a[1..], key, k);
          assert WithKey(b, key, k)[1..] == WithKey(b[1..], key, k);
        } else {
          assert WithKey(a, key, k) == [] + WithKey(a[1..], key, k) == WithKey(a[1..], key, k);
          assert WithKey(b, key, k) == [] + WithKey(b[1..], key, k) == WithKey(b[1..], key, k);
        }
      }
      StableSortUnique(a[1..], b[1..], key);
    }
  }

  /** Any stable descending order of `xs` is the one `SortDesc` computes. */
  lemma SortDescUnique<T>(xs: seq<T>, ys: seq<T>, key: T -> real)
    requires SortedDesc(ys, key)
    requires forall k :: WithKey(ys, key, k) == WithKey(xs, key, k)
    ensures ys == SortDesc(xs, key)
  {
    forall k ensures WithKey(ys, key, k) == WithKey(SortDesc(xs, key), key, k) {
      SortDescStable(xs, key, k);
    }
    StableSortUnique(ys, SortDesc(xs, key), key);
  }

  lemma ProjectConcat<T, U>(a: seq<T>, b: seq<T>, f: T -> U)
    ensures Project(a + b, f) == Project(a, f) + Project(b, f)
  {
    var whole, pa, pb := Project(a + b, f), Project(a, f), Project(b, f);
    forall i | 0 <= i < |a| + |b| ensures whole[i] == (pa + pb)[i] {
      if i >= |a| {
        assert (a + b)[i] == b[i - |a|];
      }
    }
  }

  lemma ProjectSplit<T, U>(b: seq<T>, k: nat, f: T -> U)
    requires k < |b|
    ensures Project(b, f) == Project(b[..k], f) + [f(b[k])] + Project(b[k + 1..], f)
  {
    var whole, pf, pb := Project(b, f), Project(b[..k], f), Project(b[k + 1..], f);
    forall i | 0 <= i < |b| ensures whole[i] == (pf + [f(b[k])] + pb)[i] {
      if i < k {
        assert b[..k][i] == b[i];
      } else if i > k {
        assert b[k + 1..][i - k - 1] == b[i];
      }
    }
  }

  lemma ProjectRemove<T, U>(b: seq<T>, k: nat, f: T -> U)
    requires k < |b|
    ensures multiset(Project(b, f)) == multiset(Project(b[..k] + b[k + 1..], f)) + multiset{f(b[k])}
  {
    var pf, pb := Project(b[..k], f), Project(b[k + 1..], f);
    ProjectSplit(b, k, f);
    ProjectConcat(b[..k], b[k + 1..], f);
    assert multiset(pf + [f(b[k])] + pb) == multiset(pf + pb) + multiset{f(b[k])};
  }

  /** A permutation stays a permutation after projecting every element (e.g. to its id). */
  lemma {:induction false} ProjectPermutation<T, U>(a: seq<T>, b: seq<T>, f: T -> U)
    requires multiset(a) == multiset(b)
    ensures multiset(Project(a, f)) == multiset(Project(b, f))
    decreases |a|
  {
    if a == [] {
      assert |b| == |multiset(b)| == 0;
    } else {
      var x := a[0];
      assert x in multiset(b);
      var k :| 0 <= k < |b| && b[k] == x;
      var a', b' := a[1..], b[..k] + b[k + 1..];
      RemoveAt(b, k);
      assert a == [x] + a';
      ProjectPermutation(a', b', f);
      ProjectRemove(b, k, f);
      ProjectFirst(a, f);
      var pa, pb := multiset(Project(a', f)), multiset(Project(b', f));
      assert multiset(Project(a, f)) == pa + multiset{f(x)};
      assert multiset(Project(b, f)) == pb + multiset{f(x)};
    }
  }

  lemma ProjectFirst<T, U>(a: seq<T>, f: T -> U)
    requires a != []
    ensures multiset(Project(a, f)) == multiset(Project(a[1..], f)) + multiset{f(a[0])}
  {
    var p, rest := Project(a, f), Project(a[1..], f);
    assert forall i :: 0 < i < |a| ==> a[1..][i - 1] == a[i];
    assert p == [f(a[0])] + rest;
  }

  lemma RemoveAt<T>(b: seq<T>, k: nat)
    requires k < |b|
    ensures multiset(b[..k] + b[k + 1..]) == multiset(b) - multiset{b[k]}
  {
    assert b == b[..k] + [b[k]] + b[k + 1..];
  }
}
