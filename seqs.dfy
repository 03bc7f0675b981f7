/** `Array.prototype.filter` and the stable `Array.prototype.sort` (stable
    since ECMAScript 2019) with a descending numeric comparator
    `(a, b) => key(b) - key(a)`, as the pages use them. */
module Seqs {
  import opened Wrappers

  /** `s.findIndex(p)`, the position `s.find(p)` reads: the first element
      satisfying `p`, if any. */
  function Find<T>(s: seq<T>, p: T -> bool): (r: Option<nat>)
    ensures r.None? ==> forall k :: 0 <= k < |s| ==> !p(s[k])
    ensures r.Some? ==> r.value < |s| && p(s[r.value])
                        && forall k :: 0 <= k < r.value ==> !p(s[k])
  {
    if s == [] then None
    else if p(s[0]) then Some(0)
    else
      match Find(s[1..], p)
      case None => None
      case Some(k) => Some(k + 1)
  }

  /** `s.filter(p)`. */
  function Filter<T>(s: seq<T>, p: T -> bool): (r: seq<T>)
    ensures |r| <= |s|
  {
    if s == [] then []
    else (if p(s[0]) then [s[0]] else []) + Filter(s[1..], p)
  }

  /** A filter keeps exactly the elements that satisfy its predicate. */
  lemma {:induction false} FilterMembers<T>(s: seq<T>, p: T -> bool)
    ensures forall i :: 0 <= i < |Filter(s, p)| ==> Filter(s, p)[i] in s && p(Filter(s, p)[i])
    ensures forall i :: 0 <= i < |s| && p(s[i]) ==> s[i] in Filter(s, p)
  {
    if s != [] {
      FilterMembers(s[1..], p);
      FilterUnfold(s, p);
      forall i | 0 <= i < |s| && p(s[i]) ensures s[i] in Filter(s, p) {
        if i > 0 { assert s[i] == s[1..][i - 1]; }
      }
    }
  }

  lemma {:induction false} FilterAppend<T>(a: seq<T>, b: seq<T>, p: T -> bool)
    ensures Filter(a + b, p) == Filter(a, p) + Filter(b, p)
  {
    if a != [] {
      assert (a + b)[0] == a[0];
      assert (a + b)[1..] == a[1..] + b;
      FilterAppend(a[1..], b, p);
    } else {
      assert a + b == b;
    }
  }

  /** Two filters in a row are one filter on the conjunction. */
  lemma {:induction false} FilterFilter<T>(s: seq<T>, p: T -> bool, q: T -> bool, both: T -> bool)
    requires forall x :: both(x) == (p(x) && q(x))
    ensures Filter(Filter(s, p), q) == Filter(s, both)
  {
    if s != [] {
      FilterFilter(s[1..], p, q, both);
      FilterUnfold(s, p);
      FilterUnfold(s, both);
      if p(s[0]) {
        FilterUnfold(Filter(s, p), q);
      }
    }
  }

  /** A filter every element passes changes nothing. */
  lemma {:induction false} FilterAllKept<T>(s: seq<T>, p: T -> bool)
    requires forall k :: 0 <= k < |s| ==> p(s[k])
    ensures Filter(s, p) == s
  {
    if s != [] {
      FilterAllKept(s[1..], p);
      assert [s[0]] + s[1..] == s;
    }
  }

  /** No two elements share a value of `f`. */
  predicate DistinctBy<T>(s: seq<T>, f: T -> int) {
    forall i, j :: 0 <= i < j < |s| ==> f(s[i]) != f(s[j])
  }

  /** Leaving elements out keeps them distinct. */
  lemma {:induction false} FilterKeepsDistinctBy<T>(s: seq<T>, f: T -> int, p: T -> bool)
    requires DistinctBy(s, f)
    ensures DistinctBy(Filter(s, p), f)
  {
    if s != [] {
      FilterKeepsDistinctBy(s[1..], f, p);
      FilterMembers(s[1..], p);
      var t := Filter(s[1..], p);
      forall k | 0 <= k < |t| ensures f(t[k]) != f(s[0]) {
        var j :| 0 <= j < |s[1..]| && s[1..][j] == t[k];
        assert s[j + 1] == t[k];
      }
    }
  }

  /** Among distinct elements at most one has a given value. */
  lemma {:induction false} FilterDropsAtMostOne<T>(s: seq<T>, f: T -> int, v: int)
    requires DistinctBy(s, f)
    ensures |Filter(s, x => f(x) != v)| + 1 >= |s|
  {
    if s != [] {
      if f(s[0]) == v {
        FilterAllKept(s[1..], x => f(x) != v);
      } else {
        FilterDropsAtMostOne(s[1..], f, v);
      }
    }
  }

  /** Distinct values drawn from `0 .. n - 1` number at most `n`. */
  lemma {:induction false} DistinctByBound<T>(s: seq<T>, f: T -> int, n: nat)
    requires DistinctBy(s, f)
    requires forall k :: 0 <= k < |s| ==> 0 <= f(s[k]) < n
    ensures |s| <= n
    decreases n
  {
    if s != [] {
      assert 0 <= f(s[0]) < n;
      var p := x => f(x) != n - 1;
      var t := Filter(s, p);
      FilterDropsAtMostOne(s, f, n - 1);
      FilterKeepsDistinctBy(s, f, p);
      FilterMembers(s, p);
      forall k | 0 <= k < |t| ensures 0 <= f(t[k]) < n - 1 {
        var j :| 0 <= j < |s| && s[j] == t[k];
      }
      DistinctByBound(t, f, n - 1);
    }
  }

  /** `a` is `b` with some elements left out, the rest in their order. */
  predicate IsSubsequence<T(==)>(a: seq<T>, b: seq<T>)
    decreases |b|
  {
    if a == [] then true
    else if b == [] then false
    else (a[0] == b[0] && IsSubsequence(a[1..], b[1..])) || IsSubsequence(a, b[1..])
  }

  /** A filter keeps the order of what it keeps. */
  lemma {:induction false} FilterIsSubsequence<T>(s: seq<T>, p: T -> bool)
    ensures IsSubsequence(Filter(s, p), s)
  {
    if s != [] {
      FilterIsSubsequence(s[1..], p);
      var r := Filter(s, p);
      if p(s[0]) {
        assert r[0] == s[0] && r[1..] == Filter(s[1..], p);
      } else {
        assert r == Filter(s[1..], p);
      }
    }
  }

  /** Non-increasing by `key`. */
  predicate SortedDesc<T>(s: seq<T>, key: T -> int) {
    forall i, j :: 0 <= i < j < |s| ==> key(s[i]) >= key(s[j])
  }

  /** Puts `x` after every element of `t` whose key is at least `key(x)`:
      the step of a stable descending insertion sort. */
  function InsertDesc<T>(t: seq<T>, x: T, key: T -> int): (r: seq<T>)
    ensures |r| == |t| + 1
  {
    if t == [] then [x]
    else if key(t[|t| - 1]) < key(x) then
      InsertDesc(t[..|t| - 1], x, key) + [t[|t| - 1]]
    else t + [x]
  }

  /** The stable descending sort: the result of `s.sort((a, b) => key(b) - key(a))`. */
  function SortDesc<T>(s: seq<T>, key: T -> int): (r: seq<T>)
    ensures |r| == |s|
  {
    if s == [] then []
    else InsertDesc(SortDesc(s[..|s| - 1], key), s[|s| - 1], key)
  }

  lemma {:induction false} InsertDescPermutation<T>(t: seq<T>, x: T, key: T -> int)
    ensures multiset(InsertDesc(t, x, key)) == multiset(t) + multiset{x}
  {
    if t != [] && key(t[|t| - 1]) < key(x) {
      InsertDescPermutation(t[..|t| - 1], x, key);
      assert t == t[..|t| - 1] + [t[|t| - 1]];
    }
  }

  /** The sort rearranges its input: nothing is lost, duplicated or added. */
  lemma {:induction false} SortDescPermutation<T>(s: seq<T>, key: T -> int)
    ensures multiset(SortDesc(s, key)) == multiset(s)
  {
    if s != [] {
      SortDescPermutation(s[..|s| - 1], key);
      InsertDescPermutation(SortDesc(s[..|s| - 1], key), s[|s| - 1], key);
      assert s == s[..|s| - 1] + [s[|s| - 1]];
    }
  }

  lemma {:induction false} InsertDescSorted<T>(t: seq<T>, x: T, key: T -> int)
    requires SortedDesc(t, key)
    ensures SortedDesc(InsertDesc(t, x, key), key)
  {
    if t != [] && key(t[|t| - 1]) < key(x) {
      var init, last := t[..|t| - 1], t[|t| - 1];
      InsertDescSorted(init, x, key);
      var u := InsertDesc(init, x, key);
      InsertDescPermutation(init, x, key);
      forall y | y in u ensures key(y) >= key(last) {
        assert y in multiset(u);
        if y != x {
          assert y in multiset(init);
          var i :| 0 <= i < |init| && init[i] == y;
          assert t[i] == y;
        }
      }
      forall i, j | 0 <= i < j < |u + [last]| ensures key((u + [last])[i]) >= key((u + [last])[j]) {
        if j == |u| {
          assert (u + [last])[i] in u;
        }
      }
    }
  }

  /** The result of the sort is ordered by descending key. */
  lemma {:induction false} SortDescSorted<T>(s: seq<T>, key: T -> int)
    ensures SortedDesc(SortDesc(s, key), key)
  {
    if s != [] {
      SortDescSorted(s[..|s| - 1], key);
      InsertDescSorted(SortDesc(s[..|s| - 1], key), s[|s| - 1], key);
    }
  }

  /** The selector of the elements whose key is `k`. */
  function HasKey<T>(key: T -> int, k: int): T -> bool {
    x => key(x) == k
  }

  lemma {:induction false} InsertDescStable<T>(t: seq<T>, x: T, key: T -> int, k: int)
    ensures Filter(InsertDesc(t, x, key), HasKey(key, k))
         == Filter(t, HasKey(key, k)) + (if key(x) == k then [x] else [])
  {
    var p := HasKey(key, k);
    if t == [] {
    } else if key(t[|t| - 1]) < key(x) {
      var init, last := t[..|t| - 1], t[|t| - 1];
      InsertDescStable(init, x, key, k);
      FilterAppend(InsertDesc(init, x, key), [last], p);
      FilterAppend(init, [last], p);
      assert init + [last] == t;
    } else {
      FilterAppend(t, [x], p);
    }
  }

  /** Stability: among elements with equal keys the sort keeps the input order. */
  lemma {:induction false} SortDescStable<T>(s: seq<T>, key: T -> int, k: int)
    ensures Filter(SortDesc(s, key), HasKey(key, k)) == Filter(s, HasKey(key, k))
  {
    if s != [] {
      var init, last := s[..|s| - 1], s[|s| - 1];
      SortDescStable(init, key, k);
      InsertDescStable(SortDesc(init, key), last, key, k);
      FilterAppend(init, [last], HasKey(key, k));
      assert init + [last] == s;
    }
  }

  /** A stable descending sort has only one possible result: any ordering of
      the same elements that is sorted and keeps the input order among equal
      keys is `SortDesc`. So `SortDesc` is what every conforming
      `Array.prototype.sort` returns. */
  lemma SortDescUnique<T>(s: seq<T>, r: seq<T>, key: T -> int)
    requires multiset(r) == multiset(s)
    requires SortedDesc(r, key)
    requires forall k :: Filter(r, HasKey(key, k)) == Filter(s, HasKey(key, k))
    ensures r == SortDesc(s, key)
  {
    var q := SortDesc(s, key);
    SortDescSorted(s, key);
    SortDescPermutation(s, key);
    forall k ensures Filter(r, HasKey(key, k)) == Filter(q, HasKey(key, k)) {
      SortDescStable(s, key, k);
    }
    SortedStableEqual(r, q, key);
  }

  /** Two sequences sorted by the same key over the same elements start with
      equal keys. */
  lemma SameFirstKey<T>(r: seq<T>, q: seq<T>, key: T -> int)
    requires r != [] && multiset(r) == multiset(q)
    requires SortedDesc(r, key) && SortedDesc(q, key)
    ensures q != [] && key(r[0]) == key(q[0])
  {
    assert r[0] in multiset(q);
    assert q[0] in multiset(r);
    var i :| 0 <= i < |q| && q[i] == r[0];
    var j :| 0 <= j < |r| && r[j] == q[0];
    assert key(q[0]) >= key(q[i]);
    assert key(r[0]) >= key(r[j]);
  }

  lemma FilterUnfold<T>(r: seq<T>, p: T -> bool)
    requires r != []
    ensures Filter(r, p) == (if p(r[0]) then [r[0]] + Filter(r[1..], p) else Filter(r[1..], p))
  {
  }

  lemma FilterTailsAgree<T>(r: seq<T>, q: seq<T>, p: T -> bool)
    requires r != [] && q != [] && r[0] == q[0]
    requires Filter(r, p) == Filter(q, p)
    ensures Filter(r[1..], p) == Filter(q[1..], p)
  {
    FilterUnfold(r, p);
    FilterUnfold(q, p);
    if p(r[0]) {
      assert Filter(r[1..], p) == Filter(r, p)[1..];
      assert Filter(q[1..], p) == Filter(q, p)[1..];
    }
  }

  /** Sorted, with the same key-classes in the same order: the same head. */
  lemma SameHead<T>(r: seq<T>, q: seq<T>, key: T -> int)
    requires r != [] && multiset(r) == multiset(q)
    requires SortedDesc(r, key) && SortedDesc(q, key)
    requires Filter(r, HasKey(key, key(r[0]))) == Filter(q, HasKey(key, key(r[0])))
    ensures q != [] && r[0] == q[0]
  {
    SameFirstKey(r, q, key);
    var pm := HasKey(key, key(r[0]));
    assert pm(r[0]) && pm(q[0]);
    FilterUnfold(r, pm);
    FilterUnfold(q, pm);
    assert Filter(r, pm)[0] == r[0];
    assert Filter(q, pm)[0] == q[0];
  }

  lemma MultisetTail<T>(r: seq<T>, q: seq<T>)
    requires r != [] && q != [] && r[0] == q[0] && multiset(r) == multiset(q)
    ensures multiset(r[1..]) == multiset(q[1..])
  {
    assert r == [r[0]] + r[1..] && q == [q[0]] + q[1..];
    assert multiset(r[1..]) == multiset(r) - multiset{r[0]};
    assert multiset(q[1..]) == multiset(q) - multiset{q[0]};
  }

  lemma {:induction false} SortedStableEqual<T>(r: seq<T>, q: seq<T>, key: T -> int)
    requires multiset(r) == multiset(q)
    requires SortedDesc(r, key) && SortedDesc(q, key)
    requires forall k :: Filter(r, HasKey(key, k)) == Filter(q, HasKey(key, k))
    ensures r == q
    decreases |r|
  {
    if r == [] {
      assert |q| == |multiset(q)| == 0;
    } else {
      SameHead(r, q, key);
      MultisetTail(r, q);
      forall k ensures Filter(r[1..], HasKey(key, k)) == Filter(q[1..], HasKey(key, k)) {
        FilterTailsAgree(r, q, HasKey(key, k));
      }
      SortedStableEqual(r[1..], q[1..], key);
      assert r == [r[0]] + r[1..] && q == [q[0]] + q[1..];
    }
  }

  /** Where `InsertDesc` puts `x`: after the last element whose key is at
      least `key(x)`, ahead of the run of smaller keys that ends `t`. */
  lemma {:induction false} InsertDescAt<T>(t: seq<T>, x: T, key: T -> int, j: nat)
    requires j <= |t| && (j == 0 || key(t[j - 1]) >= key(x))
    requires forall k :: j <= k < |t| ==> key(t[k]) < key(x)
    ensures InsertDesc(t, x, key) == t[..j] + [x] + t[j..]
    decreases |t|
  {
    if j < |t| {
      var init := t[..|t| - 1];
      assert init[..j] == t[..j];
      InsertDescAt(init, x, key, j);
      assert t[j..] == init[j..] + [t[|t| - 1]];
    }
  }

  /** A sequence that agrees with `t` below `j`, holds `x` at `j` and
      `t` shifted right by one above it is `t` with `x` put in at `j`. */
  lemma ShiftedIs<T>(s: seq<T>, t: seq<T>, x: T, j: nat)
    requires j <= |t| && |s| == |t| + 1
    requires forall k :: 0 <= k < j ==> s[k] == t[k]
    requires s[j] == x
    requires forall k :: j < k < |s| ==> s[k] == t[k - 1]
    ensures s == t[..j] + [x] + t[j..]
  {
  }

  /** The inner loop of the insertion sort: shifts the smaller-keyed elements of the sorted prefix `a[..i]` right by one
      and drops `a[i]` into the gap. */
  method InsertInto<T>(a: array<T>, i: nat, key: T -> int)
    requires i < a.Length
    modifies a
    ensures a[..i + 1] == InsertDesc(old(a[..i]), old(a[i]), key)
    ensures a[i + 1..] == old(a[i + 1..])
  {
    var x := a[i];
    ghost var t, rest := a[..i], a[i + 1..];
    var j := i;
    while j > 0 && key(a[j - 1]) < key(x)
      invariant 0 <= j <= i
      invariant forall k :: 0 <= k < j ==> a[k] == t[k]
      invariant forall k :: j < k <= i ==> a[k] == t[k - 1]
      invariant a[i + 1..] == rest
      invariant forall k :: j <= k < i ==> key(t[k]) < key(x)
    {
      a[j] := a[j - 1];
      j := j - 1;
    }
    InsertDescAt(t, x, key, j);
    a[j] := x;
    ShiftedIs(a[..i + 1], t, x, j);
  }

  /** The in-place sort: insertion sort, which is stable, so by
      `SortDescUnique` it leaves the array as any stable sort would. */
  method SortInPlace<T>(a: array<T>, key: T -> int)
    modifies a
    ensures a[..] == SortDesc(old(a[..]), key)
  {
    ghost var input := a[..];
    var i := 0;
    while i < a.Length
      invariant 0 <= i <= a.Length
      invariant a[..i] == SortDesc(input[..i], key)
      invariant a[i..] == input[i..]
    {
      InsertInto(a, i, key);
      assert input[..i + 1][..i] == input[..i];
      assert input[..i + 1][i] == input[i];
      i := i + 1;
    }
    assert input[..a.Length] == input;
  }
}
