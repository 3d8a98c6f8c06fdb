/** `Array.prototype.sort(compare)` with a comparator that subtracts two numbers, as the
    popup uses it: since ECMAScript 2019 the sort is stable, so it orders the elements by a
    rank, smallest first, and keeps elements of equal rank in the order they had. */
module Sorting {

  /** No element ranks above one after it. */
  predicate Sorted<T>(xs: seq<T>, rank: T -> int)
  {
    forall i, j :: 0 <= i < j < |xs| ==> rank(xs[i]) <= rank(xs[j])
  }

  /** `x` put into `p` after every element, counted from the end, whose rank is not larger
      than its own. */
  function Insert<T>(p: seq<T>, x: T, rank: T -> int): seq<T>
    decreases |p|
  {
    if p == [] || rank(p[|p| - 1]) <= rank(x) then p + [x]
    else Insert(p[..|p| - 1], x, rank) + [p[|p| - 1]]
  }

  /** The stable sort by `rank`: every element in turn, first to last, inserted into the
      sorted elements before it. */
  function SortBy<T>(xs: seq<T>, rank: T -> int): seq<T>
    decreases |xs|
  {
    if xs == [] then [] else Insert(SortBy(xs[..|xs| - 1], rank), xs[|xs| - 1], rank)
  }

  /** The elements of rank `v`, in order. */
  function OfRank<T>(xs: seq<T>, rank: T -> int, v: int): seq<T>
    decreases |xs|
  {
    if xs == [] then []
    else OfRank(xs[..|xs| - 1], rank, v) + (if rank(xs[|xs| - 1]) == v then [xs[|xs| - 1]] else [])
  }

  lemma {:induction false} InsertElements<T>(p: seq<T>, x: T, rank: T -> int)
    ensures multiset(Insert(p, x, rank)) == multiset(p) + multiset{x}
    decreases |p|
  {
    if p != [] && rank(p[|p| - 1]) > rank(x) {
      var init, last := p[..|p| - 1], p[|p| - 1];
      InsertElements(init, x, rank);
      assert p == init + [last];
    }
  }

  lemma {:induction false} InsertSorted<T>(p: seq<T>, x: T, rank: T -> int)
    requires Sorted(p, rank)
    ensures Sorted(Insert(p, x, rank), rank)
    decreases |p|
  {
    if p != [] {
      var init, last := p[..|p| - 1], p[|p| - 1];
      forall y | y in init
        ensures rank(y) <= rank(last)
      {
        var k :| 0 <= k < |init| && init[k] == y;
        assert p[k] == y;
      }
      if rank(last) > rank(x) {
        assert Sorted(init, rank) by {
          forall i, j | 0 <= i < j < |init|
            ensures rank(init[i]) <= rank(init[j])
          {
            assert init[i] == p[i] && init[j] == p[j];
          }
        }
        InsertSorted(init, x, rank);
        InsertBounded(init, x, last, rank);
        AppendSorted(Insert(init, x, rank), last, rank);
      } else {
        assert p == init + [last];
        AppendSorted(p, x, rank);
      }
    }
  }

  /** Every element of `init` and `x` rank at most as high as `last`, and so does every
      element after inserting. */
  lemma InsertBounded<T>(init: seq<T>, x: T, last: T, rank: T -> int)
    requires forall y :: y in init ==> rank(y) <= rank(last)
    requires rank(x) <= rank(last)
    ensures forall y :: y in Insert(init, x, rank) ==> rank(y) <= rank(last)
  {
    var q := Insert(init, x, rank);
    InsertElements(init, x, rank);
    forall y | y in q
      ensures rank(y) <= rank(last)
    {
      assert y in multiset(q);
      if y != x {
        assert y in multiset(init);
      }
    }
  }

  /** A sorted sequence stays sorted when an element that ranks at least as high as each of
      its elements is added at the end. */
  lemma AppendSorted<T>(q: seq<T>, last: T, rank: T -> int)
    requires Sorted(q, rank)
    requires forall y :: y in q ==> rank(y) <= rank(last)
    ensures Sorted(q + [last], rank)
  {
    var r := q + [last];
    forall i, j | 0 <= i < j < |r|
      ensures rank(r[i]) <= rank(r[j])
    {
      assert r[i] == q[i];
      if j < |q| {
        assert r[j] == q[j];
      }
    }
  }

  /** Inserting `x` adds it to the elements of its rank, after them, and changes no other
      rank's elements. */
  lemma {:induction false} InsertOfRank<T>(p: seq<T>, x: T, rank: T -> int, v: int)
    ensures OfRank(Insert(p, x, rank), rank, v) == OfRank(p, rank, v) + (if rank(x) == v then [x] else [])
    decreases |p|
  {
    if p == [] || rank(p[|p| - 1]) <= rank(x) {
      OfRankLast(p, x, rank, v);
    } else {
      var init, last := p[..|p| - 1], p[|p| - 1];
      var q := Insert(init, x, rank);
      InsertOfRank(init, x, rank, v);
      OfRankLast(q, last, rank, v);
      assert init + [last] == p;
      OfRankLast(init, last, rank, v);
      if rank(x) == v {
        assert rank(last) != v;
        assert OfRank(p, rank, v) == OfRank(init, rank, v);
      } else {
        assert OfRank(init, rank, v) + [] == OfRank(init, rank, v);
      }
    }
  }

  /** The elements of a rank after adding one element at the end. */
  lemma OfRankLast<T>(p: seq<T>, x: T, rank: T -> int, v: int)
    ensures OfRank(p + [x], rank, v) == OfRank(p, rank, v) + (if rank(x) == v then [x] else [])
  {
    assert (p + [x])[..|p|] == p;
  }

  /** The result is in rank order. */
  lemma {:induction false} SortSorted<T>(xs: seq<T>, rank: T -> int)
    ensures Sorted(SortBy(xs, rank), rank)
    decreases |xs|
  {
    if xs != [] {
      SortSorted(xs[..|xs| - 1], rank);
      InsertSorted(SortBy(xs[..|xs| - 1], rank), xs[|xs| - 1], rank);
    }
  }

  /** The result holds the same elements, as many times each. */
  lemma {:induction false} SortPermutes<T>(xs: seq<T>, rank: T -> int)
    ensures multiset(SortBy(xs, rank)) == multiset(xs)
    decreases |xs|
  {
    if xs != [] {
      var init := xs[..|xs| - 1];
      SortPermutes(init, rank);
      InsertElements(SortBy(init, rank), xs[|xs| - 1], rank);
      assert xs == init + [xs[|xs| - 1]];
    }
  }

  /** Stability: the elements of every rank keep their original order. */
  lemma {:induction false} SortStable<T>(xs: seq<T>, rank: T -> int, v: int)
    ensures OfRank(SortBy(xs, rank), rank, v) == OfRank(xs, rank, v)
    decreases |xs|
  {
    if xs != [] {
      var init := xs[..|xs| - 1];
      SortStable(init, rank, v);
      InsertOfRank(SortBy(init, rank), xs[|xs| - 1], rank, v);
    }
  }

  /** `array.sort((a, b) => rank(a) - rank(b))`: an insertion sort in place, proved to
      leave the array holding `SortBy` of what it held. */
  method SortInPlace<T>(a: array<T>, rank: T -> int)
    modifies a
    ensures a[..] == SortBy(old(a[..]), rank)
  {
    ghost var orig := a[..];
    var i := 0;
    while i < a.Length
      invariant 0 <= i <= a.Length
      invariant a[..i] == SortBy(orig[..i], rank)
      invariant forall k :: i <= k < a.Length ==> a[k] == orig[k]
    {
      ghost var before := a[..];
      InsertAt(a, i, rank);
      assert before[..i] == SortBy(orig[..i], rank) && before[i] == orig[i];
      SortPrefix(orig, i, rank);
      i := i + 1;
    }
    assert a[..] == a[..a.Length] && orig == orig[..a.Length];
  }

  /** Sorting one more element of a prefix inserts it into the sorted prefix. */
  lemma SortPrefix<T>(xs: seq<T>, i: nat, rank: T -> int)
    requires i < |xs|
    ensures SortBy(xs[..i + 1], rank) == Insert(SortBy(xs[..i], rank), xs[i], rank)
  {
    assert xs[..i + 1][..i] == xs[..i];
  }

  /** One pass of the insertion sort: the element at `i` moves left past every element
      before it that ranks strictly higher. */
  method InsertAt<T>(a: array<T>, i: nat, rank: T -> int)
    requires i < a.Length
    modifies a
    ensures a[..i + 1] == Insert(old(a[..i]), old(a[i]), rank)
    ensures forall k :: i < k < a.Length ==> a[k] == old(a[k])
  {
    var x := a[i];
    ghost var p := a[..i];
    var j := i;
    while j > 0 && rank(a[j - 1]) > rank(x)
      invariant 0 <= j <= i
      invariant forall k :: 0 <= k < j ==> a[k] == p[k]
      invariant forall k :: j < k <= i ==> a[k] == p[k - 1]
      invariant forall k :: i < k < a.Length ==> a[k] == old(a[k])
      invariant forall k :: j <= k < i ==> rank(p[k]) > rank(x)
    {
      a[j] := a[j - 1];
      j := j - 1;
    }
    a[j] := x;
    InsertPoint(p, j, x, rank);
    Assemble(a[..], p, x, j, i);
  }

  /** `x` goes right after the last element that does not rank higher. */
  lemma {:induction false} InsertPoint<T>(p: seq<T>, j: nat, x: T, rank: T -> int)
    requires j <= |p| && (j == 0 || rank(p[j - 1]) <= rank(x))
    requires forall k :: j <= k < |p| ==> rank(p[k]) > rank(x)
    ensures Insert(p, x, rank) == p[..j] + [x] + p[j..]
    decreases |p|
  {
    if |p| == j {
      assert p[..j] == p && p[j..] == [];
    } else {
      var init, last := p[..|p| - 1], p[|p| - 1];
      InsertPoint(init, j, x, rank);
      assert init[..j] == p[..j] && init[j..] + [last] == p[j..];
    }
  }

  /** The array contents after a pass, read as a sequence. */
  lemma Assemble<T>(s: seq<T>, p: seq<T>, x: T, j: nat, i: nat)
    requires j <= i == |p| < |s| && s[j] == x
    requires forall k :: 0 <= k < j ==> s[k] == p[k]
    requires forall k :: j < k <= i ==> s[k] == p[k - 1]
    ensures s[..i + 1] == p[..j] + [x] + p[j..]
  {
    var r := p[..j] + [x] + p[j..];
    forall k | 0 <= k < i + 1
      ensures s[k] == r[k]
    {
      if k > j {
        assert r[k] == p[j..][k - j - 1];
      }
    }
  }
}
