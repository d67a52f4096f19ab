/** Ascending order on records, the sort `Collections.sort` performs, and an
    in-place sort of an array of records. */
module Sorting {
  import opened Records

  /** Non-decreasing order from end to end. */
  predicate Sorted(s: seq<int>)
  {
    forall i, j :: 0 <= i < j < |s| ==> s[i] <= s[j]
  }

  /** Each record is no smaller than the one before it: sortedness stated
      on neighbours, which can be kept one record at a time. */
  ghost predicate Ascending(s: seq<int>)
  {
    forall k :: 0 < k < |s| ==> s[k - 1] <= s[k]
  }

  /** Ordered neighbours make an ordered sequence. */
  lemma {:induction false} AscendingSorted(s: seq<int>)
    requires Ascending(s)
    ensures Sorted(s)
  {
    if |s| > 1 {
      var init := s[..|s| - 1];
      AscendingSorted(init);
      forall i, j | 0 <= i < j < |s|
        ensures s[i] <= s[j]
      {
        if j == |s| - 1 && i < j - 1 {
          assert init[i] <= init[j - 1];
        } else if j < |s| - 1 {
          assert init[i] <= init[j];
        }
      }
    }
  }

  /** A record no larger than the head of a sorted sequence can go before it. */
  lemma SortedCons(y: int, t: seq<int>)
    requires Sorted(t) && (t == [] || y <= t[0])
    ensures Sorted([y] + t)
  {
    var r := [y] + t;
    forall i, j | 0 <= i < j < |r|
      ensures r[i] <= r[j]
    {
      if i > 0 {
        assert r[i] == t[i - 1] && r[j] == t[j - 1];
      } else if j > 1 {
        assert t[0] <= t[j - 1];
      }
    }
  }

  /** `x` inserted into a sorted sequence at its place; the new head is `x`
      or the old head. */
  function Insert(x: Int32, s: seq<Int32>): (r: seq<Int32>)
    requires Sorted(s)
    ensures Sorted(r) && multiset(r) == multiset(s) + multiset{x}
    ensures r != [] && (r[0] == x || (s != [] && r[0] == s[0]))
  {
    if s == [] || x <= s[0] then
      SortedCons(x, s);
      [x] + s
    else
      assert s == [s[0]] + s[1..];
      var t := Insert(x, s[1..]);
      SortedCons(s[0], t);
      [s[0]] + t
  }

  /** The ascending sort of `s`: its records in non-decreasing order. */
  function Sort(s: seq<Int32>): (r: seq<Int32>)
    ensures Sorted(r) && multiset(r) == multiset(s)
  {
    if s == [] then []
    else
      assert s == s[..|s| - 1] + [s[|s| - 1]];
      Insert(s[|s| - 1], Sort(s[..|s| - 1]))
  }

  /** The first record of a sorted sequence is at most every record in it. */
  lemma SortedHeadIsMin(s: seq<Int32>, y: Int32)
    requires Sorted(s) && y in multiset(s)
    ensures s != [] && s[0] <= y
  {
    var j :| 0 <= j < |s| && s[j] == y;
  }

  lemma SplitHead(s: seq<Int32>)
    requires s != []
    ensures multiset(s[1..]) == multiset(s) - multiset{s[0]}
    ensures Sorted(s) ==> Sorted(s[1..])
  {
    assert s == [s[0]] + s[1..];
  }

  /** A sorted order of a multiset of records is unique. */
  lemma {:induction false} SortedUnique(a: seq<Int32>, b: seq<Int32>)
    requires Sorted(a) && Sorted(b) && multiset(a) == multiset(b)
    ensures a == b
    decreases |a|
  {
    if a != [] {
      SameHead(a, b);
      SplitHead(a);
      SplitHead(b);
      SortedUnique(a[1..], b[1..]);
      assert a == [a[0]] + a[1..];
      assert b == [b[0]] + b[1..];
    }
  }

  /** Two sorted sequences with the same records start with the same one. */
  lemma SameHead(a: seq<Int32>, b: seq<Int32>)
    requires Sorted(a) && Sorted(b) && multiset(a) == multiset(b) && a != []
    ensures b != [] && a[0] == b[0]
  {
    assert a[0] in multiset(a);
    SortedHeadIsMin(b, a[0]);
    assert b[0] in multiset(b);
    SortedHeadIsMin(a, b[0]);
  }

  /** Sorting is determined by the multiset of records alone. */
  lemma SortPermutation(a: seq<Int32>, b: seq<Int32>)
    requires multiset(a) == multiset(b)
    ensures Sort(a) == Sort(b)
  {
    SortedUnique(Sort(a), Sort(b));
  }

  /** Sorting an already sorted sequence leaves it unchanged. */
  lemma SortOfSorted(s: seq<Int32>)
    requires Sorted(s)
    ensures Sort(s) == s
  {
    SortedUnique(Sort(s), s);
  }

  /** Sorting is idempotent. */
  lemma SortIdempotent(s: seq<Int32>)
    ensures Sort(Sort(s)) == Sort(s)
  {
    SortOfSorted(Sort(s));
  }

  /** Exchanges two cells; the array keeps its records. */
  method Swap(a: array<Int32>, p: nat, q: nat)
    requires p < q < a.Length
    modifies a
    ensures a[..] == old(a[..])[p := old(a[q])][q := old(a[p])]
    ensures forall k :: 0 <= k < a.Length && k != p && k != q ==> a[k] == old(a[k])
    ensures multiset(a[..]) == multiset(old(a[..]))
  {
    a[p], a[q] := a[q], a[p];
  }

  /** Moves `a[i]` down into the sorted prefix `a[..i]` by swaps, so that
      `a[..i + 1]` is sorted. The cells after `i` are not touched, and
      `a[..i + 1]` is a permutation of what it held. */
  method SiftDown(a: array<Int32>, i: nat)
    requires i < a.Length && Sorted(a[..i])
    modifies a
    ensures Sorted(a[..i + 1])
    ensures forall k :: i < k < a.Length ==> a[k] == old(a[k])
    ensures multiset(a[..]) == multiset(old(a[..]))
    ensures a[i + 1..] == old(a[i + 1..])
    ensures multiset(a[..i + 1]) == multiset(old(a[..i + 1]))
  {
    ghost var before := a[..];
    SiftLoop(a, i);
    PrefixPermuted(before, a[..], i + 1);
    assert a[..][..i + 1] == a[..i + 1] && before[..i + 1] == old(a[..i + 1]);
    assert a[..][i + 1..] == a[i + 1..] && before[i + 1..] == old(a[i + 1..]);
  }

  /** The exchanges of one insertion pass: `a[i]` moves left past every
      larger cell before it. */
  method SiftLoop(a: array<Int32>, i: nat)
    requires i < a.Length && Sorted(a[..i])
    modifies a
    ensures Sorted(a[..i + 1])
    ensures forall k :: i < k < a.Length ==> a[k] == old(a[k])
    ensures multiset(a[..]) == multiset(old(a[..]))
  {
    var j := i;
    while j > 0 && a[j - 1] > a[j]
      invariant 0 <= j <= i
      invariant forall k, l :: 0 <= k < l <= i && l != j ==> a[k] <= a[l]
      invariant forall k, l :: 0 <= k < j < l <= i ==> a[k] <= a[l]
      invariant multiset(a[..]) == multiset(old(a[..]))
      invariant forall k :: i < k < a.Length ==> a[k] == old(a[k])
    {
      Swap(a, j - 1, j);
      j := j - 1;
    }
  }

  /** A permutation of the whole that leaves the cells from `m` on alone
      permutes the first `m` cells: what `SiftDown` promises for the prefix
      it sorts. */
  lemma PrefixPermuted(s: seq<Int32>, t: seq<Int32>, m: nat)
    requires m <= |s| == |t| && multiset(t) == multiset(s)
    requires forall k :: m <= k < |s| ==> t[k] == s[k]
    ensures t[m..] == s[m..] && multiset(t[..m]) == multiset(s[..m])
  {
    assert t[m..] == s[m..];
    assert s == s[..m] + s[m..];
    assert t == t[..m] + t[m..];
    assert multiset(t) == multiset(t[..m]) + multiset(t[m..]);
    assert multiset(s) == multiset(s[..m]) + multiset(s[m..]);
    assert multiset(t[..m]) == multiset(t) - multiset(t[m..]);
    assert multiset(s[..m]) == multiset(s) - multiset(s[m..]);
  }

  /** `Collections.sort(numbers)`: sorts the records in place. */
  method SortInPlace(a: array<Int32>)
    modifies a
    ensures a[..] == Sort(old(a[..]))
  {
    var i := 0;
    while i < a.Length
      invariant 0 <= i <= a.Length
      invariant Sorted(a[..i])
      invariant multiset(a[..]) == multiset(old(a[..]))
    {
      SiftDown(a, i);
      i := i + 1;
    }
    assert a[..] == a[..a.Length];
    SortedUnique(a[..], Sort(old(a[..])));
  }
}
