/**
 * In-place sorting of a slice by an integer rank, standing for the
 * standard library sorts the source calls (`sort.Slice`, `sort.Sort`,
 * `slices.SortFunc`). None of them is stable, so the model promises only
 * what they promise: the result is ordered and is a permutation.
 */
module Sorting {
  ghost predicate SortedBy<T>(s: seq<T>, rank: T -> int)
  {
    forall i, j :: 0 <= i < j < |s| ==> rank(s[i]) <= rank(s[j])
  }

  /** Index of a lowest-ranked element of `a[from..]`. */
  method MinFrom<T>(a: array<T>, from: nat, rank: T -> int) returns (m: nat)
    requires from < a.Length
    ensures from <= m < a.Length
    ensures forall q :: from <= q < a.Length ==> rank(a[m]) <= rank(a[q])
  {
    m := from;
    var k := from + 1;
    while k < a.Length
      invariant from <= m < a.Length && from < k <= a.Length
      invariant forall q :: from <= q < k ==> rank(a[m]) <= rank(a[q])
    {
      if rank(a[k]) < rank(a[m]) { m := k; }
      k := k + 1;
    }
  }

  /** Exchanges two elements. */
  method Exchange<T>(a: array<T>, i: nat, j: nat)
    requires i < a.Length && j < a.Length
    modifies a
    ensures a[..] == old(a[..])[i := old(a[j])][j := old(a[i])]
    ensures multiset(a[..]) == multiset(old(a[..]))
  {
    a[i], a[j] := a[j], a[i];
  }

  /** The first `i` elements are in order. */
  ghost predicate SortedPrefix<T>(s: seq<T>, i: int, rank: T -> int)
  {
    forall p, q :: 0 <= p < q < i && q < |s| ==> rank(s[p]) <= rank(s[q])
  }

  /** No element of the first `i` ranks above an element after them. */
  ghost predicate Partitioned<T>(s: seq<T>, i: int, rank: T -> int)
  {
    forall p, q :: 0 <= p < i <= q < |s| ==> rank(s[p]) <= rank(s[q])
  }

  /** Moving a lowest-ranked element of the rest to position `i` extends the sorted prefix. */
  lemma SelectStep<T>(s: seq<T>, i: int, m: int, rank: T -> int)
    requires 0 <= i <= m < |s|
    requires SortedPrefix(s, i, rank) && Partitioned(s, i, rank)
    requires forall q :: i <= q < |s| ==> rank(s[m]) <= rank(s[q])
    ensures SortedPrefix(s[i := s[m]][m := s[i]], i + 1, rank)
    ensures Partitioned(s[i := s[m]][m := s[i]], i + 1, rank)
  {
  }

  /** Selection sort: after the call `a` holds the same elements ordered by `rank`. */
  method SortBy<T>(a: array<T>, rank: T -> int)
    modifies a
    ensures SortedBy(a[..], rank)
    ensures multiset(a[..]) == multiset(old(a[..]))
  {
    var i := 0;
    while i < a.Length
      invariant 0 <= i <= a.Length
      invariant multiset(a[..]) == multiset(old(a[..]))
      invariant SortedPrefix(a[..], i, rank) && Partitioned(a[..], i, rank)
    {
      var m := MinFrom(a, i, rank);
      SelectStep(a[..], i, m, rank);
      Exchange(a, i, m);
      i := i + 1;
    }
  }
}
