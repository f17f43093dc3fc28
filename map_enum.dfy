/**
 * Ranging over a Go map. The language leaves the order unspecified, so
 * the model picks keys nondeterministically and promises only that every
 * key is visited exactly once.
 */
module MapEnum {
  /** `ks` lists every element of `keys` exactly once. */
  ghost predicate Enumerates<K(!new)>(ks: seq<K>, keys: set<K>)
  {
    && (forall i, j :: 0 <= i < j < |ks| ==> ks[i] != ks[j])
    && (forall k :: k in keys <==> k in ks)
  }

  /** `for k := range s` over a Go map used as a set, collecting the elements in visiting order. */
  method Elements<K(!new)>(s: set<K>) returns (ks: seq<K>)
    ensures Enumerates(ks, s)
    ensures |ks| == |s|
  {
    ks := [];
    var rest := s;
    while rest != {}
      invariant rest <= s
      invariant forall k :: k in s <==> k in ks || k in rest
      invariant forall k :: k in ks ==> k !in rest
      invariant forall i, j :: 0 <= i < j < |ks| ==> ks[i] != ks[j]
      invariant |ks| + |rest| == |s|
    {
      var k :| k in rest;
      ks := ks + [k];
      rest := rest - {k};
    }
  }

  /** `for k := range m`, collecting the keys in visiting order. */
  method Keys<K(!new), V>(m: map<K, V>) returns (ks: seq<K>)
    ensures Enumerates(ks, m.Keys)
    ensures |ks| == |m|
  {
    ks := Elements(m.Keys);
  }

  /** An element listed once in `ks` occurs there at most once. */
  lemma {:induction false} DistinctOccursOnce<K>(ks: seq<K>, x: K)
    requires forall i, j :: 0 <= i < j < |ks| ==> ks[i] != ks[j]
    ensures multiset(ks)[x] <= 1
  {
    if ks != [] {
      assert ks == [ks[0]] + ks[1..];
      DistinctOccursOnce(ks[1..], x);
      if ks[0] == x {
        assert x !in ks[1..];
      }
    }
  }

  /** Two equal elements at different positions occur at least twice. */
  lemma RepeatedOccursTwice<K>(ls: seq<K>, i: int, j: int)
    requires 0 <= i < j < |ls|
    ensures ls[i] == ls[j] ==> multiset(ls)[ls[i]] >= 2
  {
    assert ls == ls[..i] + [ls[i]] + ls[i + 1..j] + [ls[j]] + ls[j + 1..];
  }

  /** Reordering an enumeration (`sort.Sort` on the collected keys) keeps it an enumeration. */
  lemma EnumeratesPermuted<K(!new)>(ks: seq<K>, ls: seq<K>, keys: set<K>)
    requires Enumerates(ks, keys) && multiset(ks) == multiset(ls)
    ensures Enumerates(ls, keys)
  {
    forall k
      ensures k in keys <==> k in ls
    {
      assert k in ls <==> k in multiset(ls);
      assert k in ks <==> k in multiset(ks);
    }
    forall i, j | 0 <= i < j < |ls|
      ensures ls[i] != ls[j]
    {
      RepeatedOccursTwice(ls, i, j);
      DistinctOccursOnce(ks, ls[i]);
    }
  }

  /** `for _, v := range m`, collecting the values in visiting order. */
  method Values<K(!new), V>(m: map<K, V>) returns (vs: seq<V>, ghost ks: seq<K>)
    ensures Enumerates(ks, m.Keys)
    ensures |vs| == |ks| == |m|
    ensures forall i :: 0 <= i < |vs| ==> ks[i] in m && vs[i] == m[ks[i]]
  {
    var order := Keys(m);
    ks := order;
    vs := [];
    var i := 0;
    while i < |order|
      invariant 0 <= i <= |order|
      invariant |vs| == i
      invariant forall j :: 0 <= j < i ==> order[j] in m && vs[j] == m[order[j]]
    {
      vs := vs + [m[order[i]]];
      i := i + 1;
    }
  }
}
