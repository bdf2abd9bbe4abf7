/** Small vocabulary shared by every module. */
module Basics {
  datatype Option<+T> = None | Some(value: T)

  /** The value a finite map holds at a key, if any. */
  function Lookup<K, V>(m: map<K, V>, k: K): Option<V> {
    if k in m then Some(m[k]) else None
  }

  /** A map is what it holds at each key. */
  lemma SameMap<K(!new), V>(a: map<K, V>, b: map<K, V>)
    ensures a == b <==> forall k :: Lookup(a, k) == Lookup(b, k)
  {
    if forall k :: Lookup(a, k) == Lookup(b, k) {
      assert forall k :: k in a <==> Lookup(a, k).Some?;
      assert forall k :: k in b <==> Lookup(b, k).Some?;
      assert forall k | k in a :: a[k] == Lookup(a, k).value;
    }
  }

  /** A sequence that lists exactly the elements of `s`, each once. */
  ghost predicate Enumerates<T>(q: seq<T>, s: set<T>) {
    && (forall i, j :: 0 <= i < j < |q| ==> q[i] != q[j])
    && (forall x | x in q :: x in s)
    && (forall x | x in s :: x in q)
  }

  /** Some enumeration of a finite set, in no promised order. */
  method ToSeq<T(==)>(s: set<T>) returns (q: seq<T>)
    ensures Enumerates(q, s)
  {
    q := [];
    var rest := s;
    while rest != {}
      invariant rest <= s
      invariant Enumerates(q, s - rest)
      decreases rest
    {
      var x :| x in rest;
      q := q + [x];
      rest := rest - {x};
    }
  }

  /** The last element of one permutation, found in another and taken out of both. */
  lemma DropCommon<T>(a: seq<T>, b: seq<T>) returns (i: nat)
    requires a != [] && multiset(a) == multiset(b)
    ensures i < |b| && b[i] == a[|a| - 1]
    ensures multiset(a[..|a| - 1]) == multiset(b[..i] + b[i + 1..])
  {
    var n, x := |a| - 1, a[|a| - 1];
    assert x in multiset(b);
    i :| 0 <= i < |b| && b[i] == x;
    assert a == a[..n] + [x];
    assert b == b[..i] + [x] + b[i + 1..];
    assert multiset(a[..n]) == multiset(a) - multiset{x};
    assert multiset(b[..i] + b[i + 1..]) == multiset(b) - multiset{x};
  }
}
