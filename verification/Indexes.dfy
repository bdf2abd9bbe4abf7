/**
 * Secondary indexes: the hash and ordered kinds keep an ascending id list per
 * key, the bitmap kind keeps a bit set. Each is a set of (key, id) pairs to
 * whoever uses it, and over the same pairs they answer alike.
 */
module Indexes {
  import opened Basics
  import opened Records
  import opened Bitsets

  const ID_BYTES: nat := 8
  const NODE_OVERHEAD: nat := 48

  // -- pairs ---------------------------------------------------------------

  ghost predicate Lists(ids: seq<nat>, s: set<nat>) {
    Ascending(ids) && forall j: nat :: j in ids <==> j in s
  }

  /** An ascending listing is determined by what it lists. */
  lemma {:induction false} ListsOnce(a: seq<nat>, b: seq<nat>, s: set<nat>)
    requires Lists(a, s) && Lists(b, s)
    ensures a == b
    decreases |a|
  {
    assert forall i | 0 <= i < |a| :: a[i] in a && a[i] in s;
    assert forall i | 0 <= i < |b| :: b[i] in b && b[i] in s;
    assert a != [] ==> a[0] in b;
    assert b != [] ==> b[0] in a;
    if a != [] && b != [] {
      var x := a[|a| - 1];
      assert x in a && b[|b| - 1] in b && b[|b| - 1] in a && x in b;
      assert x == b[|b| - 1];
      DropLast(a, s);
      DropLast(b, s);
      ListsOnce(a[..|a| - 1], b[..|b| - 1], s - {x});
    }
  }

  lemma DropLast(a: seq<nat>, s: set<nat>)
    requires a != [] && Lists(a, s)
    ensures Lists(a[..|a| - 1], s - {a[|a| - 1]})
  {
    var n := |a| - 1;
    forall j: nat ensures j in a[..n] <==> j in s - {a[n]} {
      if j in s && j != a[n] {
        var i :| 0 <= i < |a| && a[i] == j;
        assert a[..n][i] == j;
      }
    }
  }

  /** The ids filed under a key. */
  ghost function IdsOf<K(!new)>(p: set<(K, nat)>, k: K): set<nat> {
    set e | e in p && e.0 == k :: e.1
  }

  lemma InIdsOf<K(!new)>(p: set<(K, nat)>, k: K, id: nat)
    ensures id in IdsOf(p, k) <==> (k, id) in p
  {
    if (k, id) in p {
      assert (k, id).0 == k && (k, id).1 == id;
    }
  }

  // -- sums ----------------------------------------------------------------

  ghost function Sum<T(!new)>(s: set<T>, w: T -> nat): nat {
    if s == {} then 0 else var x :| x in s; w(x) + Sum(s - {x}, w)
  }

  lemma {:induction false} SumTakes<T(!new)>(s: set<T>, x: T, w: T -> nat)
    requires x in s
    ensures Sum(s, w) == w(x) + Sum(s - {x}, w)
    decreases s
  {
    var y :| y in s && Sum(s, w) == w(y) + Sum(s - {y}, w);
    if y != x {
      SumTakes(s - {y}, x, w);
      SumTakes(s - {x}, y, w);
      assert s - {y} - {x} == s - {x} - {y};
    }
  }

  lemma SumAdds<T(!new)>(s: set<T>, x: T, w: T -> nat)
    requires x !in s
    ensures Sum(s + {x}, w) == w(x) + Sum(s, w)
  {
    SumTakes(s + {x}, x, w);
    assert s + {x} - {x} == s;
  }

  // -- an ascending id list per key ----------------------------------------

  /** Where `id` is in an ascending list, or where it would go. */
  function Slot(ids: seq<nat>, id: nat): (at: nat)
    ensures at <= |ids|
  {
    if ids == [] || id <= ids[0] then 0 else 1 + Slot(ids[1..], id)
  }

  predicate Found(ids: seq<nat>, id: nat) {
    var at := Slot(ids, id);
    at < |ids| && ids[at] == id
  }

  lemma {:induction false} SlotSplits(ids: seq<nat>, id: nat)
    requires Ascending(ids)
    ensures forall i :: 0 <= i < Slot(ids, id) ==> ids[i] < id
    ensures forall i :: Slot(ids, id) <= i < |ids| ==> id <= ids[i]
    ensures Found(ids, id) <==> id in ids
  {
    if ids != [] && id > ids[0] {
      SlotSplits(ids[1..], id);
      assert forall i | 0 < i < |ids| :: ids[i] == ids[1..][i - 1];
    }
  }

  lemma Joins(a: seq<nat>, b: seq<nat>)
    requires Ascending(a) && Ascending(b)
    requires forall i, j :: 0 <= i < |a| && 0 <= j < |b| ==> a[i] < b[j]
    ensures Ascending(a + b)
    ensures forall j: nat :: j in a + b <==> j in a || j in b
  {
  }

  function Placed(ids: seq<nat>, id: nat): seq<nat> {
    ids[..Slot(ids, id)] + ([id] + ids[Slot(ids, id)..])
  }

  function Without(ids: seq<nat>, id: nat): seq<nat>
    requires Found(ids, id)
  {
    ids[..Slot(ids, id)] + ids[Slot(ids, id) + 1..]
  }

  lemma Insertion(ids: seq<nat>, id: nat)
    requires Ascending(ids) && id !in ids
    ensures Ascending(Placed(ids, id)) && Placed(ids, id) != []
    ensures forall j: nat :: j in Placed(ids, id) <==> j in ids || j == id
  {
    SlotSplits(ids, id);
    hide Slot, Found;
    var at := Slot(ids, id);
    var a, b := ids[..at], ids[at..];
    assert ids == a + b;
    assert forall i | at <= i < |ids| :: ids[i] in ids;
    Joins([id], b);
    Joins(a, [id] + b);
  }

  lemma Deletion(ids: seq<nat>, id: nat)
    requires Ascending(ids) && Found(ids, id)
    ensures id in ids && Ascending(Without(ids, id))
    ensures forall j: nat :: j in Without(ids, id) <==> j in ids && j != id
  {
    SlotSplits(ids, id);
    var at := Slot(ids, id);
    var a, b := ids[..at], ids[at + 1..];
    assert ids == a + [id] + b;
    hide Slot, Found;
    Joins(a, b);
  }

  ghost function PairsIn<K(!new)>(m: map<K, seq<nat>>): set<(K, nat)> {
    set k, id | k in m.Keys && id in m[k] :: (k, id)
  }

  lemma SamePairs<K(!new)>(p: set<(K, nat)>, q: set<(K, nat)>)
    requires forall j: K, id: nat :: (j, id) in p <==> (j, id) in q
    ensures p == q
  {
    forall e: (K, nat) ensures e in p <==> e in q {
      assert e == (e.0, e.1);
    }
  }

  /** The pairs after one key's list is replaced, or dropped with the key. */
  lemma PairsAfter<K(!new)>(m: map<K, seq<nat>>, k: K, ids: seq<nat>, p: set<(K, nat)>)
    requires forall j: K, id: nat :: (j, id) in p <==> if j == k then id in ids else (j, id) in PairsIn(m)
    ensures PairsIn(m[k := ids]) == p
    ensures ids == [] ==> PairsIn(m - {k}) == p
  {
    SamePairs(PairsIn(m[k := ids]), p);
    if ids == [] {
      SamePairs(PairsIn(m - {k}), p);
    }
  }

  /** What a map of id lists takes, to the byte. */
  ghost function Footprint<K(!new)>(m: map<K, seq<nat>>, size: K -> nat): nat {
    Sum(m.Keys, size) + NODE_OVERHEAD * |m.Keys| + ID_BYTES * |PairsIn(m)|
  }

  ghost predicate Sound<K(!new)>(m: map<K, seq<nat>>) {
    forall k | k in m :: m[k] != [] && Ascending(m[k])
  }

  function Under<K>(m: map<K, seq<nat>>, k: K): seq<nat> {
    if k in m then m[k] else []
  }

  lemma AddedPair<K(!new)>(m: map<K, seq<nat>>, k: K, id: nat, size: K -> nat)
    requires Sound(m)
    ensures var ids := Under(m, k);
      if Found(ids, id) then PairsIn(m) + {(k, id)} == PairsIn(m) && k in m
      else
        var m' := m[k := Placed(ids, id)];
        && Sound(m') && PairsIn(m') == PairsIn(m) + {(k, id)} && |PairsIn(m')| == |PairsIn(m)| + 1
        && Footprint(m', size) == Footprint(m, size) + ID_BYTES + if ids == [] then size(k) + NODE_OVERHEAD else 0
  {
    var ids := Under(m, k);
    SlotSplits(ids, id);
    UnderHolds(m, k, id);
    hide PairsIn;
    if !Found(ids, id) {
      Insertion(ids, id);
      hide Found, Slot, Placed, Sound, Under;
      SoundWith(m, k, Placed(ids, id));
      PairJoins(m, k, id, Placed(ids, id));
      KeysGrow(m, k, Placed(ids, id), size);
    }
  }

  /** An id is in a key's list exactly when it is filed under the key. */
  lemma UnderHolds<K(!new)>(m: map<K, seq<nat>>, k: K, id: nat)
    requires Sound(m)
    ensures id in Under(m, k) <==> (k, id) in PairsIn(m)
    ensures id in Under(m, k) ==> k in m
    ensures k !in m <==> Under(m, k) == []
  {
  }

  lemma SoundWith<K(!new)>(m: map<K, seq<nat>>, k: K, ids: seq<nat>)
    requires Sound(m) && ids != [] && Ascending(ids)
    ensures Sound(m[k := ids])
  {
    hide Ascending;
  }

  lemma PairJoins<K(!new)>(m: map<K, seq<nat>>, k: K, id: nat, ids: seq<nat>)
    requires forall j: nat :: j in ids <==> j in Under(m, k) || j == id
    requires id !in Under(m, k)
    ensures PairsIn(m[k := ids]) == PairsIn(m) + {(k, id)} && |PairsIn(m[k := ids])| == |PairsIn(m)| + 1
  {
    PairsAfter(m, k, ids, PairsIn(m) + {(k, id)});
    assert (k, id) !in PairsIn(m);
  }

  lemma KeysGrow<K(!new)>(m: map<K, seq<nat>>, k: K, ids: seq<nat>, size: K -> nat)
    ensures |m[k := ids].Keys| == |m.Keys| + if k in m then 0 else 1
    ensures Sum(m[k := ids].Keys, size) == Sum(m.Keys, size) + if k in m then 0 else size(k)
  {
    if k in m {
      assert m[k := ids].Keys == m.Keys;
    } else {
      assert m[k := ids].Keys == m.Keys + {k};
      SumAdds(m.Keys, k, size);
    }
  }

  lemma NoSuchPair<K(!new)>(m: map<K, seq<nat>>, k: K, id: nat)
    requires Sound(m) && !Found(Under(m, k), id)
    ensures PairsIn(m) - {(k, id)} == PairsIn(m)
  {
    SlotSplits(Under(m, k), id);
    assert (k, id) !in PairsIn(m);
  }

  /** One id taken off a key's list, and the key with it when it was the last. */
  function Shrunk<K>(m: map<K, seq<nat>>, k: K, rest: seq<nat>): map<K, seq<nat>> {
    if rest == [] then m - {k} else m[k := rest]
  }

  lemma RemovedPair<K(!new)>(m: map<K, seq<nat>>, k: K, id: nat, size: K -> nat)
    requires Sound(m) && k in m && Found(m[k], id)
    ensures var rest := Without(m[k], id);
      var m' := Shrunk(m, k, rest);
      && Sound(m') && PairsIn(m') == PairsIn(m) - {(k, id)} && |PairsIn(m)| == |PairsIn(m')| + 1
      && Footprint(m, size) == Footprint(m', size) + ID_BYTES + if rest == [] then size(k) + NODE_OVERHEAD else 0
  {
    var rest := Without(m[k], id);
    SlotSplits(m[k], id);
    Deletion(m[k], id);
    assert (k, id) in PairsIn(m);
    PairsAfter(m, k, rest, PairsIn(m) - {(k, id)});
    if rest == [] {
      SumTakes(m.Keys, k, size);
      assert (m - {k}).Keys == m.Keys - {k};
    } else {
      assert m[k := rest].Keys == m.Keys;
    }
  }

  class Core<K(==, !new)> {
    const size: K -> nat
    var lists: map<K, seq<nat>>
    var entries: nat
    var bytes: nat

    ghost function Pairs(): set<(K, nat)>
      reads this
    {
      PairsIn(lists)
    }

    ghost predicate Valid()
      reads this
    {
      Sound(lists) && entries == |Pairs()| && bytes == Footprint(lists, size)
    }

    constructor (size: K -> nat)
      ensures Valid() && Pairs() == {} && this.size == size
    {
      this.size := size;
      lists, entries, bytes := map[], 0, 0;
    }

    method Insert(key: K, id: nat)
      requires Valid()
      modifies this
      ensures Valid() && Pairs() == old(Pairs()) + {(key, id)}
      ensures bytes == old(bytes) + (if (key, id) in old(Pairs()) then 0 else 8) + (if key in old(lists) then 0 else size(key) + 48)
      ensures entries == old(entries) + (if (key, id) in old(Pairs()) then 0 else 1)
    {
      var ids := Under(lists, key);
      assert ids == [] <==> key !in lists;
      hide Footprint, PairsIn, Found, Slot, Sound, Placed, Under;
      AddedPair(lists, key, id, size);
      NotInEmpty(id);
      if ids == [] {
        bytes := bytes + size(key) + NODE_OVERHEAD;
      }
      if Found(ids, id) {
        return;
      }
      lists := lists[key := Placed(ids, id)];
      entries := entries + 1;
      bytes := bytes + ID_BYTES;
    }

    method Remove(key: K, id: nat)
      requires Valid()
      modifies this
      ensures Valid() && Pairs() == old(Pairs()) - {(key, id)}
      ensures old(bytes) == bytes + (if (key, id) in old(Pairs()) then 8 else 0) + (if key in old(lists) && key !in lists then size(key) + 48 else 0)
      ensures old(entries) == entries + (if (key, id) in old(Pairs()) then 1 else 0)
    {
      NotInEmpty(id);
      hide Footprint, PairsIn, Found, Slot, Sound, Without;
      if key !in lists {
        NoSuchPair(lists, key, id);
        return;
      }
      var ids := lists[key];
      if !Found(ids, id) {
        NoSuchPair(lists, key, id);
        return;
      }
      RemovedPair(lists, key, id, size);
      var rest := Without(ids, id);
      entries := entries - 1;
      bytes := Saturating(bytes, ID_BYTES);
      if rest == [] {
        bytes := Saturating(bytes, size(key) + NODE_OVERHEAD);
      }
      lists := Shrunk(lists, key, rest);
    }

    method Lookup(key: K) returns (ids: seq<nat>)
      requires Valid()
      ensures Lists(ids, IdsOf(Pairs(), key))
    {
      ids := Under(lists, key);
      forall j: nat ensures j in ids <==> j in IdsOf(Pairs(), key) {
        InIdsOf(Pairs(), key, j);
      }
    }
  }

  lemma NotInEmpty(id: nat)
    ensures !Found([], id)
  {
  }

  function Saturating(a: nat, b: nat): nat {
    if a < b then 0 else a - b
  }

  // -- a bit set per key ---------------------------------------------------

  ghost function BitPairs<K(!new)>(m: map<K, Bits>): set<(K, nat)> {
    set k, id | k in m.Keys && 0 <= id < 64 * |m[k]| && Has(m[k], id) :: (k, id)
  }

  lemma InBitPairs<K(!new)>(m: map<K, Bits>, k: K, id: nat)
    ensures (k, id) in BitPairs(m) <==> k in m && Has(m[k], id)
  {
  }

  lemma BitPairsAfter<K(!new)>(m: map<K, Bits>, k: K, b: Bits, p: set<(K, nat)>)
    requires forall j: K, id: nat :: (j, id) in p <==> if j == k then Has(b, id) else (j, id) in BitPairs(m)
    ensures BitPairs(m[k := b]) == p
    ensures NoBits(b) ==> BitPairs(m - {k}) == p
  {
    EmptyHas(b);
    hide Has, NoBits;
    forall j: K, id: nat ensures (j, id) in BitPairs(m[k := b]) <==> (j, id) in p {
      InBitPairs(m, j, id);
      InBitPairs(m[k := b], j, id);
    }
    SamePairs(BitPairs(m[k := b]), p);
    if NoBits(b) {
      forall j: K, id: nat ensures (j, id) in BitPairs(m - {k}) <==> (j, id) in p {
        InBitPairs(m, j, id);
        InBitPairs(m - {k}, j, id);
      }
      SamePairs(BitPairs(m - {k}), p);
    }
  }

  function BitsOf<K>(m: map<K, Bits>, k: K): Bits {
    if k in m then m[k] else []
  }

  ghost predicate NoneEmpty<K(!new)>(m: map<K, Bits>) {
    forall k | k in m :: !NoBits(m[k])
  }

  lemma SetPair<K(!new)>(m: map<K, Bits>, k: K, id: nat)
    requires NoneEmpty(m)
    ensures var b := BitsOf(m, k);
      if Get(b, id) then BitPairs(m) + {(k, id)} == BitPairs(m)
      else
        var m' := m[k := Set(b, id)];
        NoneEmpty(m') && BitPairs(m') == BitPairs(m) + {(k, id)} && |BitPairs(m')| == |BitPairs(m)| + 1
  {
    var b := BitsOf(m, k);
    InBitPairs(m, k, id);
    GetHas(b, id);
    if !Get(b, id) {
      var next := Set(b, id);
      SetHas(b, id, id);
      EmptyHas(next);
      hide Get, Set, Has, NoBits;
      var p := BitPairs(m) + {(k, id)};
      forall j: K, i: nat ensures (j, i) in p <==> if j == k then Has(next, i) else (j, i) in BitPairs(m) {
        SetHas(b, id, i);
        InBitPairs(m, j, i);
        EmptyBits(i);
      }
      BitPairsAfter(m, k, next, p);
    }
  }

  lemma EmptyBits(i: nat)
    ensures !Has([], i)
  {
  }

  lemma ClearPair<K(!new)>(m: map<K, Bits>, k: K, id: nat)
    requires NoneEmpty(m) && k in m
    ensures !NoBits(m[k])
    ensures var b := m[k];
      if !Get(b, id) then BitPairs(m) - {(k, id)} == BitPairs(m)
      else
        var m' := if NoBits(Clear(b, id)) then m - {k} else m[k := Clear(b, id)];
        NoneEmpty(m') && BitPairs(m') == BitPairs(m) - {(k, id)} && |BitPairs(m')| == |BitPairs(m)| - 1
  {
    var b := m[k];
    InBitPairs(m, k, id);
    GetHas(b, id);
    if Get(b, id) {
      var next := Clear(b, id);
      hide Get, Clear, Has, NoBits;
      var p := BitPairs(m) - {(k, id)};
      forall j: K, i: nat ensures (j, i) in p <==> if j == k then Has(next, i) else (j, i) in BitPairs(m) {
        ClearHas(b, id, i);
        InBitPairs(m, j, i);
      }
      BitPairsAfter(m, k, next, p);
    }
  }

  class BitmapIndex<K(==, !new)> {
    var sets: map<K, Bits>
    var entries: nat

    ghost function Pairs(): set<(K, nat)>
      reads this
    {
      BitPairs(sets)
    }

    ghost predicate Valid()
      reads this
    {
      NoneEmpty(sets) && entries == |Pairs()|
    }

    constructor ()
      ensures Valid() && Pairs() == {}
    {
      sets, entries := map[], 0;
    }

    method Insert(key: K, id: nat)
      requires Valid()
      modifies this
      ensures Valid() && Pairs() == old(Pairs()) + {(key, id)}
    {
      var bits := BitsOf(sets, key);
      SetPair(sets, key, id);
      hide Get, Set, BitPairs, NoneEmpty;
      if !Get(bits, id) {
        sets := sets[key := Set(bits, id)];
        entries := entries + 1;
      }
    }

    method Remove(key: K, id: nat)
      requires Valid()
      modifies this
      ensures Valid() && Pairs() == old(Pairs()) - {(key, id)}
    {
      if key !in sets {
        InBitPairs(sets, key, id);
        assert Pairs() - {(key, id)} == Pairs();
        return;
      }
      var bits := sets[key];
      ClearPair(sets, key, id);
      hide Get, Clear, BitPairs, NoBits;
      if Get(bits, id) {
        bits := Clear(bits, id);
        entries := entries - 1;
        assert sets[key := bits] - {key} == sets - {key};
        sets := sets[key := bits];
      }
      if NoBits(bits) {
        sets := sets - {key};
      }
    }

    method Lookup(key: K) returns (ids: seq<nat>)
      requires Valid()
      ensures Lists(ids, IdsOf(Pairs(), key))
    {
      if key in sets {
        ids := Bitsets.Ids(sets[key]);
      } else {
        ids := [];
      }
      forall j: nat ensures j in ids <==> j in IdsOf(Pairs(), key) {
        InIdsOf(Pairs(), key, j);
        InBitPairs(sets, key, j);
      }
    }
  }

  /** Two indexes of different kinds that hold the same pairs answer every lookup alike. */
  method SameAnswer<K(==, !new)>(core: Core<K>, bitmap: BitmapIndex<K>, key: K) returns (a: seq<nat>, b: seq<nat>)
    requires core.Valid() && bitmap.Valid() && core.Pairs() == bitmap.Pairs()
    ensures a == b && core.entries == bitmap.entries
  {
    a := core.Lookup(key);
    b := bitmap.Lookup(key);
    ListsOnce(a, b, IdsOf(core.Pairs(), key));
  }
}
