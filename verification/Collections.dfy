/** The objects behind index upkeep: one index of any shape, and a collection that keeps a list of them. */
module Collections {
  import opened Basics
  import opened Records
  import opened Indexes
  import opened Upkeep

  /** Whether a shape's entries are kept in bit sets rather than id lists. */
  predicate OnBits(shape: Shape) {
    !shape.Composite? && shape.kind == Bitmap
  }

  /**
   * An index's own `index_record` and `unindex_record`, over whichever store of entries
   * its kind calls for; the other stays unused.
   */
  class ShapedIndex {
    const shape: Shape
    const rules: Rules
    const core: Core<IndexKey>
    const bits: BitmapIndex<IndexKey>
    /** What one row of a covering index is charged. */
    const cost: ((nat, Record)) -> nat
    var rows: map<nat, Record>
    var bytes: nat

    ghost function Pairs(): set<(IndexKey, nat)>
      reads core, bits
    {
      if OnBits(shape) then bits.Pairs() else core.Pairs()
    }

    ghost function State(): Index
      reads this, core, bits
    {
      Index(shape, Pairs(), rows)
    }

    ghost predicate Valid()
      reads this, core, bits
    {
      core.Valid() && bits.Valid() && bytes == Sum(rows.Items, cost)
    }

    constructor (shape: Shape, rules: Rules, size: IndexKey -> nat, cost: ((nat, Record)) -> nat)
      ensures Valid() && fresh(core) && fresh(bits) && this.shape == shape && this.rules == rules
      ensures State() == Derived(rules, shape, map[])
    {
      this.shape, this.rules, this.cost := shape, rules, cost;
      core := new Core(size);
      bits := new BitmapIndex();
      rows, bytes := map[], 0;
    }

    method File(key: IndexKey, id: nat)
      requires Valid()
      modifies core, bits
      ensures Valid() && Pairs() == old(Pairs()) + {(key, id)}
    {
      if OnBits(shape) { bits.Insert(key, id); } else { core.Insert(key, id); }
    }

    method Unfile(key: IndexKey, id: nat)
      requires Valid()
      modifies core, bits
      ensures Valid() && Pairs() == old(Pairs()) - {(key, id)}
    {
      if OnBits(shape) { bits.Remove(key, id); } else { core.Remove(key, id); }
    }

    method Lookup(key: IndexKey) returns (ids: seq<nat>)
      requires Valid()
      ensures Lists(ids, IdsOf(Pairs(), key))
    {
      if OnBits(shape) { ids := bits.Lookup(key); } else { ids := core.Lookup(key); }
    }

    method IndexRecord(id: nat, r: Record)
      requires Valid()
      modifies this, core, bits
      ensures Valid() && State() == Indexed(rules, old(State()), id, r)
    {
      IndexedIs(rules, State(), id, r);
      hide Indexed, KeyOf, Projection, Sum, PairsIn, BitPairs;
      var key := KeyOf(rules.kg, shape, r);
      if key.None? {
        if shape.Covering? {
          DropRow(id);
        }
      } else if shape.Partial? && !rules.holds(shape.condition, r) {
        Unfile(key.value, id);
      } else {
        File(key.value, id);
        if shape.Covering? {
          SetRow(id, Projection(shape.covers, r));
        }
      }
    }

    method UnindexRecord(id: nat, r: Record)
      requires Valid()
      modifies this, core, bits
      ensures Valid() && State() == Unindexed(rules, old(State()), id, r)
    {
      UnindexedIs(rules, State(), id, r);
      hide Unindexed, KeyOf, Sum, PairsIn, BitPairs;
      var key := KeyOf(rules.kg, shape, r);
      if key.Some? {
        Unfile(key.value, id);
      }
      if shape.Covering? {
        DropRow(id);
      }
    }

    /** Store a projection, charging for it and crediting back the one it replaces. */
    method SetRow(id: nat, row: Record)
      requires Valid()
      modifies this
      ensures Valid() && rows == old(rows)[id := row]
    {
      bytes := bytes + cost((id, row));
      RowSet(rows, id, row, cost);
      if id in rows {
        bytes := Saturating(bytes, cost((id, rows[id])));
      }
      rows := rows[id := row];
    }

    method DropRow(id: nat)
      requires Valid()
      modifies this
      ensures Valid() && rows == old(rows) - {id}
    {
      RowDropped(rows, id, cost);
      if id in rows {
        bytes := Saturating(bytes, cost((id, rows[id])));
        rows := rows - {id};
      }
    }
  }

  /** The key under a shape's own field or fields, condition aside. */
  function KeyOf(kg: Keying, shape: Shape, r: Record): Option<IndexKey> {
    if shape.Composite? then CompositeKey(kg, shape.fields, r) else FieldKey(kg, shape.kind, shape.field, r)
  }

  lemma IndexedIs(rules: Rules, x: Index, id: nat, r: Record)
    ensures var key := KeyOf(rules.kg, x.shape, r);
      Indexed(rules, x, id, r) ==
        if key.None? then (if x.shape.Covering? then x.(rows := x.rows - {id}) else x)
        else if x.shape.Partial? && !rules.holds(x.shape.condition, r) then x.(pairs := x.pairs - {(key.value, id)})
        else if x.shape.Covering? then x.(pairs := x.pairs + {(key.value, id)}, rows := x.rows[id := Projection(x.shape.covers, r)])
        else x.(pairs := x.pairs + {(key.value, id)})
  {
    hide FieldKey, CompositeKey, Projection;
  }

  lemma UnindexedIs(rules: Rules, x: Index, id: nat, r: Record)
    ensures var key := KeyOf(rules.kg, x.shape, r);
      var y := if key.None? then x else x.(pairs := x.pairs - {(key.value, id)});
      Unindexed(rules, x, id, r) == if x.shape.Covering? then y.(rows := y.rows - {id}) else y
  {
    hide FieldKey, CompositeKey;
  }

  lemma RowDropped(rows: map<nat, Record>, id: nat, cost: ((nat, Record)) -> nat)
    ensures id in rows ==> Sum(rows.Items, cost) == cost((id, rows[id])) + Sum((rows - {id}).Items, cost)
    ensures id !in rows ==> rows - {id} == rows
  {
    if id in rows {
      SumTakes(rows.Items, (id, rows[id]), cost);
      forall e: (nat, Record) ensures e in rows.Items - {(id, rows[id])} <==> e in (rows - {id}).Items {
        assert e == (e.0, e.1);
      }
      assert rows.Items - {(id, rows[id])} == (rows - {id}).Items;
    }
  }

  lemma RowSet(rows: map<nat, Record>, id: nat, row: Record, cost: ((nat, Record)) -> nat)
    ensures Sum(rows[id := row].Items, cost) + (if id in rows then cost((id, rows[id])) else 0) == Sum(rows.Items, cost) + cost((id, row))
  {
    RowDropped(rows, id, cost);
    RowDropped(rows[id := row], id, cost);
    assert rows[id := row] - {id} == rows - {id};
  }

  // -- a list of indexes ---------------------------------------------------

  /** No two indexes share an object. */
  ghost predicate Apart(xs: seq<ShapedIndex>) {
    forall i, j | 0 <= i < j < |xs| :: xs[i] != xs[j] && xs[i].core != xs[j].core && xs[i].bits != xs[j].bits
  }

  ghost predicate Within(xs: seq<ShapedIndex>, repr: set<object>) {
    forall i | 0 <= i < |xs| :: xs[i] in repr && xs[i].core in repr && xs[i].bits in repr
  }

  ghost predicate AllValid(rules: Rules, xs: seq<ShapedIndex>, repr: set<object>)
    requires Within(xs, repr)
    reads repr
  {
    forall i | 0 <= i < |xs| :: xs[i].Valid() && xs[i].rules == rules
  }

  ghost function States(xs: seq<ShapedIndex>, repr: set<object>): (ys: seq<Index>)
    requires Within(xs, repr)
    reads repr
    ensures |ys| == |xs| && forall i :: 0 <= i < |xs| ==> ys[i] == xs[i].State()
  {
    if xs == [] then [] else States(xs[..|xs| - 1], repr) + [xs[|xs| - 1].State()]
  }

  class Collection {
    const rules: Rules
    const size: IndexKey -> nat
    const cost: ((nat, Record)) -> nat
    var heap: map<nat, Record>
    var indexes: seq<ShapedIndex>
    var unique: set<string>
    ghost var repr: set<object>

    ghost predicate Valid()
      reads this, repr
    {
      this !in repr && Within(indexes, repr) && Apart(indexes) && AllValid(rules, indexes, repr)
    }

    ghost function State(): Db
      requires Within(indexes, repr)
      reads this, repr
    {
      Db(heap, States(indexes, repr), unique)
    }

    constructor (rules: Rules, size: IndexKey -> nat, cost: ((nat, Record)) -> nat)
      ensures Valid() && fresh(repr) && this.rules == rules && State() == Db(map[], [], {})
    {
      this.rules, this.size, this.cost := rules, size, cost;
      heap, indexes, unique, repr := map[], [], {}, {};
    }

    /** The first index that answers to a field. */
    method Find(f: string) returns (at: Option<nat>)
      requires Within(indexes, repr)
      ensures at == FirstFor(States(indexes, repr), f)
    {
      for i := 0 to |indexes|
        invariant forall k | 0 <= k < i :: !Answers(States(indexes, repr)[k], f)
      {
        if indexes[i].shape.Plain? && indexes[i].shape.field == f {
          return Some(i);
        }
      }
      at := None;
    }

    /** Whether a look-up of one value finds any record but the excluded one. */
    method FindClash(f: string, a: Atom, exclude: Option<nat>) returns (clash: bool)
      requires Valid()
      ensures clash <==> FoundClash(rules, States(indexes, repr), f, a, exclude)
    {
      hide FirstFor, KeyIn, IdsOf, PairsIn, BitPairs, Sum, Apart, AllValid, States, Lists;
      var at := Find(f);
      if at.None? {
        return false;
      }
      var ids := LookUp(at.value, a);
      ghost var x := States(indexes, repr)[at.value];
      clash := AnyOther(ids, IdsOf(x.pairs, [KeyIn(rules.kg, x.shape.kind, a)]), exclude);
    }

    method LookUp(i: nat, a: Atom) returns (ids: seq<nat>)
      requires Valid() && i < |indexes| && indexes[i].shape.Plain?
      ensures var x := States(indexes, repr)[i]; Lists(ids, IdsOf(x.pairs, [KeyIn(rules.kg, x.shape.kind, a)]))
    {
      hide KeyIn, IdsOf, PairsIn, BitPairs, Sum, Apart, Lists;
      ids := indexes[i].Lookup([KeyIn(rules.kg, indexes[i].shape.kind, a)]);
    }

    /** Look each constrained value up in the first index that answers to its field. */
    method CheckUnique(exclude: Option<nat>, r: Record) returns (clash: bool)
      requires Valid()
      ensures clash <==> FoundClashes(rules, State(), exclude, r)
    {
      hide FoundClash, States;
      var fields := ToSeq(unique);
      for n := 0 to |fields|
        invariant forall i | 0 <= i < n ::
          !(Field(r, fields[i]).Some? && FoundClash(rules, State().indexes, fields[i], Field(r, fields[i]).value, exclude))
      {
        var value := Field(r, fields[n]);
        if value.Some? {
          clash := FindClash(fields[n], value.value, exclude);
          if clash {
            assert fields[n] in unique;
            return;
          }
        }
      }
      clash := false;
    }

    /** Telling one index leaves the others alone. */
    method IndexOne(i: nat, id: nat, r: Record)
      requires Valid() && i < |indexes|
      modifies indexes[i], indexes[i].core, indexes[i].bits
      ensures Valid() && indexes[i].State() == Indexed(rules, old(indexes[i].State()), id, r)
      ensures forall j | 0 <= j < |indexes| && j != i :: indexes[j].State() == old(indexes[j].State())
    {
      hide Indexed;
      indexes[i].IndexRecord(id, r);
    }

    method UnindexOne(i: nat, id: nat, r: Record)
      requires Valid() && i < |indexes|
      modifies indexes[i], indexes[i].core, indexes[i].bits
      ensures Valid() && indexes[i].State() == Unindexed(rules, old(indexes[i].State()), id, r)
      ensures forall j | 0 <= j < |indexes| && j != i :: indexes[j].State() == old(indexes[j].State())
    {
      hide Unindexed;
      indexes[i].UnindexRecord(id, r);
    }

    method ReindexInsert(id: nat, r: Record)
      requires Valid()
      modifies repr
      ensures Valid() && States(indexes, repr) == IndexAll(rules, old(States(indexes, repr)), id, r)
    {
      hide Indexed, AllValid, Apart;
      var i := 0;
      while i < |indexes|
        invariant 0 <= i <= |indexes| && Valid()
        invariant forall j | 0 <= j < i :: indexes[j].State() == Indexed(rules, old(indexes[j].State()), id, r)
        invariant forall j | i <= j < |indexes| :: indexes[j].State() == old(indexes[j].State())
      {
        IndexOne(i, id, r);
        i := i + 1;
      }
    }

    method ReindexRemove(id: nat, r: Record)
      requires Valid()
      modifies repr
      ensures Valid() && States(indexes, repr) == UnindexAll(rules, old(States(indexes, repr)), id, r)
    {
      hide Unindexed, AllValid, Apart;
      var i := 0;
      while i < |indexes|
        invariant 0 <= i <= |indexes| && Valid()
        invariant forall j | 0 <= j < i :: indexes[j].State() == Unindexed(rules, old(indexes[j].State()), id, r)
        invariant forall j | i <= j < |indexes| :: indexes[j].State() == old(indexes[j].State())
      {
        UnindexOne(i, id, r);
        i := i + 1;
      }
    }

    method Insert(id: nat, rec: Record) returns (e: Option<Failure>)
      requires Valid()
      modifies this`heap, repr
      ensures Valid() && (e, State()) == Inserted(rules, old(State()), id, rec)
      ensures heap == if e.None? then old(heap)[id := Normalize(rec)] else old(heap)
    {
      InsertLeaves(rules, State(), id, rec);
      hide FoundClashes, States, AllValid, Apart, IndexAll, UnindexAll, Normalize, ShapedIndex.Valid, ShapedIndex.State;
      var r := Normalize(rec);
      var clash := CheckUnique(None, r);
      if clash { return Some(Duplicate); }
      if !rules.accepts(r) { return Some(Invalid); }
      if id in heap { return Some(Exists); }
      if !rules.fits(r) { return Some(TooBig); }
      Replace(id, None, r);
      e := None;
    }

    /** The new row in the heap, out of every index under its old form and into every index under its new. */
    method Replace(id: nat, before: Option<Record>, r: Record)
      requires Valid()
      modifies this`heap, repr
      ensures Valid() && indexes == old(indexes)
      ensures heap == old(heap)[id := r]
      ensures States(indexes, repr) == IndexAll(rules,
        if before.Some? then UnindexAll(rules, old(States(indexes, repr)), id, before.value) else old(States(indexes, repr)), id, r)
    {
      hide States, AllValid, Apart, IndexAll, UnindexAll;
      heap := heap[id := r];
      if before.Some? {
        ReindexRemove(id, before.value);
      }
      ReindexInsert(id, r);
    }

    /** The old record is read first, to un-index it; an id not there is inserted. */
    method Update(id: nat, rec: Record) returns (e: Option<Failure>)
      requires Valid()
      modifies this`heap, repr
      ensures Valid() && (e, State()) == Updated(rules, old(State()), id, rec)
      ensures heap == if e.None? then old(heap)[id := Normalize(rec)] else old(heap)
    {
      UpdateLeaves(rules, State(), id, rec);
      hide FoundClashes, States, AllValid, Apart, IndexAll, UnindexAll, Normalize;
      var before := Lookup(heap, id);
      var r := Normalize(rec);
      var clash := CheckUnique(Some(id), r);
      if clash { return Some(Duplicate); }
      if !rules.accepts(r) { return Some(Invalid); }
      if !rules.fits(r) { return Some(TooBig); }
      Replace(id, before, r);
      e := None;
    }

    method Delete(id: nat)
      requires Valid()
      modifies this`heap, repr
      ensures Valid() && State() == Deleted(rules, old(State()), id)
      ensures heap == old(heap) - {id}
    {
      hide States, AllValid, Apart, UnindexAll;
      assert id !in heap ==> heap - {id} == heap;
      if id in heap {
        var before := heap[id];
        heap := heap - {id};
        ReindexRemove(id, before);
      }
    }

    /** Every row checked before any is written, all of them written, and then all of them indexed. */
    method InsertBatch(records: Batch) returns (e: Option<Failure>)
      requires Valid()
      modifies this`heap, repr
      ensures Valid() && (e, State()) == Batched(rules, old(State()), records)
      ensures e.None? ==> AllLanded(records, old(heap), heap)
    {
      hide BatchClashes, Stored, States, AllValid, Apart, IndexBatch, Landed, Landing, Refusal, AllLanded;
      BatchLands(rules, State(), records);
      hide ShapedIndex.Valid, ShapedIndex.State, Core.Valid, Core.Pairs;
      var b := Stored(records);
      var clash := BatchCheck(b);
      if clash { return Some(Duplicate); }
      e := Refused(b);
      if e.Some? { return; }
      var n := Land(b);
      if n < |b| { return Some(TooBig); }
      assert b[..n] == b;
      ReindexBatch(b);
      e := None;
    }

    /** Against what is stored, and against the values met earlier in the batch. */
    method BatchCheck(b: Batch) returns (clash: bool)
      requires Valid()
      ensures clash <==> BatchClashes(rules, State(), b)
    {
      var fields := ToSeq(unique);
      var seen: set<(string, HashKey)> := {};
      hide States, AllValid, Apart;
      for i := 0 to |b|
        invariant BatchSeen(rules.kg, unique, b[..i], seen)
        invariant forall k | 0 <= k < i :: !FoundClashes(rules, State(), None, b[k].1)
      {
        hide FoundClashes, BatchSeen, BatchClashes;
        assert b[..i + 1] == b[..i] + [b[i]];
        var found := CheckUnique(None, b[i].1);
        if found {
          BatchFound(rules, State(), b, i);
          return true;
        }
        var shared, more := Meet(fields, seen, b[i].1);
        if shared {
          BatchShares(rules, State(), b, i, seen);
          return true;
        }
        BatchMeets(rules.kg, unique, b[..i], seen, b[i]);
        seen := more;
      }
      assert b[..|b|] == b;
      BatchUnshared(rules, State(), b, seen);
      clash := false;
    }

    /** The values of one record, each looked for among those met and then added to them. */
    method Meet(fields: seq<string>, seen: set<(string, HashKey)>, r: Record) returns (shared: bool, more: set<(string, HashKey)>)
      requires Enumerates(fields, unique)
      ensures shared <==> exists u | u in ValuesOf(rules.kg, unique, r) :: u in seen
      ensures !shared ==> more == seen + ValuesOf(rules.kg, unique, r)
    {
      more := seen;
      for i := 0 to |fields|
        invariant more == seen + ValuesOf(rules.kg, (set f | f in fields[..i]), r)
        invariant forall u | u in ValuesOf(rules.kg, (set f | f in fields[..i]), r) :: u !in seen
      {
        var f := fields[i];
        assert fields[..i + 1] == fields[..i] + [f] && f !in fields[..i];
        var value := Filed(rules.kg, r, f);
        if value.Some? {
          if (f, value.value) in more {
            assert (f, value.value) in ValuesOf(rules.kg, unique, r);
            return true, more;
          }
          more := more + {(f, value.value)};
        }
      }
      assert (set f | f in fields[..|fields|]) == unique;
      shared := false;
    }

    /** The store's own checks, in batch order. */
    method Refused(b: Batch) returns (e: Option<Failure>)
      ensures e == Refusal(rules, heap, b, {})
    {
      var seen: set<nat> := {};
      assert b[0..] == b;
      for i := 0 to |b|
        invariant Refusal(rules, heap, b, {}) == Refusal(rules, heap, b[i..], seen)
      {
        assert b[i..][1..] == b[i + 1..] && b[i..][0] == b[i];
        if !rules.accepts(b[i].1) { return Some(Invalid); }
        if b[i].0 in heap || b[i].0 in seen { return Some(Exists); }
        seen := seen + {b[i].0};
      }
      e := None;
    }

    /** Row after row until one does not fit its page. */
    method Land(b: Batch) returns (n: nat)
      modifies this`heap
      ensures n == Landing(rules, b) && heap == Landed(old(heap), b[..n])
    {
      n := 0;
      assert b[0..] == b;
      while n < |b| && rules.fits(b[n].1)
        invariant n <= |b|
        invariant Landing(rules, b) == n + Landing(rules, b[n..])
        invariant heap == Landed(old(heap), b[..n])
      {
        assert b[n..][1..] == b[n + 1..];
        assert b[..n + 1][..n] == b[..n];
        heap := heap[b[n].0 := b[n].1];
        n := n + 1;
      }
    }

    method ReindexBatch(b: Batch)
      requires Valid()
      modifies repr
      ensures Valid() && States(indexes, repr) == IndexBatch(rules, old(States(indexes, repr)), b)
    {
      hide States, AllValid, Apart, IndexAll;
      for i := 0 to |b|
        invariant Valid() && States(indexes, repr) == IndexBatch(rules, old(States(indexes, repr)), b[..i])
      {
        assert b[..i + 1][..i] == b[..i];
        ReindexInsert(b[i].0, b[i].1);
      }
      assert b[..|b|] == b;
    }

    /** The first pass over a transaction's puts. */
    method Clear(writes: seq<(nat, Option<Record>)>) returns (e: Option<Failure>)
      requires Valid()
      ensures e == Objection(rules, State(), writes)
    {
      hide FoundClashes, States, AllValid, Apart, Normalize, Cleared;
      assert writes[0..] == writes;
      for i := 0 to |writes|
        invariant Objection(rules, State(), writes) == Objection(rules, State(), writes[i..])
      {
        assert writes[i..][1..] == writes[i + 1..] && writes[i..][0] == writes[i];
        if writes[i].1.Some? {
          var r := Normalize(writes[i].1.value);
          if !rules.accepts(r) { return Some(Invalid); }
          var clash := CheckUnique(Some(writes[i].0), r);
          if clash { return Some(Duplicate); }
        }
      }
      e := None;
    }

    /** A transaction's buffered writes: all checked, then each through the ordinary write paths. */
    method Commit(writes: seq<(nat, Option<Record>)>) returns (e: Option<Failure>)
      requires Valid()
      modifies this`heap, repr
      ensures Valid() && (e, State()) == Committed(rules, old(State()), writes)
      ensures e.None? ==> LastWritten(writes, old(heap), heap)
    {
      CommitLands(rules, State(), writes);
      hide FoundClashes, States, AllValid, Apart, Updated, Deleted, Cleared, LastWritten, Objection;
      e := Clear(writes);
      if e.Some? { return; }
      assert writes[0..] == writes;
      for i := 0 to |writes|
        invariant Valid() && indexes == old(indexes) && unique == old(unique)
        invariant Applied(rules, old(State()), writes) == Applied(rules, State(), writes[i..])
      {
        assert writes[i..][1..] == writes[i + 1..] && writes[i..][0] == writes[i];
        match writes[i].1 {
          case None => Delete(writes[i].0);
          case Some(rec) =>
            e := Update(writes[i].0, rec);
            if e.Some? { return; }
        }
      }
      e := None;
    }

    method HasShape(shape: Shape) returns (has: bool)
      requires Valid()
      ensures has <==> exists i | 0 <= i < |States(indexes, repr)| :: States(indexes, repr)[i].shape == shape
    {
      hide AllValid, Apart;
      var i := 0;
      while i < |indexes|
        invariant 0 <= i <= |indexes|
        invariant forall j | 0 <= j < i :: indexes[j].shape != shape
      {
        if indexes[i].shape == shape {
          assert States(indexes, repr)[i].shape == shape;
          return true;
        }
        i := i + 1;
      }
      has := false;
    }

    /** A new index joins the list. */
    method Adopt(x: ShapedIndex)
      requires Valid() && x.Valid() && x.rules == rules && x !in repr && x.core !in repr && x.bits !in repr
      modifies this`indexes, this`repr
      ensures Valid() && repr == old(repr) + {x, x.core, x.bits}
      ensures States(indexes, repr) == old(States(indexes, repr)) + [x.State()]
    {
      hide States, ShapedIndex.Valid, ShapedIndex.State;
      ghost var before := States(indexes, repr);
      JoinApart(indexes, x, repr);
      indexes, repr := indexes + [x], repr + {x, x.core, x.bits};
      assert States(indexes, repr) == before + [x.State()];
    }

    /** Build an index by scanning, unless one of that shape is there. */
    method CreateIndex(shape: Shape)
      requires Valid()
      modifies this`indexes, this`repr
      ensures Valid() && fresh(repr - old(repr)) && State() == Created(rules, old(State()), shape)
      ensures Includes(State(), shape)
    {
      hide States, AllValid, Apart, Derived, Includes;
      CreateIncludes(rules, State(), shape);
      var has := HasShape(shape);
      if !has {
        var x := Build(shape);
        Adopt(x);
      }
    }

    method Build(shape: Shape) returns (x: ShapedIndex)
      ensures fresh(x) && fresh(x.core) && fresh(x.bits) && x.Valid() && x.rules == rules
      ensures x.State() == Derived(rules, shape, heap)
    {
      hide Derived, Indexed, PairsIn, BitPairs, Sum, AllValid, Apart, States, Within;
      x := new ShapedIndex(shape, rules, size, cost);
      var ids := ToSeq(heap.Keys);
      ghost var done: map<nat, Record> := map[];
      for n := 0 to |ids|
        invariant forall id :: id in done <==> id in ids[..n]
        invariant forall id | id in done :: id in heap && done[id] == heap[id]
        invariant fresh(x) && fresh(x.core) && fresh(x.bits) && x.Valid() && x.rules == rules
        invariant x.State() == Derived(rules, shape, done)
      {
        var id := ids[n];
        assert id !in ids[..n];
        IndexedAgrees(rules, shape, done, id, heap[id]);
        x.IndexRecord(id, heap[id]);
        done := done[id := heap[id]];
      }
      assert ids[..|ids|] == ids;
      assert done == heap;
    }

    method AddUnique(f: string) returns (e: Option<Failure>)
      requires Valid()
      modifies this`indexes, this`unique, this`repr
      ensures Valid() && fresh(repr - old(repr)) && (e, State()) == Constrained(rules, old(State()), f)
      ensures unique == if e.None? then old(unique) + {f} else old(unique)
    {
      hide States, AllValid, Apart, Created, AlreadyShared, Includes;
      if f in unique {
        return None;
      }
      var shared := AnyShared(f);
      if shared {
        return Some(Duplicate);
      }
      CreateIndex(Plain(f, Hash));
      unique := unique + {f};
      e := None;
    }

    /** The scan over existing records, remembering which value each id holds. */
    method AnyShared(f: string) returns (shared: bool)
      ensures shared <==> AlreadyShared(rules.kg, heap, f)
    {
      var ids := ToSeq(heap.Keys);
      var seen: map<HashKey, nat> := map[];
      for n := 0 to |ids|
        invariant Scanned(rules.kg, heap, ids[..n], seen, f)
      {
        hide Scanned, HashShares, AlreadyShared;
        assert ids[..n + 1] == ids[..n] + [ids[n]] && ids[n] !in ids[..n];
        var value := Filed(rules.kg, heap[ids[n]], f);
        if value.Some? && value.value in seen {
          ScanFinds(rules.kg, heap, ids[..n], seen, f, ids[n]);
          return true;
        }
        ScanNext(rules.kg, heap, ids[..n], seen, f, ids[n]);
        if value.Some? {
          seen := seen[value.value := ids[n]];
        }
      }
      assert ids[..|ids|] == ids;
      NoneShared(rules.kg, heap, ids, seen, f);
      shared := false;
    }
  }

  lemma JoinApart(xs: seq<ShapedIndex>, x: ShapedIndex, repr: set<object>)
    requires Apart(xs) && Within(xs, repr) && x !in repr && x.core !in repr && x.bits !in repr
    ensures Apart(xs + [x]) && Within(xs + [x], repr + {x, x.core, x.bits})
  {
  }

  /** Whether a listing holds anything but the excluded id. */
  method AnyOther(ids: seq<nat>, ghost held: set<nat>, exclude: Option<nat>) returns (other: bool)
    requires Lists(ids, held)
    ensures other <==> exists id | id in held :: Some(id) != exclude
  {
    for i := 0 to |ids|
      invariant forall k | 0 <= k < i :: Some(ids[k]) == exclude
    {
      if Some(ids[i]) != exclude {
        assert ids[i] in ids;
        return true;
      }
    }
    assert forall id | id in held :: id in ids;
    other := false;
  }

  /** A record's constrained values, by field. */
  function ValuesOf(kg: Keying, unique: set<string>, r: Record): set<(string, HashKey)> {
    set f | f in unique && Filed(kg, r, f).Some? :: (f, Filed(kg, r, f).value)
  }

  /** The values met are those of the records so far, and no two of those share one. */
  ghost predicate BatchSeen(kg: Keying, unique: set<string>, b: Batch, seen: set<(string, HashKey)>) {
    && (forall f, a :: (f, a) in seen <==> f in unique && exists j | 0 <= j < |b| :: Filed(kg, b[j].1, f) == Some(a))
    && (forall i, j, f | 0 <= i < j < |b| && f in unique :: !HashShares(kg, b[i].1, b[j].1, f))
  }

  lemma BatchFound(rules: Rules, db: Db, b: Batch, i: nat)
    requires i < |b| && FoundClashes(rules, db, None, b[i].1)
    ensures BatchClashes(rules, db, b)
  {
  }

  lemma BatchShares(rules: Rules, db: Db, b: Batch, i: nat, seen: set<(string, HashKey)>)
    requires i < |b| && BatchSeen(rules.kg, db.unique, b[..i], seen)
    requires exists u | u in ValuesOf(rules.kg, db.unique, b[i].1) :: u in seen
    ensures BatchClashes(rules, db, b)
  {
    var u :| u in ValuesOf(rules.kg, db.unique, b[i].1) && u in seen;
    var f :| f in db.unique && Filed(rules.kg, b[i].1, f).Some? && u == (f, Filed(rules.kg, b[i].1, f).value);
    assert (f, Filed(rules.kg, b[i].1, f).value) in seen;
    var j :| 0 <= j < i && Filed(rules.kg, b[..i][j].1, f) == Filed(rules.kg, b[i].1, f);
    assert HashShares(rules.kg, b[j].1, b[i].1, f);
  }

  lemma BatchMeets(kg: Keying, unique: set<string>, b: Batch, seen: set<(string, HashKey)>, x: (nat, Record))
    requires BatchSeen(kg, unique, b, seen)
    requires !exists u | u in ValuesOf(kg, unique, x.1) :: u in seen
    ensures BatchSeen(kg, unique, b + [x], seen + ValuesOf(kg, unique, x.1))
  {
    var next, all := b + [x], seen + ValuesOf(kg, unique, x.1);
    forall f, a ensures (f, a) in all <==> f in unique && exists j | 0 <= j < |next| :: Filed(kg, next[j].1, f) == Some(a) {
      if f in unique && Filed(kg, x.1, f) == Some(a) {
        assert next[|b|] == x && (f, a) in ValuesOf(kg, unique, x.1);
      }
      if (f, a) in seen {
        var j :| 0 <= j < |b| && Filed(kg, b[j].1, f) == Some(a);
        assert Filed(kg, next[j].1, f) == Some(a);
      }
    }
    forall j, f | 0 <= j < |b| && f in unique ensures !HashShares(kg, b[j].1, x.1, f) {
      assert Filed(kg, x.1, f).Some? ==> (f, Filed(kg, x.1, f).value) in ValuesOf(kg, unique, x.1);
      assert Filed(kg, b[j].1, f).Some? ==> (f, Filed(kg, b[j].1, f).value) in seen;
    }
  }

  lemma BatchUnshared(rules: Rules, db: Db, b: Batch, seen: set<(string, HashKey)>)
    requires BatchSeen(rules.kg, db.unique, b, seen)
    requires forall k | 0 <= k < |b| :: !FoundClashes(rules, db, None, b[k].1)
    ensures !BatchClashes(rules, db, b)
  {
  }

  /** Each value met so far is remembered with a record that holds it, and none was met twice. */
  ghost predicate Scanned(kg: Keying, heap: map<nat, Record>, ids: seq<nat>, seen: map<HashKey, nat>, f: string) {
    && (forall id | id in ids :: id in heap)
    && (forall a | a in seen :: seen[a] in ids && Filed(kg, heap[seen[a]], f) == Some(a))
    && (forall id | id in ids :: Filed(kg, heap[id], f).Some? ==> Filed(kg, heap[id], f).value in seen)
    && (forall i, j | 0 <= i < j < |ids| :: !HashShares(kg, heap[ids[i]], heap[ids[j]], f))
  }

  lemma ScanFinds(kg: Keying, heap: map<nat, Record>, ids: seq<nat>, seen: map<HashKey, nat>, f: string, id: nat)
    requires Scanned(kg, heap, ids, seen, f) && id in heap && id !in ids
    requires Filed(kg, heap[id], f).Some? && Filed(kg, heap[id], f).value in seen
    ensures AlreadyShared(kg, heap, f)
  {
    var other := seen[Filed(kg, heap[id], f).value];
    assert other != id && HashShares(kg, heap[id], heap[other], f);
  }

  lemma ScanNext(kg: Keying, heap: map<nat, Record>, ids: seq<nat>, seen: map<HashKey, nat>, f: string, id: nat)
    requires Scanned(kg, heap, ids, seen, f) && id in heap && id !in ids
    requires Filed(kg, heap[id], f).Some? ==> Filed(kg, heap[id], f).value !in seen
    ensures Scanned(kg, heap, ids + [id], if Filed(kg, heap[id], f).Some? then seen[Filed(kg, heap[id], f).value := id] else seen, f)
  {
    hide Filed;
    forall i | 0 <= i < |ids| ensures !HashShares(kg, heap[ids[i]], heap[id], f) {
      assert ids[i] in ids;
    }
  }

  lemma NoneShared(kg: Keying, heap: map<nat, Record>, ids: seq<nat>, seen: map<HashKey, nat>, f: string)
    requires Enumerates(ids, heap.Keys) && Scanned(kg, heap, ids, seen, f)
    ensures !AlreadyShared(kg, heap, f)
  {
    hide HashShares;
    forall a, b | a in heap && b in heap && a != b ensures !HashShares(kg, heap[a], heap[b], f) {
      var i :| 0 <= i < |ids| && ids[i] == a;
      var j :| 0 <= j < |ids| && ids[j] == b;
      SharesBack(kg, heap[a], heap[b], f);
    }
  }
}
