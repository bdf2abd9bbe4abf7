/**
 * Keeping every index equal to what the heap says it should hold, write by
 * write, and unique constraints enforced by looking in those indexes.
 */
module Upkeep {
  import opened Basics
  import opened Records
  import opened Indexes
  import E = Equality
  import F = Floats
  import S = Sorting
  import V = ValueOrder

  // -- what an index holds -------------------------------------------------

  type IndexKey = seq<HashKey>

  datatype Kind = Hash | BTree | Bitmap

  datatype Shape =
    | Plain(field: string, kind: Kind)
    | Composite(fields: seq<string>)
    | Covering(field: string, covers: seq<string>, kind: Kind)
    | Partial(field: string, condition: string, kind: Kind)

  datatype Index = Index(shape: Shape, pairs: set<(IndexKey, nat)>, rows: map<nat, Record>)

  /** Schema validation, the page limit, what a condition says of a record (only true admits), equality and hashing. */
  datatype Rules =
    Rules(accepts: Record -> bool, fits: Record -> bool, holds: (string, Record) -> bool, kg: Keying)

  /** The ordered kind compares values; the others are hash maps. */
  function KeyIn(kg: Keying, kind: Kind, a: Atom): HashKey {
    if kind == BTree then HashKey(kg.canon(a), 0) else Hashed(kg, a)
  }

  function FieldKey(kg: Keying, kind: Kind, f: string, r: Record): Option<IndexKey> {
    match Field(r, f) case None => None case Some(a) => Some([KeyIn(kg, kind, a)])
  }

  /** Every field present and not null, or no key at all. */
  function CompositeKey(kg: Keying, fields: seq<string>, r: Record): Option<IndexKey> {
    if fields == [] then Some([])
    else
      match Filed(kg, r, fields[0])
      case None => None
      case Some(a) =>
        match CompositeKey(kg, fields[1..], r) case None => None case Some(rest) => Some([a] + rest)
  }

  function Projection(covers: seq<string>, r: Record): Record {
    map f | f in r && f in covers :: r[f]
  }

  /** The key under which an index should file a record. */
  function Wants(rules: Rules, shape: Shape, r: Record): Option<IndexKey> {
    match shape
    case Plain(f, kind) => FieldKey(rules.kg, kind, f, r)
    case Composite(fields) => CompositeKey(rules.kg, fields, r)
    case Covering(f, _, kind) => FieldKey(rules.kg, kind, f, r)
    case Partial(f, c, kind) => if rules.holds(c, r) then FieldKey(rules.kg, kind, f, r) else None
  }

  /** What each kind does when told of a record. */
  function Indexed(rules: Rules, x: Index, id: nat, r: Record): Index {
    match x.shape
    case Plain(f, kind) =>
      (match FieldKey(rules.kg, kind, f, r) case None => x case Some(k) => x.(pairs := x.pairs + {(k, id)}))
    case Composite(fields) =>
      (match CompositeKey(rules.kg, fields, r) case None => x case Some(k) => x.(pairs := x.pairs + {(k, id)}))
    case Covering(f, covers, kind) =>
      (match FieldKey(rules.kg, kind, f, r)
       case None => x.(rows := x.rows - {id})
       case Some(k) => x.(pairs := x.pairs + {(k, id)}, rows := x.rows[id := Projection(covers, r)]))
    case Partial(f, c, kind) =>
      (match FieldKey(rules.kg, kind, f, r)
       case None => x
       case Some(k) => x.(pairs := if rules.holds(c, r) then x.pairs + {(k, id)} else x.pairs - {(k, id)}))
  }

  /** What each kind does when a record goes; a partial index does not ask its condition. */
  function Unindexed(rules: Rules, x: Index, id: nat, r: Record): Index {
    match x.shape
    case Plain(f, kind) =>
      (match FieldKey(rules.kg, kind, f, r) case None => x case Some(k) => x.(pairs := x.pairs - {(k, id)}))
    case Composite(fields) =>
      (match CompositeKey(rules.kg, fields, r) case None => x case Some(k) => x.(pairs := x.pairs - {(k, id)}))
    case Covering(f, _, kind) =>
      (match FieldKey(rules.kg, kind, f, r)
       case None => x.(rows := x.rows - {id})
       case Some(k) => x.(pairs := x.pairs - {(k, id)}, rows := x.rows - {id}))
    case Partial(f, _, kind) =>
      (match FieldKey(rules.kg, kind, f, r) case None => x case Some(k) => x.(pairs := x.pairs - {(k, id)}))
  }

  /** The index a scan of the heap would build. */
  ghost function Derived(rules: Rules, shape: Shape, heap: map<nat, Record>): Index {
    Index(shape,
      set id | id in heap && Wants(rules, shape, heap[id]).Some? :: (Wants(rules, shape, heap[id]).value, id),
      if shape.Covering?
      then map id | id in heap && Wants(rules, shape, heap[id]).Some? :: Projection(shape.covers, heap[id])
      else map[])
  }

  lemma InDerived(rules: Rules, shape: Shape, heap: map<nat, Record>, k: IndexKey, id: nat)
    ensures (k, id) in Derived(rules, shape, heap).pairs <==> id in heap && Wants(rules, shape, heap[id]) == Some(k)
  {
  }

  lemma SameIndex(x: Index, y: Index)
    requires x.shape == y.shape && x.rows == y.rows
    requires forall k: IndexKey, id: nat :: (k, id) in x.pairs <==> (k, id) in y.pairs
    ensures x == y
  {
    forall e: (IndexKey, nat) ensures e in x.pairs <==> e in y.pairs {
      assert e == (e.0, e.1);
    }
  }

  /** Telling an index of a new record takes it to the index of the grown heap. */
  lemma IndexedAgrees(rules: Rules, shape: Shape, heap: map<nat, Record>, id: nat, r: Record)
    requires id !in heap
    ensures Indexed(rules, Derived(rules, shape, heap), id, r) == Derived(rules, shape, heap[id := r])
  {
    var x, y := Indexed(rules, Derived(rules, shape, heap), id, r), Derived(rules, shape, heap[id := r]);
    IndexedRows(rules, shape, heap, id, r);
    hide FieldKey, CompositeKey, Projection;
    forall k: IndexKey, i: nat ensures (k, i) in x.pairs <==> (k, i) in y.pairs {
      InDerived(rules, shape, heap, k, i);
      InDerived(rules, shape, heap[id := r], k, i);
    }
    hide Derived, Wants;
    SameIndex(x, y);
  }

  lemma IndexedRows(rules: Rules, shape: Shape, heap: map<nat, Record>, id: nat, r: Record)
    requires id !in heap
    ensures Indexed(rules, Derived(rules, shape, heap), id, r).rows == Derived(rules, shape, heap[id := r]).rows
  {
    hide FieldKey, CompositeKey, Projection;
  }

  /** Telling it of a departure takes it to the index of the heap without that record. */
  lemma UnindexedAgrees(rules: Rules, shape: Shape, heap: map<nat, Record>, id: nat)
    requires id in heap
    ensures Unindexed(rules, Derived(rules, shape, heap), id, heap[id]) == Derived(rules, shape, heap - {id})
  {
    var x, y := Unindexed(rules, Derived(rules, shape, heap), id, heap[id]), Derived(rules, shape, heap - {id});
    UnindexedRows(rules, shape, heap, id);
    hide FieldKey, CompositeKey, Projection;
    forall k: IndexKey, i: nat ensures (k, i) in x.pairs <==> (k, i) in y.pairs {
      InDerived(rules, shape, heap, k, i);
      InDerived(rules, shape, heap - {id}, k, i);
    }
    hide Derived, Wants;
    SameIndex(x, y);
  }

  lemma UnindexedRows(rules: Rules, shape: Shape, heap: map<nat, Record>, id: nat)
    requires id in heap
    ensures Unindexed(rules, Derived(rules, shape, heap), id, heap[id]).rows == Derived(rules, shape, heap - {id}).rows
  {
    hide FieldKey, CompositeKey, Projection;
  }

  /** A covering index serves every id it finds with the covered fields of that record, as they are, and no others. */
  lemma CoveringServes(rules: Rules, shape: Shape, heap: map<nat, Record>, k: IndexKey, id: nat)
    requires shape.Covering? && (k, id) in Derived(rules, shape, heap).pairs
    ensures id in heap && id in Derived(rules, shape, heap).rows
    ensures forall f :: Lookup(Derived(rules, shape, heap).rows[id], f) == if f in shape.covers then Lookup(heap[id], f) else None
  {
    InDerived(rules, shape, heap, k, id);
  }

  // -- what a look-up answers ----------------------------------------------

  /** A record holds a value in a field that is equal to the one asked for and, where the kind hashes, hashes as it does. */
  predicate Matches(kg: Keying, hashes: bool, r: Record, f: string, a: Atom) {
    Field(r, f).Some? && kg.canon(Field(r, f).value) == kg.canon(a) && (hashes ==> kg.hash(Field(r, f).value) == kg.hash(a))
  }

  /** The fields an index of some shape looks at. */
  function FieldsOf(shape: Shape): seq<string> {
    if shape.Composite? then shape.fields else [shape.field]
  }

  /** Whether an index of some shape is a hash map; composite ones always are. */
  predicate Hashes(shape: Shape) {
    shape.Composite? || shape.kind != BTree
  }

  /** The key a look-up of some values asks an index for. */
  function Asked(kg: Keying, shape: Shape, values: seq<Atom>): (k: IndexKey)
    ensures |k| == |values|
  {
    seq(|values|, i requires 0 <= i < |values| => if Hashes(shape) then Hashed(kg, values[i]) else HashKey(kg.canon(values[i]), 0))
  }

  lemma {:induction false} CompositeKeyIs(kg: Keying, fields: seq<string>, r: Record, k: IndexKey)
    requires |k| == |fields|
    ensures CompositeKey(kg, fields, r) == Some(k) <==> forall i | 0 <= i < |fields| :: Filed(kg, r, fields[i]) == Some(k[i])
  {
    if fields != [] {
      var rest, tail := fields[1..], k[1..];
      CompositeKeyIs(kg, rest, r, tail);
      assert k == [k[0]] + tail;
      assert forall i | 0 <= i < |rest| :: rest[i] == fields[i + 1] && tail[i] == k[i + 1];
      if forall i | 0 <= i < |rest| :: Filed(kg, r, rest[i]) == Some(tail[i]) {
        forall i | 0 < i < |fields| ensures Filed(kg, r, fields[i]) == Some(k[i]) {
          assert Filed(kg, r, rest[i - 1]) == Some(tail[i - 1]);
        }
      }
    }
  }

  /**
   * A look-up in an index answers exactly the live records that hold matching values in
   * every field of its shape and, for a partial one, meet its condition.
   */
  lemma LookupIs(rules: Rules, shape: Shape, heap: map<nat, Record>, values: seq<Atom>, id: nat)
    requires |values| == |FieldsOf(shape)|
    ensures id in IdsOf(Derived(rules, shape, heap).pairs, Asked(rules.kg, shape, values)) <==>
      && id in heap
      && (forall i | 0 <= i < |values| :: Matches(rules.kg, Hashes(shape), heap[id], FieldsOf(shape)[i], values[i]))
      && (shape.Partial? ==> rules.holds(shape.condition, heap[id]))
  {
    var k := Asked(rules.kg, shape, values);
    InIdsOf(Derived(rules, shape, heap).pairs, k, id);
    InDerived(rules, shape, heap, k, id);
    if id in heap {
      if shape.Composite? {
        CompositeKeyIs(rules.kg, shape.fields, heap[id], k);
        hide CompositeKey;
        forall i | 0 <= i < |values|
          ensures Filed(rules.kg, heap[id], shape.fields[i]) == Some(k[i]) <==> Matches(rules.kg, true, heap[id], shape.fields[i], values[i])
        {
        }
      } else {
        OneKeyAsked(rules.kg, shape, heap[id], values);
      }
    }
  }

  lemma OneKeyAsked(kg: Keying, shape: Shape, r: Record, values: seq<Atom>)
    requires !shape.Composite? && |values| == 1
    ensures FieldKey(kg, shape.kind, shape.field, r) == Some(Asked(kg, shape, values)) <==>
      Matches(kg, Hashes(shape), r, shape.field, values[0])
  {
    var k := Asked(kg, shape, values);
    assert k == [k[0]];
    if Field(r, shape.field).Some? {
      var x := KeyIn(kg, shape.kind, Field(r, shape.field).value);
      assert [x][0] == x;
    }
  }

  // -- one collection ------------------------------------------------------

  datatype Db = Db(heap: map<nat, Record>, indexes: seq<Index>, unique: set<string>)

  datatype Failure = Duplicate | Invalid | Exists | TooBig

  function IndexAll(rules: Rules, xs: seq<Index>, id: nat, r: Record): (ys: seq<Index>)
    ensures |ys| == |xs| && forall i :: 0 <= i < |xs| ==> ys[i] == Indexed(rules, xs[i], id, r)
  {
    seq(|xs|, i requires 0 <= i < |xs| => Indexed(rules, xs[i], id, r))
  }

  function UnindexAll(rules: Rules, xs: seq<Index>, id: nat, r: Record): (ys: seq<Index>)
    ensures |ys| == |xs| && forall i :: 0 <= i < |xs| ==> ys[i] == Unindexed(rules, xs[i], id, r)
  {
    seq(|xs|, i requires 0 <= i < |xs| => Unindexed(rules, xs[i], id, r))
  }

  predicate Answers(x: Index, f: string) {
    x.shape.Plain? && x.shape.field == f
  }

  /** The first index that answers to a field's own name, of whatever kind. */
  function FirstFor(xs: seq<Index>, f: string): (at: Option<nat>)
    ensures at.Some? ==> at.value < |xs| && Answers(xs[at.value], f)
    ensures forall i | 0 <= i < (if at.Some? then at.value else |xs|) :: !Answers(xs[i], f)
  {
    if xs == [] then None
    else if Answers(xs[0], f) then Some(0)
    else match FirstFor(xs[1..], f) case None => None case Some(i) => Some(i + 1)
  }

  /** A conflict as the code looks for one: through the first index that answers to the field. */
  ghost predicate FoundClash(rules: Rules, xs: seq<Index>, f: string, a: Atom, exclude: Option<nat>) {
    match FirstFor(xs, f)
    case None => false
    case Some(i) => exists id | id in IdsOf(xs[i].pairs, [KeyIn(rules.kg, xs[i].shape.kind, a)]) :: Some(id) != exclude
  }

  ghost predicate FoundClashes(rules: Rules, db: Db, exclude: Option<nat>, r: Record) {
    exists f | f in db.unique :: Field(r, f).Some? && FoundClash(rules, db.indexes, f, Field(r, f).value, exclude)
  }

  /** A conflict as it is defined: another live record with the same constrained value. */
  ghost predicate Clashes(kg: Keying, heap: map<nat, Record>, unique: set<string>, exclude: Option<nat>, r: Record) {
    exists f, id | f in unique && id in heap :: Some(id) != exclude && Shares(kg, heap[id], r, f)
  }

  /** Equal values in a field. */
  predicate Shares(kg: Keying, a: Record, b: Record, f: string) {
    Field(a, f).Some? && Field(b, f).Some? && kg.canon(Field(a, f).value) == kg.canon(Field(b, f).value)
  }

  /** Values in a field that a hash map takes for one. */
  predicate HashShares(kg: Keying, a: Record, b: Record, f: string) {
    Filed(kg, a, f).Some? && Filed(kg, a, f) == Filed(kg, b, f)
  }

  ghost function Inserted(rules: Rules, db: Db, id: nat, rec: Record): (Option<Failure>, Db) {
    var r := Normalize(rec);
    if FoundClashes(rules, db, None, r) then (Some(Duplicate), db)
    else if !rules.accepts(r) then (Some(Invalid), db)
    else if id in db.heap then (Some(Exists), db)
    else if !rules.fits(r) then (Some(TooBig), db)
    else (None, db.(heap := db.heap[id := r], indexes := IndexAll(rules, db.indexes, id, r)))
  }

  ghost function Updated(rules: Rules, db: Db, id: nat, rec: Record): (Option<Failure>, Db) {
    var r := Normalize(rec);
    if FoundClashes(rules, db, Some(id), r) then (Some(Duplicate), db)
    else if !rules.accepts(r) then (Some(Invalid), db)
    else if !rules.fits(r) then (Some(TooBig), db)
    else
      var xs := if id in db.heap then UnindexAll(rules, db.indexes, id, db.heap[id]) else db.indexes;
      (None, db.(heap := db.heap[id := r], indexes := IndexAll(rules, xs, id, r)))
  }

  function Deleted(rules: Rules, db: Db, id: nat): Db {
    if id in db.heap then Db(db.heap - {id}, UnindexAll(rules, db.indexes, id, db.heap[id]), db.unique) else db
  }

  ghost function Created(rules: Rules, db: Db, shape: Shape): Db {
    if exists i | 0 <= i < |db.indexes| :: db.indexes[i].shape == shape then db
    else db.(indexes := db.indexes + [Derived(rules, shape, db.heap)])
  }

  ghost predicate AlreadyShared(kg: Keying, heap: map<nat, Record>, f: string) {
    exists a, b | a in heap && b in heap :: a != b && HashShares(kg, heap[a], heap[b], f)
  }

  ghost function Constrained(rules: Rules, db: Db, f: string): (Option<Failure>, Db) {
    if f in db.unique then (None, db)
    else if AlreadyShared(rules.kg, db.heap, f) then (Some(Duplicate), db)
    else
      var made := Created(rules, db, Plain(f, Hash));
      (None, made.(unique := made.unique + {f}))
  }

  // -- a batch -------------------------------------------------------------

  type Batch = seq<(nat, Record)>

  function Stored(b: Batch): (r: Batch)
    ensures |r| == |b| && forall i :: 0 <= i < |b| ==> r[i] == (b[i].0, Normalize(b[i].1))
  {
    seq(|b|, i requires 0 <= i < |b| => (b[i].0, Normalize(b[i].1)))
  }

  /** A constrained value found held already, or met twice in the batch by a hash map. */
  ghost predicate BatchClashes(rules: Rules, db: Db, b: Batch) {
    || (exists i | 0 <= i < |b| :: FoundClashes(rules, db, None, b[i].1))
    || (exists i, j, f | 0 <= i < j < |b| && f in db.unique :: HashShares(rules.kg, b[i].1, b[j].1, f))
  }

  /** The first record the store turns away before writing anything. */
  function Refusal(rules: Rules, heap: map<nat, Record>, b: Batch, seen: set<nat>): (e: Option<Failure>)
    ensures e in {None, Some(Invalid), Some(Exists)}
  {
    if b == [] then None
    else if !rules.accepts(b[0].1) then Some(Invalid)
    else if b[0].0 in heap || b[0].0 in seen then Some(Exists)
    else Refusal(rules, heap, b[1..], seen + {b[0].0})
  }

  /** Records land in order until one is too big for a page. */
  function Landing(rules: Rules, b: Batch): (n: nat)
    ensures n <= |b|
    ensures forall i :: 0 <= i < n ==> rules.fits(b[i].1)
    ensures n < |b| ==> !rules.fits(b[n].1)
  {
    if b == [] || !rules.fits(b[0].1) then 0 else 1 + Landing(rules, b[1..])
  }

  function Landed(heap: map<nat, Record>, b: Batch): map<nat, Record> {
    if b == [] then heap else Landed(heap, b[..|b| - 1])[b[|b| - 1].0 := b[|b| - 1].1]
  }

  function IndexBatch(rules: Rules, xs: seq<Index>, b: Batch): seq<Index> {
    if b == [] then xs else IndexAll(rules, IndexBatch(rules, xs, b[..|b| - 1]), b[|b| - 1].0, b[|b| - 1].1)
  }

  /** All the rows and then all the index entries: a row too big for its page leaves the rows before it unindexed. */
  ghost function Batched(rules: Rules, db: Db, records: Batch): (Option<Failure>, Db) {
    var b := Stored(records);
    if BatchClashes(rules, db, b) then (Some(Duplicate), db)
    else if Refusal(rules, db.heap, b, {}).Some? then (Refusal(rules, db.heap, b, {}), db)
    else
      var n := Landing(rules, b);
      var landed := db.(heap := Landed(db.heap, b[..n]));
      if n < |b| then (Some(TooBig), landed)
      else (None, landed.(indexes := IndexBatch(rules, db.indexes, b)))
  }

  // -- the invariant -------------------------------------------------------

  ghost predicate Agree(rules: Rules, xs: seq<Index>, heap: map<nat, Record>) {
    forall i | 0 <= i < |xs| :: xs[i] == Derived(rules, xs[i].shape, heap)
  }

  ghost predicate Backed(db: Db) {
    forall f | f in db.unique :: FirstFor(db.indexes, f).Some?
  }

  ghost predicate AllUnique(kg: Keying, heap: map<nat, Record>, unique: set<string>) {
    forall f, a, b | f in unique && a in heap && b in heap :: a != b ==> !Shares(kg, heap[a], heap[b], f)
  }

  /** A record as it can be stored: without nulls, accepted, within a page. */
  predicate Storable(rules: Rules, r: Record) {
    Normalize(r) == r && rules.accepts(r) && rules.fits(r)
  }

  ghost predicate AllStorable(rules: Rules, heap: map<nat, Record>) {
    forall id | id in heap :: Storable(rules, heap[id])
  }

  /** Equal values that storable records hold in one field hash alike. */
  ghost predicate StoredAlike(rules: Rules) {
    forall r, q, f | Storable(rules, r) && Storable(rules, q) && Shares(rules.kg, r, q, f) :: HashShares(rules.kg, r, q, f)
  }

  /** So do those that the heap and one more record do. */
  ghost predicate AlikeTo(kg: Keying, heap: map<nat, Record>, r: Record) {
    forall id, f | id in heap && Shares(kg, heap[id], r, f) :: HashShares(kg, heap[id], r, f)
  }

  lemma StorableAlike(rules: Rules, heap: map<nat, Record>, r: Record)
    requires StoredAlike(rules) && AllStorable(rules, heap) && Storable(rules, r)
    ensures AlikeTo(rules.kg, heap, r)
  {
    hide Shares, HashShares, Storable;
  }

  /** Where equal values hash alike, those stored do, and every other. */
  lemma AlikeEverywhere(rules: Rules, heap: map<nat, Record>, r: Record)
    requires HashesAlike(rules.kg)
    ensures StoredAlike(rules) && AlikeTo(rules.kg, heap, r)
  {
    forall a, b, f | Shares(rules.kg, a, b, f) ensures HashShares(rules.kg, a, b, f) {
      KeysAreValues(rules.kg, Hash, a, b, f);
    }
  }

  ghost predicate Good(rules: Rules, db: Db) {
    && Agree(rules, db.indexes, db.heap) && Backed(db)
    && AllUnique(rules.kg, db.heap, db.unique) && AllStorable(rules, db.heap)
  }

  /** The field's values lie under one key of an index of this kind. */
  predicate SameKey(kg: Keying, kind: Kind, a: Record, b: Record, f: string) {
    && Field(a, f).Some? && Field(b, f).Some?
    && KeyIn(kg, kind, Field(a, f).value) == KeyIn(kg, kind, Field(b, f).value)
  }

  /** One key is one value; one value is one key where equal values hash alike. */
  lemma KeysAreValues(kg: Keying, kind: Kind, a: Record, b: Record, f: string)
    ensures SameKey(kg, kind, a, b, f) ==> Shares(kg, a, b, f)
    ensures HashShares(kg, a, b, f) ==> Shares(kg, a, b, f)
    ensures HashesAlike(kg) || kind == BTree ==> (SameKey(kg, kind, a, b, f) <==> Shares(kg, a, b, f))
    ensures HashesAlike(kg) ==> (HashShares(kg, a, b, f) <==> Shares(kg, a, b, f))
    ensures HashShares(kg, a, b, f) ==> SameKey(kg, kind, a, b, f)
    ensures kind != BTree ==> (SameKey(kg, kind, a, b, f) <==> HashShares(kg, a, b, f))
  {
  }

  /** What a look-up in the backing index finds: a live record under the same key. */
  lemma FoundAt(rules: Rules, db: Db, f: string, exclude: Option<nat>, r: Record)
    requires Agree(rules, db.indexes, db.heap) && Backed(db) && f in db.unique && Field(r, f).Some?
    ensures var kind := db.indexes[FirstFor(db.indexes, f).value].shape.kind;
      FoundClash(rules, db.indexes, f, Field(r, f).value, exclude) <==>
        exists id | id in db.heap :: Some(id) != exclude && SameKey(rules.kg, kind, db.heap[id], r, f)
  {
    var i := FirstFor(db.indexes, f).value;
    var x := db.indexes[i];
    var k := [KeyIn(rules.kg, x.shape.kind, Field(r, f).value)];
    assert x == Derived(rules, x.shape, db.heap);
    hide KeyIn;
    forall id: nat ensures id in IdsOf(x.pairs, k) <==> id in db.heap && SameKey(rules.kg, x.shape.kind, db.heap[id], r, f) {
      InIdsOf(x.pairs, k, id);
      InDerived(rules, x.shape, db.heap, k, id);
    }
  }

  /** A conflict that is found is one; where the values compared hash alike if they are equal, one that is there is found. */
  lemma FoundIsReal(rules: Rules, db: Db, exclude: Option<nat>, r: Record)
    requires Agree(rules, db.indexes, db.heap) && Backed(db)
    ensures FoundClashes(rules, db, exclude, r) ==> Clashes(rules.kg, db.heap, db.unique, exclude, r)
    ensures AlikeTo(rules.kg, db.heap, r) ==>
      (FoundClashes(rules, db, exclude, r) <==> Clashes(rules.kg, db.heap, db.unique, exclude, r))
  {
    hide FoundClash, SameKey, Shares, HashShares, Agree;
    if FoundClashes(rules, db, exclude, r) {
      var f :| f in db.unique && Field(r, f).Some? && FoundClash(rules, db.indexes, f, Field(r, f).value, exclude);
      FoundAt(rules, db, f, exclude, r);
      var kind := db.indexes[FirstFor(db.indexes, f).value].shape.kind;
      var id :| id in db.heap && Some(id) != exclude && SameKey(rules.kg, kind, db.heap[id], r, f);
      KeysAreValues(rules.kg, kind, db.heap[id], r, f);
    }
    if AlikeTo(rules.kg, db.heap, r) && Clashes(rules.kg, db.heap, db.unique, exclude, r) {
      var f, id :| f in db.unique && id in db.heap && Some(id) != exclude && Shares(rules.kg, db.heap[id], r, f);
      SharedGiven(rules.kg, db.heap[id], r, f);
      var kind := db.indexes[FirstFor(db.indexes, f).value].shape.kind;
      KeysAreValues(rules.kg, kind, db.heap[id], r, f);
      FoundAt(rules, db, f, exclude, r);
    }
  }

  lemma SharedGiven(kg: Keying, a: Record, b: Record, f: string)
    requires Shares(kg, a, b, f)
    ensures Field(a, f).Some? && Field(b, f).Some?
  {
  }

  lemma AllIndexed(rules: Rules, xs: seq<Index>, heap: map<nat, Record>, id: nat, r: Record)
    requires Agree(rules, xs, heap) && id !in heap
    ensures Agree(rules, IndexAll(rules, xs, id, r), heap[id := r])
    ensures forall f :: FirstFor(IndexAll(rules, xs, id, r), f) == FirstFor(xs, f)
  {
    hide Derived, Indexed;
    var ys := IndexAll(rules, xs, id, r);
    forall i | 0 <= i < |ys| ensures ys[i] == Derived(rules, ys[i].shape, heap[id := r]) && ys[i].shape == xs[i].shape {
      IndexedAgrees(rules, xs[i].shape, heap, id, r);
      SameShape(rules, xs[i], id, r);
    }
    forall f ensures FirstFor(ys, f) == FirstFor(xs, f) {
      SameFirst(xs, ys, f);
    }
  }

  lemma AllUnindexed(rules: Rules, xs: seq<Index>, heap: map<nat, Record>, id: nat)
    requires Agree(rules, xs, heap) && id in heap
    ensures Agree(rules, UnindexAll(rules, xs, id, heap[id]), heap - {id})
    ensures forall f :: FirstFor(UnindexAll(rules, xs, id, heap[id]), f) == FirstFor(xs, f)
  {
    hide Derived, Unindexed;
    var ys := UnindexAll(rules, xs, id, heap[id]);
    forall i | 0 <= i < |ys| ensures ys[i] == Derived(rules, ys[i].shape, heap - {id}) && ys[i].shape == xs[i].shape {
      UnindexedAgrees(rules, xs[i].shape, heap, id);
      SameShape(rules, xs[i], id, heap[id]);
    }
    forall f ensures FirstFor(ys, f) == FirstFor(xs, f) {
      SameFirst(xs, ys, f);
    }
  }

  lemma SameShape(rules: Rules, x: Index, id: nat, r: Record)
    ensures Indexed(rules, x, id, r).shape == x.shape && Unindexed(rules, x, id, r).shape == x.shape
  {
  }

  lemma {:induction false} SameFirst(xs: seq<Index>, ys: seq<Index>, f: string)
    requires |xs| == |ys| && forall i :: 0 <= i < |xs| ==> xs[i].shape == ys[i].shape
    ensures FirstFor(xs, f) == FirstFor(ys, f)
  {
    if xs != [] {
      SameFirst(xs[1..], ys[1..], f);
    }
  }

  lemma Normalized(rec: Record)
    ensures Normalize(Normalize(rec)) == Normalize(rec)
  {
  }

  lemma InsertKeeps(rules: Rules, db: Db, id: nat, rec: Record)
    requires Good(rules, db) && StoredAlike(rules)
    ensures Good(rules, Inserted(rules, db, id, rec).1)
    ensures AlikeTo(rules.kg, db.heap, Normalize(rec)) ==>
      (Inserted(rules, db, id, rec).0 == Some(Duplicate) <==> Clashes(rules.kg, db.heap, db.unique, None, Normalize(rec)))
  {
    var r := Normalize(rec);
    FoundIsReal(rules, db, None, r);
    hide FoundClashes, Shares, AlikeTo, StoredAlike;
    if Inserted(rules, db, id, rec).0.None? {
      Normalized(rec);
      StorableAlike(rules, db.heap, r);
      AllIndexed(rules, db.indexes, db.heap, id, r);
      NewUnique(rules.kg, db.heap, db.unique, id, r);
    }
  }

  /** A record free of conflict may take or replace its place. */
  lemma NewUnique(kg: Keying, heap: map<nat, Record>, unique: set<string>, id: nat, r: Record)
    requires AllUnique(kg, heap, unique) && !Clashes(kg, heap, unique, if id in heap then Some(id) else None, r)
    ensures AllUnique(kg, heap[id := r], unique)
  {
    var heap' := heap[id := r];
    hide Shares;
    forall f, a, b | f in unique && a in heap' && b in heap' && a != b ensures !Shares(kg, heap'[a], heap'[b], f) {
      SharesBack(kg, heap'[a], heap'[b], f);
      if a == id {
        assert Some(b) != Some(id) && !Shares(kg, heap[b], r, f);
      } else if b == id {
        assert Some(a) != Some(id) && !Shares(kg, heap[a], r, f);
      }
    }
  }

  lemma UpdateKeeps(rules: Rules, db: Db, id: nat, rec: Record)
    requires Good(rules, db) && StoredAlike(rules)
    ensures Good(rules, Updated(rules, db, id, rec).1)
    ensures AlikeTo(rules.kg, db.heap, Normalize(rec)) ==>
      (Updated(rules, db, id, rec).0 == Some(Duplicate) <==> Clashes(rules.kg, db.heap, db.unique, Some(id), Normalize(rec)))
  {
    var r := Normalize(rec);
    FoundIsReal(rules, db, Some(id), r);
    hide FoundClashes, Shares, AlikeTo, StoredAlike;
    if Updated(rules, db, id, rec).0.None? {
      Normalized(rec);
      StorableAlike(rules, db.heap, r);
      NewUnique(rules.kg, db.heap, db.unique, id, r);
      hide AllUnique;
      var rest := db.heap - {id};
      if id in db.heap {
        AllUnindexed(rules, db.indexes, db.heap, id);
        AllIndexed(rules, UnindexAll(rules, db.indexes, id, db.heap[id]), rest, id, r);
        assert rest[id := r] == db.heap[id := r];
      } else {
        AllIndexed(rules, db.indexes, db.heap, id, r);
      }
    }
  }

  lemma DeleteKeeps(rules: Rules, db: Db, id: nat)
    requires Good(rules, db)
    ensures Good(rules, Deleted(rules, db, id))
  {
    if id in db.heap {
      AllUnindexed(rules, db.indexes, db.heap, id);
    }
  }

  // -- what a write leaves -------------------------------------------------

  /** The same indexes by shape, in the same places. */
  predicate SameShapes(xs: seq<Index>, ys: seq<Index>) {
    |xs| == |ys| && forall i :: 0 <= i < |xs| ==> xs[i].shape == ys[i].shape
  }

  /**
   * An insert answers nothing exactly when no other record is in conflict, its record is accepted
   * and fits and its id is new; then it is in the heap, and otherwise nothing has changed and the
   * answer names the first of those that failed.
   */
  lemma InsertLeaves(rules: Rules, db: Db, id: nat, rec: Record)
    ensures var (e, after) := Inserted(rules, db, id, rec);
      var r := Normalize(rec);
      && (Good(rules, db) && AlikeTo(rules.kg, db.heap, r) ==>
           && (e == Some(Duplicate) <==> Clashes(rules.kg, db.heap, db.unique, None, r))
           && (e == Some(Invalid) <==> e != Some(Duplicate) && !rules.accepts(r))
           && (e == Some(Exists) <==> e != Some(Duplicate) && rules.accepts(r) && id in db.heap)
           && (e == Some(TooBig) <==> e != Some(Duplicate) && rules.accepts(r) && id !in db.heap && !rules.fits(r))
           && (e.None? <==> rules.accepts(r) && rules.fits(r) && id !in db.heap && !Clashes(rules.kg, db.heap, db.unique, None, r)))
      && (e.None? ==> after.heap == db.heap[id := r] && after.unique == db.unique && SameShapes(after.indexes, db.indexes))
      && (e.Some? ==> after == db)
  {
    if Good(rules, db) {
      FoundIsReal(rules, db, None, Normalize(rec));
    }
    hide FoundClashes, Clashes, Good, AlikeTo, Indexed;
    ShapesKept(rules, db.indexes, id, Normalize(rec));
  }

  /** The same of an update, whose id may be there or not and whose own record is no conflict. */
  lemma UpdateLeaves(rules: Rules, db: Db, id: nat, rec: Record)
    ensures var (e, after) := Updated(rules, db, id, rec);
      var r := Normalize(rec);
      && (Good(rules, db) && AlikeTo(rules.kg, db.heap, r) ==>
           && (e == Some(Duplicate) <==> Clashes(rules.kg, db.heap, db.unique, Some(id), r))
           && (e == Some(Invalid) <==> e != Some(Duplicate) && !rules.accepts(r))
           && (e == Some(TooBig) <==> e != Some(Duplicate) && rules.accepts(r) && !rules.fits(r))
           && (e.None? <==> rules.accepts(r) && rules.fits(r) && !Clashes(rules.kg, db.heap, db.unique, Some(id), r)))
      && e != Some(Exists)
      && (e.None? ==> after.heap == db.heap[id := r] && after.unique == db.unique && SameShapes(after.indexes, db.indexes))
      && (e.Some? ==> after == db)
  {
    if Good(rules, db) {
      FoundIsReal(rules, db, Some(id), Normalize(rec));
    }
    hide FoundClashes, Clashes, Good, AlikeTo, Indexed, Unindexed;
    ShapesKept(rules, db.indexes, id, Normalize(rec));
    if id in db.heap {
      ShapesKept(rules, db.indexes, id, db.heap[id]);
      ShapesKept(rules, UnindexAll(rules, db.indexes, id, db.heap[id]), id, Normalize(rec));
    }
  }

  lemma ShapesKept(rules: Rules, xs: seq<Index>, id: nat, r: Record)
    ensures SameShapes(IndexAll(rules, xs, id, r), xs) && SameShapes(UnindexAll(rules, xs, id, r), xs)
  {
    forall i | 0 <= i < |xs| ensures Indexed(rules, xs[i], id, r).shape == xs[i].shape == Unindexed(rules, xs[i], id, r).shape {
      SameShape(rules, xs[i], id, r);
    }
  }

  /** After a delete the id is gone, and everything else is as it was. */
  lemma DeleteLeaves(rules: Rules, db: Db, id: nat)
    ensures var after := Deleted(rules, db, id);
      after.heap == db.heap - {id} && after.unique == db.unique && SameShapes(after.indexes, db.indexes)
  {
    if id in db.heap {
      ShapesKept(rules, db.indexes, id, db.heap[id]);
    }
    hide Unindexed;
  }

  /** An index of the shape is in the list. */
  ghost predicate Includes(db: Db, shape: Shape) {
    exists i | 0 <= i < |db.indexes| :: db.indexes[i].shape == shape
  }

  /** A created index is there, beside all that were, and no record is touched. */
  lemma CreateLeaves(rules: Rules, db: Db, shape: Shape)
    ensures var after := Created(rules, db, shape);
      && Includes(after, shape)
      && |db.indexes| <= |after.indexes| && after.indexes[..|db.indexes|] == db.indexes
      && after.heap == db.heap && after.unique == db.unique
  {
    DerivedShape(rules, shape, db.heap);
    hide Derived;
    var after := Created(rules, db, shape);
    if !(exists i | 0 <= i < |db.indexes| :: db.indexes[i].shape == shape) {
      assert after.indexes[|db.indexes|].shape == shape;
    }
  }

  /** An accepted constraint joins the others, a refused one changes nothing. */
  lemma ConstrainLeaves(rules: Rules, db: Db, f: string)
    ensures var (e, after) := Constrained(rules, db, f);
      && after.heap == db.heap && after.unique == (if e.None? then db.unique + {f} else db.unique)
      && |db.indexes| <= |after.indexes| && after.indexes[..|db.indexes|] == db.indexes
  {
    CreateLeaves(rules, db, Plain(f, Hash));
    hide Created, AlreadyShared;
  }

  /** Each record of the batch is in the heap, and no other record was touched. */
  ghost predicate AllLanded(records: Batch, before: map<nat, Record>, after: map<nat, Record>) {
    && (forall i | 0 <= i < |records| :: Lookup(after, records[i].0) == Some(Normalize(records[i].1)))
    && (forall id | !(exists i | 0 <= i < |records| :: records[i].0 == id) :: Lookup(after, id) == Lookup(before, id))
  }

  /** The first record the store would not take, and why: it is not accepted, or its id is there or met before. */
  ghost predicate FirstRefused(rules: Rules, heap: map<nat, Record>, b: Batch, i: nat, e: Failure)
    requires i < |b|
  {
    && (forall j | 0 <= j < i :: rules.accepts(b[j].1) && b[j].0 !in heap && forall k | 0 <= k < j :: b[k].0 != b[j].0)
    && if rules.accepts(b[i].1) then e == Exists && (b[i].0 in heap || exists k | 0 <= k < i :: b[k].0 == b[i].0) else e == Invalid
  }

  lemma {:induction false} RefusedFirst(rules: Rules, heap: map<nat, Record>, b: Batch, n: nat, seen: set<nat>)
    requires n <= |b| && forall id :: id in seen <==> exists k | 0 <= k < n :: b[k].0 == id
    requires forall j | 0 <= j < n :: rules.accepts(b[j].1) && b[j].0 !in heap && forall k | 0 <= k < j :: b[k].0 != b[j].0
    ensures Refusal(rules, heap, b[n..], seen).Some? ==>
      exists i | n <= i < |b| :: FirstRefused(rules, heap, b, i, Refusal(rules, heap, b[n..], seen).value)
    decreases |b| - n
  {
    if n < |b| {
      assert b[n..][0] == b[n] && b[n..][1..] == b[n + 1..];
      if rules.accepts(b[n].1) && b[n].0 !in heap && b[n].0 !in seen {
        RefusedFirst(rules, heap, b, n + 1, seen + {b[n].0});
      } else {
        assert FirstRefused(rules, heap, b, n, Refusal(rules, heap, b[n..], seen).value);
      }
    }
  }

  /**
   * A batch that answers nothing has put each of its records in the heap, and touched no other
   * record; it answers so exactly when every record is accepted and fits, every id is new and
   * there once, and no constrained value is found held or met twice.
   */
  lemma BatchLeaves(rules: Rules, db: Db, records: Batch)
    ensures var (e, after) := Batched(rules, db, records);
      && (e.None? <==>
           && !BatchClashes(rules, db, Stored(records))
           && (forall i | 0 <= i < |records| :: records[i].0 !in db.heap)
           && (forall i, j | 0 <= i < j < |records| :: records[i].0 != records[j].0)
           && (forall i | 0 <= i < |records| :: rules.accepts(Normalize(records[i].1)) && rules.fits(Normalize(records[i].1))))
      && (e.None? ==> AllLanded(records, db.heap, after.heap))
      && after.unique == db.unique && SameShapes(after.indexes, db.indexes)
  {
    var b := Stored(records);
    NotRefused(rules, db.heap, b, {});
    BatchShapes(rules, db.indexes, b);
    hide Refusal, BatchClashes, Landed, IndexBatch, AllLanded;
    if Batched(rules, db, records).0.None? {
      assert b[..Landing(rules, b)] == b;
      BatchHeap(rules, db, records);
    }
  }

  /** What a refused batch answers: a conflict first, else why the first record at fault is refused, else that one does not fit. */
  lemma BatchRefuses(rules: Rules, db: Db, records: Batch)
    ensures var (e, after) := Batched(rules, db, records);
      && (e == Some(Duplicate) <==> BatchClashes(rules, db, Stored(records)))
      && (e in {Some(Invalid), Some(Exists)} ==> exists i | 0 <= i < |records| :: FirstRefused(rules, db.heap, Stored(records), i, e.value))
      && (e == Some(TooBig) ==> exists i | 0 <= i < |records| :: !rules.fits(Normalize(records[i].1)))
      && (e.Some? && e != Some(TooBig) ==> after == db)
  {
    var b := Stored(records);
    RefusedFirst(rules, db.heap, b, 0, {});
    assert b[0..] == b;
    hide Refusal, BatchClashes, Landed, IndexBatch, FirstRefused, Normalize;
    var n := Landing(rules, b);
    assert n < |b| ==> b[n].1 == Normalize(records[n].1);
  }

  lemma BatchLands(rules: Rules, db: Db, records: Batch)
    ensures Batched(rules, db, records).0.None? ==> AllLanded(records, db.heap, Batched(rules, db, records).1.heap)
  {
    BatchLeaves(rules, db, records);
    hide Batched, AllLanded;
  }

  lemma CommitLands(rules: Rules, db: Db, writes: seq<(nat, Option<Record>)>)
    ensures Committed(rules, db, writes).0.None? ==> LastWritten(writes, db.heap, Committed(rules, db, writes).1.heap)
  {
    CommitLeaves(rules, db, writes);
    hide *;
  }

  lemma CreateIncludes(rules: Rules, db: Db, shape: Shape)
    ensures Includes(Created(rules, db, shape), shape)
  {
    CreateLeaves(rules, db, shape);
    hide *;
  }

  lemma BatchHeap(rules: Rules, db: Db, records: Batch)
    requires Fresh(db.heap, Stored(records))
    ensures AllLanded(records, db.heap, Landed(db.heap, Stored(records)))
  {
    LandedHolds(db.heap, Stored(records));
    hide Landed;
    var b, after := Stored(records), Landed(db.heap, Stored(records));
    forall i | 0 <= i < |records| ensures Lookup(after, records[i].0) == Some(Normalize(records[i].1)) {
      assert b[i].0 == records[i].0;
    }
    forall id | !(exists i | 0 <= i < |records| :: records[i].0 == id) ensures Lookup(after, id) == Lookup(db.heap, id) {
      assert forall i | 0 <= i < |b| :: b[i].0 == records[i].0;
    }
  }

  lemma {:induction false} BatchShapes(rules: Rules, xs: seq<Index>, b: Batch)
    ensures SameShapes(IndexBatch(rules, xs, b), xs)
  {
    if b != [] {
      var n := |b| - 1;
      BatchShapes(rules, xs, b[..n]);
      ShapesKept(rules, IndexBatch(rules, xs, b[..n]), b[n].0, b[n].1);
      hide Indexed;
    }
  }

  lemma {:induction false} FirstGrows(xs: seq<Index>, x: Index, f: string)
    ensures FirstFor(xs, f).Some? ==> FirstFor(xs + [x], f) == FirstFor(xs, f)
    ensures x.shape.Plain? && x.shape.field == f ==> FirstFor(xs + [x], f).Some?
  {
    if xs == [] {
      assert xs + [x] == [x];
    } else {
      assert (xs + [x])[1..] == xs[1..] + [x];
      FirstGrows(xs[1..], x, f);
    }
  }

  lemma CreateKeeps(rules: Rules, db: Db, shape: Shape)
    requires Good(rules, db)
    ensures Good(rules, Created(rules, db, shape))
    ensures shape.Plain? ==> FirstFor(Created(rules, db, shape).indexes, shape.field).Some?
  {
    hide Derived, Shares;
    var x := Derived(rules, shape, db.heap);
    assert x.shape == shape by { DerivedShape(rules, shape, db.heap); }
    forall f | f in db.unique ensures FirstFor(db.indexes + [x], f).Some? {
      FirstGrows(db.indexes, x, f);
    }
    if shape.Plain? {
      FirstGrows(db.indexes, x, shape.field);
    }
  }

  lemma DerivedShape(rules: Rules, shape: Shape, heap: map<nat, Record>)
    ensures Derived(rules, shape, heap).shape == shape
  {
  }

  lemma ConstrainKeeps(rules: Rules, db: Db, f: string)
    requires Good(rules, db) && StoredAlike(rules)
    ensures Good(rules, Constrained(rules, db, f).1)
    ensures Constrained(rules, db, f).0.None? <==> AllUnique(rules.kg, db.heap, db.unique + {f})
  {
    hide Shares, HashShares, Agree, Storable;
    CreateKeeps(rules, db, Plain(f, Hash));
    forall a, b | a in db.heap && b in db.heap
      ensures HashShares(rules.kg, db.heap[a], db.heap[b], f) <==> Shares(rules.kg, db.heap[a], db.heap[b], f)
    {
      KeysAreValues(rules.kg, Hash, db.heap[a], db.heap[b], f);
    }
    if f in db.unique {
      assert db.unique + {f} == db.unique;
    }
  }

  /** Ids new to the heap and to each other. */
  predicate Fresh(heap: map<nat, Record>, b: Batch) {
    && (forall i | 0 <= i < |b| :: b[i].0 !in heap)
    && (forall i, j | 0 <= i < j < |b| :: b[i].0 != b[j].0)
  }

  /** The heap holds what it held and every row of the batch, and nothing else. */
  ghost predicate Holds(before: map<nat, Record>, b: Batch, after: map<nat, Record>) {
    && (forall id | id in after :: id in before || exists i | 0 <= i < |b| :: b[i].0 == id)
    && (forall id | id in before :: id in after && after[id] == before[id])
    && (forall i | 0 <= i < |b| :: b[i].0 in after && after[b[i].0] == b[i].1)
  }

  lemma {:induction false} LandedHolds(heap: map<nat, Record>, b: Batch)
    requires Fresh(heap, b)
    ensures Holds(heap, b, Landed(heap, b))
  {
    if b != [] {
      hide Holds;
      var front := b[..|b| - 1];
      LandedHolds(heap, front) by { assert Fresh(heap, front); }
      HoldsOne(heap, front, Landed(heap, front), b[|b| - 1]) by { assert front + [b[|b| - 1]] == b; }
      assert front + [b[|b| - 1]] == b;
    }
  }

  lemma HoldsOne(before: map<nat, Record>, b: Batch, after: map<nat, Record>, row: (nat, Record))
    requires Holds(before, b, after) && Fresh(before, b + [row])
    ensures Holds(before, b + [row], after[row.0 := row.1])
  {
    var c := b + [row];
    assert c[|b|] == row && forall i | 0 <= i < |b| :: c[i] == b[i] && b[i].0 != row.0;
  }

  lemma {:induction false} BatchIndexed(rules: Rules, xs: seq<Index>, heap: map<nat, Record>, b: Batch)
    requires Agree(rules, xs, heap) && Fresh(heap, b)
    ensures Agree(rules, IndexBatch(rules, xs, b), Landed(heap, b))
    ensures forall f :: FirstFor(IndexBatch(rules, xs, b), f) == FirstFor(xs, f)
  {
    if b != [] {
      hide Derived, Indexed, FirstFor, Agree, IndexAll;
      var n := |b| - 1;
      var front := b[..n];
      assert Fresh(heap, front);
      BatchIndexed(rules, xs, heap, front);
      LandedHolds(heap, front);
      assert b[n].0 !in Landed(heap, front);
      AllIndexed(rules, IndexBatch(rules, xs, front), Landed(heap, front), b[n].0, b[n].1);
    }
  }

  /** Nothing is refused exactly when every record is accepted and every id is new. */
  lemma {:induction false} NotRefused(rules: Rules, heap: map<nat, Record>, b: Batch, seen: set<nat>)
    ensures Refusal(rules, heap, b, seen).None? <==>
      Fresh(heap, b) && forall i | 0 <= i < |b| :: b[i].0 !in seen && rules.accepts(b[i].1)
  {
    if b != [] {
      var rest := b[1..];
      NotRefused(rules, heap, rest, seen + {b[0].0});
      assert forall i | 0 < i < |b| :: b[i] == rest[i - 1];
      assert forall i | 0 <= i < |rest| :: rest[i] == b[i + 1];
    }
  }

  /** No record of the batch shares a constrained value with a live one, or with another of the batch. */
  ghost predicate NoClash(kg: Keying, db: Db, b: Batch) {
    && (forall i | 0 <= i < |b| :: !Clashes(kg, db.heap, db.unique, None, b[i].1))
    && (forall i, j, f | 0 <= i < j < |b| && f in db.unique :: !Shares(kg, b[i].1, b[j].1, f))
  }

  /** Looking in the index and in the values met finds a clash exactly when there is one, if all is storable. */
  lemma BatchFinds(rules: Rules, db: Db, b: Batch)
    requires Agree(rules, db.indexes, db.heap) && Backed(db) && AllStorable(rules, db.heap) && StoredAlike(rules)
    requires forall i | 0 <= i < |b| :: Storable(rules, b[i].1)
    ensures BatchClashes(rules, db, b) <==> !NoClash(rules.kg, db, b)
  {
    hide FoundClashes, Clashes, Shares, HashShares, Agree, Storable, AllStorable, AlikeTo;
    forall i | 0 <= i < |b| ensures AlikeTo(rules.kg, db.heap, b[i].1) {
      StorableAlike(rules, db.heap, b[i].1);
    }
    forall i | 0 <= i < |b| ensures FoundClashes(rules, db, None, b[i].1) <==> Clashes(rules.kg, db.heap, db.unique, None, b[i].1) {
      FoundIsReal(rules, db, None, b[i].1);
    }
    forall i, j, f | 0 <= i < j < |b| ensures HashShares(rules.kg, b[i].1, b[j].1, f) <==> Shares(rules.kg, b[i].1, b[j].1, f) {
      KeysAreValues(rules.kg, Hash, b[i].1, b[j].1, f);
    }
  }

  lemma BatchUnique(db: Db, rules: Rules, b: Batch)
    requires Good(rules, db) && Fresh(db.heap, b) && NoClash(rules.kg, db, b)
    ensures AllUnique(rules.kg, Landed(db.heap, b), db.unique)
  {
    LandedHolds(db.heap, b);
    var heap := Landed(db.heap, b);
    hide Landed, Shares, Agree, NoClash, Clashes, Fresh, AllStorable;
    forall f, x, y | f in db.unique && x in heap && y in heap && x != y ensures !Shares(rules.kg, heap[x], heap[y], f) {
      var i := RowOf(db.heap, b, x);
      var j := RowOf(db.heap, b, y);
      NoneShare(rules.kg, db, b, f, x, y, i, j, heap[x], heap[y]);
    }
  }

  /** Where a landed row came from: its place in the batch, or none for a row there before. */
  lemma RowOf(heap: map<nat, Record>, b: Batch, id: nat) returns (i: Option<nat>)
    requires Fresh(heap, b) && id in Landed(heap, b)
    ensures i.None? ==> id in heap && Landed(heap, b)[id] == heap[id]
    ensures i.Some? ==> i.value < |b| && b[i.value].0 == id && Landed(heap, b)[id] == b[i.value].1
  {
    LandedHolds(heap, b);
    hide Landed, Fresh;
    i := None;
    if id !in heap {
      var k :| 0 <= k < |b| && b[k].0 == id;
      i := Some(k);
    }
  }

  lemma NoneShare(kg: Keying, db: Db, b: Batch, f: string, x: nat, y: nat, i: Option<nat>, j: Option<nat>, r: Record, q: Record)
    requires AllUnique(kg, db.heap, db.unique) && NoClash(kg, db, b) && f in db.unique && x != y
    requires match i case None => x in db.heap && r == db.heap[x] case Some(k) => k < |b| && b[k].0 == x && r == b[k].1
    requires match j case None => y in db.heap && q == db.heap[y] case Some(k) => k < |b| && b[k].0 == y && q == b[k].1
    ensures !Shares(kg, r, q, f)
  {
    hide Shares;
    SharesBack(kg, r, q, f);
    if i.None? && j.Some? {
      assert !Clashes(kg, db.heap, db.unique, None, b[j.value].1);
      assert Some(x) != None;
    } else if i.Some? && j.None? {
      assert !Clashes(kg, db.heap, db.unique, None, b[i.value].1);
      assert Some(y) != None;
    }
  }

  lemma SharesBack(kg: Keying, a: Record, b: Record, f: string)
    ensures Shares(kg, a, b, f) <==> Shares(kg, b, a, f)
    ensures HashShares(kg, a, b, f) <==> HashShares(kg, b, a, f)
  {
  }

  /** Some index should file one of the first `n` rows. */
  ghost predicate Owes(rules: Rules, xs: seq<Index>, b: Batch, n: nat) {
    exists i, x | 0 <= i < n && i < |b| && 0 <= x < |xs| :: Wants(rules, xs[x].shape, b[i].1).Some?
  }

  /** The first record that does not fit its page. */
  predicate FirstUnfit(rules: Rules, b: Batch, n: nat) {
    n < |b| && !rules.fits(b[n].1) && forall i :: 0 <= i < n ==> rules.fits(b[i].1)
  }

  /**
   * A batch that passes every check - no value found held or met twice, every record accepted,
   * every id new - and then meets the page limit after a row some index should have filed.
   */
  ghost predicate Strands(rules: Rules, db: Db, records: Batch) {
    var b := Stored(records);
    && !BatchClashes(rules, db, b)
    && Fresh(db.heap, b)
    && (forall i | 0 <= i < |b| :: rules.accepts(b[i].1))
    && exists n | 0 <= n < |b| :: FirstUnfit(rules, b, n) && Owes(rules, db.indexes, b, n)
  }

  lemma FiledFront(rules: Rules, xs: seq<Index>, b: Batch, n: nat)
    requires n <= |b|
    ensures Owes(rules, xs, b, n) <==> Owes(rules, xs, b[..n], n)
  {
    hide Wants;
    assert forall i | 0 <= i < n :: b[..n][i] == b[i];
    if Owes(rules, xs, b, n) {
      var i, x :| 0 <= i < n && i < |b| && 0 <= x < |xs| && Wants(rules, xs[x].shape, b[i].1).Some?;
      assert Wants(rules, xs[x].shape, b[..n][i].1).Some?;
    }
  }

  /**
   * A batch keeps every index and constraint, unless its rows overrun the page
   * limit after one that an index should have filed: exactly then an index is left behind.
   */
  lemma BatchKeeps(rules: Rules, db: Db, records: Batch)
    requires Good(rules, db) && StoredAlike(rules)
    ensures Good(rules, Batched(rules, db, records).1) <==> !Strands(rules, db, records)
    ensures AllUnique(rules.kg, Batched(rules, db, records).1.heap, db.unique)
    ensures var e := Batched(rules, db, records).0;
      e.Some? && e != Some(TooBig) ==> Batched(rules, db, records).1 == db
    ensures Strands(rules, db, records) ==> Batched(rules, db, records).0 == Some(TooBig)
  {
    var b := Stored(records);
    var n := Landing(rules, b);
    NotRefused(rules, db.heap, b, {});
    StoredNormal(records);
    hide AllUnique, BatchClashes, Agree, Owes, StoredAlike, Fresh, Landed, IndexBatch, Landing, Refusal, Stored, AllStorable;
    if !BatchClashes(rules, db, b) && Refusal(rules, db.heap, b, {}).None? {
      FrontLands(rules, db, b, n);
      if n < |b| {
        FiledFront(rules, db.indexes, b, n);
        StrandedExactly(rules, db, b[..n]);
        assert FirstUnfit(rules, b, n);
        assert forall m | FirstUnfit(rules, b, m) :: m == n;
      } else {
        assert forall m :: !FirstUnfit(rules, b, m);
        assert b[..n] == b;
        BatchIndexed(rules, db.indexes, db.heap, b);
        StillBacked(rules, db, b);
      }
    }
  }

  lemma StoredNormal(records: Batch)
    ensures forall i | 0 <= i < |records| :: Normalize(Stored(records)[i].1) == Stored(records)[i].1
  {
    forall i | 0 <= i < |records| ensures Normalize(Stored(records)[i].1) == Stored(records)[i].1 {
      Normalized(records[i].1);
    }
  }

  lemma StillBacked(rules: Rules, db: Db, b: Batch)
    requires Backed(db) && forall f :: FirstFor(IndexBatch(rules, db.indexes, b), f) == FirstFor(db.indexes, f)
    ensures Backed(Db(Landed(db.heap, b), IndexBatch(rules, db.indexes, b), db.unique))
  {
  }

  /** The rows that land are storable, new, and share no constrained value. */
  lemma FrontLands(rules: Rules, db: Db, b: Batch, n: nat)
    requires Good(rules, db) && StoredAlike(rules) && Fresh(db.heap, b) && n <= |b| && !BatchClashes(rules, db, b)
    requires forall i | 0 <= i < |b| :: Normalize(b[i].1) == b[i].1 && rules.accepts(b[i].1)
    requires forall i | 0 <= i < n :: rules.fits(b[i].1)
    ensures Fresh(db.heap, b[..n]) && AllUnique(rules.kg, Landed(db.heap, b[..n]), db.unique)
    ensures AllStorable(rules, Landed(db.heap, b[..n]))
  {
    var front := b[..n];
    assert Fresh(db.heap, front);
    FrontClear(rules, db, b, n);
    LandedHolds(db.heap, front);
    hide Landed, Agree, AllUnique, BatchClashes, NoClash, StoredAlike, Fresh, Backed;
    BatchFinds(rules, db, front);
    BatchUnique(db, rules, front);
  }

  lemma FrontClear(rules: Rules, db: Db, b: Batch, n: nat)
    requires n <= |b| && !BatchClashes(rules, db, b)
    ensures !BatchClashes(rules, db, b[..n])
  {
    hide FoundClashes, HashShares;
    assert forall i | 0 <= i < n :: b[..n][i] == b[i];
  }

  lemma StrandedExactly(rules: Rules, db: Db, b: Batch)
    requires Agree(rules, db.indexes, db.heap) && Fresh(db.heap, b)
    ensures Agree(rules, db.indexes, Landed(db.heap, b)) <==> !Owes(rules, db.indexes, b, |b|)
  {
    hide Agree, Landed, Wants;
    if Owes(rules, db.indexes, b, |b|) {
      var i, x :| 0 <= i < |b| && 0 <= x < |db.indexes| && Wants(rules, db.indexes[x].shape, b[i].1).Some?;
      FiledDisagrees(rules, db, b, i, x);
    } else {
      UnfiledAgrees(rules, db, b);
    }
  }

  lemma FiledDisagrees(rules: Rules, db: Db, b: Batch, i: nat, x: nat)
    requires Agree(rules, db.indexes, db.heap) && Fresh(db.heap, b)
    requires i < |b| && x < |db.indexes| && Wants(rules, db.indexes[x].shape, b[i].1).Some?
    ensures !Agree(rules, db.indexes, Landed(db.heap, b))
  {
    LandedHolds(db.heap, b);
    hide Landed, Wants, Derived;
    WantedRow(rules, db.indexes[x], db.heap, Landed(db.heap, b), b[i].0);
  }

  lemma UnfiledAgrees(rules: Rules, db: Db, b: Batch)
    requires Agree(rules, db.indexes, db.heap) && Fresh(db.heap, b) && !Owes(rules, db.indexes, b, |b|)
    ensures Agree(rules, db.indexes, Landed(db.heap, b))
  {
    LandedHolds(db.heap, b);
    hide Landed, Wants, Derived;
    forall x: Index | x in db.indexes ensures x == Derived(rules, x.shape, Landed(db.heap, b)) {
      UnwantedRows(rules, x, db.heap, Landed(db.heap, b));
    }
  }

  /** A new row an index wants leaves it behind. */
  lemma WantedRow(rules: Rules, x: Index, heap: map<nat, Record>, more: map<nat, Record>, id: nat)
    requires x == Derived(rules, x.shape, heap)
    requires id in more && id !in heap && Wants(rules, x.shape, more[id]).Some?
    ensures x != Derived(rules, x.shape, more)
  {
    hide Wants;
    var k := Wants(rules, x.shape, more[id]).value;
    InDerived(rules, x.shape, heap, k, id);
    InDerived(rules, x.shape, more, k, id);
  }

  /** Rows it does not want change nothing in it. */
  lemma UnwantedRows(rules: Rules, x: Index, heap: map<nat, Record>, more: map<nat, Record>)
    requires x == Derived(rules, x.shape, heap)
    requires forall id | id in heap :: id in more && more[id] == heap[id]
    requires forall id | id in more :: id in heap || Wants(rules, x.shape, more[id]).None?
    ensures x == Derived(rules, x.shape, more)
  {
    hide Wants;
    var y := Derived(rules, x.shape, more);
    forall k: IndexKey, id: nat ensures (k, id) in x.pairs <==> (k, id) in y.pairs {
      InDerived(rules, x.shape, heap, k, id);
      InDerived(rules, x.shape, more, k, id);
    }
    assert x.rows == y.rows;
    SameIndex(x, y);
  }

  // -- runs ----------------------------------------------------------------

  datatype Step =
    | Insert(id: nat, rec: Record)
    | Update(id: nat, rec: Record)
    | Delete(id: nat)
    | InsertBatch(records: Batch)
    | Commit(writes: seq<(nat, Option<Record>)>)
    | CreateIndex(shape: Shape)
    | AddUnique(field: string)

  /** The first pass over a transaction's puts: each accepted, none found in conflict. */
  ghost predicate Cleared(rules: Rules, db: Db, writes: seq<(nat, Option<Record>)>) {
    forall i | 0 <= i < |writes| && writes[i].1.Some? ::
      var r := Normalize(writes[i].1.value);
      rules.accepts(r) && !FoundClashes(rules, db, Some(writes[i].0), r)
  }

  /** Why the first pass refuses: of the first put it refuses, that it is not accepted, or else that it is in conflict. */
  ghost function Objection(rules: Rules, db: Db, writes: seq<(nat, Option<Record>)>): (e: Option<Failure>)
    ensures e.None? <==> Cleared(rules, db, writes)
  {
    if writes == [] then None
    else
      var rest := writes[1..];
      assert forall i | 0 < i < |writes| :: writes[i] == rest[i - 1];
      assert forall i | 0 <= i < |rest| :: rest[i] == writes[i + 1];
      match writes[0].1
      case None => Objection(rules, db, rest)
      case Some(rec) =>
        if !rules.accepts(Normalize(rec)) then Some(Invalid)
        else if FoundClashes(rules, db, Some(writes[0].0), Normalize(rec)) then Some(Duplicate)
        else Objection(rules, db, rest)
  }

  /** The first put the first pass would not have, and why. */
  ghost predicate FirstObjection(rules: Rules, db: Db, writes: seq<(nat, Option<Record>)>, n: nat, e: Failure)
    requires n < |writes|
  {
    && writes[n].1.Some? && Cleared(rules, db, writes[..n])
    && var r := Normalize(writes[n].1.value);
       if rules.accepts(r) then e == Duplicate && FoundClashes(rules, db, Some(writes[n].0), r) else e == Invalid
  }

  lemma {:induction false} ObjectionFirst(rules: Rules, db: Db, writes: seq<(nat, Option<Record>)>)
    requires Objection(rules, db, writes).Some?
    ensures exists n | 0 <= n < |writes| :: FirstObjection(rules, db, writes, n, Objection(rules, db, writes).value)
  {
    hide FoundClashes, Normalize;
    var rest := writes[1..];
    if writes[0].1.Some? && (!rules.accepts(Normalize(writes[0].1.value)) || FoundClashes(rules, db, Some(writes[0].0), Normalize(writes[0].1.value))) {
      assert FirstObjection(rules, db, writes, 0, Objection(rules, db, writes).value);
    } else {
      ObjectionFirst(rules, db, rest);
      hide FirstObjection, Cleared;
      var n :| 0 <= n < |rest| && FirstObjection(rules, db, rest, n, Objection(rules, db, rest).value);
      ObjectionLater(rules, db, writes, n, Objection(rules, db, rest).value);
      assert FirstObjection(rules, db, writes, n + 1, Objection(rules, db, writes).value);
    }
  }

  lemma ObjectionLater(rules: Rules, db: Db, writes: seq<(nat, Option<Record>)>, n: nat, e: Failure)
    requires n + 1 < |writes| && FirstObjection(rules, db, writes[1..], n, e)
    requires writes[0].1.Some? ==>
      rules.accepts(Normalize(writes[0].1.value)) && !FoundClashes(rules, db, Some(writes[0].0), Normalize(writes[0].1.value))
    ensures FirstObjection(rules, db, writes, n + 1, e)
  {
    hide FoundClashes, Normalize;
    var front := writes[..n + 1];
    assert front[0] == writes[0] && front[1..] == writes[1..][..n];
    assert forall i | 0 < i < |front| :: front[i] == front[1..][i - 1];
  }

  /** The second pass, through the ordinary write paths, stopping at the first failure. */
  ghost function Applied(rules: Rules, db: Db, writes: seq<(nat, Option<Record>)>): (Option<Failure>, Db)
    decreases |writes|
  {
    if writes == [] then (None, db)
    else
      match writes[0].1
      case None => Applied(rules, Deleted(rules, db, writes[0].0), writes[1..])
      case Some(rec) =>
        var (e, db') := Updated(rules, db, writes[0].0, rec);
        if e.Some? then (e, db') else Applied(rules, db', writes[1..])
  }

  ghost function Committed(rules: Rules, db: Db, writes: seq<(nat, Option<Record>)>): (Option<Failure>, Db) {
    if Cleared(rules, db, writes) then Applied(rules, db, writes) else (Objection(rules, db, writes), db)
  }

  ghost function After(rules: Rules, db: Db, step: Step): Db {
    match step
    case Insert(id, rec) => Inserted(rules, db, id, rec).1
    case Update(id, rec) => Updated(rules, db, id, rec).1
    case Delete(id) => Deleted(rules, db, id)
    case InsertBatch(records) => Batched(rules, db, records).1
    case Commit(writes) => Committed(rules, db, writes).1
    case CreateIndex(shape) => Created(rules, db, shape)
    case AddUnique(f) => Constrained(rules, db, f).1
  }

  /** A commit, whole or cut short by its second pass, leaves every index and constraint standing. */
  lemma {:induction false} AppliedKeeps(rules: Rules, db: Db, writes: seq<(nat, Option<Record>)>)
    requires Good(rules, db) && StoredAlike(rules)
    ensures Good(rules, Applied(rules, db, writes).1)
    decreases |writes|
  {
    hide Good, Updated, Deleted, StoredAlike;
    if writes != [] {
      match writes[0].1 {
        case None =>
          DeleteKeeps(rules, db, writes[0].0);
          AppliedKeeps(rules, Deleted(rules, db, writes[0].0), writes[1..]);
        case Some(rec) =>
          UpdateKeeps(rules, db, writes[0].0, rec);
          AppliedKeeps(rules, Updated(rules, db, writes[0].0, rec).1, writes[1..]);
      }
    }
  }

  /** What the writes of a commit leave at an id: the last of them to it, or what was there. */
  ghost predicate LastWritten(writes: seq<(nat, Option<Record>)>, before: map<nat, Record>, after: map<nat, Record>) {
    && (forall i | 0 <= i < |writes| && (forall j | i < j < |writes| :: writes[j].0 != writes[i].0) ::
         Lookup(after, writes[i].0) == match writes[i].1 case None => None case Some(rec) => Some(Normalize(rec)))
    && (forall id | forall i | 0 <= i < |writes| :: writes[i].0 != id :: Lookup(after, id) == Lookup(before, id))
  }

  /** A second pass that answers nothing has laid all its writes over the heap. */
  lemma {:induction false} AppliedLeaves(rules: Rules, db: Db, writes: seq<(nat, Option<Record>)>)
    ensures Applied(rules, db, writes).0.None? ==> LastWritten(writes, db.heap, Applied(rules, db, writes).1.heap)
    ensures Applied(rules, db, writes).1.unique == db.unique
    decreases |writes|
  {
    hide Updated, Deleted, LastWritten;
    if writes == [] {
      NothingWritten(db.heap);
    } else {
      var id, rest := writes[0].0, writes[1..];
      match writes[0].1 {
        case None =>
          var next := Deleted(rules, db, id);
          DeleteLeaves(rules, db, id);
          AppliedLeaves(rules, next, rest);
          if Applied(rules, next, rest).0.None? {
            WrittenFirst(writes, db.heap, next.heap, Applied(rules, next, rest).1.heap);
          }
        case Some(rec) =>
          var (e, next) := Updated(rules, db, id, rec);
          UpdateLeaves(rules, db, id, rec);
          if e.None? {
            AppliedLeaves(rules, next, rest);
            if Applied(rules, next, rest).0.None? {
              WrittenFirst(writes, db.heap, next.heap, Applied(rules, next, rest).1.heap);
            }
          }
      }
    }
  }

  /** A second pass cut short has laid the writes before the one refused over the heap. */
  lemma {:induction false} AppliedStops(rules: Rules, db: Db, writes: seq<(nat, Option<Record>)>)
    requires Applied(rules, db, writes).0.Some?
    ensures exists n | 0 <= n < |writes| :: writes[n].1.Some? && LastWritten(writes[..n], db.heap, Applied(rules, db, writes).1.heap)
    decreases |writes|
  {
    hide Updated, Deleted, LastWritten;
    var id, rest := writes[0].0, writes[1..];
    var next := if writes[0].1.Some? then Updated(rules, db, id, writes[0].1.value).1 else Deleted(rules, db, id);
    if writes[0].1.Some? && Updated(rules, db, id, writes[0].1.value).0.Some? {
      UpdateLeaves(rules, db, id, writes[0].1.value);
      NothingWritten(db.heap);
      assert writes[..0] == [];
    } else {
      if writes[0].1.Some? { UpdateLeaves(rules, db, id, writes[0].1.value); } else { DeleteLeaves(rules, db, id); }
      AppliedStops(rules, next, rest);
      var n :| 0 <= n < |rest| && rest[n].1.Some? && LastWritten(rest[..n], next.heap, Applied(rules, next, rest).1.heap);
      assert writes[..n + 1][1..] == rest[..n] && writes[n + 1] == rest[n];
      WrittenFirst(writes[..n + 1], db.heap, next.heap, Applied(rules, next, rest).1.heap);
    }
  }

  lemma NothingWritten(heap: map<nat, Record>)
    ensures LastWritten([], heap, heap)
  {
  }

  lemma WrittenFirst(writes: seq<(nat, Option<Record>)>, before: map<nat, Record>, next: map<nat, Record>, after: map<nat, Record>)
    requires writes != [] && LastWritten(writes[1..], next, after)
    requires next == match writes[0].1 case None => before - {writes[0].0} case Some(rec) => before[writes[0].0 := Normalize(rec)]
    ensures LastWritten(writes, before, after)
  {
    var rest := writes[1..];
    assert forall i | 0 <= i < |rest| :: rest[i] == writes[i + 1];
    hide Normalize;
    forall i | 0 <= i < |writes| && (forall j | i < j < |writes| :: writes[j].0 != writes[i].0)
      ensures Lookup(after, writes[i].0) == match writes[i].1 case None => None case Some(rec) => Some(Normalize(rec))
    {
      if i > 0 {
        assert rest[i - 1] == writes[i];
        assert forall j | i - 1 < j < |rest| :: rest[j].0 != rest[i - 1].0;
      }
    }
    forall id | forall i | 0 <= i < |writes| :: writes[i].0 != id ensures Lookup(after, id) == Lookup(before, id) {
      assert writes[0].0 != id;
      assert forall i | 0 <= i < |rest| :: rest[i].0 != id;
    }
  }

  /** Puts that can be stored beside the heap and beside each other. */
  ghost predicate Admitted(rules: Rules, db: Db, writes: seq<(nat, Option<Record>)>) {
    && (forall i | 0 <= i < |writes| && writes[i].1.Some? ::
         var r := Normalize(writes[i].1.value);
         rules.accepts(r) && rules.fits(r) && !Clashes(rules.kg, db.heap, db.unique, Some(writes[i].0), r))
    && (forall i, j | 0 <= i < j < |writes| :: writes[i].0 != writes[j].0)
    && (forall i, j, f | 0 <= i < j < |writes| && writes[i].1.Some? && writes[j].1.Some? && f in db.unique ::
         !Shares(rules.kg, Normalize(writes[i].1.value), Normalize(writes[j].1.value), f))
  }

  lemma AdmittedRest(rules: Rules, db: Db, next: Db, writes: seq<(nat, Option<Record>)>)
    requires writes != [] && Admitted(rules, db, writes) && next.unique == db.unique
    requires next.heap == match writes[0].1 case None => db.heap - {writes[0].0} case Some(rec) => db.heap[writes[0].0 := Normalize(rec)]
    ensures Admitted(rules, next, writes[1..])
  {
    hide Normalize, Shares;
    var rest := writes[1..];
    assert forall i | 0 <= i < |rest| :: rest[i] == writes[i + 1];
    forall i | 0 <= i < |rest| && rest[i].1.Some?
      ensures !Clashes(rules.kg, next.heap, next.unique, Some(rest[i].0), Normalize(rest[i].1.value))
    {
      var r := Normalize(rest[i].1.value);
      assert writes[i + 1] == rest[i] && !Clashes(rules.kg, db.heap, db.unique, Some(rest[i].0), r);
      forall f, id | f in next.unique && id in next.heap && Some(id) != Some(rest[i].0) ensures !Shares(rules.kg, next.heap[id], r, f) {
        if id == writes[0].0 {
          assert writes[0].1.Some? && !Shares(rules.kg, Normalize(writes[0].1.value), Normalize(writes[i + 1].1.value), f);
        }
      }
    }
    forall i, j, f | 0 <= i < j < |rest| && rest[i].1.Some? && rest[j].1.Some? && f in db.unique
      ensures !Shares(rules.kg, Normalize(rest[i].1.value), Normalize(rest[j].1.value), f)
    {
      assert writes[i + 1] == rest[i] && writes[j + 1] == rest[j];
    }
  }

  lemma {:induction false} AppliedLands(rules: Rules, db: Db, writes: seq<(nat, Option<Record>)>)
    requires Good(rules, db) && StoredAlike(rules) && Admitted(rules, db, writes)
    ensures Applied(rules, db, writes).0.None?
    decreases |writes|
  {
    hide Updated, Deleted, StoredAlike, Agree, Backed, AllUnique;
    if writes != [] {
      var id := writes[0].0;
      match writes[0].1 {
        case None =>
          DeleteLeaves(rules, db, id);
          DeleteKeeps(rules, db, id);
          AdmittedRest(rules, db, Deleted(rules, db, id), writes);
          AppliedLands(rules, Deleted(rules, db, id), writes[1..]);
        case Some(rec) =>
          Normalized(rec);
          StorableAlike(rules, db.heap, Normalize(rec));
          UpdateLeaves(rules, db, id, rec);
          UpdateKeeps(rules, db, id, rec);
          hide Normalize, Clashes;
          var next := Updated(rules, db, id, rec).1;
          AdmittedRest(rules, db, next, writes);
          AppliedLands(rules, next, writes[1..]);
      }
    }
  }

  /**
   * A commit that answers nothing is that overlay, and one of puts that can be stored beside
   * the heap and beside each other does; one that is refused by the first pass changes nothing
   * and says what the first put at fault was refused for,
   * and one that the second pass cuts short is the overlay of the writes before a put.
   */
  lemma CommitLeaves(rules: Rules, db: Db, writes: seq<(nat, Option<Record>)>)
    ensures var (e, after) := Committed(rules, db, writes);
      && (e.None? ==> LastWritten(writes, db.heap, after.heap))
      && (Good(rules, db) && StoredAlike(rules) && Admitted(rules, db, writes) ==> e.None?)
      && after.unique == db.unique
      && (!Cleared(rules, db, writes) ==>
           e.Some? && after == db && exists n | 0 <= n < |writes| :: FirstObjection(rules, db, writes, n, e.value))
      && (Cleared(rules, db, writes) && e.Some? ==>
           exists n | 0 <= n < |writes| :: writes[n].1.Some? && LastWritten(writes[..n], db.heap, after.heap))
  {
    AppliedLeaves(rules, db, writes);
    if Applied(rules, db, writes).0.Some? { AppliedStops(rules, db, writes); }
    if !Cleared(rules, db, writes) { ObjectionFirst(rules, db, writes); }
    if Good(rules, db) && StoredAlike(rules) && Admitted(rules, db, writes) {
      AppliedLands(rules, db, writes);
      forall i | 0 <= i < |writes| && writes[i].1.Some?
        ensures !FoundClashes(rules, db, Some(writes[i].0), Normalize(writes[i].1.value))
      {
        FoundIsReal(rules, db, Some(writes[i].0), Normalize(writes[i].1.value));
      }
    }
    hide Applied, LastWritten, Good, StoredAlike, FoundClashes, Clashes, FirstObjection;
  }

  ghost predicate Harmless(rules: Rules, db: Db, step: Step) {
    step.InsertBatch? ==> !Strands(rules, db, step.records)
  }

  /** One step, from a state that agrees, leaves one that does - exactly when it strands no row. */
  lemma StepKeeps(rules: Rules, db: Db, step: Step)
    requires Good(rules, db) && StoredAlike(rules)
    ensures Good(rules, After(rules, db, step)) <==> Harmless(rules, db, step)
  {
    hide Good, Inserted, Updated, Deleted, Batched, Applied, Created, Constrained, Strands, StoredAlike;
    match step
    case Insert(id, rec) => InsertKeeps(rules, db, id, rec);
    case Update(id, rec) => UpdateKeeps(rules, db, id, rec);
    case Delete(id) => DeleteKeeps(rules, db, id);
    case InsertBatch(records) => BatchKeeps(rules, db, records);
    case Commit(writes) => AppliedKeeps(rules, db, writes);
    case CreateIndex(shape) => CreateKeeps(rules, db, shape);
    case AddUnique(f) => ConstrainKeeps(rules, db, f);
  }

  ghost function Run(rules: Rules, db: Db, steps: seq<Step>): Db
    decreases |steps|
  {
    if steps == [] then db else Run(rules, After(rules, db, steps[0]), steps[1..])
  }

  ghost predicate AllHarmless(rules: Rules, db: Db, steps: seq<Step>)
    decreases |steps|
  {
    steps == [] || (Harmless(rules, db, steps[0]) && AllHarmless(rules, After(rules, db, steps[0]), steps[1..]))
  }

  /** Over every run, each index is what a scan would build and no two live records share a constrained value. */
  lemma {:induction false} RunKeeps(rules: Rules, db: Db, steps: seq<Step>)
    requires Good(rules, db) && AllHarmless(rules, db, steps) && StoredAlike(rules)
    ensures Good(rules, Run(rules, db, steps))
    decreases |steps|
  {
    hide Good, Harmless, After, StoredAlike;
    if steps != [] {
      StepKeeps(rules, db, steps[0]);
      RunKeeps(rules, After(rules, db, steps[0]), steps[1..]);
    }
  }

  /** Where every run starts. */
  lemma EmptyIsGood(rules: Rules)
    ensures Good(rules, Db(map[], [], {}))
  {
  }

  /** A record of one field. */
  function One(a: Atom): Record { map["f" := Is(a)] }

  /** A database with that field unique, backed by its hash index. */
  ghost function OneField(heap: map<nat, Record>, pairs: set<(IndexKey, nat)>): Db {
    Db(heap, [Index(Plain("f", Hash), pairs, map[])], {"f"})
  }

  /**
   * A batch cut off by the page limit hides a row from the constraint that covers it:
   * the next insert of the same value is let in, and two live records share it.
   */
  lemma StrandedRow(rules: Rules, a: Atom, big: Record) returns (steps: seq<Step>)
    requires "f" !in big && Normalize(big) == big
    requires rules.accepts(One(a)) && rules.accepts(big) && rules.fits(One(a)) && !rules.fits(big)
    ensures var end := Run(rules, Db(map[], [], {}), steps);
      !AllUnique(rules.kg, end.heap, end.unique)
  {
    hide After, AllUnique, Run, One, OneField, Normalize;
    var one := One(a);
    steps := [AddUnique("f"), InsertBatch([(1, one), (2, big)]), Insert(3, one)];
    FirstConstraint(rules);
    BatchStrands(rules, a, big);
    SharedLands(rules, a);
    RunThree(rules, Db(map[], [], {}), AddUnique("f"), InsertBatch([(1, one), (2, big)]), Insert(3, one));
  }

  lemma SharedLands(rules: Rules, a: Atom)
    requires rules.accepts(One(a)) && rules.fits(One(a))
    ensures var end := After(rules, OneField(map[1 := One(a)], {}), Insert(3, One(a))); !AllUnique(rules.kg, end.heap, end.unique)
  {
    var one, db := One(a), OneField(map[1 := One(a)], {});
    assert Normalize(one) == one;
    NothingFound(rules, db, one);
    hide FoundClashes;
    var end := Inserted(rules, db, 3, one).1;
    assert end.heap == map[1 := one, 3 := one] && end.unique == {"f"};
    assert end.heap[1] == one && end.heap[3] == one && Shares(rules.kg, one, one, "f");
  }

  lemma FirstConstraint(rules: Rules)
    ensures After(rules, Db(map[], [], {}), AddUnique("f")) == OneField(map[], {})
  {
    assert Derived(rules, Plain("f", Hash), map[]) == Index(Plain("f", Hash), {}, map[]);
  }

  lemma RunThree(rules: Rules, db: Db, a: Step, b: Step, c: Step)
    ensures Run(rules, db, [a, b, c]) == After(rules, After(rules, After(rules, db, a), b), c)
  {
    hide After;
    var steps := [a, b, c];
    var two := steps[1..];
    var one := two[1..];
    var d1 := After(rules, db, a);
    var d2 := After(rules, d1, b);
    var d3 := After(rules, d2, c);
    assert Run(rules, d3, one[1..]) == d3;
    assert Run(rules, d2, one) == d3;
    assert Run(rules, d1, two) == d3;
  }

  lemma NothingFound(rules: Rules, db: Db, r: Record)
    requires db.indexes == [Index(Plain("f", Hash), {}, map[])]
    ensures !FoundClashes(rules, db, None, r)
  {
  }

  lemma BatchStrands(rules: Rules, a: Atom, big: Record)
    requires Normalize(big) == big && "f" !in big
    requires rules.accepts(One(a)) && rules.accepts(big) && rules.fits(One(a)) && !rules.fits(big)
    ensures After(rules, OneField(map[], {}), InsertBatch([(1, One(a)), (2, big)])) == OneField(map[1 := One(a)], {})
  {
    var small := One(a);
    var b: Batch := [(1, small), (2, big)];
    var db := OneField(map[], {});
    assert Normalize(small) == small;
    assert Stored(b) == b;
    NothingFound(rules, db, small);
    NothingFound(rules, db, big);
    hide FoundClashes, Normalize, Stored, One;
    var tail: Batch := b[1..];
    var none: Batch := tail[1..];
    assert tail == [(2, big)] && none == [];
    assert Refusal(rules, db.heap, none, {1, 2}) == None;
    assert {} + {1} == {1} && {1} + {2} == {1, 2};
    assert Refusal(rules, db.heap, tail, {1}) == None;
    assert Refusal(rules, db.heap, b, {}) == None;
    assert Landing(rules, tail) == 0;
    assert Landing(rules, b) == 1;
    var front: Batch := b[..1];
    var before: Batch := front[..0];
    assert front == [(1, small)] && before == [];
    assert Landed(db.heap, before) == db.heap;
    assert Landed(db.heap, front) == map[1 := small];
    assert !BatchClashes(rules, db, b);
    hide Refusal, Landing, Landed, BatchClashes;
    assert Batched(rules, db, b).1 == db.(heap := map[1 := small]);
  }

  // -- what hashing decides ------------------------------------------------

  /** The ids a single-field index of some kind answers for a value. */
  ghost function AnswersFor(rules: Rules, f: string, kind: Kind, heap: map<nat, Record>, a: Atom): set<nat> {
    IdsOf(Derived(rules, Plain(f, kind), heap).pairs, [KeyIn(rules.kg, kind, a)])
  }

  lemma InAnswers(rules: Rules, f: string, kind: Kind, heap: map<nat, Record>, a: Atom, id: nat)
    ensures id in AnswersFor(rules, f, kind, heap, a) <==>
      id in heap && Field(heap[id], f).Some? && KeyIn(rules.kg, kind, Field(heap[id], f).value) == KeyIn(rules.kg, kind, a)
  {
    hide KeyIn;
    InIdsOf(Derived(rules, Plain(f, kind), heap).pairs, [KeyIn(rules.kg, kind, a)], id);
    InDerived(rules, Plain(f, kind), heap, [KeyIn(rules.kg, kind, a)], id);
  }

  /** A live record whose value equals `a` and hashes otherwise. */
  ghost predicate HashedApart(kg: Keying, f: string, heap: map<nat, Record>, a: Atom) {
    exists id | id in heap ::
      Field(heap[id], f).Some? && kg.canon(Field(heap[id], f).value) == kg.canon(a) && kg.hash(Field(heap[id], f).value) != kg.hash(a)
  }

  /**
   * A hash index and a bitmap index always answer alike, and an ordered one answers as
   * they do exactly when no value filed is equal to the one asked for and hashed apart.
   */
  lemma KindsAnswer(rules: Rules, f: string, heap: map<nat, Record>, a: Atom)
    ensures AnswersFor(rules, f, Hash, heap, a) == AnswersFor(rules, f, Bitmap, heap, a)
    ensures AnswersFor(rules, f, Hash, heap, a) == AnswersFor(rules, f, BTree, heap, a) <==> !HashedApart(rules.kg, f, heap, a)
  {
    forall id: nat, kind
      ensures id in AnswersFor(rules, f, kind, heap, a) <==>
        id in heap && Field(heap[id], f).Some? && KeyIn(rules.kg, kind, Field(heap[id], f).value) == KeyIn(rules.kg, kind, a)
    {
      InAnswers(rules, f, kind, heap, a, id);
    }
    hide AnswersFor;
    var x, y := AnswersFor(rules, f, Hash, heap, a), AnswersFor(rules, f, BTree, heap, a);
    if HashedApart(rules.kg, f, heap, a) {
      var id :| id in heap && Field(heap[id], f).Some?
        && rules.kg.canon(Field(heap[id], f).value) == rules.kg.canon(a) && rules.kg.hash(Field(heap[id], f).value) != rules.kg.hash(a);
      assert id in y && id !in x;
    } else {
      assert forall id: nat :: id in x <==> id in y;
    }
  }

  /** Equal values that hash apart, in storable records: the constraint's hash index lets the second one in. */
  lemma ApartLands(rules: Rules, r: Record, q: Record, f: string) returns (steps: seq<Step>)
    requires Storable(rules, r) && Storable(rules, q) && Shares(rules.kg, r, q, f) && !HashShares(rules.kg, r, q, f)
    ensures AllHarmless(rules, Db(map[], [], {}), steps)
    ensures var end := Run(rules, Db(map[], [], {}), steps); !AllUnique(rules.kg, end.heap, end.unique)
  {
    hide After, AllUnique, Run, AllHarmless, Storable, Shares, HashShares, Derived;
    steps := [AddUnique(f), Insert(1, r), Insert(2, q)];
    ConstraintFirst(rules, f);
    FirstLands(rules, r, f);
    SecondLands(rules, r, q, f);
    RunThree(rules, Db(map[], [], {}), AddUnique(f), Insert(1, r), Insert(2, q));
    ThreeHarmless(rules, Db(map[], [], {}), steps);
  }

  /** A database of one constraint and its hash index. */
  ghost function OneConstraint(rules: Rules, heap: map<nat, Record>, f: string): Db {
    Db(heap, [Derived(rules, Plain(f, Hash), heap)], {f})
  }

  lemma ConstraintFirst(rules: Rules, f: string)
    ensures After(rules, Db(map[], [], {}), AddUnique(f)) == OneConstraint(rules, map[], f)
  {
    hide Derived;
  }

  lemma ThreeHarmless(rules: Rules, db: Db, steps: seq<Step>)
    requires |steps| == 3 && forall i | 0 <= i < 3 :: !steps[i].InsertBatch?
    ensures AllHarmless(rules, db, steps)
  {
    hide After, Strands;
    var two := steps[1..];
    var one := two[1..];
    assert two[0] == steps[1] && one[0] == steps[2] && one[1..] == [];
    var d1 := After(rules, db, steps[0]);
    var d2 := After(rules, d1, two[0]);
    assert AllHarmless(rules, After(rules, d2, one[0]), one[1..]);
    assert AllHarmless(rules, d2, one);
    assert AllHarmless(rules, d1, two);
  }

  /** With one constraint a conflict is found exactly when a live record's value is under the same hash key. */
  lemma FoundByHash(rules: Rules, heap: map<nat, Record>, f: string, r: Record)
    ensures FoundClashes(rules, OneConstraint(rules, heap, f), None, r) <==> exists id | id in heap :: HashShares(rules.kg, heap[id], r, f)
  {
    var db := OneConstraint(rules, heap, f);
    DerivedShape(rules, Plain(f, Hash), heap);
    hide Derived, FoundClash, Shares;
    assert FirstFor(db.indexes, f) == Some(0);
    if Field(r, f).Some? {
      FoundAt(rules, db, f, None, r);
    }
    forall id | id in heap ensures HashShares(rules.kg, heap[id], r, f) <==> SameKey(rules.kg, Hash, heap[id], r, f) {
      KeysAreValues(rules.kg, Hash, heap[id], r, f);
    }
    hide HashShares, SameKey;
    assert forall g | g in db.unique :: g == f;
    assert forall id | id in heap && HashShares(rules.kg, heap[id], r, f) :: Field(r, f).Some? by {
      forall id | id in heap && HashShares(rules.kg, heap[id], r, f) ensures Field(r, f).Some? {
        HashGiven(rules.kg, heap[id], r, f);
      }
    }
  }

  lemma HashGiven(kg: Keying, a: Record, b: Record, f: string)
    requires HashShares(kg, a, b, f)
    ensures Field(b, f).Some?
  {
  }

  /** A record no hash key of which is held lands. */
  lemma Lands(rules: Rules, heap: map<nat, Record>, id: nat, r: Record, f: string)
    requires Storable(rules, r) && id !in heap && forall i | i in heap :: !HashShares(rules.kg, heap[i], r, f)
    ensures After(rules, OneConstraint(rules, heap, f), Insert(id, r)) == OneConstraint(rules, heap[id := r], f)
  {
    var x := Derived(rules, Plain(f, Hash), heap);
    FoundByHash(rules, heap, f, r);
    IndexedAgrees(rules, Plain(f, Hash), heap, id, r);
    hide Derived, Indexed, FoundClashes, HashShares;
    assert IndexAll(rules, [x], id, r) == [Indexed(rules, x, id, r)];
  }

  lemma FirstLands(rules: Rules, r: Record, f: string)
    requires Storable(rules, r)
    ensures After(rules, OneConstraint(rules, map[], f), Insert(1, r)) == OneConstraint(rules, map[1 := r], f)
  {
    hide *;
    Lands(rules, map[], 1, r, f);
  }

  lemma SecondLands(rules: Rules, r: Record, q: Record, f: string)
    requires Storable(rules, q) && Shares(rules.kg, r, q, f) && !HashShares(rules.kg, r, q, f)
    ensures var end := After(rules, OneConstraint(rules, map[1 := r], f), Insert(2, q));
      !AllUnique(rules.kg, end.heap, end.unique)
  {
    Lands(rules, map[1 := r], 2, q, f) by { hide *; }
    hide After, Derived, Shares, HashShares;
    var end := OneConstraint(rules, map[1 := r][2 := q], f);
    assert end.heap[1] == r && end.heap[2] == q && f in end.unique;
  }

  /** Unique constraints hold over every run that strands no row exactly when equal values that can be stored hash alike. */
  lemma UniqueExactly(rules: Rules)
    ensures StoredAlike(rules) <==>
      forall steps | AllHarmless(rules, Db(map[], [], {}), steps) ::
        var end := Run(rules, Db(map[], [], {}), steps); AllUnique(rules.kg, end.heap, end.unique)
  {
    hide AllHarmless, Run, AllUnique, Storable, Shares, HashShares;
    if StoredAlike(rules) {
      forall steps | AllHarmless(rules, Db(map[], [], {}), steps)
        ensures var end := Run(rules, Db(map[], [], {}), steps); AllUnique(rules.kg, end.heap, end.unique)
      {
        EmptyIsGood(rules);
        RunKeeps(rules, Db(map[], [], {}), steps);
      }
    } else {
      var r, q, f :| Storable(rules, r) && Storable(rules, q) && Shares(rules.kg, r, q, f) && !HashShares(rules.kg, r, q, f);
      var steps := ApartLands(rules, r, q, f);
    }
  }

  /**
   * By the engine's own equality and hashing, equal values that can be stored hash alike
   * under a schema whose numbers are all whole, or all small decimals and whole numbers
   * up to 2^53.
   */
  lemma OneSortAlike(rules: Rules, m: E.Machine, things: V.ThingOrder, on: E.Number -> bool, of: Thing -> bool, ofFloat: F.Float -> nat)
    requires E.Sane(m) && S.LawfulOn(things, of) && forall s, t | of(s) && of(t) :: things(s, t) == S.Equal ==> s == t
    requires on == E.IsWhole || on == E.Fine
    requires rules.kg.canon == V.Representative(V.ByValue(m, things), V.Holding(on, of))
    requires forall a :: V.NumberOf(a).Some? ==> rules.kg.hash(a) == ofFloat(E.AsNum(m, V.NumberOf(a).value))
    requires forall r, f | rules.accepts(r) && Field(r, f).Some? :: V.Holding(on, of)(Field(r, f).value)
    ensures StoredAlike(rules)
  {
    var order, kind := V.ByValue(m, things), V.Holding(on, of);
    if on == E.IsWhole { V.WholesOrdered(m, things, of); } else { V.FinesOrdered(m, things, of); }
    hide V.ByValue, V.Representative, E.AsNum, E.Sane, S.LawfulOn;
    forall r, q, f | Storable(rules, r) && Storable(rules, q) && Shares(rules.kg, r, q, f) ensures HashShares(rules.kg, r, q, f) {
      var a, b := Field(r, f).value, Field(q, f).value;
      V.RepresentativeSame(order, kind, a, b);
      V.EqualIsSame(m, things, a, b);
      if a != b {
        E.EqualHashAlike(m, V.NumberOf(a).value, V.NumberOf(b).value);
      }
    }
  }
}
