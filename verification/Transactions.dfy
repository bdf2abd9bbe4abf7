/**
 * Multi-statement transactions: writes are buffered over a fixed snapshot, and
 * commit is the one moment any of them touches the store. Commit makes two
 * passes: it checks every key of the write set, then applies them.
 */
module Transactions {
  import opened Basics
  import opened Records
  import V = Versions

  datatype Write = Put(rec: Record) | Del

  /** What a transaction has buffered, and which rows it has observed. */
  datatype Buffer = Buffer(writes: map<Key, Write>, seen: set<Key>)

  datatype Op =
    | Read(k: Key)
    | Insert(k: Key, rec: Record)
    | Update(k: Key, rec: Record)
    | Delete(k: Key)
    | Scan(coll: string)

  datatype Answer =
    | Found(row: Option<Record>)
    | Rows(rows: map<nat, Record>)
    | Existed(before: bool)
    | Inserted
    | RecordExists

  datatype Error = Conflict(k: Key) | Invalid(k: Key) | Duplicate(k: Key) | TooBig(k: Key)

  datatype Outcome = Committed | Refused(error: Error) | Torn(error: Error)

  /**
   * The fixed surroundings of a database: schemas, the page limit, unique fields and
   * the keying of the hash indexes that back them, the policy.
   */
  datatype Rules = Rules(
    accepts: (string, Record) -> bool,
    fits: (string, Record) -> bool,
    unique: set<(string, string)>,
    kg: Keying,
    strict: bool)

  // -- reading and buffering -----------------------------------------------

  /** A row as the transaction sees it: its own writes first, then its base. */
  function View(base: Option<Record>, b: Buffer, k: Key): Option<Record> {
    if k in b.writes then
      match b.writes[k] case Put(r) => Some(r) case Del => None
    else base
  }

  /** Looking at a row through the snapshot puts it in the read set. */
  function Observe(b: Buffer, k: Key): Buffer {
    if k in b.writes then b else b.(seen := b.seen + {k})
  }

  /** An operation on one row. */
  function StepRow(base: Option<Record>, b: Buffer, op: Op): (Answer, Buffer)
    requires !op.Scan?
  {
    var row, b' := View(base, b, op.k), Observe(b, op.k);
    match op
    case Read(_) => (Found(row), b')
    case Insert(k, r) =>
      if row.Some? then (RecordExists, b') else (Inserted, b'.(writes := b'.writes[k := Put(r)]))
    case Update(k, r) => (Existed(row.Some?), b'.(writes := b'.writes[k := Put(r)]))
    case Delete(k) => (Existed(row.Some?), b'.(writes := b'.writes[k := Del]))
  }

  /** Every row of a collection as the transaction sees it. */
  function ViewRows(base: Contents, b: Buffer, coll: string): (rows: map<nat, Record>)
    ensures forall id :: Lookup(rows, id) == View(Lookup(base, Key(coll, id)), b, Key(coll, id))
  {
    map k | k in base.Keys + b.writes.Keys && k.coll == coll && View(Lookup(base, k), b, k).Some? :: k.id := View(Lookup(base, k), b, k).value
  }

  function KeysOf(coll: string, rows: map<nat, Record>): set<Key> {
    set id | id in rows :: Key(coll, id)
  }

  /** A scan puts the rows it finds in the read set; ids it finds absent do not go there. */
  function Step(base: Contents, b: Buffer, op: Op): (Answer, Buffer) {
    match op
    case Scan(coll) =>
      var rows := ViewRows(base, b, coll);
      (Rows(rows), b.(seen := b.seen + KeysOf(coll, rows)))
    case _ => StepRow(Lookup(base, op.k), b, op)
  }

  // -- committing ----------------------------------------------------------

  /** The contents after a write set lands all at once. */
  function Overlay(cur: Contents, writes: map<Key, Write>): Contents {
    map k | k in cur.Keys + writes.Keys && (k in writes ==> writes[k].Put?)
      :: if k in writes then Normalize(writes[k].rec) else cur[k]
  }

  /** Whether a backing index would find another record of the collection under one of `rec`'s constrained values. */
  predicate Clashes(rules: Rules, cur: Contents, k: Key, rec: Record) {
    exists u, k' | u in rules.unique && k' in cur :: ClashesAt(rules, cur, k, rec, u, k')
  }

  predicate ClashesAt(rules: Rules, cur: Contents, k: Key, rec: Record, u: (string, string), k': Key)
    requires k' in cur
  {
    && u.0 == k.coll == k'.coll && k' != k
    && Filed(rules.kg, rec, u.1).Some? && Filed(rules.kg, cur[k'], u.1) == Filed(rules.kg, rec, u.1)
  }

  /** Why the first pass refuses one key, if it does. */
  function Check(rules: Rules, s: V.Store, at: nat, k: Key, w: Write): Option<Error> {
    if V.TouchedSince(s, k, at) then Some(Conflict(k))
    else if w.Del? then None
    else if !rules.accepts(k.coll, Normalize(w.rec)) then Some(Invalid(k))
    else if Clashes(rules, V.Current(s), k, Normalize(w.rec)) then Some(Duplicate(k))
    else None
  }

  /** The ordinary upsert: unique check, then the store's own validation, then the page limit. */
  function UpdateStore(rules: Rules, s: V.Store, k: Key, rec: Record): (Option<Error>, V.Store) {
    var r := Normalize(rec);
    if Clashes(rules, V.Current(s), k, r) then (Some(Duplicate(k)), s)
    else if !rules.accepts(k.coll, r) then (Some(Invalid(k)), s)
    else if !rules.fits(k.coll, r) then (Some(TooBig(k)), s)
    else (None, V.Put(s, k, r))
  }

  /** One stop of the second pass, and whether a reclamation follows it. */
  datatype Visit = Visit(k: Key, sweep: bool)

  ghost function ApplyOne(rules: Rules, s: V.Store, v: Visit, w: Write): (Option<Error>, V.Store)
    requires V.Valid(s)
  {
    match w
    case Put(r) =>
      var (e, s') := UpdateStore(rules, s, v.k, r);
      V.PutAdvances(s, v.k, Normalize(r));
      (e, if e.None? then V.Settle(s', v.sweep) else s')
    case Del =>
      V.DeleteAdvances(s, v.k);
      (None, V.Settle(V.Delete(s, v.k), v.sweep))
  }

  ghost predicate Covers(writes: map<Key, Write>, order: seq<Visit>) {
    && (forall v | v in order :: v.k in writes)
    && (forall i, j :: 0 <= i < j < |order| ==> order[i].k != order[j].k)
  }

  /** The second pass: the store it leaves, the visits it completed, and its failure if any. */
  ghost function ApplyAll(rules: Rules, s: V.Store, order: seq<Visit>, writes: map<Key, Write>)
    : (Option<Error>, nat, V.Store)
    requires V.Valid(s) && Covers(writes, order)
    decreases |order|
  {
    if order == [] then (None, 0, s)
    else
      var (e, s') := ApplyOne(rules, s, order[0], writes[order[0].k]);
      if e.Some? then (e, 0, s')
      else
        ApplyOneAdvances(rules, s, order[0], writes[order[0].k]);
        var (e', n, s'') := ApplyAll(rules, s', order[1..], writes);
        (e', n + 1, s'')
  }

  lemma ApplyOneAdvances(rules: Rules, s: V.Store, v: Visit, w: Write)
    requires V.Valid(s)
    ensures var (e, s') := ApplyOne(rules, s, v, w);
      && V.Advances(s, s') && V.Valid(s')
      && (e.Some? ==> s' == s)
      && (e.None? ==>
          && V.Current(s') == Overlay(V.Current(s), map[v.k := w])
          && (w.Put? || v.k in V.Current(s) ==> forall h | h in s.open :: V.TouchedSince(s', v.k, s.open[h])))
  {
    OverlayOne(V.Current(s), v.k, w);
    hide V.Valid;
    hide V.Current;
    hide V.TouchedSince;
    hide V.GetAt;
    hide V.Put;
    hide V.Delete;
    hide V.Settle;
    hide Overlay;
    hide Clashes;
    if w.Put? {
      V.PutAdvances(s, v.k, Normalize(w.rec));
      SettleAfter(s, V.Put(s, v.k, Normalize(w.rec)), v);
    } else {
      V.DeleteAdvances(s, v.k);
      SettleAfter(s, V.Delete(s, v.k), v);
    }
  }

  lemma SettleAfter(s: V.Store, s1: V.Store, v: Visit)
    requires V.Valid(s) && V.Advances(s, s1)
    ensures var s' := V.Settle(s1, v.sweep);
      && V.Advances(s, s')
      && V.Current(s') == V.Current(s1)
      && forall k, h | h in s.open && V.TouchedSince(s1, k, s.open[h]) :: V.TouchedSince(s', k, s.open[h])
  {
    hide V.GetAt;
    hide V.TouchedSince;
    hide V.Settle;
    hide V.Valid;
    hide V.Current;
    V.SettleAdvances(s1, v.sweep);
  }

  lemma OverlayOne(cur: Contents, k: Key, w: Write)
    ensures Overlay(cur, map[k := w]) ==
      match w case Put(r) => cur[k := Normalize(r)] case Del => cur - {k}
  {
  }

  ghost predicate PassesChecks(rules: Rules, s: V.Store, at: nat, b: Buffer) {
    && (forall k | k in b.writes :: Check(rules, s, at, k, b.writes[k]).None?)
    && (rules.strict ==> forall k | k in b.seen && k !in b.writes :: !V.TouchedSince(s, k, at))
  }

  /** No two Puts file one constrained field under one key. */
  ghost predicate PutsDistinct(rules: Rules, writes: map<Key, Write>) {
    forall u, k, k' | u in rules.unique && k in writes && k' in writes && k != k' && writes[k].Put? && writes[k'].Put?
        && u.0 == k.coll == k'.coll && Filed(rules.kg, Normalize(writes[k].rec), u.1).Some? ::
      Filed(rules.kg, Normalize(writes[k].rec), u.1) != Filed(rules.kg, Normalize(writes[k'].rec), u.1)
  }

  ghost predicate PutsFit(rules: Rules, writes: map<Key, Write>) {
    forall k | k in writes && writes[k].Put? :: rules.fits(k.coll, Normalize(writes[k].rec))
  }

  /** The part of a write set that the first `n` visits land. */
  ghost function Landed(writes: map<Key, Write>, order: seq<Visit>, n: nat): map<Key, Write>
    requires n <= |order| && Covers(writes, order)
  {
    map k | k in writes && (exists i :: 0 <= i < n && order[i].k == k) :: writes[k]
  }

  lemma LandedNext(writes: map<Key, Write>, order: seq<Visit>, n: nat)
    requires n < |order| && Covers(writes, order)
    ensures Landed(writes, order, n + 1) == map[order[0].k := writes[order[0].k]] + Landed(writes, order[1..], n)
  {
    var rest := order[1..];
    forall k | k in writes
      ensures (exists i :: 0 <= i < n + 1 && order[i].k == k)
        <==> k == order[0].k || (exists i :: 0 <= i < n && rest[i].k == k)
    {
      if i :| 0 <= i < n + 1 && order[i].k == k {
        if i > 0 { assert rest[i - 1].k == k; }
      }
      if i :| 0 <= i < n && rest[i].k == k { assert order[i + 1].k == k; }
    }
  }

  lemma LandedAll(writes: map<Key, Write>, order: seq<Visit>)
    requires Covers(writes, order)
    requires forall k | k in writes :: exists v :: v in order && v.k == k
    ensures Landed(writes, order, |order|) == writes
  {
    forall k | k in writes ensures exists i :: 0 <= i < |order| && order[i].k == k {
      var v :| v in order && v.k == k;
      var i :| 0 <= i < |order| && order[i] == v;
    }
  }

  lemma OverlayTwice(cur: Contents, a: map<Key, Write>, b: map<Key, Write>)
    ensures Overlay(Overlay(cur, a), b) == Overlay(cur, a + b)
  {
  }

  /** The first `n` visited writes that changed anything conflict with every open snapshot. */
  ghost predicate Marked(s: V.Store, s': V.Store, order: seq<Visit>, n: nat, writes: map<Key, Write>)
    requires n <= |order| && Covers(writes, order)
  {
    forall i, h | 0 <= i < n && h in s.open && (writes[order[i].k].Put? || order[i].k in V.Current(s)) ::
      V.TouchedSince(s', order[i].k, s.open[h])
  }

  /**
   * The second pass, wherever it stops, has landed exactly its first `n` writes,
   * undisturbing open snapshots and conflicting with each of them.
   */
  lemma {:induction false} ApplyAllLands(rules: Rules, s: V.Store, order: seq<Visit>, writes: map<Key, Write>)
    requires V.Valid(s) && Covers(writes, order)
    ensures var (e, n, s') := ApplyAll(rules, s, order, writes);
      && n <= |order| && (e.None? <==> n == |order|)
      && V.Advances(s, s')
      && V.Current(s') == Overlay(V.Current(s), Landed(writes, order, n))
      && Marked(s, s', order, n, writes)
    decreases |order|
  {
    hide V.GetAt;
    hide V.TouchedSince;
    hide V.Valid;
    hide V.Current;
    hide V.Advances;
    hide Marked;
    hide Landed;
    hide Overlay;
    hide ApplyOne;
    AdvancesSelf(s);
    NothingMarked(s, order, writes);
    NothingLanded(V.Current(s), order, writes);
    if order != [] {
      var k, w, rest := order[0].k, writes[order[0].k], order[1..];
      ApplyAllUnfolds(rules, s, order, writes);
      var (e1, s1) := ApplyOne(rules, s, order[0], w);
      ApplyOneAdvances(rules, s, order[0], w);
      if e1.None? {
        ApplyAllLands(rules, s1, rest, writes);
        var (_, n, s') := ApplyAll(rules, s1, rest, writes);
        hide ApplyAll;
        OverlayTwice(V.Current(s), map[k := w], Landed(writes, rest, n));
        LandedNext(writes, order, n);
        MarkedNext(s, s1, s', order, n + 1, writes);
        AdvancesTwice(s, s1, s');
      }
    }
  }

  lemma ApplyAllUnfolds(rules: Rules, s: V.Store, order: seq<Visit>, writes: map<Key, Write>)
    requires V.Valid(s) && order != [] && Covers(writes, order)
    ensures var (e1, s1) := ApplyOne(rules, s, order[0], writes[order[0].k]);
      && V.Valid(s1)
      && ApplyAll(rules, s, order, writes) ==
         if e1.Some? then (e1, 0, s1)
         else var (e, n, s') := ApplyAll(rules, s1, order[1..], writes); (e, n + 1, s')
  {
    hide V.Valid;
    hide V.Current;
    hide V.Advances;
    hide ApplyOne;
    ApplyOneAdvances(rules, s, order[0], writes[order[0].k]);
  }

  lemma NothingLanded(cur: Contents, order: seq<Visit>, writes: map<Key, Write>)
    requires Covers(writes, order)
    ensures Overlay(cur, Landed(writes, order, 0)) == cur
  {
  }

  lemma NothingMarked(s: V.Store, order: seq<Visit>, writes: map<Key, Write>)
    requires Covers(writes, order)
    ensures Marked(s, s, order, 0, writes)
  {
  }

  lemma AdvancesSelf(s: V.Store)
    requires V.Valid(s)
    ensures V.Advances(s, s)
  {
  }

  lemma AdvancesTwice(s: V.Store, s1: V.Store, s2: V.Store)
    requires V.Advances(s, s1) && V.Advances(s1, s2)
    ensures V.Advances(s, s2)
  {
    hide V.GetAt;
    hide V.TouchedSince;
    hide V.Valid;
  }

  lemma MarkedNext(s: V.Store, s1: V.Store, s': V.Store, order: seq<Visit>, n: nat, writes: map<Key, Write>)
    requires 0 < n <= |order| && Covers(writes, order)
    requires V.Advances(s, s1) && V.Advances(s1, s')
    requires V.Current(s1) == Overlay(V.Current(s), map[order[0].k := writes[order[0].k]])
    requires writes[order[0].k].Put? || order[0].k in V.Current(s) ==>
      forall h | h in s.open :: V.TouchedSince(s1, order[0].k, s.open[h])
    requires Marked(s1, s', order[1..], n - 1, writes)
    ensures Marked(s, s', order, n, writes)
  {
    hide V.GetAt;
    hide V.TouchedSince;
    hide V.Valid;
    hide V.Current;
    forall i, h | 0 <= i < n && h in s.open && (writes[order[i].k].Put? || order[i].k in V.Current(s))
      ensures V.TouchedSince(s', order[i].k, s.open[h])
    {
      if i > 0 {
        assert order[1..][i - 1] == order[i];
        assert order[i].k != order[0].k;
      }
    }
  }

  // -- all or nothing ------------------------------------------------------

  ghost predicate Complete(writes: map<Key, Write>, order: seq<Visit>) {
    Covers(writes, order) && forall k | k in writes :: exists v :: v in order && v.k == k
  }

  /** Every Put of `writes` would be admitted against the contents before commit. */
  ghost predicate Admissible(rules: Rules, cur: Contents, writes: map<Key, Write>) {
    forall k | k in writes && writes[k].Put? ::
      var r := Normalize(writes[k].rec);
      rules.accepts(k.coll, r) && !Clashes(rules, cur, k, r)
  }

  lemma OverlayClash(rules: Rules, cur: Contents, done: map<Key, Write>, writes: map<Key, Write>, k: Key)
    requires PutsDistinct(rules, writes)
    requires k in writes && writes[k].Put? && k !in done
    requires forall k' | k' in done :: k' in writes && writes[k'] == done[k']
    requires !Clashes(rules, cur, k, Normalize(writes[k].rec))
    ensures !Clashes(rules, Overlay(cur, done), k, Normalize(writes[k].rec))
  {
  }

  /** A version of the key is newer than the snapshot. */
  predicate NewerThan(s: V.Store, k: Key, at: nat) {
    k in s.chains && s.chains[k] != [] && s.chains[k][|s.chains[k]| - 1].stamp > at
  }

  /** Another live record of the collection holds one of the record's constrained values, as a hash map tells values apart. */
  ghost predicate HeldElsewhere(rules: Rules, cur: Contents, k: Key, r: Record) {
    exists f, id: nat | (k.coll, f) in rules.unique && id != k.id && Key(k.coll, id) in cur ::
      Filed(rules.kg, r, f).Some? && Filed(rules.kg, cur[Key(k.coll, id)], f) == Filed(rules.kg, r, f)
  }

  lemma ClashesIs(rules: Rules, cur: Contents, k: Key, r: Record)
    ensures Clashes(rules, cur, k, r) <==> HeldElsewhere(rules, cur, k, r)
  {
    hide Filed;
    if Clashes(rules, cur, k, r) {
      var u, k' :| u in rules.unique && k' in cur && ClashesAt(rules, cur, k, r, u, k');
      assert u == (k.coll, u.1) && k' == Key(k.coll, k'.id);
    }
    if HeldElsewhere(rules, cur, k, r) {
      var f, id: nat :| (k.coll, f) in rules.unique && id != k.id && Key(k.coll, id) in cur
        && Filed(rules.kg, r, f).Some? && Filed(rules.kg, cur[Key(k.coll, id)], f) == Filed(rules.kg, r, f);
      assert ClashesAt(rules, cur, k, r, (k.coll, f), Key(k.coll, id));
    }
  }

  /**
   * A transaction passes every check exactly when nothing newer than its snapshot was written to
   * what it writes - nor, under the strict policy, to what it looked at - and each record it puts
   * is accepted and holds no constrained value of another live record.
   */
  lemma ChecksExactly(rules: Rules, s: V.Store, at: nat, b: Buffer)
    ensures PassesChecks(rules, s, at, b) <==>
      && (forall k | k in b.writes :: !NewerThan(s, k, at))
      && (forall k | k in b.writes && b.writes[k].Put? ::
           rules.accepts(k.coll, Normalize(b.writes[k].rec)) && !HeldElsewhere(rules, V.Current(s), k, Normalize(b.writes[k].rec)))
      && (rules.strict ==> forall k | k in b.seen && k !in b.writes :: !NewerThan(s, k, at))
  {
    forall k ensures V.TouchedSince(s, k, at) <==> NewerThan(s, k, at) {
    }
    forall k | k in b.writes && b.writes[k].Put? ensures
      Clashes(rules, V.Current(s), k, Normalize(b.writes[k].rec)) <==> HeldElsewhere(rules, V.Current(s), k, Normalize(b.writes[k].rec))
    {
      ClashesIs(rules, V.Current(s), k, Normalize(b.writes[k].rec));
    }
    hide V.TouchedSince, NewerThan, Clashes, HeldElsewhere, V.Current, Normalize;
  }

  /** Why the first pass may refuse: a conflict names a key written or read that has changed, anything else a put. */
  ghost predicate Objects(rules: Rules, s: V.Store, at: nat, b: Buffer, e: Error) {
    match e
    case Conflict(k) => NewerThan(s, k, at) && (k in b.writes || (rules.strict && k in b.seen))
    case Invalid(k) => k in b.writes && b.writes[k].Put? && !rules.accepts(k.coll, Normalize(b.writes[k].rec))
    case Duplicate(k) =>
      && k in b.writes && b.writes[k].Put? && rules.accepts(k.coll, Normalize(b.writes[k].rec))
      && HeldElsewhere(rules, V.Current(s), k, Normalize(b.writes[k].rec))
    case TooBig(_) => false
  }

  lemma CheckObjects(rules: Rules, s: V.Store, at: nat, b: Buffer, k: Key)
    requires k in b.writes && Check(rules, s, at, k, b.writes[k]).Some?
    ensures Objects(rules, s, at, b, Check(rules, s, at, k, b.writes[k]).value)
  {
    if b.writes[k].Put? {
      ClashesIs(rules, V.Current(s), k, Normalize(b.writes[k].rec));
    }
    hide Clashes, HeldElsewhere, V.Current, Normalize;
  }

  lemma ReadObjects(rules: Rules, s: V.Store, at: nat, b: Buffer, k: Key)
    requires rules.strict && k in b.seen && V.TouchedSince(s, k, at)
    ensures Objects(rules, s, at, b, Conflict(k))
  {
  }

  /** A write to the store is refused only as a put: of what is not unique, else not accepted, else too big. */
  lemma LandsExactly(rules: Rules, s: V.Store, v: Visit, w: Write)
    requires V.Valid(s)
    ensures ApplyOne(rules, s, v, w).0.None? <==>
      w.Put? ==>
        var r := Normalize(w.rec);
        rules.accepts(v.k.coll, r) && rules.fits(v.k.coll, r) && !HeldElsewhere(rules, V.Current(s), v.k, r)
    ensures ApplyOne(rules, s, v, w).0.Some? ==>
      var r := Normalize(w.rec);
      match ApplyOne(rules, s, v, w).0.value
      case Duplicate(k) => k == v.k && HeldElsewhere(rules, V.Current(s), k, r)
      case Invalid(k) => k == v.k && !rules.accepts(k.coll, r) && !HeldElsewhere(rules, V.Current(s), k, r)
      case TooBig(k) => k == v.k && !rules.fits(k.coll, r) && rules.accepts(k.coll, r) && !HeldElsewhere(rules, V.Current(s), k, r)
      case Conflict(_) => false
  {
    if w.Put? {
      ClashesIs(rules, V.Current(s), v.k, Normalize(w.rec));
    }
    hide Clashes, HeldElsewhere, V.Valid, V.Current, V.Settle, V.Put, V.Delete;
  }

  /** `done` is the part of the write set visited before `order`. */
  ghost predicate Precedes(done: map<Key, Write>, order: seq<Visit>, writes: map<Key, Write>) {
    && (forall k | k in done :: k in writes && writes[k] == done[k])
    && (forall v | v in order :: v.k !in done)
  }

  lemma PrecedesNext(done: map<Key, Write>, order: seq<Visit>, writes: map<Key, Write>)
    requires order != [] && Covers(writes, order) && Precedes(done, order, writes)
    ensures Covers(writes, order[1..])
    ensures Precedes(done + map[order[0].k := writes[order[0].k]], order[1..], writes)
  {
  }

  lemma {:induction false} ApplyAllSucceeds(
      rules: Rules, cur: Contents, done: map<Key, Write>, s: V.Store, order: seq<Visit>, writes: map<Key, Write>)
    requires V.Valid(s) && Covers(writes, order)
    requires Admissible(rules, cur, writes) && PutsDistinct(rules, writes) && PutsFit(rules, writes)
    requires V.Current(s) == Overlay(cur, done)
    requires Precedes(done, order, writes)
    ensures ApplyAll(rules, s, order, writes).0.None?
    decreases |order|
  {
    if order != [] {
      hide V.Valid;
      hide V.Current;
      hide V.Advances;
      hide Overlay;
      hide ApplyOne;
      hide Clashes;
      hide Admissible;
      hide PutsDistinct;
      hide PutsFit;
      var v, w := order[0], writes[order[0].k];
      PrecedesNext(done, order, writes);
      OneSucceeds(rules, cur, done, s, v, writes);
      ApplyOneAdvances(rules, s, v, w);
      OverlayTwice(cur, done, map[v.k := w]);
      hide Precedes;
      ApplyAllSucceeds(rules, cur, done + map[v.k := w], ApplyOne(rules, s, v, w).1, order[1..], writes);
    }
  }

  lemma OneSucceeds(
      rules: Rules, cur: Contents, done: map<Key, Write>, s: V.Store, v: Visit, writes: map<Key, Write>)
    requires V.Valid(s) && v.k in writes && v.k !in done
    requires Admissible(rules, cur, writes) && PutsDistinct(rules, writes) && PutsFit(rules, writes)
    requires V.Current(s) == Overlay(cur, done)
    requires forall k | k in done :: k in writes && writes[k] == done[k]
    ensures ApplyOne(rules, s, v, writes[v.k]).0.None?
  {
    if writes[v.k].Put? {
      OverlayClash(rules, cur, done, writes, v.k);
      hide Clashes;
      hide Overlay;
      hide V.Current;
    }
  }

  /** Before each completed visit the store held the earlier writes, and admitted the next one. */
  lemma {:induction false} VisitAdmitted(
      rules: Rules, s: V.Store, order: seq<Visit>, writes: map<Key, Write>, j: nat) returns (before: V.Store)
    requires V.Valid(s) && Covers(writes, order) && j < |order|
    requires ApplyAll(rules, s, order, writes).0.None?
    ensures V.Valid(before) && V.Current(before) == Overlay(V.Current(s), Landed(writes, order, j))
    ensures ApplyOne(rules, before, order[j], writes[order[j].k]).0.None?
    decreases |order|
  {
    hide V.Valid;
    hide V.Current;
    hide V.Advances;
    hide Overlay;
    hide ApplyOne;
    NothingLanded(V.Current(s), order, writes);
    before := s;
    if j > 0 {
      var v, w := order[0], writes[order[0].k];
      ApplyOneAdvances(rules, s, v, w);
      before := VisitAdmitted(rules, ApplyOne(rules, s, v, w).1, order[1..], writes, j - 1);
      LandedNext(writes, order, j - 1);
      OverlayTwice(V.Current(s), map[v.k := w], Landed(writes, order[1..], j - 1));
    }
  }

  lemma SuccessMeansFit(rules: Rules, s: V.Store, order: seq<Visit>, writes: map<Key, Write>)
    requires V.Valid(s) && Complete(writes, order)
    requires ApplyAll(rules, s, order, writes).0.None?
    ensures PutsFit(rules, writes)
  {
    hide V.Valid;
    hide V.Current;
    hide ApplyAll;
    hide Overlay;
    forall k | k in writes && writes[k].Put? ensures rules.fits(k.coll, Normalize(writes[k].rec)) {
      var v :| v in order && v.k == k;
      var j :| 0 <= j < |order| && order[j] == v;
      var before := VisitAdmitted(rules, s, order, writes, j);
    }
  }

  lemma SuccessMeansDistinct(rules: Rules, s: V.Store, order: seq<Visit>, writes: map<Key, Write>)
    requires V.Valid(s) && Complete(writes, order)
    requires ApplyAll(rules, s, order, writes).0.None?
    ensures PutsDistinct(rules, writes)
  {
    forall u, k, k' | u in rules.unique && k in writes && k' in writes && k != k' && writes[k].Put? && writes[k'].Put?
        && u.0 == k.coll == k'.coll && Filed(rules.kg, Normalize(writes[k].rec), u.1).Some?
      ensures Filed(rules.kg, Normalize(writes[k].rec), u.1) != Filed(rules.kg, Normalize(writes[k'].rec), u.1)
    {
      var v :| v in order && v.k == k;
      var i :| 0 <= i < |order| && order[i] == v;
      var v' :| v' in order && v'.k == k';
      var j :| 0 <= j < |order| && order[j] == v';
      if i < j {
        LaterClashes(rules, s, order, writes, i, j, u);
      } else {
        LaterClashes(rules, s, order, writes, j, i, u);
      }
    }
  }

  lemma LaterClashes(
      rules: Rules, s: V.Store, order: seq<Visit>, writes: map<Key, Write>, i: nat, j: nat, u: (string, string))
    requires V.Valid(s) && Complete(writes, order) && i < j < |order|
    requires ApplyAll(rules, s, order, writes).0.None?
    requires u in rules.unique && u.0 == order[i].k.coll == order[j].k.coll
    requires writes[order[i].k].Put? && writes[order[j].k].Put?
    ensures var x, y := Filed(rules.kg, Normalize(writes[order[i].k].rec), u.1), Filed(rules.kg, Normalize(writes[order[j].k].rec), u.1);
      x.None? || x != y
  {
    var before := VisitAdmitted(rules, s, order, writes, j);
    EarlierLanded(V.Current(s), order, writes, i, j);
    hide *;
    AdmittedFree(rules, before, order[j], writes[order[j].k].rec, order[i].k, u) by { PutOf(writes[order[j].k]); }
  }

  lemma PutOf(w: Write)
    requires w.Put?
    ensures w == Put(w.rec)
  {
  }

  lemma EarlierLanded(cur: Contents, order: seq<Visit>, writes: map<Key, Write>, i: nat, j: nat)
    requires Covers(writes, order) && i < j < |order| && writes[order[i].k].Put?
    ensures var k, now := order[i].k, Overlay(cur, Landed(writes, order, j));
      k != order[j].k && k in now && now[k] == Normalize(writes[k].rec)
  {
    assert order[i].k in Landed(writes, order, j);
  }

  /** An admitted put shares no constrained value with a row already there. */
  lemma AdmittedFree(rules: Rules, before: V.Store, v: Visit, rec: Record, k: Key, u: (string, string))
    requires V.Valid(before) && ApplyOne(rules, before, v, Put(rec)).0.None?
    requires u in rules.unique && u.0 == v.k.coll == k.coll && k != v.k && k in V.Current(before)
    ensures var x := Filed(rules.kg, V.Current(before)[k], u.1); x.None? || x != Filed(rules.kg, Normalize(rec), u.1)
  {
    hide V.Valid, V.Current, V.Put, V.Settle, Filed;
    assert !Clashes(rules, V.Current(before), v.k, Normalize(rec));
    assert !ClashesAt(rules, V.Current(before), v.k, Normalize(rec), u, k);
  }

  /**
   * Once the first pass has cleared a write set, the second pass lands the whole
   * of it exactly when its Puts are pairwise distinct on every constrained field
   * and each fits a page.
   */
  lemma CommitAllOrNothing(rules: Rules, s: V.Store, order: seq<Visit>, writes: map<Key, Write>)
    requires V.Valid(s) && Complete(writes, order)
    requires Admissible(rules, V.Current(s), writes)
    ensures ApplyAll(rules, s, order, writes).0.None?
      <==> PutsDistinct(rules, writes) && PutsFit(rules, writes)
    ensures ApplyAll(rules, s, order, writes).0.None? ==>
      V.Current(ApplyAll(rules, s, order, writes).2) == Overlay(V.Current(s), writes)
  {
    hide ApplyAll, PutsDistinct, PutsFit, Admissible, V.Valid, V.Current, Overlay, Landed;
    if ApplyAll(rules, s, order, writes).0.None? {
      SuccessMeansFit(rules, s, order, writes);
      SuccessMeansDistinct(rules, s, order, writes);
      ApplyAllLands(rules, s, order, writes);
      LandedAll(writes, order);
    } else if PutsDistinct(rules, writes) && PutsFit(rules, writes) {
      OverlayNothing(V.Current(s));
      ApplyAllSucceeds(rules, V.Current(s), map[], s, order, writes);
    }
  }

  lemma OverlayNothing(cur: Contents)
    ensures Overlay(cur, map[]) == cur
  {
  }

  /** Two Puts of one value clear the first pass and are torn apart by the second. */
  lemma TornCommit(rules: Rules, a: Atom)
    requires rules.unique == {("c", "f")}
    requires forall r :: rules.accepts("c", r) && rules.fits("c", r)
    ensures var r, k1, k2 := map["f" := Is(a)], Key("c", 1), Key("c", 2);
      var writes, order := map[k1 := Put(r), k2 := Put(r)], [Visit(k1, false), Visit(k2, false)];
      && Complete(writes, order)
      && PassesChecks(rules, V.EMPTY, 0, Buffer(writes, {}))
      && var (e, _, s') := ApplyAll(rules, V.EMPTY, order, writes);
         e == Some(Duplicate(k2)) && V.Current(s') == map[k1 := r]
  {
    var r: Record, k1, k2 := map["f" := Is(a)], Key("c", 1), Key("c", 2);
    var writes, order := map[k1 := Put(r), k2 := Put(r)], [Visit(k1, false), Visit(k2, false)];
    assert Normalize(r) == r;
    TwoVisits(writes, order, k1, k2);
    EmptyStore();
    NothingClashes(rules, k1, r);
    NothingClashes(rules, k2, r);
    assert PassesChecks(rules, V.EMPTY, 0, Buffer(writes, {})) by { hide V.Valid, V.Current, V.TouchedSince, Clashes; }
    hide V.Valid, V.Current, V.Advances, V.Put, V.Settle, PassesChecks, V.Delete, V.TouchedSince, Clashes, Complete, Covers;
    FirstApplied(rules, order[0], r);
    var s1 := ApplyOne(rules, V.EMPTY, order[0], writes[k1]).1;
    ClashesWithFirst(rules, V.Current(s1), k1, k2, r, a);
    assert ApplyOne(rules, s1, order[1], writes[k2]) == (Some(Duplicate(k2)), s1);
    hide ApplyOne, ApplyAll;
    TwoApplied(rules, order, writes);
  }

  lemma TwoVisits(writes: map<Key, Write>, order: seq<Visit>, k1: Key, k2: Key)
    requires k1 != k2 && order == [Visit(k1, false), Visit(k2, false)] && writes.Keys == {k1, k2}
    ensures Complete(writes, order) && Covers(writes, order)
  {
    assert order[0] in order && order[1] in order;
  }

  lemma FirstApplied(rules: Rules, v: Visit, r: Record)
    requires v == Visit(Key("c", 1), false) && Normalize(r) == r && !Clashes(rules, map[], v.k, r)
    requires rules.accepts("c", r) && rules.fits("c", r)
    ensures V.Valid(V.EMPTY)
    ensures var (e, s) := ApplyOne(rules, V.EMPTY, v, Put(r)); e.None? && V.Valid(s) && V.Current(s) == map[v.k := r]
  {
    EmptyStore();
    ApplyOneAdvances(rules, V.EMPTY, v, Put(r));
    assert Overlay(map[], map[v.k := Put(r)]) == map[v.k := r];
    hide V.Valid, V.Current, V.Advances, V.Put, V.Settle, Clashes, Overlay;
  }

  lemma EmptyStore()
    ensures V.Valid(V.EMPTY) && V.Current(V.EMPTY) == map[] && forall k :: !V.TouchedSince(V.EMPTY, k, 0)
  {
  }

  lemma NothingClashes(rules: Rules, k: Key, r: Record)
    ensures !Clashes(rules, map[], k, r)
  {
  }

  lemma ClashesWithFirst(rules: Rules, cur: Contents, k1: Key, k2: Key, r: Record, a: Atom)
    requires ("c", "f") in rules.unique && k1 == Key("c", 1) && k2 == Key("c", 2) && r == map["f" := Is(a)] && cur == map[k1 := r]
    ensures Clashes(rules, cur, k2, r)
  {
    assert ClashesAt(rules, cur, k2, r, ("c", "f"), k1);
  }

  lemma TwoApplied(rules: Rules, order: seq<Visit>, writes: map<Key, Write>)
    requires |order| == 2 && Covers(writes, order)
    requires var (e1, s1) := ApplyOne(rules, V.EMPTY, order[0], writes[order[0].k]);
      e1.None? && V.Valid(s1) && ApplyOne(rules, s1, order[1], writes[order[1].k]).0.Some?
    ensures var s1 := ApplyOne(rules, V.EMPTY, order[0], writes[order[0].k]).1;
      var (e, s2) := ApplyOne(rules, s1, order[1], writes[order[1].k]);
      ApplyAll(rules, V.EMPTY, order, writes) == (e, 1, s2)
  {
    hide ApplyOne, V.Current, V.Advances;
    EmptyStore();
    var s1 := ApplyOne(rules, V.EMPTY, order[0], writes[order[0].k]).1;
    ApplyAllUnfolds(rules, V.EMPTY, order, writes);
    ApplyAllUnfolds(rules, s1, order[1..], writes);
  }

  // -- the objects ---------------------------------------------------------

  /** A scanned row once the buffered writes in `done` are laid over the snapshot's rows. */
  function ScannedSoFar(snapshot: map<nat, Record>, b: Buffer, done: seq<Key>, k: Key): Option<Record> {
    if k in done then View(None, b, k) else Lookup(snapshot, k.id)
  }

  class Transaction {
    const handle: nat
    const at: nat
    var writes: map<Key, Write>
    var seen: set<Key>

    ghost function B(): Buffer
      reads this
    {
      Buffer(writes, seen)
    }

    constructor (handle: nat, at: nat)
      ensures this.handle == handle && this.at == at && B() == Buffer(map[], {})
    {
      this.handle, this.at, this.writes, this.seen := handle, at, map[], {};
    }

    /** Read as this transaction sees it: its own writes first, then its snapshot. */
    method Get(db: V.HeapStore, k: Key) returns (row: Option<Record>)
      modifies this`seen
      ensures (Found(row), B()) == Step(V.SnapshotOf(db.S(), at), old(B()), Read(k))
    {
      if k in writes {
        return match writes[k] case Put(r) => Some(r) case Del => None;
      }
      seen := seen + {k};
      row := db.ReadAt(k, at);
    }

    /**
     * Every row of a collection as this transaction sees it, by id. The rows found join
     * the read set; ids found absent do not, which is where phantoms get in.
     */
    method Scan(db: V.HeapStore, coll: string) returns (rows: map<nat, Record>)
      modifies this`seen
      ensures (Rows(rows), B()) == Step(V.SnapshotOf(db.S(), at), old(B()), Op.Scan(coll))
    {
      rows := db.ScanAt(coll, at);
      ghost var snapshot := rows;
      var keys := ToSeq(writes.Keys);
      for i := 0 to |keys|
        invariant forall id :: Lookup(rows, id) == ScannedSoFar(snapshot, B(), keys[..i], Key(coll, id))
      {
        assert keys[..i + 1] == keys[..i] + [keys[i]] && keys[i] !in keys[..i];
        if keys[i].coll == coll {
          rows := match writes[keys[i]]
            case Put(r) => rows[keys[i].id := r]
            case Del => rows - {keys[i].id};
        }
      }
      assert keys[..|keys|] == keys;
      SameMap(rows, ViewRows(V.SnapshotOf(db.S(), at), B(), coll));
      seen := seen + KeysOf(coll, rows);
    }

    method Insert(db: V.HeapStore, k: Key, rec: Record) returns (a: Answer)
      modifies this`writes, this`seen
      ensures (a, B()) == Step(V.SnapshotOf(db.S(), at), old(B()), Op.Insert(k, rec))
      ensures var row := old(View(Lookup(V.SnapshotOf(db.S(), at), k), B(), k));
        if row.Some? then a == RecordExists && writes == old(writes) else a == Inserted && writes == old(writes)[k := Put(rec)]
    {
      var row := Get(db, k);
      if row.Some? { return RecordExists; }
      writes := writes[k := Put(rec)];
      a := Inserted;
    }

    method Update(db: V.HeapStore, k: Key, rec: Record) returns (a: Answer)
      modifies this`writes, this`seen
      ensures (a, B()) == Step(V.SnapshotOf(db.S(), at), old(B()), Op.Update(k, rec))
      ensures a == Existed(old(View(Lookup(V.SnapshotOf(db.S(), at), k), B(), k)).Some?) && writes == old(writes)[k := Put(rec)]
    {
      var row := Get(db, k);
      writes := writes[k := Put(rec)];
      a := Existed(row.Some?);
    }

    method Delete(db: V.HeapStore, k: Key) returns (a: Answer)
      modifies this`writes, this`seen
      ensures (a, B()) == Step(V.SnapshotOf(db.S(), at), old(B()), Op.Delete(k))
      ensures a == Existed(old(View(Lookup(V.SnapshotOf(db.S(), at), k), B(), k)).Some?) && writes == old(writes)[k := Del]
    {
      var row := Get(db, k);
      writes := writes[k := Del];
      a := Existed(row.Some?);
    }
  }

  lemma {:induction false} ApplyAllNext(
      rules: Rules, s: V.Store, order: seq<Visit>, v: Visit, writes: map<Key, Write>)
    requires V.Valid(s) && Covers(writes, order) && Covers(writes, order + [v])
    requires ApplyAll(rules, s, order, writes).0.None?
    ensures var (_, n, s1) := ApplyAll(rules, s, order, writes);
      && V.Valid(s1)
      && var (e, s') := ApplyOne(rules, s1, v, writes[v.k]);
         ApplyAll(rules, s, order + [v], writes) == (e, if e.None? then n + 1 else n, s')
    decreases |order|
  {
    hide V.Valid;
    hide V.Advances;
    hide V.Current;
    hide ApplyOne;
    if order == [] {
      assert order + [v] == [v] && [v][1..] == [];
      ApplyOneAdvances(rules, s, v, writes[v.k]);
      assert ApplyAll(rules, ApplyOne(rules, s, v, writes[v.k]).1, [v][1..], writes).0.None?;
    } else {
      var u := order[0];
      ApplyOneAdvances(rules, s, u, writes[u.k]);
      assert (order + [v])[1..] == order[1..] + [v];
      ApplyAllNext(rules, ApplyOne(rules, s, u, writes[u.k]).1, order[1..], v, writes);
    }
  }

  /** One row of a collection holds one constrained value of another record. */
  predicate Hit(rules: Rules, rows: map<nat, Record>, k: Key, rec: Record, u: (string, string), id: nat)
    requires id in rows
  {
    && u.0 == k.coll && id != k.id
    && Filed(rules.kg, rec, u.1).Some? && Filed(rules.kg, rows[id], u.1) == Filed(rules.kg, rec, u.1)
  }

  lemma HitIsClash(rules: Rules, cur: Contents, rows: map<nat, Record>, k: Key, rec: Record)
    requires forall id :: Lookup(rows, id) == Lookup(cur, Key(k.coll, id))
    ensures Clashes(rules, cur, k, rec) <==> exists u, id | u in rules.unique && id in rows :: Hit(rules, rows, k, rec, u, id)
  {
    hide Filed;
    if Clashes(rules, cur, k, rec) {
      var u, k' :| u in rules.unique && k' in cur && ClashesAt(rules, cur, k, rec, u, k');
      assert Key(k.coll, k'.id) == k' && Lookup(rows, k'.id) == Lookup(cur, k');
      assert Hit(rules, rows, k, rec, u, k'.id);
    }
    if u, id :| u in rules.unique && id in rows && Hit(rules, rows, k, rec, u, id) {
      assert Lookup(cur, Key(k.coll, id)) == Lookup(rows, id);
      assert ClashesAt(rules, cur, k, rec, u, Key(k.coll, id));
    }
  }

  class Database {
    const rules: Rules
    const store: V.HeapStore

    constructor (rules: Rules, store: V.HeapStore)
      ensures this.rules == rules && this.store == store
    {
      this.rules, this.store := rules, store;
    }

    /** The ordinary upsert: unique check, validation, page limit, then one fresh version. */
    method Update(k: Key, rec: Record) returns (e: Option<Error>, ghost sweep: bool)
      requires V.Valid(store.S())
      modifies store
      ensures V.Valid(store.S())
      ensures (e, store.S()) == ApplyOne(rules, old(store.S()), Visit(k, sweep), Put(rec))
    {
      var r := Normalize(rec);
      var clash := ClashingRow(k, r);
      if clash { return Some(Duplicate(k)), false; }
      if !rules.accepts(k.coll, r) { return Some(Invalid(k)), false; }
      if !rules.fits(k.coll, r) { return Some(TooBig(k)), false; }
      sweep := store.ApplyPut(k, r);
      e := None;
    }

    method Delete(k: Key) returns (ghost sweep: bool)
      requires V.Valid(store.S())
      modifies store
      ensures V.Valid(store.S())
      ensures (None, store.S()) == ApplyOne(rules, old(store.S()), Visit(k, sweep), Del)
    {
      sweep := store.ApplyDelete(k);
    }

    /** Every row of the key's collection, against every constrained field. */
    method ClashingRow(k: Key, rec: Record) returns (clash: bool)
      requires V.Valid(store.S())
      ensures clash <==> Clashes(rules, V.Current(store.S()), k, rec)
    {
      var rows := store.ScanAt(k.coll, store.next - 1);
      ghost var cur := V.Current(store.S());
      forall id ensures Lookup(rows, id) == Lookup(cur, Key(k.coll, id)) {
        V.OpenSnapshotReads(store.S(), Key(k.coll, id));
        V.CurrentIs(store.S(), Key(k.coll, id));
      }
      hide V.Current, V.GetAt, V.Valid;
      HitIsClash(rules, cur, rows, k, rec);
      var fields := ToSeq(rules.unique);
      var ids := ToSeq(rows.Keys);
      hide Hit, Clashes;
      for i := 0 to |fields|
        invariant forall u, id | u in fields[..i] && id in rows :: !Hit(rules, rows, k, rec, u, id)
      {
        assert fields[..i + 1] == fields[..i] + [fields[i]];
        for j := 0 to |ids|
          invariant forall id | id in ids[..j] :: !Hit(rules, rows, k, rec, fields[i], id)
        {
          assert ids[..j + 1] == ids[..j] + [ids[j]];
          if Hit(rules, rows, k, rec, fields[i], ids[j]) {
            return true;
          }
        }
        assert ids[..|ids|] == ids;
      }
      assert fields[..|fields|] == fields;
      clash := false;
    }

    method CheckKey(at: nat, k: Key, w: Write) returns (e: Option<Error>)
      requires V.Valid(store.S())
      ensures e == Check(rules, store.S(), at, k, w)
    {
      var ts := store.LatestWriteStamp(k);
      if ts.Some? && ts.value > at { return Some(Conflict(k)); }
      if w.Put? {
        var r := Normalize(w.rec);
        if !rules.accepts(k.coll, r) { return Some(Invalid(k)); }
        var clash := ClashingRow(k, r);
        if clash { return Some(Duplicate(k)); }
      }
      e := None;
    }

    /** The first pass: write set, then, under the strict policy, read set. */
    method CheckAll(txn: Transaction, keys: seq<Key>) returns (e: Option<Error>)
      requires V.Valid(store.S()) && Enumerates(keys, txn.writes.Keys)
      ensures e.None? <==> PassesChecks(rules, store.S(), txn.at, txn.B())
      ensures e.Some? ==> Objects(rules, store.S(), txn.at, txn.B(), e.value)
    {
      hide Objects, HeldElsewhere, Clashes;
      for i := 0 to |keys|
        invariant forall j :: 0 <= j < i ==> Check(rules, store.S(), txn.at, keys[j], txn.writes[keys[j]]).None?
      {
        e := CheckKey(txn.at, keys[i], txn.writes[keys[i]]);
        if e.Some? {
          CheckObjects(rules, store.S(), txn.at, txn.B(), keys[i]);
          return;
        }
      }
      assert forall k | k in txn.writes :: Check(rules, store.S(), txn.at, k, txn.writes[k]).None?;
      if rules.strict {
        var rest := txn.seen;
        while rest != {}
          invariant rest <= txn.seen
          invariant forall k | k in txn.seen && k !in rest && k !in txn.writes :: !V.TouchedSince(store.S(), k, txn.at)
          decreases rest
        {
          var k :| k in rest;
          if k !in txn.writes {
            var ts := store.LatestWriteStamp(k);
            if ts.Some? && ts.value > txn.at {
              ReadObjects(rules, store.S(), txn.at, txn.B(), k);
              return Some(Conflict(k));
            }
          }
          rest := rest - {k};
        }
      }
      e := None;
    }

    /** The second pass, through the ordinary write paths. */
    method ApplyKeys(writes: map<Key, Write>, keys: seq<Key>) returns (e: Option<Error>, ghost order: seq<Visit>)
      requires V.Valid(store.S()) && Enumerates(keys, writes.Keys)
      modifies store
      ensures Complete(writes, order) && V.Valid(store.S())
      ensures var (e', _, s') := ApplyAll(rules, old(store.S()), order, writes);
        e == e' && store.S() == s'
    {
      order := [];
      ghost var s0 := store.S();
      hide V.Valid;
      hide V.Current;
      hide ApplyAll;
      hide ApplyOne;
      for i := 0 to |keys|
        invariant Visited(writes, keys, order, i)
        invariant V.Valid(store.S())
        invariant ApplyAll(rules, s0, order, writes).0.None? && ApplyAll(rules, s0, order, writes).2 == store.S()
      {
        ghost var sweep;
        match writes[keys[i]] {
          case Put(rec) => e, sweep := Update(keys[i], rec);
          case Del => sweep := Delete(keys[i]); e := None;
        }
        ghost var v := Visit(keys[i], sweep);
        VisitedNext(writes, keys, order, i, v);
        ApplyAllNext(rules, s0, order, v, writes);
        order := order + [v];
        if e.Some? {
          order := VisitRest(rules, s0, order, writes, keys, i + 1);
          return;
        }
      }
      e := None;
      CompleteOrder(writes, keys, order);
    }

    /** Apply every buffered write, or - as far as the first pass can tell - none of them. */
    method Commit(txn: Transaction) returns (r: Outcome, ghost order: seq<Visit>)
      requires V.Valid(store.S())
      modifies store
      ensures V.Valid(store.S())
      ensures var s0, b := old(store.S()), txn.B();
        if b.writes == map[] then r == Committed && store.S() == V.CloseSnapshot(s0, txn.handle)
        else if !PassesChecks(rules, s0, txn.at, b) then r.Refused? && Objects(rules, s0, txn.at, b, r.error) && store.S() == V.CloseSnapshot(s0, txn.handle)
        else
          && Complete(b.writes, order)
          && var (e, _, s') := ApplyAll(rules, s0, order, b.writes);
             && r == (match e case None => Committed case Some(x) => Torn(x))
             && store.S() == V.CloseSnapshot(s', txn.handle)
    {
      order := [];
      var e: Option<Error> := None;
      r := Committed;
      if txn.writes != map[] {
        var keys := ToSeq(txn.writes.Keys);
        e := CheckAll(txn, keys);
        if e.Some? {
          r := Refused(e.value);
        } else {
          e, order := ApplyKeys(txn.writes, keys);
          if e.Some? { r := Torn(e.value); }
        }
      }
      store.End(txn.handle);
    }
  }

  ghost predicate Visited(writes: map<Key, Write>, keys: seq<Key>, order: seq<Visit>, n: nat) {
    && |order| == n <= |keys|
    && (forall j :: 0 <= j < n ==> order[j].k == keys[j])
    && Covers(writes, order)
  }

  lemma VisitedNext(writes: map<Key, Write>, keys: seq<Key>, order: seq<Visit>, n: nat, v: Visit)
    requires Enumerates(keys, writes.Keys) && n < |keys|
    requires Visited(writes, keys, order, n) && v.k == keys[n]
    ensures Visited(writes, keys, order + [v], n + 1)
  {
  }

  /** Fill up an order cut short by a failure: what was not visited does not matter. */
  lemma VisitRest(
      rules: Rules, s: V.Store, order: seq<Visit>, writes: map<Key, Write>, keys: seq<Key>, n: nat)
      returns (full: seq<Visit>)
    requires V.Valid(s) && Enumerates(keys, writes.Keys) && Visited(writes, keys, order, n)
    requires ApplyAll(rules, s, order, writes).0.Some?
    ensures Complete(writes, full)
    ensures ApplyAll(rules, s, full, writes) == ApplyAll(rules, s, order, writes)
  {
    hide ApplyAll;
    hide V.Valid;
    hide PassesChecks;
    var rest := seq(|keys| - n, j requires 0 <= j < |keys| - n => Visit(keys[n + j], false));
    full := order + rest;
    assert forall j :: 0 <= j < |keys| ==> full[j].k == keys[j];
    CompleteOrder(writes, keys, full);
    RestUnvisited(rules, s, order, rest, writes);
  }

  lemma CompleteOrder(writes: map<Key, Write>, keys: seq<Key>, order: seq<Visit>)
    requires Enumerates(keys, writes.Keys)
    requires |order| == |keys| && forall j :: 0 <= j < |keys| ==> order[j].k == keys[j]
    ensures Complete(writes, order)
  {
    forall k | k in writes ensures exists v :: v in order && v.k == k {
      assert k in keys;
      var j :| 0 <= j < |keys| && keys[j] == k;
      assert order[j] in order;
    }
  }

  /** What would have been visited after a failure does not matter. */
  lemma {:induction false} RestUnvisited(
      rules: Rules, s: V.Store, order: seq<Visit>, rest: seq<Visit>, writes: map<Key, Write>)
    requires V.Valid(s) && Covers(writes, order) && Covers(writes, order + rest)
    requires ApplyAll(rules, s, order, writes).0.Some?
    ensures ApplyAll(rules, s, order + rest, writes) == ApplyAll(rules, s, order, writes)
    decreases |order|
  {
    hide V.Valid;
    hide V.Advances;
    hide V.Current;
    hide ApplyOne;
    if order != [] {
      var v := order[0];
      ApplyOneAdvances(rules, s, v, writes[v.k]);
      assert (order + rest)[1..] == order[1..] + rest;
      if ApplyOne(rules, s, v, writes[v.k]).0.None? {
        RestUnvisited(rules, ApplyOne(rules, s, v, writes[v.k]).1, order[1..], rest, writes);
      }
    }
  }
}
