/**
 * Runs of interleaved transactions and direct writes, and what holds in every
 * one of them: snapshot reads, no lost update, and - under the strict policy -
 * equivalence to running the committed transactions one after another.
 */
module Serializability {
  import opened Basics
  import opened Records
  import opened Transactions
  import V = Versions

  /** An open transaction; `born` counts the events committed before it began. */
  datatype Txn = Txn(ops: seq<Op>, answers: seq<Answer>, buffer: Buffer, born: nat)

  /**
   * Something that changed the store: a committed transaction, a direct write
   * (no operations of its own), or a commit torn by its second pass.
   */
  datatype Event = Event(writes: map<Key, Write>, ops: seq<Op>, answers: seq<Answer>, born: nat, whole: bool)

  /** A committed transaction that wrote nothing. */
  datatype Reader = Reader(ops: seq<Op>, answers: seq<Answer>, born: nat)

  datatype World = World(store: V.Store, active: map<nat, Txn>, history: seq<Event>, readers: seq<Reader>)

  datatype Move =
    | Begin(id: nat)
    | Do(id: nat, op: Op)
    | Commit(id: nat, order: seq<Visit>)
    | Abort(id: nat)
    | DirectInsert(v: Visit, rec: Record)
    | DirectUpdate(v: Visit, rec: Record)
    | DirectDelete(v: Visit)
    | Sweep

  const BLANK := Buffer(map[], {})

  // -- running operations one after another --------------------------------

  /** The answers and buffer of running `ops` alone against fixed contents. */
  function Rerun(base: Contents, ops: seq<Op>): (seq<Answer>, Buffer) {
    if ops == [] then ([], BLANK)
    else
      var op := ops[|ops| - 1];
      var (answers, b) := Rerun(base, ops[..|ops| - 1]);
      var (a, b') := Step(base, b, op);
      (answers + [a], b')
  }

  /** The contents after the first `n` events, starting from `base`. */
  function StateAt(base: Contents, history: seq<Event>, n: nat): Contents
    requires n <= |history|
  {
    if n == 0 then base else Overlay(StateAt(base, history, n - 1), history[n - 1].writes)
  }

  /** The keys an event really changed: deleting an absent record changes nothing. */
  function Changed(before: Contents, writes: map<Key, Write>): set<Key> {
    set k | k in writes && (writes[k].Put? || k in before)
  }

  // -- the state machine ---------------------------------------------------

  function Close(w: World, id: nat): World {
    w.(store := V.CloseSnapshot(w.store, id), active := w.active - {id})
  }

  ghost function CommitNext(rules: Rules, w: World, id: nat, order: seq<Visit>): World
    requires V.Valid(w.store) && id in w.active && id in w.store.open
  {
    var t := w.active[id];
    if t.buffer.writes == map[] then
      Close(w, id).(readers := w.readers + [Reader(t.ops, t.answers, t.born)])
    else if !PassesChecks(rules, w.store, w.store.open[id], t.buffer) then Close(w, id)
    else if !Complete(t.buffer.writes, order) then w
    else
      var (e, n, s') := ApplyAll(rules, w.store, order, t.buffer.writes);
      Landing(rules, w.store, order, t.buffer.writes);
      var event := Event(Landed(t.buffer.writes, order, n), t.ops, t.answers, t.born, e.None?);
      Close(w.(store := s', history := w.history + [event]), id)
  }

  lemma Landing(rules: Rules, s: V.Store, order: seq<Visit>, writes: map<Key, Write>)
    requires V.Valid(s) && Covers(writes, order)
    ensures ApplyAll(rules, s, order, writes).1 <= |order|
  {
    ApplyAllLands(rules, s, order, writes);
  }

  ghost function DirectNext(rules: Rules, w: World, v: Visit, write: Write): World
    requires V.Valid(w.store)
  {
    var (e, s') := ApplyOne(rules, w.store, v, write);
    if e.Some? then w
    else w.(store := s', history := w.history + [Event(map[v.k := write], [], [], |w.history|, true)])
  }

  function DoOne(s: V.Store, t: Txn, at: nat, op: Op): Txn {
    var (a, b) := Step(V.SnapshotOf(s, at), t.buffer, op);
    t.(ops := t.ops + [op], answers := t.answers + [a], buffer := b)
  }

  ghost function Next(rules: Rules, w: World, move: Move): World
    requires V.Valid(w.store) && w.active.Keys == w.store.open.Keys
  {
    match move
    case Begin(id) =>
      if id in w.active then w
      else w.(store := V.OpenSnapshot(w.store, id), active := w.active[id := Txn([], [], BLANK, |w.history|)])
    case Do(id, op) =>
      if id !in w.active then w
      else w.(active := w.active[id := DoOne(w.store, w.active[id], w.store.open[id], op)])
    case Commit(id, order) => if id !in w.active then w else CommitNext(rules, w, id, order)
    case Abort(id) => Close(w, id)
    case DirectInsert(v, rec) =>
      if v.k in V.Current(w.store) then w else DirectNext(rules, w, v, Put(rec))
    case DirectUpdate(v, rec) => DirectNext(rules, w, v, Put(rec))
    case DirectDelete(v) => DirectNext(rules, w, v, Del)
    case Sweep => w.(store := V.Settle(w.store, true))
  }

  // -- what holds in every reachable world ---------------------------------

  /** An open transaction's snapshot, answers and conflict information are all current. */
  ghost predicate TxnOk(base: Contents, w: World, id: nat)
    requires id in w.active && id in w.store.open
  {
    ViewOk(base, w.history, w.store, w.active[id], w.store.open[id])
  }

  ghost predicate ViewOk(base: Contents, history: seq<Event>, s: V.Store, t: Txn, at: nat) {
    && t.born <= |history|
    && (forall k :: V.GetAt(s, k, at) == Lookup(StateAt(base, history, t.born), k))
    && Rerun(StateAt(base, history, t.born), t.ops) == (t.answers, t.buffer)
    && (forall i, k | t.born <= i < |history| && k in Changed(StateAt(base, history, i), history[i].writes) ::
          V.TouchedSince(s, k, at))
  }

  lemma ViewOfChains(base: Contents, history: seq<Event>, s: V.Store, s': V.Store, t: Txn, at: nat)
    requires ViewOk(base, history, s, t, at) && s'.chains == s.chains
    ensures ViewOk(base, history, s', t, at)
  {
    forall k
      ensures V.GetAt(s', k, at) == V.GetAt(s, k, at)
      ensures V.TouchedSince(s', k, at) == V.TouchedSince(s, k, at)
    {
    }
    hide V.GetAt;
    hide V.TouchedSince;
    hide Rerun;
    hide StateAt;
    hide Changed;
  }

  /** A transaction just begun sees the current contents and conflicts with nothing. */
  lemma ViewAtBirth(base: Contents, history: seq<Event>, s: V.Store)
    requires V.Valid(s) && V.Current(s) == StateAt(base, history, |history|)
    ensures ViewOk(base, history, s, Txn([], [], BLANK, |history|), s.next - 1)
  {
    forall k ensures V.GetAt(s, k, s.next - 1) == Lookup(V.Current(s), k) {
      V.OpenSnapshotReads(s, k);
      V.CurrentIs(s, k);
    }
  }

  lemma ViewAfterStep(base: Contents, history: seq<Event>, s: V.Store, t: Txn, at: nat, op: Op)
    requires ViewOk(base, history, s, t, at)
    ensures ViewOk(base, history, s, DoOne(s, t, at, op), at)
  {
    assert (t.ops + [op])[..|t.ops|] == t.ops;
    hide V.GetAt, V.TouchedSince, StateAt, Changed, Step;
    SameMap(V.SnapshotOf(s, at), StateAt(base, history, t.born));
  }

  /** A transaction's answers are those of its snapshot at begin. */
  ghost predicate SnapshotReads(base: Contents, history: seq<Event>, i: nat)
    requires i < |history|
  {
    var e := history[i];
    e.born <= i && Rerun(StateAt(base, history, e.born), e.ops).0 == e.answers
  }

  /** No event writes a key changed by an event of its own lifetime. */
  ghost predicate NoLostUpdate(base: Contents, history: seq<Event>, i: nat)
    requires i < |history|
  {
    forall j | history[i].born <= j < i ::
      Changed(StateAt(base, history, j), history[j].writes) !! history[i].writes.Keys
  }

  /** Running the transaction alone at its place in the commit order gives the same answers and writes. */
  ghost predicate SerialAt(base: Contents, history: seq<Event>, i: nat)
    requires i < |history|
  {
    var e := history[i];
    e.whole && e.ops != [] ==>
      var (answers, b) := Rerun(StateAt(base, history, i), e.ops);
      answers == e.answers && b.writes == e.writes
  }

  function Scanned(ops: seq<Op>): set<string> {
    set op | op in ops && op.Scan? :: op.coll
  }

  /** No row there at the transaction's place, and missing where it began, is in a collection it scanned. */
  ghost predicate NoPhantom(base: Contents, history: seq<Event>, i: nat)
    requires i < |history|
  {
    var e := history[i];
    e.whole && e.ops != [] && e.born <= i ==> Covered(StateAt(base, history, e.born), StateAt(base, history, i), e.ops)
  }

  /** Every row of `now` in a scanned collection was there before. */
  ghost predicate Covered(early: Contents, now: Contents, ops: seq<Op>) {
    forall k | k in now && k.coll in Scanned(ops) :: k in early
  }

  ghost predicate ReaderAt(base: Contents, history: seq<Event>, r: Reader) {
    r.born <= |history| && Rerun(StateAt(base, history, r.born), r.ops).0 == r.answers
  }

  ghost predicate Inv(rules: Rules, base: Contents, w: World) {
    && V.Valid(w.store)
    && w.active.Keys == w.store.open.Keys
    && V.Current(w.store) == StateAt(base, w.history, |w.history|)
    && (forall id | id in w.active :: TxnOk(base, w, id))
    && HistoryOk(rules, base, w.history)
    && (forall r | r in w.readers :: ReaderAt(base, w.history, r))
  }

  ghost predicate HistoryOk(rules: Rules, base: Contents, history: seq<Event>) {
    && (forall i | 0 <= i < |history| :: SnapshotReads(base, history, i))
    && (forall i | 0 <= i < |history| :: NoLostUpdate(base, history, i))
    && (rules.strict ==> forall i | 0 <= i < |history| :: SerialAt(base, history, i) <==> NoPhantom(base, history, i))
  }

  // -- what each move does -------------------------------------------------

  /** The history gains one event, and the contents its writes. */
  ghost predicate Gains(w: World, after: World, e: Event) {
    after.history == w.history + [e] && V.Current(after.store) == Overlay(V.Current(w.store), e.writes)
  }

  /** Nothing has changed but who is there. */
  ghost predicate LeavesAsIs(w: World, after: World) {
    after.history == w.history && V.Current(after.store) == V.Current(w.store)
  }

  /**
   * A commit ends its transaction: one that wrote nothing is remembered as a reader, one that
   * fails a check leaves nothing, and one that passes them, whose puts are distinct on every
   * constrained field and fit, leaves its whole write set as one event.
   */
  lemma CommitDoes(rules: Rules, w: World, id: nat, order: seq<Visit>)
    requires V.Valid(w.store) && w.active.Keys == w.store.open.Keys && id in w.active && Complete(w.active[id].buffer.writes, order)
    ensures var t, after := w.active[id], Next(rules, w, Commit(id, order));
      && after.active == w.active - {id}
      && (t.buffer.writes == map[] ==> LeavesAsIs(w, after) && after.readers == w.readers + [Reader(t.ops, t.answers, t.born)])
      && (t.buffer.writes != map[] ==> after.readers == w.readers)
      && (t.buffer.writes != map[] && !PassesChecks(rules, w.store, w.store.open[id], t.buffer) ==> LeavesAsIs(w, after))
      && (t.buffer.writes != map[] && PassesChecks(rules, w.store, w.store.open[id], t.buffer)
          && PutsDistinct(rules, t.buffer.writes) && PutsFit(rules, t.buffer.writes) ==>
           Gains(w, after, Event(t.buffer.writes, t.ops, t.answers, t.born, true)))
  {
    var t := w.active[id];
    CloseValid(w.store, id);
    if t.buffer.writes != map[] && PassesChecks(rules, w.store, w.store.open[id], t.buffer) {
      var (e, n, s') := ApplyAll(rules, w.store, order, t.buffer.writes);
      ApplyAllLands(rules, w.store, order, t.buffer.writes);
      CloseValid(s', id);
      if PutsDistinct(rules, t.buffer.writes) && PutsFit(rules, t.buffer.writes) {
        PassedAdmissible(rules, w.store, w.store.open[id], t.buffer);
        CommitAllOrNothing(rules, w.store, order, t.buffer.writes);
        AllLanded(rules, w.store, order, t.buffer.writes);
      }
    }
    hide V.Valid, V.Current, PutsDistinct, PutsFit, PassesChecks, Complete, Landed, Overlay;
  }

  lemma PassedAdmissible(rules: Rules, s: V.Store, at: nat, b: Buffer)
    requires PassesChecks(rules, s, at, b)
    ensures Admissible(rules, V.Current(s), b.writes)
  {
    hide V.Current, Clashes, V.TouchedSince, Normalize;
    forall k | k in b.writes && b.writes[k].Put?
      ensures var r := Normalize(b.writes[k].rec); rules.accepts(k.coll, r) && !Clashes(rules, V.Current(s), k, r)
    {
      assert Check(rules, s, at, k, b.writes[k]).None?;
    }
  }

  /** A second pass that does not fail lands every write. */
  lemma AllLanded(rules: Rules, s: V.Store, order: seq<Visit>, writes: map<Key, Write>)
    requires V.Valid(s) && Complete(writes, order) && ApplyAll(rules, s, order, writes).0.None?
    ensures ApplyAll(rules, s, order, writes).1 == |order| && Landed(writes, order, |order|) == writes
  {
    AppliedToEnd(rules, s, order, writes);
    hide ApplyAll, V.Valid;
    forall k | k in writes ensures exists i :: 0 <= i < |order| && order[i].k == k {
      var v :| v in order && v.k == k;
    }
  }

  lemma {:induction false} AppliedToEnd(rules: Rules, s: V.Store, order: seq<Visit>, writes: map<Key, Write>)
    requires V.Valid(s) && Covers(writes, order) && ApplyAll(rules, s, order, writes).0.None?
    ensures ApplyAll(rules, s, order, writes).1 == |order|
    decreases |order|
  {
    hide V.Valid, ApplyOne;
    if order != [] {
      ApplyOneAdvances(rules, s, order[0], writes[order[0].k]);
      AppliedToEnd(rules, ApplyOne(rules, s, order[0], writes[order[0].k]).1, order[1..], writes);
    }
  }

  /** A write outside any transaction is one event if the store takes it, and nothing otherwise; an insert also needs its id new. */
  lemma DirectDoes(rules: Rules, w: World, v: Visit, rec: Record)
    requires V.Valid(w.store) && w.active.Keys == w.store.open.Keys
    ensures var r := Normalize(rec);
      var taken := rules.accepts(v.k.coll, r) && rules.fits(v.k.coll, r) && !HeldElsewhere(rules, V.Current(w.store), v.k, r);
      var put := Event(map[v.k := Put(rec)], [], [], |w.history|, true);
      && (if taken && v.k !in V.Current(w.store)
          then Gains(w, Next(rules, w, DirectInsert(v, rec)), put) else LeavesAsIs(w, Next(rules, w, DirectInsert(v, rec))))
      && (if taken then Gains(w, Next(rules, w, DirectUpdate(v, rec)), put) else LeavesAsIs(w, Next(rules, w, DirectUpdate(v, rec))))
      && Gains(w, Next(rules, w, DirectDelete(v)), Event(map[v.k := Del], [], [], |w.history|, true))
  {
    hide V.Valid, V.Current, ApplyOne, Overlay, HeldElsewhere, V.Advances, V.TouchedSince, Normalize;
    LandsExactly(rules, w.store, v, Put(rec));
    LandsExactly(rules, w.store, v, Del);
    ApplyOneAdvances(rules, w.store, v, Put(rec));
    ApplyOneAdvances(rules, w.store, v, Del);
  }

  /**
   * Beginning opens a snapshot of what is there; an operation is answered from it and what was
   * written since, and joins the transaction; giving up, like reclamation, leaves everything as it is.
   */
  lemma OthersDo(rules: Rules, w: World, id: nat, op: Op)
    requires V.Valid(w.store) && w.active.Keys == w.store.open.Keys
    ensures var begun := Next(rules, w, Begin(id));
      LeavesAsIs(w, begun) && id in begun.active && (id !in w.active ==>
        begun.active[id] == Txn([], [], BLANK, |w.history|) && V.SnapshotOf(begun.store, begun.store.open[id]) == V.Current(w.store))
    ensures id in w.active ==>
      var t, done := w.active[id], Next(rules, w, Do(id, op));
      var (a, b) := Step(V.SnapshotOf(w.store, w.store.open[id]), t.buffer, op);
      done == w.(active := w.active[id := Txn(t.ops + [op], t.answers + [a], b, t.born)])
    ensures LeavesAsIs(w, Next(rules, w, Abort(id))) && Next(rules, w, Abort(id)).active == w.active - {id}
    ensures LeavesAsIs(w, Next(rules, w, Sweep)) && Next(rules, w, Sweep).active == w.active
  {
    hide Step, V.Valid, V.Settle, V.SnapshotOf, V.Current, V.Advances;
    CloseValid(w.store, id);
    OpenValid(w.store, id);
    if id !in w.active {
      OpenedReads(w.store, id);
    }
    V.SettleAdvances(w.store, true);
  }

  /** A snapshot opened now reads the contents. */
  lemma OpenedReads(s: V.Store, id: nat)
    requires V.Valid(s)
    ensures V.SnapshotOf(V.OpenSnapshot(s, id), V.OpenSnapshot(s, id).open[id]) == V.Current(s)
  {
    var later := V.OpenSnapshot(s, id);
    var at := later.open[id];
    forall k ensures Lookup(V.SnapshotOf(later, at), k) == Lookup(V.Current(s), k) {
      V.OpenSnapshotReads(s, k);
      V.CurrentIs(s, k);
    }
    SameMap(V.SnapshotOf(later, at), V.Current(s));
  }

  // -- extending a history -------------------------------------------------

  lemma {:induction false} StateExtends(base: Contents, history: seq<Event>, e: Event, n: nat)
    requires n <= |history|
    ensures StateAt(base, history + [e], n) == StateAt(base, history, n)
  {
    if n > 0 { StateExtends(base, history, e, n - 1); }
  }

  lemma HistoryExtends(rules: Rules, base: Contents, history: seq<Event>, e: Event)
    requires HistoryOk(rules, base, history)
    requires var h := history + [e];
      && SnapshotReads(base, h, |history|)
      && NoLostUpdate(base, h, |history|)
      && (rules.strict ==> (SerialAt(base, h, |history|) <==> NoPhantom(base, h, |history|)))
    ensures HistoryOk(rules, base, history + [e])
  {
    var h := history + [e];
    forall n: nat | n <= |history| { StateExtends(base, history, e, n); }
    forall i | 0 <= i < |h| ensures SnapshotReads(base, h, i) {
      if i < |history| { assert SnapshotReads(base, history, i); }
    }
    forall i | 0 <= i < |h| ensures NoLostUpdate(base, h, i) {
      if i < |history| { assert NoLostUpdate(base, history, i); }
    }
    if rules.strict {
      forall i | 0 <= i < |h| ensures SerialAt(base, h, i) <==> NoPhantom(base, h, i) {
        if i < |history| { assert SerialAt(base, history, i) <==> NoPhantom(base, history, i); }
      }
    }
  }

  /** The keys a buffer has looked at or written. */
  function Touches(b: Buffer): set<Key> { b.seen + b.writes.Keys }

  lemma {:induction false} RerunGrows(base: Contents, ops: seq<Op>, n: nat)
    requires n <= |ops|
    ensures Touches(Rerun(base, ops[..n]).1) <= Touches(Rerun(base, ops).1)
    decreases |ops| - n
  {
    hide Rerun, Step, Touches;
    if n < |ops| {
      RerunSteps(base, ops, n);
      StepGrows(base, Rerun(base, ops[..n]).1, ops[n]);
      RerunGrows(base, ops, n + 1);
    } else {
      assert ops[..n] == ops;
    }
  }

  lemma RerunSteps(base: Contents, ops: seq<Op>, n: nat)
    requires n < |ops|
    ensures Rerun(base, ops[..n + 1]).1 == Step(base, Rerun(base, ops[..n]).1, ops[n]).1
  {
    hide Step;
    assert ops[..n + 1][..n] == ops[..n];
  }

  lemma StepGrows(base: Contents, b: Buffer, op: Op)
    ensures Touches(b) <= Touches(Step(base, b, op).1)
  {
    hide ViewRows, KeysOf;
  }

  /** A transaction that scans a collection touches every row it finds there. */
  lemma {:induction false} ScansTouch(base: Contents, ops: seq<Op>, k: Key)
    requires k in base && k.coll in Scanned(ops)
    ensures k in Touches(Rerun(base, ops).1)
  {
    var n := |ops| - 1;
    var b := Rerun(base, ops[..n]).1;
    RerunGrows(base, ops, n);
    if k.coll in Scanned(ops[..n]) {
      ScansTouch(base, ops[..n], k);
    } else {
      assert ops[n] == Scan(k.coll);
      ScanTouches(base, b, k);
    }
  }

  lemma ScanTouches(base: Contents, b: Buffer, k: Key)
    requires k in base
    ensures k in Touches(Step(base, b, Scan(k.coll)).1)
  {
    var rows := ViewRows(base, b, k.coll);
    assert Lookup(rows, k.id) == View(Lookup(base, k), b, k);
    if k !in b.writes {
      assert k in KeysOf(k.coll, rows);
    }
  }

  /** Rows that agree on what an operation looks at give it one answer. */
  lemma StepAgrees(a: Contents, b: Contents, buf: Buffer, op: Op)
    requires forall k | k in Touches(Step(a, buf, op).1) :: Lookup(a, k) == Lookup(b, k)
    requires Covered(a, b, [op])
    ensures Step(b, buf, op) == Step(a, buf, op)
  {
    if op.Scan? {
      var x, y := ViewRows(a, buf, op.coll), ViewRows(b, buf, op.coll);
      forall id ensures Lookup(x, id) == Lookup(y, id) {
        var k := Key(op.coll, id);
        if k in a {
          ScanTouches(a, buf, k);
        } else {
          assert op in [op];
        }
      }
      SameMap(x, y);
    } else {
      assert op.k in Touches(Step(a, buf, op).1);
    }
  }

  /** Contents that agree on every key a transaction touches, and hide nothing from its scans, give it the same run. */
  lemma {:induction false} RerunAgrees(a: Contents, b: Contents, ops: seq<Op>)
    requires forall k | k in Touches(Rerun(a, ops).1) :: Lookup(a, k) == Lookup(b, k)
    requires Covered(a, b, ops)
    ensures Rerun(b, ops) == Rerun(a, ops)
  {
    if ops != [] {
      var n := |ops| - 1;
      RerunGrows(a, ops, n);
      CoveredParts(a, b, ops, n);
      RerunAgrees(a, b, ops[..n]);
      hide Step, Covered;
      StepAgrees(a, b, Rerun(a, ops[..n]).1, ops[n]);
    }
  }

  lemma CoveredParts(a: Contents, b: Contents, ops: seq<Op>, n: nat)
    requires n < |ops| && Covered(a, b, ops)
    ensures Covered(a, b, ops[..n]) && Covered(a, b, [ops[n]])
  {
    assert forall op | op in ops[..n] :: op in ops;
    assert ops[n] in ops;
  }

  /** A phantom shows: the scan that missed it answers otherwise. */
  lemma {:induction false} PhantomShows(a: Contents, b: Contents, ops: seq<Op>, k: Key)
    requires k in b && k !in a && k.coll in Scanned(ops) && k !in Rerun(a, ops).1.writes
    ensures |Rerun(a, ops).0| == |Rerun(b, ops).0| == |ops|
    ensures Rerun(b, ops).0 != Rerun(a, ops).0
  {
    RerunLength(a, ops);
    RerunLength(b, ops);
    var n := |ops| - 1;
    WritesGrow(a, ops, n);
    if k.coll in Scanned(ops[..n]) {
      PhantomShows(a, b, ops[..n], k);
      assert Rerun(a, ops).0[..n] == Rerun(a, ops[..n]).0 && Rerun(b, ops).0[..n] == Rerun(b, ops[..n]).0;
    } else {
      assert ops[n] == Scan(k.coll);
      ScanDiffers(a, b, Rerun(a, ops[..n]), Rerun(b, ops[..n]), ops, k);
    }
  }

  lemma ScanDiffers(a: Contents, b: Contents, x: (seq<Answer>, Buffer), y: (seq<Answer>, Buffer), ops: seq<Op>, k: Key)
    requires ops != [] && ops[|ops| - 1] == Scan(k.coll)
    requires x == Rerun(a, ops[..|ops| - 1]) && y == Rerun(b, ops[..|ops| - 1])
    requires k in b && k !in a && k !in x.1.writes
    requires |x.0| == |y.0| == |ops| - 1
    ensures Rerun(b, ops).0 != Rerun(a, ops).0
  {
    var n := |ops| - 1;
    if x.0 == y.0 {
      SameWrites(a, b, ops[..n]);
      var r, q := ViewRows(a, x.1, k.coll), ViewRows(b, y.1, k.coll);
      assert Lookup(r, k.id) == View(Lookup(a, k), x.1, k) && Lookup(q, k.id) == View(Lookup(b, k), y.1, k);
      assert Rerun(a, ops).0[n] == Rows(r) && Rerun(b, ops).0[n] == Rows(q);
    } else {
      assert Rerun(a, ops).0[..n] == x.0 && Rerun(b, ops).0[..n] == y.0;
    }
  }

  lemma {:induction false} RerunLength(base: Contents, ops: seq<Op>)
    ensures |Rerun(base, ops).0| == |ops|
  {
    if ops != [] { RerunLength(base, ops[..|ops| - 1]); }
  }

  lemma {:induction false} WritesGrow(base: Contents, ops: seq<Op>, n: nat)
    requires n <= |ops|
    ensures Rerun(base, ops[..n]).1.writes.Keys <= Rerun(base, ops).1.writes.Keys
    decreases |ops| - n
  {
    if n < |ops| {
      assert ops[..n + 1][..n] == ops[..n];
      WritesGrow(base, ops, n + 1);
    } else {
      assert ops[..n] == ops;
    }
  }

  /** What a transaction writes follows from what it was answered. */
  lemma {:induction false} SameWrites(a: Contents, b: Contents, ops: seq<Op>)
    requires Rerun(a, ops).0 == Rerun(b, ops).0
    ensures Rerun(a, ops).1.writes == Rerun(b, ops).1.writes
  {
    if ops != [] {
      var n := |ops| - 1;
      RerunLength(a, ops[..n]);
      RerunLength(b, ops[..n]);
      assert Rerun(a, ops).0[..n] == Rerun(a, ops[..n]).0 && Rerun(b, ops).0[..n] == Rerun(b, ops[..n]).0;
      SameWrites(a, b, ops[..n]);
      assert Rerun(a, ops).0[n] == Rerun(b, ops).0[n];
    }
  }

  // -- every move keeps the invariant --------------------------------------

  /** An open transaction's facts survive any store movement that respects its snapshot. */
  lemma TxnKept(base: Contents, w: World, s': V.Store, id: nat)
    requires id in w.active && id in w.store.open && TxnOk(base, w, id)
    requires V.Advances(w.store, s')
    ensures TxnOk(base, w.(store := s'), id)
  {
    hide V.GetAt;
    hide V.TouchedSince;
    hide V.Valid;
    hide Rerun;
    hide StateAt;
  }

  lemma TxnExtended(base: Contents, w: World, e: Event, id: nat)
    requires id in w.active && id in w.store.open && TxnOk(base, w, id)
    requires forall k | k in Changed(StateAt(base, w.history, |w.history|), e.writes) ::
      V.TouchedSince(w.store, k, w.store.open[id])
    ensures TxnOk(base, w.(history := w.history + [e]), id)
  {
    forall n: nat | n <= |w.history| { StateExtends(base, w.history, e, n); }
    hide V.GetAt;
    hide V.TouchedSince;
    hide Rerun;
    hide StateAt;
    hide Changed;
  }

  /** Landing an event: the store moves, the history grows, everyone else's view stands. */
  lemma EventKept(rules: Rules, base: Contents, w: World, s': V.Store, e: Event)
    requires Inv(rules, base, w) && V.Advances(w.store, s')
    requires V.Current(s') == Overlay(V.Current(w.store), e.writes)
    requires forall k, id | id in w.store.open && k in Changed(V.Current(w.store), e.writes) ::
      V.TouchedSince(s', k, w.store.open[id])
    requires HistoryOk(rules, base, w.history + [e])
    ensures Inv(rules, base, w.(store := s', history := w.history + [e]))
  {
    hide ViewOk;
    hide V.Valid;
    hide V.Current;
    hide V.TouchedSince;
    hide V.GetAt;
    hide HistoryOk;
    hide Changed;
    var w1 := w.(store := s');
    var w' := w1.(history := w.history + [e]);
    forall id | id in w.active ensures TxnOk(base, w', id) {
      TxnKept(base, w, s', id);
      TxnExtended(base, w1, e, id);
    }
    forall n: nat | n <= |w.history| { StateExtends(base, w.history, e, n); }
    forall r | r in w'.readers ensures ReaderAt(base, w'.history, r) {
      assert ReaderAt(base, w.history, r);
    }
    hide TxnOk;
    hide ReaderAt;
  }

  lemma CloseKept(rules: Rules, base: Contents, w: World, id: nat)
    requires Inv(rules, base, w)
    ensures Inv(rules, base, Close(w, id))
  {
    var w' := Close(w, id);
    forall other | other in w'.active ensures TxnOk(base, w', other) {
      assert TxnOk(base, w, other);
      ViewOfChains(base, w.history, w.store, w'.store, w.active[other], w.store.open[other]);
    }
    CloseValid(w.store, id);
    hide TxnOk;
    hide V.Valid;
    hide V.Current;
    hide HistoryOk;
    hide ReaderAt;
  }

  lemma CloseValid(s: V.Store, id: nat)
    requires V.Valid(s)
    ensures V.Valid(V.CloseSnapshot(s, id)) && V.Current(V.CloseSnapshot(s, id)) == V.Current(s)
  {
  }

  lemma OpenValid(s: V.Store, id: nat)
    requires V.Valid(s)
    ensures V.Valid(V.OpenSnapshot(s, id)) && V.Current(V.OpenSnapshot(s, id)) == V.Current(s)
  {
  }

  lemma SweepKept(rules: Rules, base: Contents, w: World)
    requires Inv(rules, base, w)
    ensures Inv(rules, base, w.(store := V.Settle(w.store, true)))
  {
    var s' := V.Settle(w.store, true);
    V.SettleAdvances(w.store, true);
    forall id | id in w.active ensures TxnOk(base, w.(store := s'), id) {
      TxnKept(base, w, s', id);
    }
    hide TxnOk;
    hide V.Valid;
    hide V.Current;
    hide V.Settle;
    hide HistoryOk;
  }

  lemma BeginKept(rules: Rules, base: Contents, w: World, id: nat)
    requires Inv(rules, base, w) && id !in w.active
    ensures Inv(rules, base, Next(rules, w, Begin(id)))
  {
    hide ViewOk;
    hide V.Valid;
    hide V.Current;
    hide HistoryOk;
    hide ReaderAt;
    var w' := Next(rules, w, Begin(id));
    ViewAtBirth(base, w.history, w.store);
    forall other | other in w'.active ensures TxnOk(base, w', other) {
      if other != id { assert TxnOk(base, w, other); }
      ViewOfChains(base, w.history, w.store, w'.store, w'.active[other], w'.store.open[other]);
    }
    OpenValid(w.store, id);
    hide TxnOk;
  }

  lemma DoKept(rules: Rules, base: Contents, w: World, id: nat, op: Op)
    requires Inv(rules, base, w) && id in w.active
    ensures Inv(rules, base, Next(rules, w, Do(id, op)))
  {
    hide ViewOk;
    hide DoOne;
    hide V.Valid;
    hide V.Current;
    hide HistoryOk;
    hide ReaderAt;
    var w' := Next(rules, w, Do(id, op));
    assert TxnOk(base, w, id);
    ViewAfterStep(base, w.history, w.store, w.active[id], w.store.open[id], op);
    forall other | other in w'.active ensures TxnOk(base, w', other) {
      assert TxnOk(base, w, other);
    }
  }

  lemma DirectKept(rules: Rules, base: Contents, w: World, v: Visit, write: Write)
    requires Inv(rules, base, w)
    ensures Inv(rules, base, DirectNext(rules, w, v, write))
  {
    var (e, s') := ApplyOne(rules, w.store, v, write);
    ApplyOneAdvances(rules, w.store, v, write);
    if e.None? {
      var event := Event(map[v.k := write], [], [], |w.history|, true);
      HistoryExtends(rules, base, w.history, event);
      EventKept(rules, base, w, s', event);
    }
  }

  lemma CommitKept(rules: Rules, base: Contents, w: World, id: nat, order: seq<Visit>)
    requires Inv(rules, base, w) && id in w.active
    ensures Inv(rules, base, CommitNext(rules, w, id, order))
  {
    var t, at := w.active[id], w.store.open[id];
    assert TxnOk(base, w, id);
    CloseKept(rules, base, w, id);
    if t.buffer.writes == map[] {
      ReaderKept(rules, base, Close(w, id), Reader(t.ops, t.answers, t.born));
    } else if PassesChecks(rules, w.store, at, t.buffer) && Complete(t.buffer.writes, order) {
      var (e, n, s') := ApplyAll(rules, w.store, order, t.buffer.writes);
      ApplyAllLands(rules, w.store, order, t.buffer.writes);
      var event := Event(Landed(t.buffer.writes, order, n), t.ops, t.answers, t.born, e.None?);
      if e.None? { LandedAll(t.buffer.writes, order); }
      CommitEvent(rules, base, w, id, event);
      ChangedMarked(w.store, s', order, n, t.buffer.writes);
      EventKept(rules, base, w, s', event);
      CloseKept(rules, base, w.(store := s', history := w.history + [event]), id);
    }
  }

  lemma ReaderKept(rules: Rules, base: Contents, w: World, r: Reader)
    requires Inv(rules, base, w) && ReaderAt(base, w.history, r)
    ensures Inv(rules, base, w.(readers := w.readers + [r]))
  {
    var w' := w.(readers := w.readers + [r]);
    forall other | other in w'.active ensures TxnOk(base, w', other) {
      assert TxnOk(base, w, other);
    }
  }

  /** Every key the landed writes really changed now conflicts with every open snapshot. */
  lemma ChangedMarked(s: V.Store, s': V.Store, order: seq<Visit>, n: nat, writes: map<Key, Write>)
    requires n <= |order| && Covers(writes, order) && Marked(s, s', order, n, writes)
    ensures forall k, h | h in s.open && k in Changed(V.Current(s), Landed(writes, order, n)) ::
      V.TouchedSince(s', k, s.open[h])
  {
    hide V.Current;
    hide V.TouchedSince;
  }

  /** A commit that passed its checks extends the history as every committed transaction must. */
  lemma CommitEvent(rules: Rules, base: Contents, w: World, id: nat, e: Event)
    requires Inv(rules, base, w) && id in w.active
    requires PassesChecks(rules, w.store, w.store.open[id], w.active[id].buffer)
    requires var t := w.active[id];
      && e.ops == t.ops && e.answers == t.answers && e.born == t.born
      && e.writes.Keys <= t.buffer.writes.Keys
      && (e.whole ==> e.writes == t.buffer.writes)
    ensures HistoryOk(rules, base, w.history + [e])
  {
    var t, at, h, n := w.active[id], w.store.open[id], w.history + [e], |w.history|;
    assert TxnOk(base, w, id);
    forall m: nat | m <= n { StateExtends(base, w.history, e, m); }
    assert SnapshotReads(base, h, n);
    assert NoLostUpdate(base, h, n) by {
      forall j | e.born <= j < n
        ensures Changed(StateAt(base, h, j), h[j].writes) !! h[n].writes.Keys
      {
        forall k | k in e.writes ensures k !in Changed(StateAt(base, h, j), h[j].writes) {
          assert Check(rules, w.store, at, k, t.buffer.writes[k]).None?;
        }
      }
    }
    if rules.strict {
      CommitSerial(rules, base, w, id);
    }
    HistoryExtends(rules, base, w.history, e);
  }

  /**
   * Under the strict policy nothing a committing transaction touched has moved since its
   * snapshot, so it runs alike at its place exactly when no row has joined what it scanned.
   */
  lemma CommitSerial(rules: Rules, base: Contents, w: World, id: nat)
    requires Inv(rules, base, w) && id in w.active && rules.strict
    requires PassesChecks(rules, w.store, w.store.open[id], w.active[id].buffer)
    ensures var t, now := w.active[id], StateAt(base, w.history, |w.history|);
      var (answers, b) := Rerun(now, t.ops);
      answers == t.answers && b.writes == t.buffer.writes <==> Covered(StateAt(base, w.history, t.born), now, t.ops)
  {
    var t, at := w.active[id], w.store.open[id];
    assert TxnOk(base, w, id);
    var early, now := StateAt(base, w.history, t.born), StateAt(base, w.history, |w.history|);
    forall k | k in Touches(Rerun(early, t.ops).1) ensures Lookup(early, k) == Lookup(now, k) {
      if k in t.buffer.writes {
        assert Check(rules, w.store, at, k, t.buffer.writes[k]).None?;
      }
      V.UntouchedIsCurrent(w.store, k, at);
    }
    hide StateAt, Inv, TxnOk, PassesChecks, V.Valid;
    CoveredRuns(early, now, t.ops);
  }

  lemma CoveredRuns(early: Contents, now: Contents, ops: seq<Op>)
    requires forall k | k in Touches(Rerun(early, ops).1) :: Lookup(early, k) == Lookup(now, k)
    ensures Rerun(now, ops).0 == Rerun(early, ops).0 && Rerun(now, ops).1.writes == Rerun(early, ops).1.writes <==> Covered(early, now, ops)
  {
    hide Rerun;
    if Covered(early, now, ops) {
      RerunAgrees(early, now, ops);
    } else {
      var k :| k in now && k.coll in Scanned(ops) && k !in early;
      assert Lookup(early, k) != Lookup(now, k);
      assert k !in Touches(Rerun(early, ops).1);
      PhantomShows(early, now, ops, k);
    }
  }

  // -- runs ----------------------------------------------------------------

  ghost predicate Fresh(w: World, base: Contents) {
    V.Valid(w.store) && V.Current(w.store) == base && w.store.open == map[] && w.active == map[]
    && w.history == [] && w.readers == []
  }

  lemma NextKept(rules: Rules, base: Contents, w: World, move: Move)
    requires Inv(rules, base, w)
    ensures Inv(rules, base, Next(rules, w, move))
  {
    match move
    case Begin(id) => if id !in w.active { BeginKept(rules, base, w, id); }
    case Do(id, op) => if id in w.active { DoKept(rules, base, w, id, op); }
    case Commit(id, order) => if id in w.active { CommitKept(rules, base, w, id, order); }
    case Abort(id) => CloseKept(rules, base, w, id);
    case DirectInsert(v, rec) => DirectKept(rules, base, w, v, Put(rec));
    case DirectUpdate(v, rec) => DirectKept(rules, base, w, v, Put(rec));
    case DirectDelete(v) => DirectKept(rules, base, w, v, Del);
    case Sweep => SweepKept(rules, base, w);
  }

  lemma FreshOk(rules: Rules, base: Contents, w: World)
    requires Fresh(w, base)
    ensures Inv(rules, base, w)
  {
  }

  /** The world after a run of moves, in order. */
  ghost function Run(rules: Rules, base: Contents, w: World, moves: seq<Move>): (w': World)
    requires Inv(rules, base, w)
    ensures Inv(rules, base, w')
    decreases |moves|
  {
    if moves == [] then w
    else
      NextKept(rules, base, w, moves[0]);
      Run(rules, base, Next(rules, w, moves[0]), moves[1..])
  }

  /**
   * Under the strict policy every run is serializable up to phantoms: the contents are
   * those of the events applied one after another, every whole transaction gets the same
   * answers and the same writes when it runs alone at its place in that order - exactly
   * when no row has joined a collection it scanned - and every read-only one when it runs
   * alone where it began.
   */
  lemma StrictRunsAreSerial(rules: Rules, base: Contents, w: World, moves: seq<Move>)
    requires Fresh(w, base) && rules.strict
    ensures Inv(rules, base, w)
    ensures var w' := Run(rules, base, w, moves);
      && V.Current(w'.store) == StateAt(base, w'.history, |w'.history|)
      && (forall i | 0 <= i < |w'.history| :: SerialAt(base, w'.history, i) <==> NoPhantom(base, w'.history, i))
      && (forall r | r in w'.readers :: ReaderAt(base, w'.history, r))
  {
    FreshOk(rules, base, w);
  }

  /** Transactions that scan nothing are always serial. */
  lemma PointRunsAreSerial(rules: Rules, base: Contents, w: World, moves: seq<Move>, i: nat)
    requires Fresh(w, base) && rules.strict
    ensures Inv(rules, base, w)
    ensures var history := Run(rules, base, w, moves).history;
      i < |history| && (forall op | op in history[i].ops :: !op.Scan?) ==> SerialAt(base, history, i)
  {
    StrictRunsAreSerial(rules, base, w, moves);
  }

  /**
   * Rows that were not there are not in the read set of a scan: a transaction scans an
   * empty collection, a row lands in it, and the transaction still passes every check -
   * strict policy or not - though alone at its place it would have been answered otherwise.
   */
  lemma PhantomPasses(rules: Rules, r: Record, k1: Key, k2: Key)
    requires k1 != k2 && k1.coll == k2.coll && rules.unique == {} && rules.accepts(k2.coll, Normalize(r))
    ensures var s, ops := V.Put(V.EMPTY, k1, Normalize(r)), [Scan(k1.coll), Insert(k2, r)];
      && PassesChecks(rules, s, 0, Rerun(map[], ops).1)
      && Rerun(V.Current(s), ops).0 != Rerun(map[], ops).0
  {
    var s, ops := V.Put(V.EMPTY, k1, Normalize(r)), [Scan(k1.coll), Insert(k2, r)];
    OneRowLanded(k1, k2, Normalize(r));
    ScannedThenInserted(k1.coll, k2, r);
    assert ops[0] in ops && k1.coll in Scanned(ops);
    hide V.Current, V.TouchedSince, Rerun, V.Put, Normalize;
    PhantomShows(map[], V.Current(s), ops, k1);
  }

  lemma OneRowLanded(k1: Key, k2: Key, r: Record)
    requires k1 != k2
    ensures V.Current(V.Put(V.EMPTY, k1, r)) == map[k1 := r] && !V.TouchedSince(V.Put(V.EMPTY, k1, r), k2, 0)
  {
    V.PutAdvances(V.EMPTY, k1, r);
  }

  lemma ScannedThenInserted(coll: string, k: Key, r: Record)
    ensures Rerun(map[], [Scan(coll), Insert(k, r)]) == ([Rows(map[]), Inserted], Buffer(map[k := Put(r)], {k}))
  {
    var none: Contents, empty: seq<Op> := map[], [];
    var first, second := Scan(coll), Insert(k, r);
    var one := [first];
    NothingScanned(coll);
    assert one[..0] == empty && [first, second][..1] == one;
    assert Rerun(none, empty) == ([], BLANK);
    hide ViewRows, KeysOf;
    var x := Step(none, BLANK, first);
    assert Rerun(none, one) == ([] + [x.0], x.1);
    assert [] + [x.0] == [Rows(map[])];
    var y := Step(none, BLANK, second);
    assert BLANK.seen + {k} == {k} && BLANK.writes[k := Put(r)] == map[k := Put(r)];
    assert y == (Inserted, Buffer(map[k := Put(r)], {k}));
    assert Rerun(none, [first, second]) == ([Rows(map[])] + [y.0], y.1);
    assert [Rows(map[])] + [y.0] == [Rows(map[]), Inserted];
  }

  lemma NothingScanned(coll: string)
    ensures var none: Contents := map[]; Step(none, BLANK, Scan(coll)) == (Rows(map[]), BLANK)
  {
    var rows := ViewRows(map[], BLANK, coll);
    forall id ensures Lookup(rows, id) == None {
      assert Lookup(rows, id) == View(Lookup(map[], Key(coll, id)), BLANK, Key(coll, id));
    }
    SameMap(rows, map[]);
    assert KeysOf(coll, rows) == {};
    assert BLANK.seen + {} == BLANK.seen;
  }

  /**
   * Under any policy, every transaction - committed, read-only or still open -
   * has only ever been answered from the contents at its begin and its own
   * writes, and no committed one overwrote a change made during its lifetime.
   */
  lemma SnapshotIsolation(rules: Rules, base: Contents, w: World, moves: seq<Move>)
    requires Fresh(w, base)
    ensures Inv(rules, base, w)
    ensures var w' := Run(rules, base, w, moves);
      && (forall i | 0 <= i < |w'.history| :: SnapshotReads(base, w'.history, i) && NoLostUpdate(base, w'.history, i))
      && (forall r | r in w'.readers :: ReaderAt(base, w'.history, r))
      && (forall id | id in w'.active :: var t := w'.active[id];
            t.born <= |w'.history| && Rerun(StateAt(base, w'.history, t.born), t.ops) == (t.answers, t.buffer))
  {
    FreshOk(rules, base, w);
    var w' := Run(rules, base, w, moves);
    forall id | id in w'.active ensures ViewOk(base, w'.history, w'.store, w'.active[id], w'.store.open[id]) {
      assert TxnOk(base, w', id);
    }
  }

  // -- what a transaction reads --------------------------------------------

  /** What the operation did to its key, judging by its answer alone. */
  function WriteOf(op: Op, a: Answer): Option<Write> {
    match op
    case Read(_) => None
    case Insert(_, r) => if a == Inserted then Some(Put(r)) else None
    case Update(_, r) => Some(Put(r))
    case Delete(_) => Some(Del)
    case Scan(_) => None
  }

  /** The latest write to `k` among operations and their answers. */
  function LatestWrite(ops: seq<Op>, answers: seq<Answer>, k: Key): Option<Write>
    requires |ops| == |answers|
  {
    if ops == [] then None
    else
      var n := |ops| - 1;
      var w := WriteOf(ops[n], answers[n]);
      if w.Some? && ops[n].k == k then w else LatestWrite(ops[..n], answers[..n], k)
  }

  lemma {:induction false} BufferIsLatest(base: Contents, ops: seq<Op>, k: Key)
    ensures |Rerun(base, ops).0| == |ops|
    ensures Lookup(Rerun(base, ops).1.writes, k) == LatestWrite(ops, Rerun(base, ops).0, k)
  {
    if ops != [] {
      var n := |ops| - 1;
      BufferIsLatest(base, ops[..n], k);
      assert Rerun(base, ops).0[..n] == Rerun(base, ops[..n]).0;
    }
  }

  lemma {:induction false} RerunPrefix(base: Contents, ops: seq<Op>, i: nat)
    requires i <= |ops|
    ensures |Rerun(base, ops).0| == |ops|
    ensures Rerun(base, ops[..i]).0 == Rerun(base, ops).0[..i]
  {
    BufferIsLatest(base, ops, Key("", 0));
    if i < |ops| {
      var n := |ops| - 1;
      RerunPrefix(base, ops[..n], i);
      assert ops[..n][..i] == ops[..i];
      assert Rerun(base, ops).0[..n] == Rerun(base, ops[..n]).0 by { hide Step; }
      hide Rerun, Step;
      assert Rerun(base, ops).0[..n][..i] == Rerun(base, ops).0[..i];
    } else {
      assert ops[..i] == ops;
    }
  }

  /** The transaction's own latest write to a key, or else the contents it began with. */
  function OwnOrBase(base: Contents, ops: seq<Op>, answers: seq<Answer>, k: Key): Option<Record>
    requires |ops| == |answers|
  {
    match LatestWrite(ops, answers, k)
    case Some(Put(r)) => Some(r)
    case Some(Del) => None
    case None => Lookup(base, k)
  }

  /** A read returns, and a scan returns row by row, the transaction's own latest write or else what it began with. */
  lemma ReadsOwnWritesThenBase(base: Contents, ops: seq<Op>, i: nat)
    requires i < |ops|
    ensures |Rerun(base, ops).0| == |ops|
    ensures ops[i].Read? ==> Rerun(base, ops).0[i] == Found(OwnOrBase(base, ops[..i], Rerun(base, ops).0[..i], ops[i].k))
    ensures ops[i].Scan? ==> Rerun(base, ops).0[i].Rows? && forall id ::
      Lookup(Rerun(base, ops).0[i].rows, id) == OwnOrBase(base, ops[..i], Rerun(base, ops).0[..i], Key(ops[i].coll, id))
  {
    StepAt(base, ops, i);
    forall k ensures Lookup(Rerun(base, ops[..i]).1.writes, k) == LatestWrite(ops[..i], Rerun(base, ops[..i]).0, k) {
      BufferIsLatest(base, ops[..i], k);
    }
  }

  lemma StepAt(base: Contents, ops: seq<Op>, i: nat)
    requires i < |ops|
    ensures |Rerun(base, ops).0| == |ops| && Rerun(base, ops[..i]).0 == Rerun(base, ops).0[..i]
    ensures Rerun(base, ops).0[i] == Step(base, Rerun(base, ops[..i]).1, ops[i]).0
    ensures Rerun(base, ops[..i + 1]).1 == Step(base, Rerun(base, ops[..i]).1, ops[i]).1
  {
    RerunPrefix(base, ops, i);
    RerunPrefix(base, ops, i + 1);
    assert ops[..i + 1][..i] == ops[..i];
    assert Rerun(base, ops).0[..i + 1][i] == Rerun(base, ops).0[i];
  }

  /**
   * What a transaction is told of its writes: an insert is refused exactly when it sees a
   * record there already, and an update or a delete says whether it saw one.
   */
  lemma WritesAnswered(base: Contents, ops: seq<Op>, i: nat)
    requires i < |ops| && !ops[i].Read? && !ops[i].Scan?
    ensures |Rerun(base, ops).0| == |ops|
    ensures var answers := Rerun(base, ops).0;
      var sees := OwnOrBase(base, ops[..i], answers[..i], ops[i].k).Some?;
      answers[i] == if ops[i].Insert? then (if sees then RecordExists else Inserted) else Existed(sees)
  {
    StepAt(base, ops, i);
    BufferIsLatest(base, ops[..i], ops[i].k);
  }

  /** What a transaction has looked at: a row an operation names that it has not itself written before, or one a scan finds. */
  predicate LooksAt(ops: seq<Op>, answers: seq<Answer>, i: nat, k: Key)
    requires i < |ops| == |answers|
  {
    if ops[i].Scan? then answers[i].Rows? && ops[i].coll == k.coll && k.id in answers[i].rows
    else ops[i].k == k && LatestWrite(ops[..i], answers[..i], k).None?
  }

  ghost predicate Looked(ops: seq<Op>, answers: seq<Answer>, k: Key)
    requires |ops| == |answers|
  {
    exists i | 0 <= i < |ops| :: LooksAt(ops, answers, i, k)
  }

  lemma LookedLonger(ops: seq<Op>, answers: seq<Answer>, k: Key)
    requires ops != [] && |ops| == |answers|
    ensures var n := |ops| - 1;
      Looked(ops, answers, k) <==> Looked(ops[..n], answers[..n], k) || LooksAt(ops, answers, n, k)
  {
    var n := |ops| - 1;
    forall i | 0 <= i < n ensures LooksAt(ops[..n], answers[..n], i, k) <==> LooksAt(ops, answers, i, k) {
      assert ops[..n][..i] == ops[..i] && answers[..n][..i] == answers[..i];
    }
    hide LooksAt;
    if Looked(ops[..n], answers[..n], k) {
      var i :| 0 <= i < n && LooksAt(ops[..n], answers[..n], i, k);
      assert LooksAt(ops, answers, i, k);
    }
  }

  /** The read set is exactly that. */
  lemma {:induction false} ReadSetIs(base: Contents, ops: seq<Op>, k: Key)
    ensures |Rerun(base, ops).0| == |ops|
    ensures k in Rerun(base, ops).1.seen <==> Looked(ops, Rerun(base, ops).0, k)
  {
    if ops != [] {
      var n := |ops| - 1;
      var front, answers := ops[..n], Rerun(base, ops).0;
      ReadSetIs(base, front, k);
      StepAt(base, ops, n);
      assert ops[..n + 1] == ops;
      BufferIsLatest(base, front, k);
      LookedLonger(ops, answers, k);
      hide Rerun, LatestWrite, LooksAt, Looked, Step;
      LastLook(base, ops, answers, k, Rerun(base, front).1);
    }
  }

  lemma LastLook(base: Contents, ops: seq<Op>, answers: seq<Answer>, k: Key, b: Buffer)
    requires ops != [] && |answers| == |ops|
    requires var n := |ops| - 1;
      answers[n] == Step(base, b, ops[n]).0 && Lookup(b.writes, k) == LatestWrite(ops[..n], answers[..n], k)
    ensures k in Step(base, b, ops[|ops| - 1]).1.seen <==> k in b.seen || LooksAt(ops, answers, |ops| - 1, k)
  {
    hide LatestWrite;
    var op := ops[|ops| - 1];
    if op.Scan? && k.coll == op.coll {
      assert Key(op.coll, k.id) == k;
    }
  }
}
