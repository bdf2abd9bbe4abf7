/**
 * Coordinated commits across shards: journal the whole write set, apply it,
 * remove the journal; whatever a crash leaves in the journal is replayed.
 */
module Coordinator {
  import opened Basics
  import opened Records
  import opened Varint
  import J = Journal

  /** `None` deletes; `Some` puts, overwriting. */
  datatype Write = Write(k: Key, rec: Option<Record>)

  /**
   * Shards are residue classes of the record id; unique fields are enforced within a shard,
   * by what a hash index would find. `meaning` is the write a journalled entry stands for.
   */
  datatype Rules = Rules(
    shards: nat,
    unique: set<(string, string)>,
    accepts: (string, Record) -> bool,
    fits: (string, Record) -> bool,
    kg: Keying,
    meaning: J.Write -> Write)

  predicate SameShard(rules: Rules, k: Key, k': Key)
    requires rules.shards > 0
  {
    k.coll == k'.coll && k.id % rules.shards == k'.id % rules.shards
  }

  /** Whether two records of a collection file some constrained field under one key. */
  predicate Sharing(rules: Rules, coll: string, rec: Record, rec': Record) {
    exists u | u in rules.unique :: u.0 == coll && Filed(rules.kg, rec, u.1).Some? && Filed(rules.kg, rec, u.1) == Filed(rules.kg, rec', u.1)
  }

  /** Whether two records of one shard hold one constrained value. */
  predicate Collide(rules: Rules, k: Key, rec: Record, k': Key, rec': Record)
    requires rules.shards > 0
  {
    && k != k' && SameShard(rules, k, k')
    && Sharing(rules, k.coll, rec, rec')
  }

  /** Put by hand: try to insert, else update. It lands exactly when the update would. */
  predicate Admits(rules: Rules, s: Contents, w: Write)
    requires rules.shards > 0
  {
    w.rec.Some? ==>
      var r := Normalize(w.rec.value);
      && rules.accepts(w.k.coll, r) && rules.fits(w.k.coll, r)
      && forall k | k in s :: !Collide(rules, w.k, r, k, s[k])
  }

  /** Another record of the key's collection, on the shard that owns its id, holds one of the record's constrained values. */
  ghost predicate SharedOnShard(rules: Rules, s: Contents, k: Key, r: Record)
    requires rules.shards > 0
  {
    exists f, id: nat | (k.coll, f) in rules.unique && id != k.id && id % rules.shards == k.id % rules.shards && Key(k.coll, id) in s ::
      Filed(rules.kg, r, f).Some? && Filed(rules.kg, s[Key(k.coll, id)], f) == Filed(rules.kg, r, f)
  }

  /** A put is admitted exactly when its record is accepted, fits, and shares no constrained value on its shard; a delete always. */
  lemma AdmitsExactly(rules: Rules, s: Contents, w: Write)
    requires rules.shards > 0
    ensures Admits(rules, s, w) <==>
      w.rec.Some? ==>
        var r := Normalize(w.rec.value);
        rules.accepts(w.k.coll, r) && rules.fits(w.k.coll, r) && !SharedOnShard(rules, s, w.k, r)
  {
    hide Filed;
    if w.rec.Some? {
      var k, r := w.k, Normalize(w.rec.value);
      if SharedOnShard(rules, s, k, r) {
        var f, id: nat :| (k.coll, f) in rules.unique && id != k.id && id % rules.shards == k.id % rules.shards && Key(k.coll, id) in s
          && Filed(rules.kg, r, f).Some? && Filed(rules.kg, s[Key(k.coll, id)], f) == Filed(rules.kg, r, f);
        assert (k.coll, f).0 == k.coll && Collide(rules, k, r, Key(k.coll, id), s[Key(k.coll, id)]);
      }
      forall k' | k' in s && Collide(rules, k, r, k', s[k']) ensures SharedOnShard(rules, s, k, r) {
        var u :| u in rules.unique && u.0 == k.coll && Filed(rules.kg, r, u.1).Some? && Filed(rules.kg, r, u.1) == Filed(rules.kg, s[k'], u.1);
        assert u == (k.coll, u.1) && k' == Key(k.coll, k'.id);
      }
    }
  }

  function Effect(s: Contents, w: Write): Contents {
    match w.rec
    case Some(r) => s[w.k := Normalize(r)]
    case None => s - {w.k}
  }

  /** Every write, unconditionally, in order. */
  function Fold(ws: seq<Write>, s: Contents): Contents {
    if ws == [] then s else Effect(Fold(ws[..|ws| - 1], s), ws[|ws| - 1])
  }

  /** Whether applying `ws` in order from `s` meets no refusal. */
  ghost predicate Applies(rules: Rules, ws: seq<Write>, s: Contents)
    requires rules.shards > 0
  {
    forall i :: 0 <= i < |ws| ==> Admits(rules, Fold(ws[..i], s), ws[i])
  }

  predicate Writes(ws: seq<Write>, k: Key) {
    exists i :: 0 <= i < |ws| && ws[i].k == k
  }

  /** What the last write to `k` leaves there. */
  function LastOf(ws: seq<Write>, k: Key): Option<Record> {
    if ws == [] then None
    else
      var w := ws[|ws| - 1];
      if w.k == k then (match w.rec case Some(r) => Some(Normalize(r)) case None => None)
      else LastOf(ws[..|ws| - 1], k)
  }

  // -- replay --------------------------------------------------------------

  /** A fold leaves each written key at its last write, and every other key alone. */
  lemma {:induction false} FoldLookup(ws: seq<Write>, s: Contents, k: Key)
    ensures Lookup(Fold(ws, s), k) == if Writes(ws, k) then LastOf(ws, k) else Lookup(s, k)
  {
    if ws != [] {
      var n := |ws| - 1;
      FoldLookup(ws[..n], s, k);
      assert Writes(ws, k) <==> ws[n].k == k || Writes(ws[..n], k) by {
        if i :| 0 <= i < |ws| && ws[i].k == k { if i < n { assert ws[..n][i].k == k; } }
        if i :| 0 <= i < n && ws[..n][i].k == k { assert ws[i].k == k; }
      }
    }
  }

  lemma {:induction false} FoldSplit(a: seq<Write>, b: seq<Write>, s: Contents)
    ensures Fold(a + b, s) == Fold(b, Fold(a, s))
  {
    if b == [] {
      assert a + b == a;
    } else {
      assert (a + b)[..|a + b| - 1] == a + b[..|b| - 1];
      FoldSplit(a, b[..|b| - 1], s);
    }
  }

  /** Replaying the whole list erases whatever difference was confined to its keys. */
  lemma FoldErases(ws: seq<Write>, s: Contents, t: Contents)
    requires forall k :: Writes(ws, k) || Lookup(s, k) == Lookup(t, k)
    ensures Fold(ws, s) == Fold(ws, t)
  {
    forall k ensures Lookup(Fold(ws, s), k) == Lookup(Fold(ws, t), k) {
      FoldLookup(ws, s, k);
      FoldLookup(ws, t, k);
    }
    SameMap(Fold(ws, s), Fold(ws, t));
  }

  /** Replaying the whole list over any partial replay of it changes nothing. */
  lemma ReplayIdempotent(ws: seq<Write>, s: Contents, n: nat)
    requires n <= |ws|
    ensures Fold(ws, Fold(ws[..n], s)) == Fold(ws, s)
  {
    forall k ensures Writes(ws, k) || Lookup(Fold(ws[..n], s), k) == Lookup(s, k) {
      FoldLookup(ws[..n], s, k);
      if Writes(ws[..n], k) {
        var i :| 0 <= i < n && ws[..n][i].k == k;
        assert ws[i].k == k;
      }
    }
    FoldErases(ws, Fold(ws[..n], s), s);
  }

  // -- when a replay can be refused ----------------------------------------

  /**
   * Two puts of the list would share a constrained value, and the later one
   * goes to a record not written before the earlier: a replay that starts after
   * the later one lands would find the value taken.
   */
  ghost predicate Reuses(rules: Rules, ws: seq<Write>)
    requires rules.shards > 0
  {
    exists a, c :: 0 <= a < c < |ws| && ReusesAt(rules, ws, a, c)
  }

  ghost predicate ReusesAt(rules: Rules, ws: seq<Write>, a: nat, c: nat)
    requires rules.shards > 0 && a < c < |ws|
  {
    && ws[a].rec.Some? && ws[c].rec.Some?
    && Collide(rules, ws[a].k, Normalize(ws[a].rec.value), ws[c].k, Normalize(ws[c].rec.value))
    && !Writes(ws[..a], ws[c].k)
  }

  /** Every key is where some prefix of the list, applied to the base, would leave it. */
  ghost predicate Mixed(ws: seq<Write>, base: Contents, s: Contents) {
    forall k :: MixedAt(ws, base, s, k)
  }

  ghost predicate MixedAt(ws: seq<Write>, base: Contents, s: Contents, k: Key) {
    exists j :: 0 <= j <= |ws| && Lookup(s, k) == Lookup(Fold(ws[..j], base), k)
  }

  /** In a mixed state, a key is at its base value or at a put of the list. */
  lemma {:induction false} LastOfIsPut(ws: seq<Write>, k: Key)
    requires Writes(ws, k) && LastOf(ws, k).Some?
    ensures exists c :: 0 <= c < |ws| && ws[c].k == k && ws[c].rec.Some? && LastOf(ws, k) == Some(Normalize(ws[c].rec.value))
  {
    var n := |ws| - 1;
    if ws[n].k != k {
      assert Writes(ws[..n], k) by {
        var i :| 0 <= i < |ws| && ws[i].k == k;
        assert ws[..n][i].k == k;
      }
      LastOfIsPut(ws[..n], k);
      var c :| 0 <= c < n && ws[..n][c].k == k && ws[..n][c].rec.Some?
        && LastOf(ws[..n], k) == Some(Normalize(ws[..n][c].rec.value));
      assert ws[c].k == k;
    }
  }

  lemma MixedStep(ws: seq<Write>, base: Contents, s: Contents, i: nat)
    requires Mixed(ws, base, s) && i <= |ws|
    ensures Mixed(ws, base, Fold(ws[..i], s))
  {
    forall k ensures MixedAt(ws, base, Fold(ws[..i], s), k) {
      FoldLookup(ws[..i], s, k);
      FoldLookup(ws[..i], base, k);
      assert MixedAt(ws, base, s, k);
      if !Writes(ws[..i], k) {
        var j :| 0 <= j <= |ws| && Lookup(s, k) == Lookup(Fold(ws[..j], base), k);
      }
    }
  }

  /** From a mixed state, a key that blocks write `a` and did not block it at first was put after it. */
  lemma BlockerIsReuse(rules: Rules, ws: seq<Write>, base: Contents, s: Contents, a: nat, k: Key)
    requires rules.shards > 0 && Mixed(ws, base, s) && a < |ws| && ws[a].rec.Some?
    requires Admits(rules, Fold(ws[..a], base), ws[a])
    requires var t := Fold(ws[..a], s); k in t && Collide(rules, ws[a].k, Normalize(ws[a].rec.value), k, t[k])
    ensures Reuses(rules, ws)
  {
    var t := Fold(ws[..a], s);
    FoldLookup(ws[..a], s, k);
    FoldLookup(ws[..a], base, k);
    assert Lookup(t, k) != Lookup(Fold(ws[..a], base), k);
    assert !Writes(ws[..a], k);
    assert MixedAt(ws, base, s, k);
    var j :| 0 <= j <= |ws| && Lookup(s, k) == Lookup(Fold(ws[..j], base), k);
    FoldLookup(ws[..j], base, k);
    LastOfIsPut(ws[..j], k);
    var c :| 0 <= c < j && ws[..j][c].k == k && ws[..j][c].rec.Some?
      && LastOf(ws[..j], k) == Some(Normalize(ws[..j][c].rec.value));
    assert ws[c].k == k;
    assert c >= a by {
      assert forall i :: 0 <= i < a ==> ws[..a][i].k == ws[i].k;
    }
    assert ReusesAt(rules, ws, a, c);
  }

  /** Without reuse, a list that applied once applies again from every state a crash can leave. */
  lemma ReplayApplies(rules: Rules, ws: seq<Write>, base: Contents, s: Contents)
    requires rules.shards > 0 && Applies(rules, ws, base) && !Reuses(rules, ws) && Mixed(ws, base, s)
    ensures Applies(rules, ws, s)
  {
    forall a | 0 <= a < |ws| ensures Admits(rules, Fold(ws[..a], s), ws[a]) {
      assert Admits(rules, Fold(ws[..a], base), ws[a]);
      if ws[a].rec.Some? {
        forall k | k in Fold(ws[..a], s)
          ensures !Collide(rules, ws[a].k, Normalize(ws[a].rec.value), k, Fold(ws[..a], s)[k])
        {
          if Collide(rules, ws[a].k, Normalize(ws[a].rec.value), k, Fold(ws[..a], s)[k]) {
            BlockerIsReuse(rules, ws, base, s, a, k);
          }
        }
      }
    }
  }

  /** With reuse, the replay after a crash just behind the second put is refused. */
  lemma ReuseRefuses(rules: Rules, ws: seq<Write>, base: Contents, a: nat, c: nat)
    requires rules.shards > 0 && a < c < |ws| && ReusesAt(rules, ws, a, c)
    ensures !Applies(rules, ws, Fold(ws[..c + 1], base))
  {
    var s, k := Fold(ws[..c + 1], base), ws[c].k;
    var t := Fold(ws[..a], s);
    FoldLookup(ws[..a], s, k);
    assert ws[..c + 1][c] == ws[c];
    assert Writes(ws[..c + 1], k);
    FoldLookup(ws[..c + 1], base, k);
    assert k in t && t[k] == Normalize(ws[c].rec.value);
    assert !Admits(rules, t, ws[a]);
  }

  /**
   * A list that applies to its base can be replayed from every point a crash
   * may leave it at exactly when no later put reuses an earlier put's value.
   */
  lemma ReplayableExactly(rules: Rules, ws: seq<Write>, base: Contents)
    requires rules.shards > 0 && Applies(rules, ws, base)
    ensures (forall j :: 0 <= j <= |ws| ==> Applies(rules, ws, Fold(ws[..j], base))) <==> !Reuses(rules, ws)
  {
    if Reuses(rules, ws) {
      var a, c :| 0 <= a < c < |ws| && ReusesAt(rules, ws, a, c);
      ReuseRefuses(rules, ws, base, a, c);
    } else {
      forall j | 0 <= j <= |ws| ensures Applies(rules, ws, Fold(ws[..j], base)) {
        BaseMixed(ws, base);
        MixedStep(ws, base, base, j);
        ReplayApplies(rules, ws, base, Fold(ws[..j], base));
      }
    }
  }

  lemma BaseMixed(ws: seq<Write>, base: Contents)
    ensures Mixed(ws, base, base)
  {
    assert ws[..0] == [];
    assert Fold(ws[..0], base) == base;
  }

  // -- the protocol --------------------------------------------------------

  /** The list being applied is in memory; it and the phase die with the process. */
  datatype Phase = Idle | Applying(ws: seq<J.Write>, done: nat)

  /** The shards and the journal file are durable. */
  datatype State = State(shards: Contents, file: Option<Bytes>, phase: Phase)

  datatype Move = Commit(ws: seq<J.Write>) | Recover | ApplyNext | Unlink | Crash

  function Meant(rules: Rules, ws: seq<J.Write>): (r: seq<Write>)
    ensures |r| == |ws| && forall i :: 0 <= i < |r| ==> r[i] == rules.meaning(ws[i])
  {
    seq(|ws|, i requires 0 <= i < |ws| => rules.meaning(ws[i]))
  }

  /** What the file loads as; nothing without a file, an error under a header that is not the journal's. */
  function Loaded(s: State): Option<seq<J.Write>> {
    if s.file.None? then Some([]) else J.Load(s.file.value)
  }

  ghost function Next(rules: Rules, s: State, m: Move): State
    requires rules.shards > 0
  {
    match m
    case Commit(ws) =>
      if s.phase != Idle || ws == [] || Loaded(s).None? then s
      else
        var all := Loaded(s).value + ws;
        s.(file := Some(J.JournalBytes(all)), phase := Applying(all, 0))
    case Recover =>
      if s.phase != Idle || Loaded(s).None? || Loaded(s).value == [] then s else s.(phase := Applying(Loaded(s).value, 0))
    case ApplyNext =>
      if s.phase == Idle || s.phase.done >= |s.phase.ws| then s
      else
        var w := rules.meaning(s.phase.ws[s.phase.done]);
        if Admits(rules, s.shards, w)
        then s.(shards := Effect(s.shards, w), phase := Applying(s.phase.ws, s.phase.done + 1))
        else s.(phase := Idle)
    case Unlink =>
      if s.phase == Idle || s.phase.done < |s.phase.ws| then s else State(s.shards, None, Idle)
    case Crash => s.(phase := Idle)
  }

  /** What has been promised: the contents at the last empty journal, and the writes journalled since. */
  datatype Promise = Promise(base: Contents, ws: seq<J.Write>)

  function PromiseNext(rules: Rules, p: Promise, s: State, m: Move): Promise {
    match m
    case Commit(ws) => if s.phase != Idle || ws == [] || Loaded(s).None? then p else p.(ws := p.ws + ws)
    case Unlink =>
      if s.phase == Idle || s.phase.done < |s.phase.ws| then p else Promise(Fold(Meant(rules, p.ws), p.base), [])
    case _ => p
  }

  /** The journal file of a promise: none while nothing is promised. */
  function FileOf(ws: seq<J.Write>): Option<Bytes> {
    if ws == [] then None else Some(J.JournalBytes(ws))
  }

  /** The durable contents are some mixture of partial replays, and the running one is where it should be. */
  ghost predicate MixedOk(ws: seq<Write>, base: Contents, s: Contents) {
    && Mixed(ws, base, s)
    && (forall k :: Writes(ws, k) || Lookup(s, k) == Lookup(base, k))
  }

  ghost predicate Keeps(rules: Rules, p: Promise, s: State) {
    && J.AllWritable(p.ws)
    && s.file == FileOf(p.ws)
    && MixedOk(Meant(rules, p.ws), p.base, s.shards)
    && (s.phase.Applying? ==>
          && p.ws != [] && s.phase.ws == p.ws && s.phase.done <= |p.ws|
          && Fold(Meant(rules, p.ws)[s.phase.done..], s.shards) == Fold(Meant(rules, p.ws), p.base))
  }

  /** What the file of a promise loads as: the writes promised. */
  lemma PromiseLoads(p: Promise, s: State)
    requires J.AllWritable(p.ws) && s.file == FileOf(p.ws)
    ensures Loaded(s) == Some(p.ws)
  {
    J.JournalLoads(p.ws);
    hide J.JournalBytes, J.Load;
  }

  lemma MixedGrows(ws: seq<Write>, more: seq<Write>, base: Contents, s: Contents)
    requires Mixed(ws, base, s)
    ensures Mixed(ws + more, base, s)
  {
    var all := ws + more;
    forall k ensures MixedAt(all, base, s, k) {
      assert MixedAt(ws, base, s, k);
      var j :| 0 <= j <= |ws| && Lookup(s, k) == Lookup(Fold(ws[..j], base), k);
      assert all[..j] == ws[..j];
    }
  }

  lemma WritesSplit(a: seq<Write>, b: seq<Write>, k: Key)
    ensures Writes(a + b, k) <==> Writes(a, k) || Writes(b, k)
  {
    if i :| 0 <= i < |a| && a[i].k == k { assert (a + b)[i].k == k; }
    if i :| 0 <= i < |b| && b[i].k == k { assert (a + b)[|a| + i].k == k; }
    if i :| 0 <= i < |a + b| && (a + b)[i].k == k {
      if i < |a| { assert a[i].k == k; } else { assert b[i - |a|].k == k; }
    }
  }

  /** A write of the list leaves the state mixed. */
  lemma MixedWrite(ws: seq<Write>, base: Contents, s: Contents, i: nat)
    requires Mixed(ws, base, s) && i < |ws|
    ensures Mixed(ws, base, Effect(s, ws[i]))
  {
    var t := Effect(s, ws[i]);
    forall k ensures MixedAt(ws, base, t, k) {
      assert MixedAt(ws, base, s, k);
      if k == ws[i].k {
        FoldLookup(ws[..i + 1], base, k);
        assert ws[..i + 1][i] == ws[i];
        assert Lookup(t, k) == Lookup(Fold(ws[..i + 1], base), k);
      } else {
        var j :| 0 <= j <= |ws| && Lookup(s, k) == Lookup(Fold(ws[..j], base), k);
      }
    }
  }

  lemma ApplyNextKeeps(rules: Rules, p: Promise, s: State)
    requires rules.shards > 0 && Keeps(rules, p, s) && s.phase.Applying? && s.phase.done < |p.ws|
    ensures Keeps(rules, p, Next(rules, s, ApplyNext))
  {
    hide Mixed, Fold, Admits, FileOf, Effect;
    var ms, i := Meant(rules, p.ws), s.phase.done;
    MixedWrite(ms, p.base, s.shards, i);
    OthersKept(ms, p.base, s.shards, i);
    FoldFirst(ms, i, |ms|, s.shards);
    assert ms[i..|ms|] == ms[i..] && ms[i + 1..|ms|] == ms[i + 1..];
  }

  lemma OthersKept(ws: seq<Write>, base: Contents, s: Contents, i: nat)
    requires i < |ws| && forall k :: Writes(ws, k) || Lookup(s, k) == Lookup(base, k)
    ensures forall k :: Writes(ws, k) || Lookup(Effect(s, ws[i]), k) == Lookup(base, k)
  {
    assert Writes(ws, ws[i].k);
  }

  lemma StartKeeps(rules: Rules, p: Promise, s: State)
    requires Keeps(rules, p, s) && p.ws != []
    ensures Keeps(rules, p, s.(phase := Applying(p.ws, 0)))
  {
    var ms := Meant(rules, p.ws);
    FoldErases(ms, s.shards, p.base);
    assert ms[0..] == ms;
    hide Mixed, Fold, FileOf;
  }

  lemma MixedOkGrows(ws: seq<Write>, more: seq<Write>, base: Contents, s: Contents)
    requires MixedOk(ws, base, s)
    ensures MixedOk(ws + more, base, s)
  {
    MixedGrows(ws, more, base, s);
    forall k { WritesSplit(ws, more, k); }
    hide Mixed, Writes;
  }

  lemma WritableTogether(a: seq<J.Write>, b: seq<J.Write>)
    requires J.AllWritable(a) && J.AllWritable(b)
    ensures J.AllWritable(a + b)
  {
    hide J.Writable;
  }

  lemma MeantTogether(rules: Rules, a: seq<J.Write>, b: seq<J.Write>)
    ensures Meant(rules, a + b) == Meant(rules, a) + Meant(rules, b)
  {
  }

  lemma CommitKeeps(rules: Rules, p: Promise, s: State, ws: seq<J.Write>)
    requires Keeps(rules, p, s) && ws != [] && J.AllWritable(ws)
    ensures Keeps(rules, p.(ws := p.ws + ws), State(s.shards, FileOf(p.ws + ws), Idle))
  {
    hide MixedOk, J.AllWritable, FileOf, Meant, Fold;
    WritableTogether(p.ws, ws);
    MeantTogether(rules, p.ws, ws);
    MixedOkGrows(Meant(rules, p.ws), Meant(rules, ws), p.base, s.shards);
  }

  lemma CommitMoveKeeps(rules: Rules, p: Promise, s: State, ws: seq<J.Write>)
    requires rules.shards > 0 && Keeps(rules, p, s) && J.AllWritable(ws)
    ensures Keeps(rules, PromiseNext(rules, p, s, Commit(ws)), Next(rules, s, Commit(ws)))
  {
    PromiseLoads(p, s);
    if s.phase == Idle && ws != [] {
      CommitKeeps(rules, p, s, ws);
      StartKeeps(rules, p.(ws := p.ws + ws), State(s.shards, FileOf(p.ws + ws), Idle));
      hide Keeps, Loaded, Fold, Admits, Meant;
    }
  }

  lemma RecoverMoveKeeps(rules: Rules, p: Promise, s: State)
    requires rules.shards > 0 && Keeps(rules, p, s)
    ensures Keeps(rules, p, Next(rules, s, Recover))
  {
    PromiseLoads(p, s);
    hide Loaded, MixedOk, Fold, Admits, Meant;
    if s.phase == Idle && p.ws != [] {
      StartKeeps(rules, p, s);
    }
  }

  lemma CrashKeeps(rules: Rules, p: Promise, s: State)
    requires rules.shards > 0 && Keeps(rules, p, s)
    ensures Keeps(rules, p, Next(rules, s, Crash))
  {
    hide Loaded, MixedOk, Fold, Admits, Meant;
  }

  /** Every move keeps the promise, as long as what is journalled can be read. */
  lemma NextKeeps(rules: Rules, p: Promise, s: State, m: Move)
    requires rules.shards > 0 && Keeps(rules, p, s) && (m.Commit? ==> J.AllWritable(m.ws))
    ensures Keeps(rules, PromiseNext(rules, p, s, m), Next(rules, s, m))
  {
    match m {
      case Commit(ws) => hide *; CommitMoveKeeps(rules, p, s, ws);
      case Recover => RecoverMoveKeeps(rules, p, s); hide Keeps, Next;
      case ApplyNext =>
        hide Loaded, MixedOk, Fold, Admits, Meant;
        if s.phase.Applying? && s.phase.done < |p.ws| { ApplyNextKeeps(rules, p, s); }
      case Unlink =>
        hide Loaded, MixedOk, Fold, Admits, Meant;
        if s.phase.Applying? && s.phase.done >= |p.ws| { UnlinkKeeps(rules, p, s); }
      case Crash => CrashKeeps(rules, p, s); hide Keeps, Next;
    }
  }

  lemma UnlinkKeeps(rules: Rules, p: Promise, s: State)
    requires Keeps(rules, p, s) && s.phase.Applying? && s.phase.done >= |p.ws|
    ensures Keeps(rules, Promise(Fold(Meant(rules, p.ws), p.base), []), State(s.shards, None, Idle))
  {
    var ms := Meant(rules, p.ws);
    assert ms[s.phase.done..] == [];
    assert s.shards == Fold(ms, p.base);
    assert Meant(rules, []) == [];
    BaseMixed([], s.shards);
    hide Mixed;
  }

  ghost function Run(rules: Rules, s: State, p: Promise, moves: seq<Move>): (State, Promise)
    requires rules.shards > 0
    decreases |moves|
  {
    if moves == [] then (s, p)
    else Run(rules, Next(rules, s, moves[0]), PromiseNext(rules, p, s, moves[0]), moves[1..])
  }

  /** Every commit of a run journals only what can be read back. */
  predicate AllReadable(moves: seq<Move>) {
    forall m | m in moves && m.Commit? :: J.AllWritable(m.ws)
  }

  lemma {:induction false} RunKeeps(rules: Rules, s: State, p: Promise, moves: seq<Move>)
    requires rules.shards > 0 && Keeps(rules, p, s) && AllReadable(moves)
    ensures var (s', p') := Run(rules, s, p, moves); Keeps(rules, p', s')
    decreases |moves|
  {
    hide Keeps, Next, PromiseNext;
    if moves != [] {
      assert moves[0] in moves;
      NextKeeps(rules, p, s, moves[0]);
      RunKeeps(rules, Next(rules, s, moves[0]), PromiseNext(rules, p, s, moves[0]), moves[1..]);
    }
  }

  /** A recovery that is left to finish: every write of the journal, then the unlink. */
  function Finish(n: nat): seq<Move> {
    if n == 0 then [Unlink] else [ApplyNext] + Finish(n - 1)
  }

  lemma FoldFirst(ws: seq<Write>, i: nat, j: nat, s: Contents)
    requires i < j <= |ws|
    ensures Fold(ws[i..j], s) == Fold(ws[i + 1..j], Effect(s, ws[i]))
  {
    var one := [ws[i]];
    assert one[..0] == [];
    assert Fold(one, s) == Effect(s, ws[i]);
    assert ws[i..j] == one + ws[i + 1..j];
    FoldSplit(one, ws[i + 1..j], s);
  }

  lemma {:induction false} FinishLands(rules: Rules, s: State, p: Promise, n: nat)
    requires rules.shards > 0 && s.phase.Applying? && s.phase.done <= |s.phase.ws| && n == |s.phase.ws| - s.phase.done
    requires Applies(rules, Meant(rules, s.phase.ws[s.phase.done..]), s.shards)
    ensures Run(rules, s, p, Finish(n)).0 == State(Fold(Meant(rules, s.phase.ws[s.phase.done..]), s.shards), None, Idle)
    decreases n
  {
    var i, ws := s.phase.done, s.phase.ws;
    var left := Meant(rules, ws[i..]);
    hide *;
    if n == 0 {
      NothingLeft(rules, s, p);
    } else {
      OneLeft(rules, s);
      RunFirst(rules, s, p, ApplyNext, Finish(n - 1));
      FinishNext(n);
      FinishLands(rules, Next(rules, s, ApplyNext), PromiseNext(rules, p, s, ApplyNext), n - 1);
    }
  }

  lemma FinishNext(n: nat)
    ensures n > 0 ==> Finish(n) == [ApplyNext] + Finish(n - 1)
  {
  }

  lemma RunFirst(rules: Rules, s: State, p: Promise, m: Move, rest: seq<Move>)
    requires rules.shards > 0
    ensures Run(rules, s, p, [m] + rest) == Run(rules, Next(rules, s, m), PromiseNext(rules, p, s, m), rest)
  {
    hide Next, PromiseNext;
    assert ([m] + rest)[0] == m && ([m] + rest)[1..] == rest;
  }

  lemma NothingLeft(rules: Rules, s: State, p: Promise)
    requires rules.shards > 0 && s.phase.Applying? && s.phase.done == |s.phase.ws|
    ensures Run(rules, s, p, Finish(0)).0 == State(Fold(Meant(rules, s.phase.ws[s.phase.done..]), s.shards), None, Idle)
  {
    hide Admits, Loaded, Applies, J.JournalBytes;
    assert Meant(rules, s.phase.ws[s.phase.done..]) == [] && Finish(0)[1..] == [];
  }

  lemma AppliesOne(rules: Rules, s: State)
    requires rules.shards > 0 && s.phase.Applying? && s.phase.done < |s.phase.ws|
    requires Admits(rules, s.shards, rules.meaning(s.phase.ws[s.phase.done]))
    ensures Next(rules, s, ApplyNext) ==
      State(Effect(s.shards, rules.meaning(s.phase.ws[s.phase.done])), s.file, Applying(s.phase.ws, s.phase.done + 1))
  {
    hide Admits, Effect, Loaded;
  }

  /** One more write lands, and the fold of what is left is the fold of the rest behind it. */
  lemma OneLeft(rules: Rules, s: State)
    requires rules.shards > 0 && s.phase.Applying? && s.phase.done < |s.phase.ws|
    requires Applies(rules, Meant(rules, s.phase.ws[s.phase.done..]), s.shards)
    ensures var next, left := Next(rules, s, ApplyNext), Meant(rules, s.phase.ws[s.phase.done..]);
      && next.phase == Applying(s.phase.ws, s.phase.done + 1)
      && Applies(rules, Meant(rules, s.phase.ws[s.phase.done + 1..]), next.shards)
      && Fold(left, s.shards) == Fold(Meant(rules, s.phase.ws[s.phase.done + 1..]), next.shards)
  {
    hide *;
    var i, ws := s.phase.done, s.phase.ws;
    var left := Meant(rules, ws[i..]);
    MeantHead(rules, ws, i);
    HeadAdmitted(rules, left, s.shards);
    AppliesOne(rules, s);
    AppliesRest(rules, left, s.shards);
    FoldFirst(left, 0, |left|, s.shards);
    assert left[0..|left|] == left && left[1..|left|] == left[1..];
  }

  lemma MeantHead(rules: Rules, ws: seq<J.Write>, i: nat)
    requires i < |ws|
    ensures var left := Meant(rules, ws[i..]);
      left != [] && left[0] == rules.meaning(ws[i]) && left[1..] == Meant(rules, ws[i + 1..])
  {
  }

  lemma HeadAdmitted(rules: Rules, ws: seq<Write>, s: Contents)
    requires rules.shards > 0 && ws != [] && Applies(rules, ws, s)
    ensures Admits(rules, s, ws[0])
  {
    hide Admits;
    FoldNone(ws, s);
    assert Admits(rules, Fold(ws[..0], s), ws[0]);
  }

  lemma AppliesRest(rules: Rules, ws: seq<Write>, s: Contents)
    requires rules.shards > 0 && ws != [] && Applies(rules, ws, s)
    ensures Applies(rules, ws[1..], Effect(s, ws[0]))
  {
    var rest := ws[1..];
    forall j | 0 <= j < |rest| ensures Admits(rules, Fold(rest[..j], Effect(s, ws[0])), rest[j]) {
      FoldFirst(ws, 0, j + 1, s);
      assert ws[0..j + 1] == ws[..j + 1] && ws[1..j + 1] == rest[..j] && ws[j + 1] == rest[j];
      assert Admits(rules, Fold(ws[..j + 1], s), ws[j + 1]);
    }
  }

  /** A recovery from an idle state re-drives exactly what its journal loads as. */
  lemma RecoveryRuns(rules: Rules, s: State, p: Promise, ws: seq<J.Write>)
    requires rules.shards > 0 && s.phase == Idle && Loaded(s) == Some(ws) && ws != [] && Applies(rules, Meant(rules, ws), s.shards)
    ensures Run(rules, s, p, [Recover] + Finish(|ws|)).0 == State(Fold(Meant(rules, ws), s.shards), None, Idle)
  {
    var s1 := s.(phase := Applying(ws, 0));
    assert Next(rules, s, Recover) == s1;
    assert ws[0..] == ws;
    hide Loaded, Applies, Fold, Next;
    FinishLands(rules, s1, PromiseNext(rules, p, s, Recover), |ws|);
    var moves := [Recover] + Finish(|ws|);
    assert moves[0] == Recover && moves[1..] == Finish(|ws|);
  }

  /**
   * Convergence: after any run with any number of crashes, every commit of which journals
   * only what can be read back, if what is journalled applies to its base and reuses no
   * value, the next recovery left to finish lands exactly on the promised contents and
   * leaves no journal.
   */
  lemma RecoveryConverges(rules: Rules, base: Contents, moves: seq<Move>)
    requires rules.shards > 0 && AllReadable(moves)
    ensures var (s, p) := Run(rules, State(base, None, Idle), Promise(base, []), moves);
      var ms := Meant(rules, p.ws);
      p.ws != [] && Applies(rules, ms, p.base) && !Reuses(rules, ms) ==>
        Run(rules, s.(phase := Idle), p, [Recover] + Finish(|p.ws|)).0 == State(Fold(ms, p.base), None, Idle)
  {
    BaseMixed([], base);
    assert Meant(rules, []) == [];
    assert Keeps(rules, Promise(base, []), State(base, None, Idle));
    RunKeeps(rules, State(base, None, Idle), Promise(base, []), moves);
    var (s, p) := Run(rules, State(base, None, Idle), Promise(base, []), moves);
    var ms := Meant(rules, p.ws);
    hide Run;
    if p.ws != [] && Applies(rules, ms, p.base) && !Reuses(rules, ms) {
      var s0 := s.(phase := Idle);
      PromiseLoads(p, s0);
      ReplayApplies(rules, ms, p.base, s0.shards);
      FoldErases(ms, s0.shards, p.base);
      hide *;
      RecoveryRuns(rules, s0, p, p.ws);
    }
  }

  /** A crash just behind the journalling leaves the shards as they were and the whole list in the file. */
  lemma CrashedBehind(rules: Rules, base: Contents, ws: seq<J.Write>)
    requires rules.shards > 0 && ws != []
    ensures Next(rules, Next(rules, State(base, None, Idle), Commit(ws)), Crash) == State(base, Some(J.JournalBytes(ws)), Idle)
  {
    assert [] + ws == ws;
    hide J.JournalBytes, J.Load, Admits;
  }

  lemma RecoveryTakesUp(rules: Rules, s: State)
    requires rules.shards > 0 && s.phase == Idle
    ensures Next(rules, s, Recover).phase == match Loaded(s)
      case None => Idle
      case Some(ws) => if ws == [] then Idle else Applying(ws, 0)
  {
    hide Loaded, Admits;
  }

  /** After a crash just behind the journalling, recovery takes up the very list exactly when each entry can be read back. */
  lemma RedrivesExactly(rules: Rules, base: Contents, ws: seq<J.Write>)
    requires rules.shards > 0 && ws != []
    ensures var crashed := Next(rules, Next(rules, State(base, None, Idle), Commit(ws)), Crash);
      Next(rules, crashed, Recover).phase == Applying(ws, 0) <==> J.AllWritable(ws)
  {
    hide J.JournalBytes, J.Load, J.AllWritable, Next;
    J.JournalLoads(ws);
    CrashedBehind(rules, base, ws);
    RecoveryTakesUp(rules, State(base, Some(J.JournalBytes(ws)), Idle));
  }

  /** An entry too deep to read takes itself and all that follow out of the recovery, which then removes the journal. */
  lemma DeepEntryTears(rules: Rules, base: Contents, ws: seq<J.Write>, i: nat, p: Promise)
    requires rules.shards > 0 && 0 < i < |ws| && J.AllWritable(ws[..i]) && J.TooDeep(ws[i])
    requires Applies(rules, Meant(rules, ws[..i]), base)
    ensures var crashed := Next(rules, Next(rules, State(base, None, Idle), Commit(ws)), Crash);
      Run(rules, crashed, p, [Recover] + Finish(i)).0 == State(Fold(Meant(rules, ws[..i]), base), None, Idle)
  {
    hide J.JournalBytes, J.Load, Applies, Fold, Run, Next, J.TooDeep, J.AllWritable, Meant;
    J.DeepJournalLoads(ws, i);
    CrashedBehind(rules, base, ws);
    RecoveryRuns(rules, State(base, Some(J.JournalBytes(ws)), Idle), p, ws[..i]);
  }

  /** Without unique fields nothing is ever reused, and a write is admitted or refused whatever the shards hold. */
  lemma NothingUnique(rules: Rules, ws: seq<Write>, s: Contents)
    requires rules.shards > 0 && rules.unique == {}
    ensures !Reuses(rules, ws)
    ensures Applies(rules, ws, s) <==> forall i | 0 <= i < |ws| && ws[i].rec.Some? ::
      var r := Normalize(ws[i].rec.value); rules.accepts(ws[i].k.coll, r) && rules.fits(ws[i].k.coll, r)
  {
    if Applies(rules, ws, s) {
      forall i | 0 <= i < |ws| && ws[i].rec.Some?
        ensures var r := Normalize(ws[i].rec.value); rules.accepts(ws[i].k.coll, r) && rules.fits(ws[i].k.coll, r)
      {
        assert Admits(rules, Fold(ws[..i], s), ws[i]);
      }
    }
  }

  /**
   * A value freed and reused within one list: it applies cleanly, and its
   * replay after a crash behind the last write is refused.
   */
  lemma ReuseExample(rules: Rules, a: Atom, b: Atom)
    requires rules.shards > 0 && rules.unique == {("c", "f")} && Hashed(rules.kg, a) != Hashed(rules.kg, b)
    requires forall r :: rules.accepts("c", r) && rules.fits("c", r)
    ensures var k1, k2 := Key("c", 0), Key("c", rules.shards);
      var ws := [Write(k1, Some(map["f" := Is(a)])), Write(k1, Some(map["f" := Is(b)])), Write(k2, Some(map["f" := Is(a)]))];
      Applies(rules, ws, map[]) && !Applies(rules, ws, Fold(ws, map[]))
  {
    var k1, k2 := Key("c", 0), Key("c", rules.shards);
    var ra: Record, rb: Record := map["f" := Is(a)], map["f" := Is(b)];
    var ws := [Write(k1, Some(ra)), Write(k1, Some(rb)), Write(k2, Some(ra))];
    assert Normalize(ra) == ra && Normalize(rb) == rb;
    assert ws[..1] == [ws[0]] && ws[..2] == [ws[0], ws[1]] && ws[..2][..1] == ws[..1] && ws[..1][..0] == [] && ws[..0] == [];
    assert Fold(ws[..1], map[]) == map[k1 := ra];
    assert Fold(ws[..2], map[]) == map[k1 := rb];
    assert Admits(rules, Fold(ws[..0], map[]), ws[0]) && Admits(rules, Fold(ws[..1], map[]), ws[1]);
    assert Admits(rules, Fold(ws[..2], map[]), ws[2]);
    assert rules.shards % rules.shards == 0 == 0 % rules.shards;
    assert ("c", "f") in rules.unique;
    assert Collide(rules, k1, ra, k2, ra);
    assert ReusesAt(rules, ws, 0, 2);
    ReuseRefuses(rules, ws, map[], 0, 2);
    assert ws[..3] == ws;
  }

  // -- the coordinator itself ----------------------------------------------

  /** The writes before the `i`th have landed, and that one is refused. */
  ghost predicate StoppedAt(rules: Rules, ws: seq<Write>, before: Contents, now: Contents, i: nat)
    requires rules.shards > 0 && i < |ws|
  {
    now == Fold(ws[..i], before) && !Admits(rules, now, ws[i])
  }

  class CoordinatedShards {
    const rules: Rules
    var shards: Contents
    var file: Option<Bytes>

    ghost predicate Valid()
      reads this
    {
      rules.shards > 0
    }

    constructor (rules: Rules, shards: Contents)
      requires rules.shards > 0
      ensures Valid() && this.rules == rules && this.shards == shards && file == None
    {
      this.rules, this.shards, this.file := rules, shards, None;
    }

    /** Whether a record of the owner shard, the excluded key aside, holds one of `r`'s constrained values. */
    method FindConflict(k: Key, exclude: Option<Key>, r: Record) returns (found: bool)
      requires Valid()
      ensures found <==> exists k' | k' in shards ::
        Some(k') != exclude && SameShard(rules, k, k') && Sharing(rules, k.coll, r, shards[k'])
    {
      hide Sharing;
      var keys := ToSeq(shards.Keys);
      for i := 0 to |keys|
        invariant forall k' | k' in keys[..i] :: !(Some(k') != exclude && SameShard(rules, k, k') && Sharing(rules, k.coll, r, shards[k']))
      {
        assert keys[..i + 1] == keys[..i] + [keys[i]];
        if Some(keys[i]) != exclude && SameShard(rules, k, keys[i]) {
          var shared := SharesAny(k.coll, r, shards[keys[i]]);
          if shared { return true; }
        }
      }
      assert keys[..|keys|] == keys;
      found := false;
    }

    method SharesAny(coll: string, a: Record, b: Record) returns (shared: bool)
      ensures shared <==> Sharing(rules, coll, a, b)
    {
      var fields := ToSeq(rules.unique);
      for i := 0 to |fields|
        invariant forall u | u in fields[..i] ::
          !(u.0 == coll && Filed(rules.kg, a, u.1).Some? && Filed(rules.kg, a, u.1) == Filed(rules.kg, b, u.1))
      {
        hide Filed;
        assert fields[..i + 1] == fields[..i] + [fields[i]];
        var u := fields[i];
        if u.0 == coll && Filed(rules.kg, a, u.1).Some? && Filed(rules.kg, a, u.1) == Filed(rules.kg, b, u.1) {
          assert u in rules.unique;
          return true;
        }
      }
      assert fields[..|fields|] == fields;
      shared := false;
    }

    /** The owner shard's insert: no id is excluded from the unique check, and an id already there is refused. */
    method TryInsert(k: Key, rec: Record) returns (ok: bool)
      requires Valid()
      modifies this`shards
      ensures ok <==> k !in old(shards) && Admits(rules, old(shards), Write(k, Some(rec)))
      ensures ok <==>
        && k !in old(shards) && rules.accepts(k.coll, Normalize(rec)) && rules.fits(k.coll, Normalize(rec))
        && !SharedOnShard(rules, old(shards), k, Normalize(rec))
      ensures shards == if ok then old(shards)[k := Normalize(rec)] else old(shards)
    {
      AdmitsExactly(rules, shards, Write(k, Some(rec)));
      hide Sharing, Normalize, SharedOnShard;
      var r := Normalize(rec);
      var conflict := FindConflict(k, None, r);
      if conflict { return false; }
      if !rules.accepts(k.coll, r) { return false; }
      if k in shards { return false; }
      if !rules.fits(k.coll, r) { return false; }
      shards := shards[k := r];
      ok := true;
    }

    /** The owner shard's update: the id's own record is no conflict, and is there or not. */
    method TryUpdate(k: Key, rec: Record) returns (ok: bool)
      requires Valid()
      modifies this`shards
      ensures ok <==> Admits(rules, old(shards), Write(k, Some(rec)))
      ensures ok <==>
        && rules.accepts(k.coll, Normalize(rec)) && rules.fits(k.coll, Normalize(rec))
        && !SharedOnShard(rules, old(shards), k, Normalize(rec))
      ensures shards == if ok then old(shards)[k := Normalize(rec)] else old(shards)
    {
      AdmitsExactly(rules, shards, Write(k, Some(rec)));
      hide Sharing, Normalize, SharedOnShard;
      var r := Normalize(rec);
      var conflict := FindConflict(k, Some(k), r);
      if conflict { return false; }
      if !rules.accepts(k.coll, r) || !rules.fits(k.coll, r) { return false; }
      shards := shards[k := r];
      ok := true;
    }

    /** Put by hand: insert, and if that is refused for whatever reason, update. One of them lands exactly when the write is admitted. */
    method PutByHand(k: Key, rec: Record) returns (ok: bool)
      requires Valid()
      modifies this`shards
      ensures ok <==> Admits(rules, old(shards), Write(k, Some(rec)))
      ensures shards == if ok then Effect(old(shards), Write(k, Some(rec))) else old(shards)
    {
      hide Admits;
      ok := TryInsert(k, rec);
      if !ok {
        ok := TryUpdate(k, rec);
      }
    }

    /** One write: a put by hand, or a delete that may find nothing. */
    method ApplyWrite(w: Write) returns (ok: bool)
      requires Valid()
      modifies this`shards
      ensures ok <==> Admits(rules, old(shards), w)
      ensures shards == if ok then Effect(old(shards), w) else old(shards)
    {
      hide Admits;
      match w.rec {
        case Some(rec) =>
          ok := PutByHand(w.k, rec);
        case None =>
          AdmitsDelete(rules, shards, w);
          shards := shards - {w.k};
          ok := true;
      }
    }

    /** Apply until done or refused; what was applied stays. */
    method Apply(ws: seq<J.Write>) returns (ok: bool)
      requires Valid()
      modifies this`shards
      ensures ok <==> Applies(rules, Meant(rules, ws), old(shards))
      ensures ok ==> shards == Fold(Meant(rules, ws), old(shards))
      ensures !ok ==> exists i | 0 <= i < |ws| :: StoppedAt(rules, Meant(rules, ws), old(shards), shards, i)
    {
      hide Admits, Effect, Fold;
      ghost var s0, ms := shards, Meant(rules, ws);
      FoldNone(ms, s0);
      for i := 0 to |ws|
        invariant shards == Fold(ms[..i], s0)
        invariant forall j :: 0 <= j < i ==> Admits(rules, Fold(ms[..j], s0), ms[j])
      {
        FoldNext(ms, i, s0);
        ok := ApplyWrite(rules.meaning(ws[i]));
        if !ok {
          assert StoppedAt(rules, ms, s0, shards, i);
          return;
        }
      }
      assert ms[..|ws|] == ms;
      ok := true;
    }

    /** The journal as it loads, if its header can be read. */
    method LoadFile() returns (ws: Option<seq<J.Write>>)
      ensures ws == Loaded(State(shards, file, Idle))
    {
      match file {
        case None => ws := Some([]);
        case Some(raw) => ws := J.LoadJournal(raw);
      }
    }

    /** Journal - folding in anything pending - then apply, then unlink; a refusal leaves the journal. */
    method CommitCoordinated(ws: seq<J.Write>) returns (ok: bool)
      requires Valid()
      modifies this
      ensures var pending := old(Loaded(State(shards, file, Idle)));
        if ws == [] then ok && shards == old(shards) && file == old(file)
        else if pending.None? then !ok && shards == old(shards) && file == old(file)
        else
          var all := pending.value + ws;
          if Applies(rules, Meant(rules, all), old(shards))
          then ok && shards == Fold(Meant(rules, all), old(shards)) && file == None
          else
            && !ok && file == Some(J.JournalBytes(all))
            && exists i | 0 <= i < |all| :: StoppedAt(rules, Meant(rules, all), old(shards), shards, i)
    {
      hide Loaded, Applies, Fold, J.JournalBytes;
      if ws == [] { return true; }
      var pending := LoadFile();
      if pending.None? { return false; }
      var bytes := J.WriteJournal(pending.value + ws);
      file := Some(bytes);
      ok := Apply(pending.value + ws);
      if ok { file := None; }
    }

    /** Re-drive every journalled write that loads. */
    method RecoverCoordinated() returns (ok: bool)
      requires Valid()
      modifies this
      ensures var pending := old(Loaded(State(shards, file, Idle)));
        if pending.None? then !ok && shards == old(shards) && file == old(file)
        else if pending.value == [] then ok && shards == old(shards) && file == old(file)
        else if Applies(rules, Meant(rules, pending.value), old(shards))
        then ok && shards == Fold(Meant(rules, pending.value), old(shards)) && file == None
        else
          && !ok && file == old(file)
          && exists i | 0 <= i < |pending.value| :: StoppedAt(rules, Meant(rules, pending.value), old(shards), shards, i)
    {
      hide Loaded, Applies, Fold;
      var pending := LoadFile();
      if pending.None? { return false; }
      if pending.value == [] { return true; }
      ok := Apply(pending.value);
      if ok { file := None; }
    }
  }

  lemma FoldNone(ws: seq<Write>, s: Contents)
    ensures Fold(ws[..0], s) == s
  {
  }

  lemma FoldNext(ws: seq<Write>, i: nat, s: Contents)
    requires i < |ws|
    ensures Fold(ws[..i + 1], s) == Effect(Fold(ws[..i], s), ws[i])
  {
    assert ws[..i + 1][..i] == ws[..i];
  }

  lemma AdmitsDelete(rules: Rules, s: Contents, w: Write)
    requires rules.shards > 0 && w.rec.None?
    ensures Admits(rules, s, w) && Effect(s, w) == s - {w.k}
  {
  }
}
