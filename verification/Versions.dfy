/**
 * The heap's version chains: every write stamps a fresh id, a delete is a
 * tombstone, a snapshot reads the last version at or before its stamp, and
 * reclamation drops what no open snapshot can reach.
 */
module Versions {
  import opened Basics
  import opened Records

  datatype Version = Version(stamp: nat, rec: Option<Record>)

  /** Oldest first; `None` marks a delete. */
  type Chain = seq<Version>

  /** `next` is the stamp the next write gets; `open` maps each open snapshot to its stamp. */
  datatype Store = Store(chains: map<Key, Chain>, next: nat, open: map<nat, nat>)

  const EMPTY := Store(map[], 1, map[])

  function ChainOf(s: Store, k: Key): Chain {
    if k in s.chains then s.chains[k] else []
  }

  function Newest(c: Chain): Option<Record> {
    if c == [] then None else c[|c| - 1].rec
  }

  function NewestStamp(c: Chain): Option<nat> {
    if c == [] then None else Some(c[|c| - 1].stamp)
  }

  /** The position of the last version stamped at or before `at`, or -1. */
  function LastAt(c: Chain, at: nat): (i: int)
    ensures -1 <= i < |c|
    ensures i >= 0 ==> c[i].stamp <= at
    ensures forall j :: i < j < |c| ==> c[j].stamp > at
  {
    if c == [] then -1
    else if c[|c| - 1].stamp <= at then |c| - 1
    else LastAt(c[..|c| - 1], at)
  }

  /** What a snapshot at `at` reads from a chain. */
  function VisibleAt(c: Chain, at: nat): Option<Record> {
    var i := LastAt(c, at);
    if i < 0 then None else c[i].rec
  }

  function Get(s: Store, k: Key): Option<Record> {
    Newest(ChainOf(s, k))
  }

  function GetAt(s: Store, k: Key, at: nat): Option<Record> {
    VisibleAt(ChainOf(s, k), at)
  }

  /** Everything a snapshot at `at` reads. */
  function SnapshotOf(s: Store, at: nat): (c: Contents)
    ensures forall k :: Lookup(c, k) == GetAt(s, k, at)
  {
    map k | k in s.chains && GetAt(s, k, at).Some? :: GetAt(s, k, at).value
  }

  /** Whether `k` was written, or deleted, after `at`. */
  predicate TouchedSince(s: Store, k: Key, at: nat) {
    var ts := NewestStamp(ChainOf(s, k));
    ts.Some? && ts.value > at
  }

  function Current(s: Store): Contents {
    map k | k in s.chains && Newest(s.chains[k]).Some? :: Newest(s.chains[k]).value
  }

  // -- steps ---------------------------------------------------------------

  /** Extend one chain by a freshly stamped version. */
  function Append(s: Store, k: Key, rec: Option<Record>): Store {
    s.(chains := s.chains[k := ChainOf(s, k) + [Version(s.next, rec)]], next := s.next + 1)
  }

  /** The one physical write path. */
  function Put(s: Store, k: Key, r: Record): Store {
    Append(s, k, Some(r))
  }

  /** Deleting an absent record still spends a stamp and leaves no version. */
  function Delete(s: Store, k: Key): Store {
    if Get(s, k).None? then s.(next := s.next + 1)
    else Append(s, k, None)
  }

  function OpenSnapshot(s: Store, handle: nat): Store
    requires s.next > 0
  {
    s.(open := s.open[handle := s.next - 1])
  }

  function CloseSnapshot(s: Store, handle: nat): Store {
    s.(open := s.open - {handle})
  }

  /** Keep the newest version at or before the horizon and all later ones. */
  function ReclaimTo(c: Chain, horizon: nat): Chain {
    var i := LastAt(c, horizon);
    if i < 0 then c else c[i..]
  }

  predicate OnlyTombstone(c: Chain) {
    |c| == 1 && c[0].rec.None?
  }

  /** Reclaimed chains; one that is nothing but a tombstone goes altogether. */
  function ReclaimChains(chains: map<Key, Chain>, horizon: nat): map<Key, Chain> {
    map k | k in chains && !OnlyTombstone(ReclaimTo(chains[k], horizon)) :: ReclaimTo(chains[k], horizon)
  }

  function Reclaim(s: Store, horizon: nat): Store {
    s.(chains := ReclaimChains(s.chains, horizon))
  }

  /** A horizon no open snapshot precedes. */
  predicate SafeHorizon(s: Store, horizon: nat) {
    horizon < s.next && forall h | h in s.open :: horizon <= s.open[h]
  }

  /** The oldest open snapshot, or the newest stamp when none is open. */
  ghost function Horizon(s: Store): (horizon: nat)
    requires Valid(s)
    ensures SafeHorizon(s, horizon)
    ensures forall other: nat :: SafeHorizon(s, other) ==> other <= horizon
  {
    if s.open == map[] then s.next - 1
    else
      var any :| any in s.open;
      OldestExists(s.open, any);
      var oldest :| oldest in s.open && forall h | h in s.open :: s.open[oldest] <= s.open[h];
      s.open[oldest]
  }

  lemma {:induction false} OldestExists(open: map<nat, nat>, candidate: nat)
    requires candidate in open
    ensures exists oldest :: oldest in open && forall h | h in open :: open[oldest] <= open[h]
    decreases open[candidate]
  {
    if h :| h in open && open[h] < open[candidate] {
      OldestExists(open, h);
    }
  }

  /** A write's aftermath: retention pressure may trigger a reclamation. */
  ghost function Settle(s: Store, sweep: bool): Store
    requires Valid(s)
  {
    if sweep then Reclaim(s, Horizon(s)) else s
  }

  // -- well-formedness -----------------------------------------------------

  ghost predicate ValidChain(c: Chain, next: nat) {
    && (forall i, j :: 0 <= i < j < |c| ==> c[i].stamp < c[j].stamp)
    && (forall i :: 0 <= i < |c| ==> c[i].stamp < next)
  }

  ghost predicate Valid(s: Store) {
    && s.next > 0
    && (forall k | k in s.chains :: s.chains[k] != [] && ValidChain(s.chains[k], s.next))
    && (forall h | h in s.open :: s.open[h] < s.next)
    // A version precedes every snapshot that cannot see it: a chain never
    // starts with a tombstone that some open snapshot predates.
    && (forall k, h | k in s.chains && h in s.open && s.chains[k][0].rec.None? ::
          s.chains[k][0].stamp <= s.open[h])
  }

  // -- what each step keeps ------------------------------------------------

  lemma AppendKeepsView(c: Chain, v: Version, at: nat)
    ensures VisibleAt(c + [v], at) == if v.stamp <= at then v.rec else VisibleAt(c, at)
  {
    assert (c + [v])[..|c|] == c;
  }

  lemma AppendValid(s: Store, k: Key, rec: Option<Record>)
    requires Valid(s) && (rec.None? ==> ChainOf(s, k) != [])
    ensures Valid(Append(s, k, rec))
  {
    var s' := Append(s, k, rec);
    forall k' | k' in s'.chains
      ensures s'.chains[k'] != [] && ValidChain(s'.chains[k'], s'.next)
    {
      if k' != k { assert s'.chains[k'] == s.chains[k']; }
    }
  }

  lemma AppendObserved(s: Store, k: Key, rec: Option<Record>, k': Key, at: nat)
    requires at < s.next
    ensures var s' := Append(s, k, rec);
      && GetAt(s', k', at) == GetAt(s, k', at)
      && Get(s', k') == (if k' == k then rec else Get(s, k'))
      && (TouchedSince(s', k', at) <==> k' == k || TouchedSince(s, k', at))
  {
    hide VisibleAt;
    AppendKeepsView(ChainOf(s, k), Version(s.next, rec), at);
  }

  lemma CurrentIs(s: Store, k: Key)
    ensures Lookup(Current(s), k) == Get(s, k)
  {
  }

  lemma AppendContents(s: Store, k: Key, rec: Option<Record>)
    requires s.next > 0
    ensures Current(Append(s, k, rec)) ==
      match rec case Some(r) => Current(s)[k := r] case None => Current(s) - {k}
  {
    var c' := Current(Append(s, k, rec));
    var want := match rec case Some(r) => Current(s)[k := r] case None => Current(s) - {k};
    forall k' ensures Lookup(c', k') == Lookup(want, k') {
      CurrentIs(s, k');
      CurrentIs(Append(s, k, rec), k');
      AppendObserved(s, k, rec, k', 0);
    }
    SameMap(c', want);
  }

  lemma ReclaimToKeeps(c: Chain, next: nat, horizon: nat, at: nat)
    requires ValidChain(c, next) && c != [] && horizon <= at
    ensures var d := ReclaimTo(c, horizon);
      && d != [] && ValidChain(d, next)
      && d[|d| - 1] == c[|c| - 1]
      && VisibleAt(d, at) == VisibleAt(c, at)
      && (d == c || d[0].stamp <= horizon)
  {
    var i, r := LastAt(c, horizon), LastAt(c, at);
    if i >= 0 {
      assert i <= r;
      assert c[i..][r - i] == c[r];
      assert LastAt(c[i..], at) == r - i;
    }
  }

  /**
   * Reclamation changes no answer: not the current value, not what an open
   * snapshot reads, not whether a key conflicts with that snapshot.
   */
  lemma ReclaimObserved(s: Store, horizon: nat, k: Key, h: nat)
    requires Valid(s) && SafeHorizon(s, horizon) && h in s.open
    ensures var s', at := Reclaim(s, horizon), s.open[h];
      && GetAt(s', k, at) == GetAt(s, k, at)
      && (TouchedSince(s', k, at) <==> TouchedSince(s, k, at))
  {
    if k in s.chains {
      var c, d, at := s.chains[k], ReclaimTo(s.chains[k], horizon), s.open[h];
      ReclaimToKeeps(c, s.next, horizon, at);
      hide Valid;
      hide ValidChain;
      hide ReclaimTo;
      if OnlyTombstone(d) {
        LoneTombstone(d, at);
      }
    }
  }

  lemma LoneTombstone(d: Chain, at: nat)
    requires OnlyTombstone(d) && d[0].stamp <= at
    ensures VisibleAt(d, at) == None
  {
  }

  /** What a later version makes unreadable from the horizon on: all of a chain before its last version there. */
  ghost predicate Outlived(c: Chain, i: nat, horizon: nat)
    requires i < |c|
  {
    exists j | i < j < |c| :: c[j].stamp <= horizon
  }

  /**
   * Reclamation drops exactly the outlived versions, and with them a key of which nothing but
   * a tombstone is left.
   */
  lemma ReclaimDrops(s: Store, horizon: nat, k: Key)
    requires Valid(s) && k in s.chains
    ensures var c, s' := s.chains[k], Reclaim(s, horizon);
      && (k !in s'.chains <==> c[|c| - 1].rec.None? && forall i | 0 <= i < |c| - 1 :: Outlived(c, i, horizon))
      && (k in s'.chains ==>
           exists n | 0 <= n < |c| :: s'.chains[k] == c[n..] && forall i | 0 <= i < |c| :: i < n <==> Outlived(c, i, horizon))
  {
    var c, n := s.chains[k], if LastAt(s.chains[k], horizon) < 0 then 0 else LastAt(s.chains[k], horizon);
    assert ReclaimTo(c, horizon) == c[n..];
    assert ValidChain(c, s.next) && c != [];
    forall i | 0 <= i < |c| ensures i < n <==> Outlived(c, i, horizon) {
      if i < n {
        assert c[n].stamp <= horizon;
      }
    }
    hide Outlived, LastAt;
    assert OnlyTombstone(c[n..]) <==> n == |c| - 1 && c[n].rec.None?;
    assert (forall i | 0 <= i < |c| - 1 :: Outlived(c, i, horizon)) <==> n == |c| - 1 by {
      if n < |c| - 1 { assert !Outlived(c, n, horizon); }
    }
  }

  lemma ReclaimKeeps(s: Store, horizon: nat)
    requires Valid(s) && SafeHorizon(s, horizon)
    ensures Valid(Reclaim(s, horizon))
    ensures Current(Reclaim(s, horizon)) == Current(s)
  {
    ReclaimValid(s, horizon);
    forall k ensures Lookup(Current(Reclaim(s, horizon)), k) == Lookup(Current(s), k) {
      ReclaimNewest(s, horizon, k);
      CurrentIs(s, k);
      CurrentIs(Reclaim(s, horizon), k);
    }
    hide *;
    SameMap(Current(Reclaim(s, horizon)), Current(s));
  }

  lemma ReclaimValid(s: Store, horizon: nat)
    requires Valid(s) && SafeHorizon(s, horizon)
    ensures Valid(Reclaim(s, horizon))
  {
    var s' := Reclaim(s, horizon);
    forall k | k in s'.chains
      ensures s'.chains[k] != [] && ValidChain(s'.chains[k], s'.next)
      ensures s'.chains[k] == s.chains[k] || s'.chains[k][0].stamp <= horizon
    {
      ReclaimToKeeps(s.chains[k], s.next, horizon, horizon);
    }
    hide ReclaimTo;
    hide ValidChain;
    hide OnlyTombstone;
  }

  lemma ReclaimNewest(s: Store, horizon: nat, k: Key)
    requires Valid(s)
    ensures Get(Reclaim(s, horizon), k) == Get(s, k)
  {
    if k in s.chains {
      ReclaimToKeeps(s.chains[k], s.next, horizon, horizon);
    }
  }

  /** What every open snapshot can rely on while the store moves from `s` to `s'`. */
  ghost predicate Advances(s: Store, s': Store) {
    && Valid(s')
    && s'.open == s.open
    && (forall k, h | h in s.open :: GetAt(s', k, s.open[h]) == GetAt(s, k, s.open[h]))
    && (forall k, h | h in s.open && TouchedSince(s, k, s.open[h]) :: TouchedSince(s', k, s.open[h]))
  }

  lemma AppendAdvances(s: Store, k: Key, rec: Option<Record>)
    requires Valid(s) && (rec.None? ==> ChainOf(s, k) != [])
    ensures Advances(s, Append(s, k, rec))
    ensures forall h | h in s.open :: TouchedSince(Append(s, k, rec), k, s.open[h])
  {
    var s' := Append(s, k, rec);
    AppendValid(s, k, rec);
    forall k', h | h in s.open
      ensures GetAt(s', k', s.open[h]) == GetAt(s, k', s.open[h])
      ensures TouchedSince(s', k', s.open[h]) <==> k' == k || TouchedSince(s, k', s.open[h])
    {
      hide *;
      AppendObserved(s, k, rec, k', s.open[h]);
    }
    hide GetAt;
    hide TouchedSince;
  }

  /** Snapshots opened before a write never see it, and always conflict with it. */
  lemma PutAdvances(s: Store, k: Key, r: Record)
    requires Valid(s)
    ensures Advances(s, Put(s, k, r))
    ensures Current(Put(s, k, r)) == Current(s)[k := r] && Put(s, k, r).next == s.next + 1
    ensures forall h | h in s.open :: TouchedSince(Put(s, k, r), k, s.open[h])
  {
    AppendAdvances(s, k, Some(r));
    AppendContents(s, k, Some(r));
  }

  lemma DeleteAdvances(s: Store, k: Key)
    requires Valid(s)
    ensures Advances(s, Delete(s, k))
    ensures Current(Delete(s, k)) == Current(s) - {k} && Delete(s, k).next == s.next + 1
    ensures k in Current(s) ==> forall h | h in s.open :: TouchedSince(Delete(s, k), k, s.open[h])
  {
    CurrentIs(s, k);
    if Get(s, k).Some? {
      AppendAdvances(s, k, None);
      AppendContents(s, k, None);
    }
  }

  lemma SettleAdvances(s: Store, sweep: bool)
    requires Valid(s)
    ensures Advances(s, Settle(s, sweep))
    ensures Current(Settle(s, sweep)) == Current(s)
  {
    if sweep {
      ReclaimKeeps(s, Horizon(s));
      forall k, h | h in s.open { ReclaimObserved(s, Horizon(s), k, h); }
    }
  }

  /** A snapshot just opened reads exactly the current contents, and conflicts with nothing yet. */
  lemma OpenSnapshotReads(s: Store, k: Key)
    requires Valid(s)
    ensures GetAt(s, k, s.next - 1) == Get(s, k)
    ensures !TouchedSince(s, k, s.next - 1)
  {
    if k in s.chains {
      assert s.chains[k][|s.chains[k]| - 1].stamp < s.next;
    }
  }

  /** A key untouched since a snapshot still holds what the snapshot reads. */
  lemma UntouchedIsCurrent(s: Store, k: Key, at: nat)
    requires !TouchedSince(s, k, at)
    ensures GetAt(s, k, at) == Lookup(Current(s), k)
  {
    CurrentIs(s, k);
  }

  // -- the heap itself -----------------------------------------------------

  class HeapStore {
    var chains: map<Key, Chain>
    var next: nat
    var open: map<nat, nat>

    ghost function S(): Store
      reads this
    {
      Store(chains, next, open)
    }

    constructor ()
      ensures S() == EMPTY && Valid(S())
    {
      chains, next, open := map[], 1, map[];
    }

    method Newest(k: Key) returns (r: Option<Record>)
      ensures r == Get(S(), k)
    {
      r := if k in chains && chains[k] != [] then chains[k][|chains[k]| - 1].rec else None;
    }

    /** Walks the chain backwards to the first version the snapshot sees. */
    method ReadAt(k: Key, at: nat) returns (r: Option<Record>)
      ensures r == GetAt(S(), k, at)
    {
      if k !in chains { return None; }
      var c := chains[k];
      var i := |c|;
      while i > 0 && c[i - 1].stamp > at
        invariant 0 <= i <= |c|
        invariant forall j :: i <= j < |c| ==> c[j].stamp > at
      {
        i := i - 1;
      }
      r := if i == 0 then None else c[i - 1].rec;
    }

    /** What a snapshot sees of a whole collection, by id. */
    method ScanAt(coll: string, at: nat) returns (rows: map<nat, Record>)
      ensures forall id :: Lookup(rows, id) == GetAt(S(), Key(coll, id), at)
    {
      rows := map[];
      var keys := ToSeq(chains.Keys);
      for i := 0 to |keys|
        invariant forall id :: Lookup(rows, id) == if Key(coll, id) in keys[..i] then GetAt(S(), Key(coll, id), at) else None
      {
        assert keys[..i + 1] == keys[..i] + [keys[i]] && keys[i] !in keys[..i];
        if keys[i].coll == coll {
          var row := ReadAt(keys[i], at);
          if row.Some? {
            rows := rows[keys[i].id := row.value];
          }
        }
      }
      assert keys[..|keys|] == keys;
    }

    method LatestWriteStamp(k: Key) returns (ts: Option<nat>)
      ensures ts == NewestStamp(ChainOf(S(), k))
    {
      ts := if k in chains && chains[k] != [] then Some(chains[k][|chains[k]| - 1].stamp) else None;
    }

    method Begin(handle: nat) returns (at: nat)
      requires Valid(S()) && handle !in open
      modifies this
      ensures Valid(S()) && S() == OpenSnapshot(old(S()), handle) && at == open[handle]
    {
      at := next - 1;
      open := open[handle := at];
    }

    method End(handle: nat)
      requires Valid(S())
      modifies this
      ensures Valid(S()) && S() == CloseSnapshot(old(S()), handle)
    {
      open := open - {handle};
    }

    method ApplyPut(k: Key, rec: Record) returns (ghost sweep: bool)
      requires Valid(S())
      modifies this
      ensures Valid(Put(old(S()), k, rec)) && Valid(S())
      ensures S() == Settle(Put(old(S()), k, rec), sweep)
    {
      ghost var s0 := S();
      PutAdvances(s0, k, rec);
      hide Valid;
      hide Advances;
      hide Settle;
      var c := if k in chains then chains[k] else [];
      chains := chains[k := c + [Version(next, Some(rec))]];
      next := next + 1;
      assert S() == Put(s0, k, rec);
      sweep := MaybeReclaim();
    }

    method ApplyDelete(k: Key) returns (ghost sweep: bool)
      requires Valid(S())
      modifies this
      ensures Valid(Delete(old(S()), k)) && Valid(S())
      ensures S() == Settle(Delete(old(S()), k), sweep)
    {
      ghost var s0 := S();
      DeleteAdvances(s0, k);
      hide Valid;
      hide Advances;
      hide Settle;
      var live := Newest(k);
      if live.Some? {
        chains := chains[k := chains[k] + [Version(next, None)]];
      }
      next := next + 1;
      assert S() == Delete(s0, k);
      sweep := MaybeReclaim();
    }

    /** Retention pressure is not counted here: either outcome may follow a write. */
    method MaybeReclaim() returns (ghost sweep: bool)
      requires Valid(S())
      modifies this
      ensures Valid(S()) && S() == Settle(old(S()), sweep)
    {
      SettleAdvances(S(), true);
      if * {
        var horizon := ReclaimHorizon();
        ReclaimAt(horizon);
        sweep := true;
      } else {
        sweep := false;
      }
    }

    method ReclaimHorizon() returns (horizon: nat)
      requires Valid(S())
      ensures horizon == Horizon(S())
    {
      horizon := next - 1;
      var rest := open.Keys;
      while rest != {}
        invariant rest <= open.Keys
        invariant horizon < next && forall h | h in open && h !in rest :: horizon <= open[h]
        invariant horizon == next - 1 || exists h :: h in open && open[h] == horizon
        decreases rest
      {
        var h :| h in rest;
        if open[h] < horizon { horizon := open[h]; }
        rest := rest - {h};
      }
    }

    method ReclaimAt(horizon: nat)
      requires Valid(S())
      modifies this`chains
      ensures S() == Reclaim(old(S()), horizon)
    {
      var kept: map<Key, Chain> := map[];
      var rest := chains.Keys;
      hide ReclaimTo;
      hide OnlyTombstone;
      while rest != {}
        invariant rest <= chains.Keys
        invariant chains == old(chains)
        invariant forall k | k in kept :: k in chains && k !in rest && kept[k] == ReclaimTo(chains[k], horizon)
        invariant forall k | k in chains && k !in rest :: k in kept <==> !OnlyTombstone(ReclaimTo(chains[k], horizon))
        decreases rest
      {
        var k :| k in rest;
        var d := ReclaimTo(chains[k], horizon);
        if !OnlyTombstone(d) { kept := kept[k := d]; }
        rest := rest - {k};
      }
      assert kept == ReclaimChains(chains, horizon);
      chains := kept;
    }
  }
}
