/** Ids handed out by sharded stores, each from its own residue class, without any coordination. */
module Allocation {
  import opened Basics

  predicate Owns(id: nat, shard: nat, shards: nat)
    requires shards > 0
  {
    id % shards == shard
  }

  /** The next id for a shard whose own counter stands at `raw`. */
  function NextId(raw: nat, shard: nat, shards: nat): nat
    requires shards > 0
  {
    var ahead := if raw < shard then 0 else raw - shard;
    (ahead + shards - 1) / shards * shards + shard
  }

  /** It is the least id of the shard's residue class that the counter has not passed. */
  lemma NextIdIsLeast(raw: nat, shard: nat, shards: nat, other: nat)
    requires shard < shards
    ensures NextId(raw, shard, shards) >= raw && Owns(NextId(raw, shard, shards), shard, shards)
    ensures other >= raw && Owns(other, shard, shards) ==> other >= NextId(raw, shard, shards)
  {
    var ahead := if raw < shard then 0 else raw - shard;
    var round := (ahead + shards - 1) / shards;
    RoundUp(ahead, shards, other / shards);
    Residue(round, shard, shards);
    assert other == other / shards * shards + other % shards;
    Times(round, other / shards, shards);
  }

  /** Rounding up to a multiple: the first one not below `a`. */
  lemma RoundUp(a: nat, n: nat, k: nat)
    requires n > 0
    ensures var q := (a + n - 1) / n; q * n >= a && (k * n >= a ==> k >= q)
  {
    var q := (a + n - 1) / n;
    assert a + n - 1 == q * n + (a + n - 1) % n;
    if k < q {
      Times(k + 1, q, n);
      assert (k + 1) * n == k * n + n;
    }
  }

  lemma Times(a: nat, b: nat, n: nat)
    ensures a <= b ==> a * n <= b * n
  {
    assert a <= b ==> (b - a) * n >= 0;
  }

  lemma Residue(k: nat, r: nat, n: nat)
    requires r < n
    ensures (k * n + r) % n == r
  {
    var q, m := (k * n + r) / n, (k * n + r) % n;
    assert k * n + r == q * n + m;
    assert (q - k) * n == q * n - k * n;
    assert q - k >= 1 ==> (q - k - 1) * n >= 0;
    assert q - k <= -1 ==> (k - q - 1) * n >= 0;
  }

  /** One shard: the ids it has ever stored, and the counter every write pushes past its id. */
  datatype Shard = Shard(stored: set<nat>, next: nat)

  // -- gaps ----------------------------------------------------------------

  ghost predicate Behind(s: Shard, i: nat, n: nat)
    requires n > 0
  {
    forall id | id in s.stored :: Owns(id, i, n) && id < s.next
  }

  /** Every id of the shard's class that comes before the one it would hand out is stored. */
  ghost predicate Dense(s: Shard, i: nat, n: nat)
    requires n > 0
  {
    forall id: nat | Owns(id, i, n) && id < NextId(s.next, i, n) :: id in s.stored
  }

  ghost predicate LeastUnused(s: Shard, i: nat, n: nat, id: nat)
    requires n > 0
  {
    Owns(id, i, n) && id !in s.stored && forall other: nat | Owns(other, i, n) && other !in s.stored :: id <= other
  }

  function Stored(s: Shard, id: nat): Shard {
    Shard(s.stored + {id}, if s.next <= id then id + 1 else s.next)
  }

  /** The id handed out is the least of its class never used exactly when the shard has no gap. */
  lemma NextIsLeastUnused(s: Shard, i: nat, n: nat)
    requires i < n && Behind(s, i, n)
    ensures LeastUnused(s, i, n, NextId(s.next, i, n)) <==> Dense(s, i, n)
  {
    NextIdIsLeast(s.next, i, n, 0);
    hide NextId, Owns;
  }

  lemma NextAfter(id: nat, i: nat, n: nat, other: nat)
    requires i < n && Owns(id, i, n)
    ensures Owns(other, i, n) && other < NextId(id + 1, i, n) ==> other <= id
    ensures id < NextId(id + 1, i, n)
  {
    NextIdIsLeast(id + 1, i, n, other);
  }

  /** Writing an id of the shard's own keeps it free of gaps exactly when it is no further than the one due next. */
  lemma StoreKeepsDense(s: Shard, i: nat, n: nat, id: nat)
    requires i < n && Behind(s, i, n) && Dense(s, i, n) && Owns(id, i, n)
    ensures Behind(Stored(s, id), i, n)
    ensures Dense(Stored(s, id), i, n) <==> id <= NextId(s.next, i, n)
  {
    var due, s' := NextId(s.next, i, n), Stored(s, id);
    NextIdIsLeast(s.next, i, n, id);
    NextIdIsLeast(s.next, i, n, due);
    NextAfter(id, i, n, due);
    if id <= due {
      forall other: nat | Owns(other, i, n) && other < NextId(s'.next, i, n) ensures other in s'.stored {
        NextAfter(id, i, n, other);
      }
    } else {
      hide NextId, Owns;
      assert due !in s'.stored;
    }
  }

  class ShardedIds {
    var shards: seq<Shard>
    var turn: nat

    /** Every id ever stored on a shard is its own, and behind its counter. */
    ghost predicate Valid()
      reads this
    {
      && shards != []
      && forall i | 0 <= i < |shards| :: Behind(shards[i], i, |shards|)
    }

    constructor (n: nat)
      requires n > 0
      ensures Valid() && |shards| == n && forall i :: 0 <= i < n ==> shards[i] == Shard({}, 0)
    {
      shards := seq(n, _ => Shard({}, 0));
      turn := 0;
    }

    /** A write that lands, with an id the caller chose. */
    method Store(id: nat)
      requires Valid()
      modifies this`shards
      ensures Valid() && |shards| == old(|shards|)
      ensures var i := id % |shards|;
        shards == old(shards)[i := Stored(old(shards)[i], id)]
    {
      var i := id % |shards|;
      var s := shards[i];
      shards := shards[i := Shard(s.stored + {id}, if s.next <= id then id + 1 else s.next)];
    }

    /**
     * Round-robin: the chosen shard's next id, never stored anywhere before and the least
     * of its class past every id stored there. A write the shard refuses uses up nothing but the turn.
     */
    method InsertAuto(accepted: bool) returns (r: Option<nat>)
      requires Valid()
      modifies this
      ensures Valid() && |shards| == old(|shards|) && turn == old(turn) + 1
      ensures var i := old(turn) % old(|shards|);
        var id := NextId(old(shards)[i].next, i, old(|shards|));
        && (forall j | 0 <= j < old(|shards|) :: id !in old(shards)[j].stored)
        && r == (if accepted then Some(id) else None)
        && shards == if accepted then old(shards)[i := Stored(old(shards)[i], id)] else old(shards)
    {
      var n := |shards|;
      var i := turn % n;
      turn := turn + 1;
      var id := NextId(shards[i].next, i, n);
      NextIdIsLeast(shards[i].next, i, n, 0);
      if !accepted {
        return None;
      }
      Store(id);
      r := Some(id);
    }
  }
}
