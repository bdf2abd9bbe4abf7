/**
 * Queries over partitions: each shard runs the scan and every filter of the
 * plan, the results are merged by record id, and the whole plan runs once more
 * over the merged rows.
 */
module Sharding {
  import opened Basics
  import opened Records
  import opened Queries
  import S = Sorting

  /** The remainder of the identity. */
  function ShardOf(id: nat, shards: nat): nat
    requires shards > 0
  {
    id % shards
  }

  function OwnedBy(i: nat, shards: nat): Row -> bool
    requires shards > 0
  {
    (row: Row) => ShardOf(row.id, shards) == i
  }

  /** One shard's slice of a table. */
  function Slice(table: seq<Row>, i: nat, shards: nat): seq<Row>
    requires shards > 0
  {
    S.Filter(OwnedBy(i, shards), table)
  }

  predicate Leaf(plan: Plan) { plan.Scan? || plan.GetById? || plan.GetByIds? }

  /** The part of a plan a shard runs: the scan and every filter, wherever it stands. */
  function Pushdown(plan: Plan): Plan {
    match plan
    case Filter(input, p) => Plan.Filter(Pushdown(input), p)
    case Project(input, _) => Pushdown(input)
    case Sort(input, _) => Pushdown(input)
    case Limit(input, _) => Pushdown(input)
    case Aggregate(input, _) => Pushdown(input)
    case _ => plan
  }

  /** Whether the plan is nothing but scan and filter. */
  predicate OnlyPushdown(plan: Plan) {
    Leaf(plan) || (plan.Filter? && OnlyPushdown(plan.input))
  }

  // -- merging -------------------------------------------------------------

  ghost predicate Runs(runs: seq<seq<Row>>) {
    && (forall i :: 0 <= i < |runs| ==> Ascending(runs[i]))
    && (forall i, j, r, q | 0 <= i < j < |runs| && r in runs[i] && q in runs[j] :: r.id != q.id)
  }

  /** The ascending sequence of exactly the rows of all runs. */
  ghost predicate IsMerge(runs: seq<seq<Row>>, out: seq<Row>) {
    && Ascending(out)
    && (forall r | r in out :: exists i :: 0 <= i < |runs| && r in runs[i])
    && (forall i, r | 0 <= i < |runs| && r in runs[i] :: r in out)
  }

  function Lengths(runs: seq<seq<Row>>): nat {
    if runs == [] then 0 else Lengths(runs[..|runs| - 1]) + |runs[|runs| - 1]|
  }

  function Total(cursors: seq<nat>): nat {
    if cursors == [] then 0 else Total(cursors[..|cursors| - 1]) + cursors[|cursors| - 1]
  }

  ghost predicate Within(runs: seq<seq<Row>>, cursors: seq<nat>) {
    |cursors| == |runs| && forall i :: 0 <= i < |runs| ==> cursors[i] <= |runs[i]|
  }

  lemma {:induction false} TotalStep(cursors: seq<nat>, i: nat)
    requires i < |cursors|
    ensures Total(cursors[i := cursors[i] + 1]) == Total(cursors) + 1
    decreases |cursors|
  {
    var n := |cursors| - 1;
    if i < n {
      TotalStep(cursors[..n], i);
      assert cursors[i := cursors[i] + 1][..n] == cursors[..n][i := cursors[i] + 1];
    } else {
      assert cursors[i := cursors[i] + 1][..n] == cursors[..n];
    }
  }

  lemma {:induction false} TotalZero(n: nat)
    ensures Total(seq(n, _ => 0)) == 0
  {
    if n > 0 {
      assert seq(n, _ => 0)[..n - 1] == seq(n - 1, _ => 0);
      TotalZero(n - 1);
    }
  }

  lemma {:induction false} AllTaken(runs: seq<seq<Row>>, cursors: seq<nat>)
    requires Within(runs, cursors)
    ensures Total(cursors) <= Lengths(runs)
    ensures Total(cursors) == Lengths(runs) ==> forall i :: 0 <= i < |runs| ==> cursors[i] == |runs[i]|
  {
    if runs != [] {
      var n := |runs| - 1;
      AllTaken(runs[..n], cursors[..n]);
    }
  }

  ghost predicate OnlyTaken(runs: seq<seq<Row>>, cursors: seq<nat>, out: seq<Row>)
    requires Within(runs, cursors)
  {
    forall r | r in out :: exists i :: 0 <= i < |runs| && r in runs[i][..cursors[i]]
  }

  ghost predicate AllTakenOut(runs: seq<seq<Row>>, cursors: seq<nat>, out: seq<Row>)
    requires Within(runs, cursors)
  {
    forall i, j | 0 <= i < |runs| && 0 <= j < cursors[i] :: runs[i][j] in out
  }

  ghost predicate Below(runs: seq<seq<Row>>, cursors: seq<nat>, out: seq<Row>)
    requires Within(runs, cursors)
  {
    forall r, i, j | r in out && 0 <= i < |runs| && cursors[i] <= j < |runs[i]| :: r.id < runs[i][j].id
  }

  /** Everything before the cursors is out, in order, and everything after is larger. */
  ghost predicate Merging(runs: seq<seq<Row>>, cursors: seq<nat>, out: seq<Row>) {
    && Within(runs, cursors)
    && Ascending(out)
    && OnlyTaken(runs, cursors, out)
    && AllTakenOut(runs, cursors, out)
    && Below(runs, cursors, out)
  }

  ghost predicate Smallest(runs: seq<seq<Row>>, cursors: seq<nat>, b: nat, n: nat)
    requires Within(runs, cursors) && n <= |runs|
  {
    && b < |runs| && cursors[b] < |runs[b]|
    && forall i | 0 <= i < n && cursors[i] < |runs[i]| :: runs[b][cursors[b]].id <= runs[i][cursors[i]].id
  }

  /** Taking the smallest head keeps a merge going. */
  lemma MergeTakes(runs: seq<seq<Row>>, cursors: seq<nat>, out: seq<Row>, b: nat)
    requires Runs(runs) && Merging(runs, cursors, out) && Smallest(runs, cursors, b, |runs|)
    ensures Merging(runs, cursors[b := cursors[b] + 1], out + [runs[b][cursors[b]]])
  {
    TakeOnly(runs, cursors, out, b);
    TakeOut(runs, cursors, out, b);
    TakeBelow(runs, cursors, out, b);
    TakeAscending(runs, cursors, out, b);
    hide OnlyTaken;
    hide AllTakenOut;
    hide Below;
    hide Ascending;
    hide Runs;
  }

  lemma TakeAscending(runs: seq<seq<Row>>, cursors: seq<nat>, out: seq<Row>, b: nat)
    requires Within(runs, cursors) && b < |runs| && cursors[b] < |runs[b]|
    requires Ascending(out) && Below(runs, cursors, out)
    ensures Ascending(out + [runs[b][cursors[b]]])
  {
    forall k | 0 <= k < |out| ensures out[k].id < runs[b][cursors[b]].id {
      assert out[k] in out;
    }
  }

  lemma TakeOnly(runs: seq<seq<Row>>, cursors: seq<nat>, out: seq<Row>, b: nat)
    requires Within(runs, cursors) && b < |runs| && cursors[b] < |runs[b]| && OnlyTaken(runs, cursors, out)
    ensures OnlyTaken(runs, cursors[b := cursors[b] + 1], out + [runs[b][cursors[b]]])
  {
    var next, out' := cursors[b := cursors[b] + 1], out + [runs[b][cursors[b]]];
    forall r | r in out' ensures exists i :: 0 <= i < |runs| && r in runs[i][..next[i]] {
      if r in out {
        var i :| 0 <= i < |runs| && r in runs[i][..cursors[i]];
        var j :| 0 <= j < cursors[i] && runs[i][j] == r;
        assert runs[i][..next[i]][j] == r;
      } else {
        assert runs[b][..next[b]][cursors[b]] == r;
      }
    }
  }

  lemma TakeOut(runs: seq<seq<Row>>, cursors: seq<nat>, out: seq<Row>, b: nat)
    requires Within(runs, cursors) && b < |runs| && cursors[b] < |runs[b]| && AllTakenOut(runs, cursors, out)
    ensures AllTakenOut(runs, cursors[b := cursors[b] + 1], out + [runs[b][cursors[b]]])
  {
    var next, out' := cursors[b := cursors[b] + 1], out + [runs[b][cursors[b]]];
    assert out'[|out|] == runs[b][cursors[b]];
    forall i, j | 0 <= i < |runs| && 0 <= j < next[i] ensures runs[i][j] in out' {
      if i != b || j != cursors[b] { assert runs[i][j] in out; }
    }
  }

  lemma TakeBelow(runs: seq<seq<Row>>, cursors: seq<nat>, out: seq<Row>, b: nat)
    requires Runs(runs) && Within(runs, cursors) && Below(runs, cursors, out) && Smallest(runs, cursors, b, |runs|)
    ensures Below(runs, cursors[b := cursors[b] + 1], out + [runs[b][cursors[b]]])
  {
    var row, next := runs[b][cursors[b]], cursors[b := cursors[b] + 1];
    assert forall i | 0 <= i < |runs| :: cursors[i] <= next[i] && (i == b ==> cursors[b] < next[i]);
    forall i, j | 0 <= i < |runs| && next[i] <= j < |runs[i]| ensures row.id < runs[i][j].id {
      if i != b {
        assert runs[i][cursors[i]].id <= runs[i][j].id;
        assert row in runs[b] && runs[i][cursors[i]] in runs[i];
      }
    }
  }

  lemma MergeStarts(runs: seq<seq<Row>>)
    ensures var cursors := seq(|runs|, _ => 0); Merging(runs, cursors, []) && Total(cursors) == 0
  {
    TotalZero(|runs|);
  }

  /** One row taken: the merge goes on, one row longer. */
  lemma MergeAdvances(runs: seq<seq<Row>>, cursors: seq<nat>, out: seq<Row>, b: nat)
    requires Runs(runs) && Merging(runs, cursors, out) && Smallest(runs, cursors, b, |runs|)
    ensures Merging(runs, cursors[b := cursors[b] + 1], out + [runs[b][cursors[b]]])
    ensures Total(cursors[b := cursors[b] + 1]) == Total(cursors) + 1
  {
    TotalStep(cursors, b);
    MergeTakes(runs, cursors, out, b);
    hide Merging, Runs, Total;
  }

  /** With every run exhausted, what is out is the merge. */
  lemma MergeEnds(runs: seq<seq<Row>>, cursors: seq<nat>, out: seq<Row>)
    requires Merging(runs, cursors, out)
    requires Total(cursors) == Lengths(runs) || forall i :: 0 <= i < |runs| ==> cursors[i] == |runs[i]|
    ensures IsMerge(runs, out)
  {
    AllTaken(runs, cursors);
    hide Below, Ascending, Total, Lengths;
    forall i, r | 0 <= i < |runs| && r in runs[i] ensures r in out {
      var j :| 0 <= j < |runs[i]| && runs[i][j] == r;
    }
    forall r | r in out ensures exists i :: 0 <= i < |runs| && r in runs[i] {
      var i :| 0 <= i < |runs| && r in runs[i][..cursors[i]];
      assert runs[i][..cursors[i]] == runs[i];
    }
  }

  lemma OneRun(runs: seq<seq<Row>>)
    requires Runs(runs) && |runs| <= 1
    ensures IsMerge(runs, if |runs| == 0 then [] else runs[0])
  {
  }

  /** The ordinary k-way merge. */
  method Merge(runs: seq<seq<Row>>) returns (out: seq<Row>)
    requires Runs(runs)
    ensures IsMerge(runs, out)
  {
    hide Runs, IsMerge, OnlyTaken, AllTakenOut, Below, Ascending, Lengths, Total, Smallest;
    if |runs| <= 1 {
      OneRun(runs);
      return if |runs| == 0 then [] else runs[0];
    }
    var cursors: seq<nat> := seq(|runs|, _ => 0);
    out := [];
    MergeStarts(runs);
    for taken := 0 to Lengths(runs)
      invariant Merging(runs, cursors, out) && Total(cursors) == taken
    {
      var b := SmallestHead(runs, cursors);
      if b == |runs| {
        MergeEnds(runs, cursors, out);
        return;
      }
      HeadThere(runs, cursors, b);
      MergeAdvances(runs, cursors, out, b);
      out := out + [runs[b][cursors[b]]];
      cursors := cursors[b := cursors[b] + 1];
    }
    MergeEnds(runs, cursors, out);
  }

  lemma HeadThere(runs: seq<seq<Row>>, cursors: seq<nat>, b: nat)
    requires Within(runs, cursors) && Smallest(runs, cursors, b, |runs|)
    ensures b < |runs| == |cursors| && cursors[b] < |runs[b]|
  {
  }

  /** The run whose next row has the least id, or `|runs|` when all are exhausted. */
  method SmallestHead(runs: seq<seq<Row>>, cursors: seq<nat>) returns (b: nat)
    requires Within(runs, cursors)
    ensures if b == |runs| then forall i :: 0 <= i < |runs| ==> cursors[i] == |runs[i]|
            else Smallest(runs, cursors, b, |runs|)
  {
    b := |runs|;
    for i := 0 to |runs|
      invariant if b == |runs| then forall k :: 0 <= k < i ==> cursors[k] == |runs[k]|
                else b < i && Smallest(runs, cursors, b, i)
    {
      if cursors[i] < |runs[i]| && (b == |runs| || runs[i][cursors[i]].id < runs[b][cursors[b]].id) {
        b := i;
      }
    }
  }

  lemma MergeUnique(runs: seq<seq<Row>>, a: seq<Row>, b: seq<Row>)
    requires IsMerge(runs, a) && IsMerge(runs, b)
    ensures a == b
  {
    AscendingUnique(a, b);
  }

  // -- what a sharded query answers ----------------------------------------

  /** Scan, filter and sort: every row passes through on its own. */
  predicate RowLocal(plan: Plan) {
    Leaf(plan) || ((plan.Filter? || plan.Sort?) && RowLocal(plan.input))
  }

  /** No Filter stands above a Limit, an Aggregate or a Project. */
  predicate Safe(plan: Plan) {
    match plan
    case Filter(input, _) => RowLocal(input)
    case Project(input, _) => Safe(input)
    case Sort(input, _) => Safe(input)
    case Limit(input, _) => Safe(input)
    case Aggregate(input, _) => Safe(input)
    case _ => true
  }

  /** What the pushed-down plan keeps of each row: the leaf's choice and every predicate of the plan. */
  function Keeps(plan: Plan): Row -> bool {
    match plan
    case Filter(input, p) => (row: Row) => Keeps(input)(row) && Passes(p)(row)
    case Project(input, _) => Keeps(input)
    case Sort(input, _) => Keeps(input)
    case Limit(input, _) => Keeps(input)
    case Aggregate(input, _) => Keeps(input)
    case _ => Reads(plan)
  }

  lemma {:induction false} PushdownFilters(cmp: Compare, plan: Plan, table: seq<Row>)
    ensures Eval(cmp, Pushdown(plan), table) == S.Filter(Keeps(plan), table)
    decreases plan
  {
    match plan
    case Filter(input, p) =>
      PushdownFilters(cmp, input, table);
      S.FilterTwice(Passes(p), Keeps(input), Keeps(plan), table);
    case Project(input, _) => PushdownFilters(cmp, input, table);
    case Sort(input, _) => PushdownFilters(cmp, input, table);
    case Limit(input, _) => PushdownFilters(cmp, input, table);
    case Aggregate(input, _) => PushdownFilters(cmp, input, table);
    case _ =>
  }

  /** What every shard answers to the pushed-down plan. */
  function PerShard(cmp: Compare, plan: Plan, table: seq<Row>, shards: nat): seq<seq<Row>>
    requires shards > 0
  {
    seq(shards, i requires 0 <= i < shards => Eval(cmp, Pushdown(plan), Slice(table, i, shards)))
  }

  /** Merging what the shards kept gives what one shard would have kept. */
  lemma ShardsMerge(cmp: Compare, plan: Plan, table: seq<Row>, shards: nat)
    requires shards > 0 && Ascending(table)
    ensures Runs(PerShard(cmp, plan, table, shards))
    ensures IsMerge(PerShard(cmp, plan, table, shards), S.Filter(Keeps(plan), table))
  {
    var runs, kept := PerShard(cmp, plan, table, shards), S.Filter(Keeps(plan), table);
    FilterAscending(Keeps(plan), table);
    S.FilterMembers(Keeps(plan), table);
    forall i | 0 <= i < shards
      ensures Ascending(runs[i])
      ensures forall r | r in runs[i] :: r in table && r.id % shards == i && Keeps(plan)(r)
      ensures forall r | r in table && r.id % shards == i && Keeps(plan)(r) :: r in runs[i]
    {
      PushdownFilters(cmp, plan, Slice(table, i, shards));
      FilterAscending(OwnedBy(i, shards), table);
      FilterAscending(Keeps(plan), Slice(table, i, shards));
      S.FilterMembers(OwnedBy(i, shards), table);
      S.FilterMembers(Keeps(plan), Slice(table, i, shards));
    }
    forall r | r in kept ensures exists i :: 0 <= i < |runs| && r in runs[i] {
      assert r in runs[r.id % shards];
    }
  }

  /** Every Sort of a row-local plan is of rows its keys order lawfully: those the filters below it keep. */
  ghost predicate Ordered(cmp: Compare, plan: Plan, table: seq<Row>)
    requires RowLocal(plan)
  {
    match plan
    case Filter(input, _) => Ordered(cmp, input, table)
    case Sort(input, keys) => Ordered(cmp, input, table) && S.LawfulOn(ByRow(cmp, keys), S.Among(S.Filter(Keeps(input), table)))
    case _ => true
  }

  /** The same of those Sorts of a safe plan that a Filter stands above; no other Sort matters. */
  ghost predicate FiltersOrdered(cmp: Compare, plan: Plan, table: seq<Row>)
    requires Safe(plan)
  {
    match plan
    case Filter(input, _) => Ordered(cmp, input, table)
    case Project(input, _) => FiltersOrdered(cmp, input, table)
    case Sort(input, _) => FiltersOrdered(cmp, input, table)
    case Limit(input, _) => FiltersOrdered(cmp, input, table)
    case Aggregate(input, _) => FiltersOrdered(cmp, input, table)
    case _ => true
  }

  /** A row-local plan commutes with filtering its table. */
  lemma {:induction false} RowLocalFilters(cmp: Compare, plan: Plan, q: Row -> bool, table: seq<Row>)
    requires RowLocal(plan) && Ordered(cmp, plan, table)
    ensures Eval(cmp, plan, S.Filter(q, table)) == S.Filter(q, Eval(cmp, plan, table))
    decreases plan
  {
    match plan
    case Filter(input, p) =>
      RowLocalFilters(cmp, input, q, table);
      Swap(Passes(p), q, Eval(cmp, input, table));
    case Sort(input, keys) =>
      RowLocalFilters(cmp, input, q, table);
      ReachLawful(cmp, input, keys, table);
      S.FilterSortAmong(ByRow(cmp, keys), q, Eval(cmp, input, table));
    case _ => Swap(Reads(plan), q, table);
  }

  /** What reaches a Sort is what the filters below it keep. */
  lemma ReachLawful(cmp: Compare, input: Plan, keys: seq<SortKey>, table: seq<Row>)
    requires RowLocal(input)
    ensures S.LawfulOn(ByRow(cmp, keys), S.Among(S.Filter(Keeps(input), table)))
      <==> S.LawfulOn(ByRow(cmp, keys), S.Among(Eval(cmp, input, table)))
  {
    RowLocalKeeps(cmp, input, table);
    S.FilterMembers(Keeps(input), table);
    hide Eval, Keeps, S.Filter, S.LawfulOn;
    S.SameLawful(ByRow(cmp, keys), S.Filter(Keeps(input), table), Eval(cmp, input, table));
  }

  lemma Swap(p: Row -> bool, q: Row -> bool, rows: seq<Row>)
    ensures S.Filter(p, S.Filter(q, rows)) == S.Filter(q, S.Filter(p, rows))
  {
    S.FilterTwice(p, q, (r: Row) => p(r) && q(r), rows);
  }

  /** A row-local plan yields exactly the rows its own filters keep. */
  lemma {:induction false} RowLocalKeeps(cmp: Compare, plan: Plan, table: seq<Row>)
    requires RowLocal(plan)
    ensures forall r :: r in Eval(cmp, plan, table) <==> r in table && Keeps(plan)(r)
    decreases plan
  {
    match plan
    case Filter(input, p) =>
      RowLocalKeeps(cmp, input, table);
      S.FilterMembers(Passes(p), Eval(cmp, input, table));
    case Sort(input, keys) =>
      RowLocalKeeps(cmp, input, table);
      S.SortMembers(ByRow(cmp, keys), Eval(cmp, input, table));
    case _ => S.FilterMembers(Reads(plan), table);
  }

  /** Running a safe plan again over the rows its own filters keep changes nothing, as long as filters stand above lawful sorts only. */
  lemma {:induction false} SafeRerun(cmp: Compare, plan: Plan, table: seq<Row>)
    requires Safe(plan) && FiltersOrdered(cmp, plan, table)
    ensures Eval(cmp, plan, S.Filter(Keeps(plan), table)) == Eval(cmp, plan, table)
    decreases plan
  {
    if plan.Filter? || Leaf(plan) {
      RowLocalFilters(cmp, plan, Keeps(plan), table);
      RowLocalKeeps(cmp, plan, table);
      S.FilterIdentity(Keeps(plan), Eval(cmp, plan, table));
    } else {
      SafeRerun(cmp, plan.input, table);
    }
  }

  /** The answer assembled from the shards: the owner's for a lookup by id, else merge and rerun. */
  ghost predicate ShardedAnswer(cmp: Compare, plan: Plan, table: seq<Row>, shards: nat, rows: seq<Row>)
    requires shards > 0
  {
    if plan.GetById? then rows == Eval(cmp, plan, Slice(table, ShardOf(plan.id, shards), shards))
    else
      exists merged :: IsMerge(PerShard(cmp, plan, table, shards), merged)
        && rows == if OnlyPushdown(plan) then merged else Eval(cmp, plan, merged)
  }

  /**
   * Partitioning never changes the answer to a safe plan whose filters stand above
   * lawful sorts only, for any shard count: the sharded rows are the unsharded rows,
   * in the same order.
   */
  lemma ShardingPreservesMeaning(cmp: Compare, plan: Plan, table: seq<Row>, shards: nat, rows: seq<Row>)
    requires shards > 0 && Ascending(table) && Safe(plan) && FiltersOrdered(cmp, plan, table)
    ensures ShardedAnswer(cmp, plan, table, shards, rows) <==> rows == Eval(cmp, plan, table)
  {
    if plan.GetById? {
      Swap(Reads(plan), OwnedBy(ShardOf(plan.id, shards), shards), table);
      S.FilterMembers(Reads(plan), table);
      S.FilterIdentity(OwnedBy(ShardOf(plan.id, shards), shards), S.Filter(Reads(plan), table));
    } else {
      ShardedIs(cmp, plan, table, shards, rows);
      if OnlyPushdown(plan) { OnlyPushdownIs(cmp, plan, table); } else { SafeRerun(cmp, plan, table); }
    }
  }

  /** For any plan, safe or not: the answer is the plan over the rows that all its filters keep. */
  lemma ShardedIs(cmp: Compare, plan: Plan, table: seq<Row>, shards: nat, rows: seq<Row>)
    requires shards > 0 && Ascending(table) && !plan.GetById?
    ensures ShardedAnswer(cmp, plan, table, shards, rows) <==>
      rows == if OnlyPushdown(plan) then S.Filter(Keeps(plan), table) else Eval(cmp, plan, S.Filter(Keeps(plan), table))
  {
    var runs, kept := PerShard(cmp, plan, table, shards), S.Filter(Keeps(plan), table);
    ShardsMerge(cmp, plan, table, shards);
    forall merged | IsMerge(runs, merged) ensures merged == kept {
      MergeUnique(runs, merged, kept);
    }
  }

  lemma {:induction false} OnlyPushdownIs(cmp: Compare, plan: Plan, table: seq<Row>)
    requires OnlyPushdown(plan)
    ensures Eval(cmp, plan, table) == S.Filter(Keeps(plan), table)
    decreases plan
  {
    if plan.Filter? {
      OnlyPushdownIs(cmp, plan.input, table);
      S.FilterTwice(Passes(plan.p), Keeps(plan.input), Keeps(plan), table);
    }
  }

  // -- plans that are not safe ---------------------------------------------

  lemma {:induction false} FilterFull<T>(p: T -> bool, rows: seq<T>)
    ensures |S.Filter(p, rows)| == |rows| <==> forall r | r in rows :: p(r)
  {
    if rows != [] {
      var n := |rows| - 1;
      FilterFull(p, rows[..n]);
      assert rows == rows[..n] + [rows[n]];
    }
  }

  lemma FilterEmpty(p: Row -> bool, rows: seq<Row>)
    ensures S.Filter(p, rows) == [] <==> forall r | r in rows :: !p(r)
  {
    S.FilterMembers(p, rows);
    if S.Filter(p, rows) != [] { assert S.Filter(p, rows)[0] in S.Filter(p, rows); }
  }

  /** The rows a central run starts from, when one more filter has been pushed below it. */
  lemma PushedThrough(cmp: Compare, input: Plan, above: Plan, p: Record -> Truth, table: seq<Row>)
    requires RowLocal(input) && Ordered(cmp, input, table)
    requires !Leaf(above) && !above.Filter? && above.input == input
    ensures Eval(cmp, input, S.Filter(Keeps(Plan.Filter(above, p)), table)) == S.Filter(Passes(p), Eval(cmp, input, table))
  {
    var keeps, rows := Keeps(Plan.Filter(above, p)), Eval(cmp, input, table);
    assert Keeps(above) == Keeps(input);
    assert forall r: Row :: keeps(r) <==> Keeps(input)(r) && Passes(p)(r);
    RowLocalFilters(cmp, input, keeps, table);
    RowLocalKeeps(cmp, input, table);
    hide Keeps;
    S.FilterTwice(Passes(p), Keeps(input), keeps, rows);
    S.FilterIdentity(Keeps(input), rows);
  }

  /** A window taken after filtering against filtering the window. */
  lemma WindowFiltered(q: Row -> bool, rows: seq<Row>, n: nat)
    ensures S.Filter(q, S.Take(S.Filter(q, rows), n)) == S.Take(S.Filter(q, rows), n)
    ensures S.Take(S.Filter(q, rows), n) == S.Filter(q, S.Take(rows, n)) <==>
      || |rows| <= n
      || (forall r | r in rows[..n] :: q(r))
      || (forall r | r in rows[n..] :: !q(r))
  {
    hide S.Filter;
    TakenPass(q, rows, n);
    if |rows| <= n {
      assert S.Take(rows, n) == rows;
    } else {
      var head, tail := rows[..n], rows[n..];
      assert S.Take(rows, n) == head;
      assert rows == head + tail;
      hide *;
      WindowSplit(q, head, tail);
    }
  }

  lemma TakenPass(q: Row -> bool, rows: seq<Row>, n: nat)
    ensures S.Filter(q, S.Take(S.Filter(q, rows), n)) == S.Take(S.Filter(q, rows), n)
    ensures |rows| <= n ==> S.Take(S.Filter(q, rows), n) == S.Filter(q, rows)
  {
    hide S.Filter;
    S.FilterMembers(q, rows);
    S.FilterIdentity(q, S.Take(S.Filter(q, rows), n));
  }

  lemma WindowSplit(q: Row -> bool, head: seq<Row>, tail: seq<Row>)
    ensures S.Take(S.Filter(q, head + tail), |head|) == S.Filter(q, head) <==>
      (forall r | r in head :: q(r)) || (forall r | r in tail :: !q(r))
  {
    hide S.Filter;
    S.FilterSplit(q, head, tail);
    FilterFull(q, head);
    FilterEmpty(q, tail);
    TakeSplit(S.Filter(q, head), S.Filter(q, tail), |head|);
  }

  lemma TakeSplit(early: seq<Row>, late: seq<Row>, n: nat)
    requires |early| <= n
    ensures S.Take(early + late, n) == early <==> |early| == n || late == []
  {
    if |early| < n && late != [] {
      assert |S.Take(early + late, n)| > |early|;
    } else if |early| == n {
      assert (early + late)[..n] == early;
    } else {
      assert early + late == early;
    }
  }

  /**
   * A Filter above a Limit keeps its meaning exactly when the window it was to
   * look at passes whole, or nothing beyond that window passes at all.
   */
  lemma FilterOverLimit(cmp: Compare, input: Plan, n: nat, p: Record -> Truth, table: seq<Row>, shards: nat)
    requires shards > 0 && Ascending(table) && RowLocal(input) && Ordered(cmp, input, table)
    ensures var plan, rows := Plan.Filter(Limit(input, n), p), Eval(cmp, input, table);
      ShardedAnswer(cmp, plan, table, shards, Eval(cmp, plan, table)) <==>
        || |rows| <= n
        || (forall r | r in rows[..n] :: Passes(p)(r))
        || (forall r | r in rows[n..] :: !Passes(p)(r))
  {
    var above := Limit(input, n);
    var plan, rows := Plan.Filter(above, p), Eval(cmp, input, table);
    ShardedIs(cmp, plan, table, shards, Eval(cmp, plan, table));
    PushedThrough(cmp, input, above, p, table);
    WindowFiltered(Passes(p), rows, n);
    LimitEval(cmp, input, n, p, table);
    LimitEval(cmp, input, n, p, S.Filter(Keeps(plan), table));
    hide *;
  }

  lemma LimitEval(cmp: Compare, input: Plan, n: nat, p: Record -> Truth, table: seq<Row>)
    ensures Eval(cmp, Plan.Filter(Limit(input, n), p), table) == S.Filter(Passes(p), S.Take(Eval(cmp, input, table), n))
  {
    hide S.Filter, S.Take;
    assert Eval(cmp, Limit(input, n), table) == S.Take(Eval(cmp, input, table), n);
  }

  lemma ProjectEval(cmp: Compare, input: Plan, fields: seq<string>, p: Record -> Truth, table: seq<Row>)
    ensures Eval(cmp, Plan.Filter(Project(input, fields), p), table) == S.Filter(Passes(p), Projected(Eval(cmp, input, table), fields))
  {
    hide S.Filter, Projected;
    assert Eval(cmp, Project(input, fields), table) == Projected(Eval(cmp, input, table), fields);
  }

  lemma {:induction false} FilterProjected(p: Record -> Truth, rows: seq<Row>, fields: seq<string>, q: Row -> bool)
    requires forall r: Row :: q(r) <==> p(Kept(r.rec, fields)) == True
    ensures S.Filter(Passes(p), Projected(rows, fields)) == Projected(S.Filter(q, rows), fields)
  {
    if rows != [] {
      var n := |rows| - 1;
      FilterProjected(p, rows[..n], fields, q);
      assert Projected(rows, fields)[..n] == Projected(rows[..n], fields);
    }
  }

  lemma {:induction false} FilterNarrower(q: Row -> bool, both: Row -> bool, rows: seq<Row>)
    requires forall r: Row :: both(r) ==> q(r)
    ensures |S.Filter(both, rows)| <= |S.Filter(q, rows)|
    ensures |S.Filter(both, rows)| == |S.Filter(q, rows)| <==> forall r | r in rows && q(r) :: both(r)
    ensures (forall r | r in rows && q(r) :: both(r)) ==> S.Filter(both, rows) == S.Filter(q, rows)
  {
    if rows != [] {
      var n := |rows| - 1;
      FilterNarrower(q, both, rows[..n]);
      assert rows == rows[..n] + [rows[n]];
    }
  }

  /**
   * A Filter above a Project keeps its meaning exactly when no row passes only
   * because the projection hid something.
   */
  lemma FilterOverProject(
      cmp: Compare, input: Plan, fields: seq<string>, p: Record -> Truth, table: seq<Row>, shards: nat)
    requires shards > 0 && Ascending(table) && RowLocal(input) && Ordered(cmp, input, table)
    ensures var plan, rows := Plan.Filter(Project(input, fields), p), Eval(cmp, input, table);
      ShardedAnswer(cmp, plan, table, shards, Eval(cmp, plan, table)) <==>
        forall r | r in rows && p(Kept(r.rec, fields)) == True :: p(r.rec) == True
  {
    var above := Project(input, fields);
    var plan, rows := Plan.Filter(above, p), Eval(cmp, input, table);
    ShardedIs(cmp, plan, table, shards, Eval(cmp, plan, table));
    PushedThrough(cmp, input, above, p, table);
    ProjectEval(cmp, input, fields, p, table);
    ProjectEval(cmp, input, fields, p, S.Filter(Keeps(plan), table));
    HiddenByProjection(p, rows, fields);
    hide *;
  }

  lemma HiddenByProjection(p: Record -> Truth, rows: seq<Row>, fields: seq<string>)
    ensures S.Filter(Passes(p), Projected(S.Filter(Passes(p), rows), fields))
      == S.Filter(Passes(p), Projected(rows, fields))
      <==> forall r | r in rows && p(Kept(r.rec, fields)) == True :: p(r.rec) == True
  {
    var shown := (r: Row) => p(Kept(r.rec, fields)) == True;
    var both := (r: Row) => shown(r) && Passes(p)(r);
    FilterProjected(p, rows, fields, shown);
    FilterProjected(p, S.Filter(Passes(p), rows), fields, shown);
    S.FilterTwice(shown, Passes(p), both, rows);
    FilterNarrower(shown, both, rows);
    hide S.Filter;
  }
}
