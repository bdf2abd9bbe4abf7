/**
 * A filter above an aggregate, pushed below it as well: what becomes of the
 * answer when the filter reads the grouping, and when it reads an output.
 */
module GroupFilters {
  import opened Basics
  import opened Varint
  import opened Floats
  import opened Records
  import opened Queries
  import opened Sharding
  import A = Aggregates
  import S = Sorting

  // -- a filter above an aggregate -----------------------------------------

  /** A predicate that decides alike for all records of a group. */
  ghost predicate ReadsOnlyGroups(d: A.Def, p: Record -> Truth) {
    forall a: Record, b: Record :: A.KeyOf(d, a) == A.KeyOf(d, b) ==> (p(a) == True <==> p(b) == True)
  }

  function Definite(p: Record -> Truth): Record -> bool {
    (rec: Record) => p(rec) == True
  }

  /** Whether a group passes: the predicate on a record with nothing but the group's key. */
  function KeyPasses(d: A.Def, p: Record -> Truth): A.GroupKey -> bool {
    (k: A.GroupKey) => |k| == |d.groupBy| && p(A.SetAll(map[], d.groupBy, k)) == True
  }

  /** An answer row is of the group it answers for. */
  lemma KeyOfAnswer(d: A.Def, rec: Record, names: seq<string>, outs: seq<Cell>)
    requires A.Canonical(d, A.KeyOf(d, rec)) && |names| == |outs| && forall f | f in names :: f !in d.groupBy
    ensures A.KeyOf(d, A.SetAll(A.SetAll(map[], d.groupBy, A.KeyOf(d, rec)), names, outs)) == A.KeyOf(d, rec)
  {
    var k := A.KeyOf(d, rec);
    var keyed := A.SetAll(map[], d.groupBy, k);
    var shown := A.SetAll(keyed, names, outs);
    forall i | 0 <= i < |d.groupBy| ensures A.KeyOf(d, shown)[i] == k[i] {
      var f := d.groupBy[i];
      A.SetOther(keyed, names, outs, f);
      A.SetOwn(map[], d.groupBy, k, (g: string) => A.Canon(d, A.CellOf(rec, g)), f);
      assert Lookup(shown, f) == Some(k[i]);
    }
  }

  lemma PassesByKey(d: A.Def, p: Record -> Truth, rec: Record)
    requires A.Canonical(d, A.KeyOf(d, rec)) && ReadsOnlyGroups(d, p)
    ensures Definite(p)(rec) <==> KeyPasses(d, p)(A.KeyOf(d, rec))
  {
    KeyOfAnswer(d, rec, [], []);
    hide A.KeyOf;
    assert A.SetAll(A.SetAll(map[], d.groupBy, A.KeyOf(d, rec)), [], []) == A.SetAll(map[], d.groupBy, A.KeyOf(d, rec));
  }

  lemma SettledFront(d: A.Def, rows: seq<Record>)
    requires A.Settled(d, rows) && rows != []
    ensures A.Settled(d, rows[..|rows| - 1]) && A.Canonical(d, A.KeyOf(d, rows[|rows| - 1]))
  {
    hide A.Canonical, A.KeyOf;
    assert rows[|rows| - 1] in rows;
  }

  lemma {:induction false} MetFiltered(d: A.Def, p: Record -> Truth, rows: seq<Record>)
    requires A.Settled(d, rows) && ReadsOnlyGroups(d, p)
    ensures A.Met(d, S.Filter(Definite(p), rows)) == S.Filter(KeyPasses(d, p), A.Met(d, rows))
  {
    hide *;
    if rows == [] {
      A.NoneMet(d);
      S.FilterNone(Definite(p));
      S.FilterNone(KeyPasses(d, p));
    } else {
      var n, rec := |rows| - 1, rows[|rows| - 1];
      SettledFront(d, rows);
      MetFiltered(d, p, rows[..n]);
      PassesByKey(d, p, rec);
      S.FilterMembers(KeyPasses(d, p), A.Met(d, rows[..n]));
      S.FilterNext(KeyPasses(d, p), A.Met(d, rows[..n]), A.KeyOf(d, rec));
      S.FilterNext(Definite(p), rows[..n], rec);
      A.MetNext(d, rows[..n], rec);
      A.MetNext(d, S.Filter(Definite(p), rows[..n]), rec);
      assert rows == rows[..n] + [rec];
    }
  }

  /** Passing groups are scanned as before. */
  lemma {:induction false} ScanFiltered(d: A.Def, p: Record -> Truth, rows: seq<Record>, k: A.GroupKey)
    requires A.Settled(d, rows) && ReadsOnlyGroups(d, p) && KeyPasses(d, p)(k)
    ensures A.AccsAt(d, A.Scan(d, S.Filter(Definite(p), rows)), k) == A.AccsAt(d, A.Scan(d, rows), k)
    ensures k in A.Scan(d, S.Filter(Definite(p), rows)) <==> k in A.Scan(d, rows)
  {
    hide A.Canonical, A.Settled, ReadsOnlyGroups, Definite, KeyPasses, A.KeyOf, A.ScanAll, A.Scan, S.Filter;
    if rows == [] {
      S.FilterNone(Definite(p));
    } else {
      var n, rec := |rows| - 1, rows[|rows| - 1];
      SettledFront(d, rows);
      ScanFiltered(d, p, rows[..n], k);
      PassesByKey(d, p, rec);
      S.FilterNext(Definite(p), rows[..n], rec);
      A.ScanNext(d, rows[..n], rec);
      A.ScanNext(d, S.Filter(Definite(p), rows[..n]), rec);
      assert rows == rows[..n] + [rec];
    }
  }

  lemma {:induction false} RecsFiltered(p: Record -> Truth, rows: seq<Row>)
    ensures A.Recs(S.Filter(Passes(p), rows)) == S.Filter(Definite(p), A.Recs(rows))
  {
    if rows != [] {
      var n := |rows| - 1;
      RecsFiltered(p, rows[..n]);
      assert A.Recs(rows)[..n] == A.Recs(rows[..n]);
    }
  }

  // -- numbering what passes -----------------------------------------------

  function Numbered(keys: seq<A.GroupKey>, shown: A.GroupKey -> Record): (rows: seq<Row>)
    ensures |rows| == |keys| && forall i :: 0 <= i < |rows| ==> rows[i] == Row(i, shown(keys[i]))
  {
    seq(|keys|, i requires 0 <= i < |keys| => Row(i, shown(keys[i])))
  }

  /** Everything that passes comes before everything that does not. */
  predicate InitialRun(q: A.GroupKey -> bool, keys: seq<A.GroupKey>) {
    forall i, j | 0 <= i < j < |keys| :: q(keys[j]) ==> q(keys[i])
  }

  lemma InitialRunNext(q: A.GroupKey -> bool, keys: seq<A.GroupKey>, k: A.GroupKey)
    ensures InitialRun(q, keys + [k]) <==> InitialRun(q, keys) && (q(k) ==> forall x | x in keys :: q(x))
  {
    var all := keys + [k];
    if InitialRun(q, all) {
      forall i, j | 0 <= i < j < |keys| ensures q(keys[j]) ==> q(keys[i]) {
        assert all[i] == keys[i] && all[j] == keys[j];
      }
      forall x | x in keys && q(k) ensures q(x) {
        var i :| 0 <= i < |keys| && keys[i] == x;
        assert all[i] == x && all[|keys|] == k;
      }
    }
  }

  /** Filtering numbered rows keeps the records of numbering what is filtered, and the numbers of an initial run. */
  lemma {:induction false} NumberedFiltered(
      keys: seq<A.GroupKey>, shown: A.GroupKey -> Record, q: A.GroupKey -> bool, pass: Row -> bool)
    requires forall i: nat, k | k in keys :: pass(Row(i, shown(k))) <==> q(k)
    ensures var late, early := S.Filter(pass, Numbered(keys, shown)), Numbered(S.Filter(q, keys), shown);
      A.Recs(late) == A.Recs(early) && (late == early <==> InitialRun(q, keys))
  {
    if keys != [] {
      var n := |keys| - 1;
      var front, k := keys[..n], keys[n];
      assert keys == front + [k];
      assert k in keys && forall x | x in front :: x in keys;
      NumberedFiltered(front, shown, q, pass);
      NumberedNext(front, shown, k);
      hide *;
      InitialRunNext(q, front, k);
      FilterFull(q, front);
      S.FilterNext(q, front, k);
      S.FilterNext(pass, Numbered(front, shown), Row(n, shown(k)));
      LastNumbered(S.Filter(pass, Numbered(front, shown)), S.Filter(q, front), shown, k, n);
    }
  }

  lemma NumberedNext(keys: seq<A.GroupKey>, shown: A.GroupKey -> Record, k: A.GroupKey)
    ensures Numbered(keys + [k], shown) == Numbered(keys, shown) + [Row(|keys|, shown(k))]
  {
  }

  lemma LastNumbered(late: seq<Row>, kept: seq<A.GroupKey>, shown: A.GroupKey -> Record, k: A.GroupKey, n: nat)
    requires A.Recs(late) == A.Recs(Numbered(kept, shown))
    ensures Numbered(kept + [k], shown) == Numbered(kept, shown) + [Row(|kept|, shown(k))]
    ensures A.Recs(late + [Row(n, shown(k))]) == A.Recs(Numbered(kept + [k], shown))
    ensures late + [Row(n, shown(k))] == Numbered(kept + [k], shown) <==> late == Numbered(kept, shown) && |kept| == n
  {
    var early := Numbered(kept, shown);
    assert |late| == |A.Recs(late)| == |early|;
    var x, y := late + [Row(n, shown(k))], early + [Row(|kept|, shown(k))];
    assert Numbered(kept + [k], shown) == y;
    if x == y {
      assert late == x[..|late|] == y[..|late|] == early;
      assert x[|late|] == y[|late|];
    }
  }

  // -- the aggregate over what passes --------------------------------------

  function ShownBy(d: A.Def, rows: seq<Record>): A.GroupKey -> Record {
    var answer := A.AnswerOf(d, A.Scan(d, rows));
    (k: A.GroupKey) => A.RenderedAt(d, k, answer)
  }

  lemma AnswerIsNumbered(d: A.Def, rows: seq<Record>)
    ensures A.AnswerRows(d, rows) == Numbered(A.ShownKeys(d, rows), ShownBy(d, rows))
  {
    hide A.ShownKeys, A.AnswerOf, A.Scan, A.RenderedAt;
  }

  /** A shown group is rendered under its own key, so its answer row passes when its records do. */
  lemma ShownPasses(d: A.Def, p: Record -> Truth, rows: seq<Record>, k: A.GroupKey)
    requires A.Settled(d, rows) && ReadsOnlyGroups(d, p) && A.OwnNames(d) && k in A.ShownKeys(d, rows)
    ensures Definite(p)(ShownBy(d, rows)(k)) <==> KeyPasses(d, p)(k)
  {
    ShownKey(d, rows, k);
    PassesByKey(d, p, ShownBy(d, rows)(k));
    hide *;
  }

  lemma ShownKey(d: A.Def, rows: seq<Record>, k: A.GroupKey)
    requires A.Settled(d, rows) && A.OwnNames(d) && k in A.ShownKeys(d, rows)
    ensures A.KeyOf(d, ShownBy(d, rows)(k)) == k && A.Canonical(d, k)
  {
    if d.groupBy == [] {
      A.Ungrouped(d, rows);
      assert A.KeyOf(d, ShownBy(d, rows)(k)) == [];
    } else {
      var met := A.Met(d, rows);
      S.SortMembers(A.ByKey(d.cmp), met);
      A.MetIs(d, rows);
      A.MetFrom(d, rows, k);
      var rec :| rec in rows && A.KeyOf(d, rec) == k;
      var answer := A.AnswerOf(d, A.Scan(d, rows));
      hide A.KeyOf, A.Canonical, A.Met, A.Scan, A.Outs, S.Sort;
      assert k in answer;
      RenderedKey(d, rec, answer[k]);
    }
  }

  lemma RenderedKey(d: A.Def, rec: Record, outs: seq<Cell>)
    requires A.Canonical(d, A.KeyOf(d, rec)) && A.OwnNames(d) && |outs| == |d.aggs|
    ensures A.KeyOf(d, A.Rendered(d, A.KeyOf(d, rec), outs)) == A.KeyOf(d, rec)
  {
    hide A.KeyOf, A.Canonical;
    assert forall f | f in A.Outputs(d) :: f !in d.groupBy;
    KeyOfAnswer(d, rec, A.Outputs(d), outs);
  }

  /** The groups left are those that pass, in the same order. */
  lemma KeysFiltered(d: A.Def, p: Record -> Truth, rows: seq<Record>)
    requires A.Faithful(d, rows) && ReadsOnlyGroups(d, p) && d.groupBy != []
    ensures A.ShownKeys(d, S.Filter(Definite(p), rows)) == S.Filter(KeyPasses(d, p), A.ShownKeys(d, rows))
  {
    A.FaithfulKeys(d, rows);
    MetFiltered(d, p, rows);
    S.FilterSortAmong(A.ByKey(d.cmp), KeyPasses(d, p), A.Met(d, rows));
    hide S.Filter, S.Sort, A.Met, KeyPasses, Definite, A.Faithful, S.LawfulOn, A.Settled, ReadsOnlyGroups;
  }

  lemma ShownFiltered(d: A.Def, p: Record -> Truth, rows: seq<Record>, k: A.GroupKey)
    requires A.Settled(d, rows) && ReadsOnlyGroups(d, p) && d.groupBy != [] && KeyPasses(d, p)(k)
    ensures ShownBy(d, S.Filter(Definite(p), rows))(k) == ShownBy(d, rows)(k)
  {
    ScanFiltered(d, p, rows, k);
    hide A.Scan, S.Filter, A.Settled, ReadsOnlyGroups, KeyPasses, A.Outs, A.Rendered;
  }

  /** Aggregating the rows that pass and numbering the passing groups: the same records. */
  lemma GroupedFiltered(d: A.Def, p: Record -> Truth, rows: seq<Record>)
    requires A.Faithful(d, rows) && ReadsOnlyGroups(d, p) && A.OwnNames(d) && d.groupBy != []
    ensures var again := A.AnswerRows(d, S.Filter(Definite(p), rows));
      && again == Numbered(S.Filter(KeyPasses(d, p), A.ShownKeys(d, rows)), ShownBy(d, rows))
      && S.Filter(Passes(p), again) == again
  {
    A.FaithfulKeys(d, rows);
    hide *;
    var kept, left := S.Filter(Definite(p), rows), S.Filter(KeyPasses(d, p), A.ShownKeys(d, rows));
    AnswerIsNumbered(d, kept);
    KeysFiltered(d, p, rows);
    S.FilterMembers(KeyPasses(d, p), A.ShownKeys(d, rows));
    forall k | k in left ensures ShownBy(d, kept)(k) == ShownBy(d, rows)(k) {
      ShownFiltered(d, p, rows, k);
    }
    NumberedSame(left, ShownBy(d, kept), ShownBy(d, rows));
    forall i: nat, k | k in left ensures Passes(p)(Row(i, ShownBy(d, rows)(k))) {
      ShownPasses(d, p, rows, k);
      PassesIs(p, Row(i, ShownBy(d, rows)(k)));
    }
    NumberedPasses(left, ShownBy(d, rows), Passes(p));
  }

  lemma NumberedSame(keys: seq<A.GroupKey>, x: A.GroupKey -> Record, y: A.GroupKey -> Record)
    requires forall k | k in keys :: x(k) == y(k)
    ensures Numbered(keys, x) == Numbered(keys, y)
  {
  }

  lemma NumberedPasses(keys: seq<A.GroupKey>, shown: A.GroupKey -> Record, pass: Row -> bool)
    requires forall i: nat, k | k in keys :: pass(Row(i, shown(k)))
    ensures S.Filter(pass, Numbered(keys, shown)) == Numbered(keys, shown)
  {
    hide S.Filter;
    S.FilterIdentity(pass, Numbered(keys, shown));
  }

  lemma PassesIs(p: Record -> Truth, r: Row)
    ensures Passes(p)(r) <==> Definite(p)(r.rec)
  {
  }

  lemma LateFiltered(d: A.Def, p: Record -> Truth, rows: seq<Record>)
    requires A.Settled(d, rows) && ReadsOnlyGroups(d, p) && A.OwnNames(d)
    ensures var keys, q := A.ShownKeys(d, rows), KeyPasses(d, p);
      var late, early := S.Filter(Passes(p), A.AnswerRows(d, rows)), Numbered(S.Filter(q, keys), ShownBy(d, rows));
      A.Recs(late) == A.Recs(early) && (late == early <==> InitialRun(q, keys))
  {
    hide *;
    var keys := A.ShownKeys(d, rows);
    AnswerIsNumbered(d, rows);
    forall i: nat, k | k in keys ensures Passes(p)(Row(i, ShownBy(d, rows)(k))) <==> KeyPasses(d, p)(k) {
      ShownPasses(d, p, rows, k);
      PassesIs(p, Row(i, ShownBy(d, rows)(k)));
    }
    NumberedFiltered(keys, ShownBy(d, rows), KeyPasses(d, p), Passes(p));
  }

  /** The answer a filter leaves of an aggregate, against the answer the same filter leaves when it has also run below. */
  ghost predicate SameButNumbers(d: A.Def, p: Record -> Truth, rows: seq<Record>) {
    var late, early := S.Filter(Passes(p), A.AnswerRows(d, rows)), S.Filter(Passes(p), A.AnswerRows(d, S.Filter(Definite(p), rows)));
    A.Recs(late) == A.Recs(early) && (late == early <==> InitialRun(KeyPasses(d, p), A.ShownKeys(d, rows)))
  }

  lemma AggregateFiltered(d: A.Def, p: Record -> Truth, rows: seq<Record>)
    requires A.Faithful(d, rows) && ReadsOnlyGroups(d, p) && A.OwnNames(d)
    ensures SameButNumbers(d, p, rows)
  {
    A.FaithfulKeys(d, rows);
    LateFiltered(d, p, rows);
    if d.groupBy != [] {
      GroupedFiltered(d, p, rows);
      hide S.Filter, A.ShownKeys, A.Faithful, A.Settled, S.LawfulOn, ReadsOnlyGroups, KeyPasses, ShownBy, A.AnswerRows, A.OwnNames, Definite, Passes, InitialRun, Numbered;
    } else {
      UngroupedFiltered(d, p, rows);
    }
  }

  /** Without grouping every record and every answer row passes, or none does. */
  lemma AllOrNothing(d: A.Def, p: Record -> Truth, r: Row)
    requires ReadsOnlyGroups(d, p) && d.groupBy == []
    ensures Definite(p)(r.rec) <==> KeyPasses(d, p)([])
    ensures Passes(p)(r) <==> KeyPasses(d, p)([])
  {
    PassesByKey(d, p, r.rec);
    assert A.KeyOf(d, r.rec) == [];
    hide *;
    PassesIs(p, r);
  }

  lemma UngroupedFiltered(d: A.Def, p: Record -> Truth, rows: seq<Record>)
    requires ReadsOnlyGroups(d, p) && A.OwnNames(d) && d.groupBy == []
    ensures SameButNumbers(d, p, rows)
  {
    A.Ungrouped(d, rows);
    OneKeyRuns(KeyPasses(d, p));
    hide A.ShownKeys, ReadsOnlyGroups, KeyPasses, A.AnswerRows, A.OwnNames, Definite, Passes, InitialRun, S.Filter, A.Recs;
    var q := KeyPasses(d, p);
    if q([]) {
      forall rec | rec in rows ensures Definite(p)(rec) { AllOrNothing(d, p, Row(0, rec)); }
      S.FilterIdentity(Definite(p), rows);
    } else {
      NothingPasses(d, p, A.AnswerRows(d, rows));
      NothingPasses(d, p, A.AnswerRows(d, S.Filter(Definite(p), rows)));
    }
  }

  lemma OneKeyRuns(q: A.GroupKey -> bool)
    ensures InitialRun(q, [[]])
  {
  }

  lemma NothingPasses(d: A.Def, p: Record -> Truth, rows: seq<Row>)
    requires ReadsOnlyGroups(d, p) && d.groupBy == [] && !KeyPasses(d, p)([])
    ensures S.Filter(Passes(p), rows) == []
  {
    hide *;
    forall r | r in rows ensures !Passes(p)(r) { AllOrNothing(d, p, r); }
    S.FilterNothing(Passes(p), rows);
  }

  /**
   * A Filter above an Aggregate that reads nothing but the grouping keeps its
   * answer's records, and keeps its rows exactly when the groups that pass come
   * first in key order: the rows' ids are positions, counted after the filter
   * has already run below.
   */
  lemma FilterOverAggregate(
      cmp: Compare, input: Plan, d: A.Def, p: Record -> Truth, table: seq<Row>, shards: nat, rows: seq<Row>)
    requires shards > 0 && Ascending(table) && RowLocal(input) && Ordered(cmp, input, table)
    requires A.Faithful(d, A.Recs(Eval(cmp, input, table))) && ReadsOnlyGroups(d, p) && A.OwnNames(d)
    requires ShardedAnswer(cmp, Plan.Filter(Aggregate(input, d), p), table, shards, rows)
    ensures var plan := Plan.Filter(Aggregate(input, d), p);
      var groups := A.ShownKeys(d, A.Recs(Eval(cmp, input, table)));
      && A.Recs(rows) == A.Recs(Eval(cmp, plan, table))
      && (rows == Eval(cmp, plan, table) <==> InitialRun(KeyPasses(d, p), groups))
  {
    var plan, met := Plan.Filter(Aggregate(input, d), p), Eval(cmp, input, table);
    ShardedIs(cmp, plan, table, shards, rows);
    PushedBelow(cmp, input, d, p, table);
    hide *;
    RecsFiltered(p, met);
    AggregateFiltered(d, p, A.Recs(met));
    FilteredEval(cmp, input, d, p, table);
    FilteredEval(cmp, input, d, p, S.Filter(Keeps(plan), table));
    Reassembled(cmp, d, p, plan, A.Recs(met), table, rows);
  }

  lemma Reassembled(
      cmp: Compare, d: A.Def, p: Record -> Truth, plan: Plan, met: seq<Record>, table: seq<Row>, rows: seq<Row>)
    requires SameButNumbers(d, p, met)
    requires Eval(cmp, plan, table) == S.Filter(Passes(p), A.AnswerRows(d, met))
    requires rows == S.Filter(Passes(p), A.AnswerRows(d, S.Filter(Definite(p), met)))
    ensures A.Recs(rows) == A.Recs(Eval(cmp, plan, table))
    ensures rows == Eval(cmp, plan, table) <==> InitialRun(KeyPasses(d, p), A.ShownKeys(d, met))
  {
    hide S.Filter, A.AnswerRows, Eval, InitialRun, A.Recs;
  }

  lemma PushedBelow(cmp: Compare, input: Plan, d: A.Def, p: Record -> Truth, table: seq<Row>)
    requires RowLocal(input) && Ordered(cmp, input, table)
    ensures var plan := Plan.Filter(Aggregate(input, d), p);
      && !OnlyPushdown(plan)
      && Eval(cmp, input, S.Filter(Keeps(plan), table)) == S.Filter(Passes(p), Eval(cmp, input, table))
  {
    PushedThrough(cmp, input, Aggregate(input, d), p, table);
    hide Eval, Keeps, S.Filter, Ordered;
  }

  lemma FilteredEval(cmp: Compare, input: Plan, d: A.Def, p: Record -> Truth, table: seq<Row>)
    ensures Eval(cmp, Plan.Filter(Aggregate(input, d), p), table)
      == S.Filter(Passes(p), A.AnswerRows(d, A.Recs(Eval(cmp, input, table))))
  {
    hide A.AnswerRows, S.Filter, A.Recs;
    assert Eval(cmp, Aggregate(input, d), table) == A.AnswerRows(d, A.Recs(Eval(cmp, input, table)));
  }

  // -- a filter on an output -----------------------------------------------

  /** A predicate true of nothing that lacks every output of the aggregate. */
  ghost predicate NeedsOutput(d: A.Def, p: Record -> Truth) {
    forall rec | p(rec) == True :: exists i :: 0 <= i < |d.aggs| && d.aggs[i].output in rec
  }

  /** The rows below have no fields of the outputs' names. */
  predicate LacksOutputs(d: A.Def, table: seq<Row>) {
    forall r, i | r in table && 0 <= i < |d.aggs| :: d.aggs[i].output !in r.rec
  }

  /**
   * A Filter above an Aggregate that reads an output finds no such field in the rows below:
   * pushed there it keeps none of them, and what is answered is what the aggregate over
   * nothing leaves - with grouping nothing at all, right only if the plan answers nothing.
   */
  lemma FilterOnOutput(
      cmp: Compare, input: Plan, d: A.Def, p: Record -> Truth, table: seq<Row>, shards: nat, rows: seq<Row>)
    requires shards > 0 && Ascending(table) && RowLocal(input)
    requires NeedsOutput(d, p) && LacksOutputs(d, table)
    ensures var plan := Plan.Filter(Aggregate(input, d), p);
      && (ShardedAnswer(cmp, plan, table, shards, rows) <==> rows == S.Filter(Passes(p), A.AnswerRows(d, [])))
      && (d.groupBy != [] ==>
           && (ShardedAnswer(cmp, plan, table, shards, rows) <==> rows == [])
           && (ShardedAnswer(cmp, plan, table, shards, Eval(cmp, plan, table)) <==> Eval(cmp, plan, table) == []))
  {
    var plan := Plan.Filter(Aggregate(input, d), p);
    NothingKept(input, d, p, table);
    OverNothing(cmp, input, d, p);
    if d.groupBy != [] {
      NoneCounted(d);
      S.FilterNone(Passes(p));
    }
    hide *;
    ShardedIs(cmp, plan, table, shards, rows);
    ShardedIs(cmp, plan, table, shards, Eval(cmp, plan, table));
  }

  lemma NothingKept(input: Plan, d: A.Def, p: Record -> Truth, table: seq<Row>)
    requires NeedsOutput(d, p) && LacksOutputs(d, table)
    ensures var plan := Plan.Filter(Aggregate(input, d), p); !OnlyPushdown(plan) && S.Filter(Keeps(plan), table) == []
  {
    var plan := Plan.Filter(Aggregate(input, d), p);
    forall r | r in table ensures !Keeps(plan)(r) {
      assert Keeps(plan)(r) == (Keeps(plan.input)(r) && Passes(p)(r));
      assert forall i | 0 <= i < |d.aggs| :: d.aggs[i].output !in r.rec;
      assert p(r.rec) != True;
    }
    S.FilterNothing(Keeps(plan), table);
  }

  lemma OverNothing(cmp: Compare, input: Plan, d: A.Def, p: Record -> Truth)
    requires RowLocal(input)
    ensures Eval(cmp, Plan.Filter(Aggregate(input, d), p), []) == S.Filter(Passes(p), A.AnswerRows(d, []))
  {
    FilteredEval(cmp, input, d, p, []);
    RowLocalKeeps(cmp, input, []);
    hide S.Filter, A.AnswerRows;
    SomeMember(Eval(cmp, input, []));
    assert A.Recs([]) == [];
  }

  lemma SomeMember<T(!new)>(s: seq<T>)
    ensures s != [] ==> exists x :: x in s
  {
    if s != [] {
      assert s[0] in s;
    }
  }

  /** Rows counted by `g` into `n`. */
  function Counting(cmp: Compare, canon: Atom -> Atom, rnd: real -> Float): A.Def {
    A.Def(["g"], [A.Agg(A.Count, None, "n")], cmp, canon, rnd)
  }

  /** `n IS NOT NULL`. */
  function Counted(rec: Record): Truth {
    if Field(rec, "n").Some? then True else False
  }

  /** One row, counted and kept for its count: sharded, it is lost. */
  lemma CountedIsLost(cmp: Compare, d: A.Def, a: Atom, shards: nat)
    requires shards > 0 && d == Counting(d.cmp, d.canon, d.rnd)
    ensures var plan, table := Plan.Filter(Aggregate(Scan, d), Counted), [Row(0, map["g" := Is(a)])];
      && ShardedAnswer(cmp, plan, table, shards, [])
      && Eval(cmp, plan, table) == [Row(0, map["g" := Is(d.canon(a)), "n" := Is(U64(1))])]
  {
    var table := [Row(0, map["g" := Is(a)])];
    var plan := Plan.Filter(Aggregate(Scan, d), Counted);
    OneGroup(d, a, table[0].rec);
    NoneCounted(d);
    LostBelow(plan, table);
    CountedAnswer(d, a);
    OneRowTable(d, a);
    hide *;
    ShardedIs(cmp, plan, table, shards, []);
    OutputEval(cmp, d, table);
    OutputEval(cmp, d, []);
    S.FilterNone(Passes(Counted));
  }

  lemma CountedAnswer(d: A.Def, a: Atom)
    ensures var r := Row(0, map["g" := Is(d.canon(a)), "n" := Is(U64(1))]); S.Filter(Passes(Counted), [r]) == [r]
  {
    ShownCounts(Row(0, map["g" := Is(d.canon(a)), "n" := Is(U64(1))]));
  }

  lemma OneRowTable(d: A.Def, a: Atom)
    ensures var table := [Row(0, map["g" := Is(a)])];
      Ascending(table) && A.Recs(table) == [table[0].rec] && A.Recs([]) == [] && !OnlyPushdown(Plan.Filter(Aggregate(Scan, d), Counted))
  {
  }

  lemma ShownCounts(r: Row)
    requires Counted(r.rec) == True
    ensures S.Filter(Passes(Counted), [r]) == [r]
  {
    hide Counted;
    OnePasses(Counted, r);
  }

  lemma OnePasses(p: Record -> Truth, r: Row)
    requires p(r.rec) == True
    ensures S.Filter(Passes(p), [r]) == [r]
  {
    S.FilterIdentity(Passes(p), [r]);
  }

  lemma LostBelow(plan: Plan, table: seq<Row>)
    requires plan.Filter? && plan.p == Counted && forall r | r in table :: "n" !in r.rec
    ensures S.Filter(Keeps(plan), table) == []
  {
    forall r | r in table ensures !Keeps(plan)(r) {
      assert Field(r.rec, "n").None? && Counted(r.rec) == False;
      assert Keeps(plan)(r) == (Keeps(plan.input)(r) && Passes(Counted)(r));
    }
    S.FilterNothing(Keeps(plan), table);
  }

  lemma OutputEval(cmp: Compare, d: A.Def, table: seq<Row>)
    ensures Eval(cmp, Plan.Filter(Aggregate(Scan, d), Counted), table) == S.Filter(Passes(Counted), A.AnswerRows(d, A.Recs(table)))
  {
    S.FilterIdentity(Reads(Scan), table);
    FilteredEval(cmp, Scan, d, Counted, table);
    hide S.Filter, A.AnswerRows;
    assert Eval(cmp, Scan, table) == table;
  }

  lemma OneGroup(d: A.Def, a: Atom, rec: Record)
    requires d == Counting(d.cmp, d.canon, d.rnd) && rec == map["g" := Is(a)]
    ensures A.AnswerRows(d, [rec]) == [Row(0, map["g" := Is(d.canon(a)), "n" := Is(U64(1))])]
  {
    var rows, k := [rec], [Is(d.canon(a))];
    assert A.KeyOf(d, rec) == k;
    A.NoneMet(d);
    A.MetNext(d, [], rec);
    A.ScanNext(d, [], rec);
    assert [] + [rec] == rows && [] + [k] == [k];
    var accs := A.ScanAll(d, A.Fresh(d), rec);
    assert accs == [A.ZERO.(count := 1)];
    var outs := A.Outs(d, accs);
    assert outs == [Is(U64(1))];
    assert A.Scan(d, rows) == map[k := accs];
    assert A.Met(d, rows) == [k];
    OneSorted(A.ByKey(d.cmp), k);
    assert A.ShownKeys(d, rows) == [k] by { hide S.Sort; }
    hide A.Scan, A.ShownKeys, A.Met, A.Outs;
    assert A.AnswerOf(d, A.Scan(d, rows)) == map[k := outs];
    OneRendered(d, k, outs);
  }

  lemma OneSorted<T>(cmp: (T, T) -> S.Ordering, x: T)
    ensures S.Sort(cmp, [x]) == [x]
  {
    assert [x][..0] == [];
  }

  lemma OneRendered(d: A.Def, k: A.GroupKey, outs: seq<Cell>)
    requires d == Counting(d.cmp, d.canon, d.rnd) && |k| == |outs| == 1
    ensures A.Rendered(d, k, outs) == map["g" := k[0], "n" := outs[0]]
  {
    var g := A.SetAll(map[], d.groupBy, k);
    assert d.groupBy[1..] == [] && A.Outputs(d) == ["n"] && A.Outputs(d)[1..] == [];
    assert g == map["g" := k[0]];
    assert A.SetAll(g, ["n"], outs) == A.SetAll(g["n" := outs[0]], [], []);
  }

  lemma NoneCounted(d: A.Def)
    requires d.groupBy != []
    ensures A.AnswerRows(d, []) == []
  {
  }
}
