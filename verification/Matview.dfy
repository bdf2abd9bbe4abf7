/**
 * Materialized views over grouped aggregates: totals maintained under inserts
 * and deletes in floating point, trusted only while an exactness budget lasts.
 */
module Matview {
  import opened Basics
  import opened Floats
  import opened Records
  import opened Aggregates
  import opened Totals
  import opened Answers
  import S = Sorting

  // -- the maintained totals -----------------------------------------------

  datatype Group = Group(rows: nat, accs: seq<Acc>)

  datatype Budget = Budget(exact: bool, spent: Float)

  datatype Sums = Sums(groups: map<GroupKey, Group>, budgets: seq<Budget>)

  function Empty(d: Def): Sums {
    Sums(map[], seq(|d.aggs|, _ => Budget(true, Fin(0.0))))
  }

  /** `saw` is not unset. */
  function AccSub(d: Def, acc: Acc, c: Option<Float>): Acc {
    match c
    case None => acc
    case Some(v) => acc.(count := if acc.count == 0 then 0 else acc.count - 1, sum := Sub(d.rnd, acc.sum, v))
  }

  /** Both directions charge; the first non-integer or the 2^53rd unit ends the trust for good. */
  function Charge(d: Def, a: Agg, b: Budget, c: Option<Float>): Budget {
    if c.None? || !Summed(a) || !b.exact then b
    else if c.value == Special || c.value.r.Floor as real != c.value.r then b.(exact := false)
    else
      var spent := Add(d.rnd, b.spent, Fin(Abs(c.value.r)));
      Budget(spent.Fin? && spent.r < LIMIT as real, spent)
  }

  function GroupAdd(d: Def, g: Group, rec: Record): Group
    requires |g.accs| == |d.aggs|
  {
    Group(g.rows + 1, seq(|d.aggs|, i requires 0 <= i < |d.aggs| => AccAdd(d, g.accs[i], Contribution(d, d.aggs[i], rec))))
  }

  function GroupSub(d: Def, g: Group, rec: Record): Group
    requires |g.accs| == |d.aggs|
  {
    Group(if g.rows == 0 then 0 else g.rows - 1,
      seq(|d.aggs|, i requires 0 <= i < |d.aggs| => AccSub(d, g.accs[i], Contribution(d, d.aggs[i], rec))))
  }

  function ChargeAll(d: Def, budgets: seq<Budget>, rec: Record): seq<Budget>
    requires |budgets| == |d.aggs|
  {
    seq(|d.aggs|, i requires 0 <= i < |d.aggs| => Charge(d, d.aggs[i], budgets[i], Contribution(d, d.aggs[i], rec)))
  }

  predicate WellFormed(d: Def, t: Sums) {
    |t.budgets| == |d.aggs| && forall k | k in t.groups :: |t.groups[k].accs| == |d.aggs|
  }

  function GroupOf(d: Def, t: Sums, k: GroupKey): Group {
    if k in t.groups then t.groups[k] else Group(0, seq(|d.aggs|, _ => ZERO))
  }

  function Inserted(d: Def, t: Sums, rec: Record): (t': Sums)
    requires WellFormed(d, t)
    ensures WellFormed(d, t')
  {
    var k := KeyOf(d, rec);
    Sums(t.groups[k := GroupAdd(d, GroupOf(d, t, k), rec)], ChargeAll(d, t.budgets, rec))
  }

  function Removed(d: Def, t: Sums, rec: Record): (t': Sums)
    requires WellFormed(d, t)
    ensures WellFormed(d, t')
  {
    var k := KeyOf(d, rec);
    if k !in t.groups then t
    else
      var g := GroupSub(d, t.groups[k], rec);
      Sums(if g.rows == 0 then t.groups - {k} else t.groups[k := g], ChargeAll(d, t.budgets, rec))
  }

  predicate IsExact(t: Sums) {
    forall i :: 0 <= i < |t.budgets| ==> t.budgets[i].exact
  }

  // -- answers -------------------------------------------------------------

  /** The sum and average kinds only, besides counts: no minimum survives a delete. */
  predicate Maintainable(d: Def) {
    d.aggs != [] && forall i :: 0 <= i < |d.aggs| ==> d.aggs[i].kind in {Count, Sum, Avg}
  }

  function ViewAnswer(d: Def, t: Sums): Answer
    requires WellFormed(d, t)
  {
    AnswerOf(d, map k | k in t.groups :: t.groups[k].accs)
  }

  // -- while the budget lasts ----------------------------------------------

  /** The budget has counted every present row, and all of them are integers. */
  ghost predicate BudgetOk(d: Def, a: Agg, b: Budget, rows: seq<Record>) {
    b.exact && Summed(a) ==>
      && b.spent.Fin? && b.spent.r.Floor as real == b.spent.r
      && Total(Magnitude(d, a), rows) <= b.spent.r.Floor < LIMIT
      && (forall rec | rec in rows :: Whole(Contribution(d, a, rec)))
  }

  ghost predicate AccOk(d: Def, a: Agg, acc: Acc, k: GroupKey, rows: seq<Record>, exact: bool) {
    && acc.count == Total(CountsIn(d, a, k), rows)
    && (acc.count > 0 ==> acc.saw)
    && (exact && Summed(a) ==> acc.sum == Fin(Total(UnitsIn(d, a, k), rows) as real))
  }

  ghost predicate GroupOk(d: Def, g: Group, k: GroupKey, rows: seq<Record>, budgets: seq<Budget>) {
    && |g.accs| == |d.aggs| == |budgets|
    && g.rows == Total(InGroup(d, k), rows)
    && forall i :: 0 <= i < |d.aggs| ==> AccOk(d, d.aggs[i], g.accs[i], k, rows, budgets[i].exact)
  }

  /** The totals of a view over exactly these rows. */
  ghost predicate TotalsOk(d: Def, t: Sums, rows: seq<Record>) {
    && WellFormed(d, t)
    && (forall i :: 0 <= i < |d.aggs| ==> BudgetOk(d, d.aggs[i], t.budgets[i], rows))
    && (forall k :: k in t.groups <==> Total(InGroup(d, k), rows) > 0)
    && (forall k | k in t.groups :: GroupOk(d, t.groups[k], k, rows, t.budgets))
  }

  /** A charge that leaves the budget exact has spent the value in full, as integers. */
  lemma ChargeExact(d: Def, a: Agg, b: Budget, c: Option<Float>, spent: int)
    requires Rounds(d.rnd) && Summed(a) && b.exact && 0 <= spent < LIMIT && b.spent == Fin(spent as real)
    requires Charge(d, a, b, c).exact
    ensures Whole(c)
    ensures Charge(d, a, b, c).spent == Fin((spent + IntAbs(Units(c))) as real)
    ensures spent + IntAbs(Units(c)) < LIMIT
  {
    if c.Some? {
      var n := c.value.r.Floor;
      assert Abs(c.value.r) == IntAbs(n) as real;
      var x := spent + IntAbs(n);
      assert b.spent.r + Abs(c.value.r) == x as real;
    }
  }

  lemma ChargeSticks(d: Def, a: Agg, b: Budget, c: Option<Float>)
    requires Charge(d, a, b, c).exact
    ensures b.exact
  {
  }

  lemma BudgetNext(d: Def, a: Agg, b: Budget, rows: seq<Record>, rec: Record)
    requires Rounds(d.rnd) && BudgetOk(d, a, b, rows)
    ensures BudgetOk(d, a, Charge(d, a, b, Contribution(d, a, rec)), rows + [rec])
  {
    var c := Contribution(d, a, rec);
    var b' := Charge(d, a, b, c);
    if b'.exact && Summed(a) {
      ChargeSticks(d, a, b, c);
      var spent := b.spent.r.Floor;
      TotalBound(d, a, [], rows);
      ChargeExact(d, a, b, c, spent);
      assert (rows + [rec])[..|rows|] == rows;
    }
  }

  lemma BudgetBack(d: Def, a: Agg, b: Budget, rows: seq<Record>, i: nat)
    requires Rounds(d.rnd) && BudgetOk(d, a, b, rows) && i < |rows|
    ensures BudgetOk(d, a, Charge(d, a, b, Contribution(d, a, rows[i])), rows[..i] + rows[i + 1..])
  {
    var c := Contribution(d, a, rows[i]);
    var b' := Charge(d, a, b, c);
    if b'.exact && Summed(a) {
      ChargeSticks(d, a, b, c);
      var spent := b.spent.r.Floor;
      TotalBound(d, a, [], rows);
      ChargeExact(d, a, b, c, spent);
      TotalRemove(Magnitude(d, a), rows, i);
    }
  }

  lemma AccNext(d: Def, a: Agg, acc: Acc, rows: seq<Record>, rec: Record, b: Budget)
    requires Rounds(d.rnd) && BudgetOk(d, a, b, rows)
    requires AccOk(d, a, acc, KeyOf(d, rec), rows, b.exact)
    ensures var c := Contribution(d, a, rec);
      AccOk(d, a, AccAdd(d, acc, c), KeyOf(d, rec), rows + [rec], Charge(d, a, b, c).exact)
  {
    var k, c := KeyOf(d, rec), Contribution(d, a, rec);
    assert (rows + [rec])[..|rows|] == rows;
    if Charge(d, a, b, c).exact && Summed(a) && c.Some? {
      ChargeSticks(d, a, b, c);
      var spent := b.spent.r.Floor;
      TotalBound(d, a, k, rows);
      ChargeExact(d, a, b, c, spent);
      AddExact(d, Total(UnitsIn(d, a, k), rows), c, spent);
    }
  }

  lemma AccBack(d: Def, a: Agg, acc: Acc, rows: seq<Record>, i: nat, b: Budget)
    requires Rounds(d.rnd) && BudgetOk(d, a, b, rows) && i < |rows|
    requires AccOk(d, a, acc, KeyOf(d, rows[i]), rows, b.exact)
    ensures var c := Contribution(d, a, rows[i]);
      AccOk(d, a, AccSub(d, acc, c), KeyOf(d, rows[i]), rows[..i] + rows[i + 1..], Charge(d, a, b, c).exact)
  {
    var k, c := KeyOf(d, rows[i]), Contribution(d, a, rows[i]);
    TotalRemove(CountsIn(d, a, k), rows, i);
    TotalRemove(UnitsIn(d, a, k), rows, i);
    TotalBound(d, a, k, rows[..i] + rows[i + 1..]);
    if Charge(d, a, b, c).exact && Summed(a) && c.Some? {
      ChargeSticks(d, a, b, c);
      var spent := b.spent.r.Floor;
      TotalBound(d, a, k, rows);
      ChargeExact(d, a, b, c, spent);
      AddExact(d, Total(UnitsIn(d, a, k), rows), c, spent);
    }
  }

  /** Rows of other groups do not move a group. */
  lemma GroupElsewhere(d: Def, g: Group, k: GroupKey, rows: seq<Record>, rec: Record, budgets: seq<Budget>)
    requires GroupOk(d, g, k, rows, budgets) && KeyOf(d, rec) != k
    ensures GroupOk(d, g, k, rows + [rec], ChargeAll(d, budgets, rec))
  {
    assert (rows + [rec])[..|rows|] == rows;
    forall i | 0 <= i < |d.aggs|
      ensures AccOk(d, d.aggs[i], g.accs[i], k, rows + [rec], ChargeAll(d, budgets, rec)[i].exact)
    {
      assert AccOk(d, d.aggs[i], g.accs[i], k, rows, budgets[i].exact);
    }
  }

  lemma GroupElsewhereBack(d: Def, g: Group, k: GroupKey, rows: seq<Record>, j: nat, budgets: seq<Budget>)
    requires j < |rows| && GroupOk(d, g, k, rows, budgets) && KeyOf(d, rows[j]) != k
    ensures GroupOk(d, g, k, rows[..j] + rows[j + 1..], ChargeAll(d, budgets, rows[j]))
  {
    TotalRemove(InGroup(d, k), rows, j);
    forall i | 0 <= i < |d.aggs|
      ensures AccOk(d, d.aggs[i], g.accs[i], k, rows[..j] + rows[j + 1..], ChargeAll(d, budgets, rows[j])[i].exact)
    {
      assert AccOk(d, d.aggs[i], g.accs[i], k, rows, budgets[i].exact);
      TotalRemove(CountsIn(d, d.aggs[i], k), rows, j);
      TotalRemove(UnitsIn(d, d.aggs[i], k), rows, j);
    }
  }

  lemma GroupNext(d: Def, g: Group, rows: seq<Record>, rec: Record, budgets: seq<Budget>)
    requires Rounds(d.rnd) && GroupOk(d, g, KeyOf(d, rec), rows, budgets)
    requires forall i :: 0 <= i < |d.aggs| ==> BudgetOk(d, d.aggs[i], budgets[i], rows)
    ensures GroupOk(d, GroupAdd(d, g, rec), KeyOf(d, rec), rows + [rec], ChargeAll(d, budgets, rec))
  {
    assert (rows + [rec])[..|rows|] == rows;
    forall i | 0 <= i < |d.aggs|
      ensures AccOk(d, d.aggs[i], GroupAdd(d, g, rec).accs[i], KeyOf(d, rec), rows + [rec],
                ChargeAll(d, budgets, rec)[i].exact)
    {
      AccNext(d, d.aggs[i], g.accs[i], rows, rec, budgets[i]);
    }
  }

  lemma GroupBack(d: Def, g: Group, rows: seq<Record>, j: nat, budgets: seq<Budget>)
    requires Rounds(d.rnd) && j < |rows| && GroupOk(d, g, KeyOf(d, rows[j]), rows, budgets)
    requires forall i :: 0 <= i < |d.aggs| ==> BudgetOk(d, d.aggs[i], budgets[i], rows)
    ensures GroupOk(d, GroupSub(d, g, rows[j]), KeyOf(d, rows[j]), rows[..j] + rows[j + 1..],
              ChargeAll(d, budgets, rows[j]))
  {
    TotalRemove(InGroup(d, KeyOf(d, rows[j])), rows, j);
    TotalNatural(d, KeyOf(d, rows[j]), rows[..j] + rows[j + 1..]);
    forall i | 0 <= i < |d.aggs|
      ensures AccOk(d, d.aggs[i], GroupSub(d, g, rows[j]).accs[i], KeyOf(d, rows[j]), rows[..j] + rows[j + 1..],
                ChargeAll(d, budgets, rows[j])[i].exact)
    {
      AccBack(d, d.aggs[i], g.accs[i], rows, j, budgets[i]);
    }
  }

  /** A group not in the map is one with no rows and zero totals. */
  lemma MissingGroup(d: Def, t: Sums, k: GroupKey, rows: seq<Record>)
    requires TotalsOk(d, t, rows)
    ensures GroupOk(d, GroupOf(d, t, k), k, rows, t.budgets)
  {
    if k !in t.groups {
      TotalNatural(d, k, rows);
      forall i | 0 <= i < |d.aggs| { TotalBound(d, d.aggs[i], k, rows); }
    }
  }

  lemma InsertedOk(d: Def, t: Sums, rows: seq<Record>, rec: Record)
    requires Rounds(d.rnd) && TotalsOk(d, t, rows)
    ensures TotalsOk(d, Inserted(d, t, rec), rows + [rec])
  {
    var t', k0 := Inserted(d, t, rec), KeyOf(d, rec);
    assert (rows + [rec])[..|rows|] == rows;
    forall i | 0 <= i < |d.aggs| ensures BudgetOk(d, d.aggs[i], t'.budgets[i], rows + [rec]) {
      BudgetNext(d, d.aggs[i], t.budgets[i], rows, rec);
    }
    forall k ensures k in t'.groups <==> Total(InGroup(d, k), rows + [rec]) > 0 {
      TotalNatural(d, k, rows);
    }
    forall k | k in t'.groups ensures GroupOk(d, t'.groups[k], k, rows + [rec], t'.budgets) {
      if k == k0 {
        MissingGroup(d, t, k, rows);
        GroupNext(d, GroupOf(d, t, k), rows, rec, t.budgets);
      } else {
        GroupElsewhere(d, t.groups[k], k, rows, rec, t.budgets);
      }
    }
  }

  /** Removing a present record, whichever of its copies, leaves the totals of the rest. */
  lemma RemovedOk(d: Def, t: Sums, rows: seq<Record>, j: nat)
    requires Rounds(d.rnd) && TotalsOk(d, t, rows) && j < |rows|
    ensures TotalsOk(d, Removed(d, t, rows[j]), rows[..j] + rows[j + 1..])
  {
    var rec, rest := rows[j], rows[..j] + rows[j + 1..];
    var t', k0 := Removed(d, t, rec), KeyOf(d, rec);
    TotalNatural(d, k0, rest);
    TotalRemove(InGroup(d, k0), rows, j);
    assert k0 in t.groups;
    forall i | 0 <= i < |d.aggs| ensures BudgetOk(d, d.aggs[i], t'.budgets[i], rest) {
      BudgetBack(d, d.aggs[i], t.budgets[i], rows, j);
    }
    GroupBack(d, t.groups[k0], rows, j, t.budgets);
    forall k ensures k in t'.groups <==> Total(InGroup(d, k), rest) > 0 {
      TotalRemove(InGroup(d, k), rows, j);
    }
    forall k | k in t'.groups ensures GroupOk(d, t'.groups[k], k, rest, t'.budgets) {
      if k != k0 { GroupElsewhereBack(d, t.groups[k], k, rows, j, t.budgets); }
    }
  }

  // -- runs ----------------------------------------------------------------

  datatype Move = Insert(rec: Record) | Remove(at: nat)

  /** The rows present after a run; a removal names the position of the row that goes. */
  function RowsAfter(moves: seq<Move>): seq<Record> {
    if moves == [] then []
    else
      var rows := RowsAfter(moves[..|moves| - 1]);
      match moves[|moves| - 1]
      case Insert(rec) => rows + [rec]
      case Remove(j) => if j < |rows| then rows[..j] + rows[j + 1..] else rows
  }

  function TotalsAfter(d: Def, moves: seq<Move>): (t: Sums)
    ensures WellFormed(d, t)
  {
    if moves == [] then Empty(d)
    else
      var before := moves[..|moves| - 1];
      var t, rows := TotalsAfter(d, before), RowsAfter(before);
      match moves[|moves| - 1]
      case Insert(rec) => Inserted(d, t, rec)
      case Remove(j) => if j < |rows| then Removed(d, t, rows[j]) else t
  }

  /** Every record that came or went, as often as it did. */
  function Charged(moves: seq<Move>): seq<Record> {
    if moves == [] then []
    else
      var before := moves[..|moves| - 1];
      var rows := RowsAfter(before);
      match moves[|moves| - 1]
      case Insert(rec) => Charged(before) + [rec]
      case Remove(j) => if j < |rows| then Charged(before) + [rows[j]] else Charged(before)
  }

  /** A budget is exact exactly while what it was charged is, and has spent just that. */
  ghost predicate ChargedOk(d: Def, a: Agg, b: Budget, charged: seq<Record>) {
    && (b.exact <==> Summable(d, a, charged))
    && (b.exact && Summed(a) ==> b.spent == Fin(Total(Magnitude(d, a), charged) as real))
  }

  lemma ChargedNext(d: Def, a: Agg, b: Budget, charged: seq<Record>, rec: Record)
    requires Rounds(d.rnd) && ChargedOk(d, a, b, charged)
    ensures ChargedOk(d, a, Charge(d, a, b, Contribution(d, a, rec)), charged + [rec])
  {
    var c := Contribution(d, a, rec);
    var all := charged + [rec];
    TotalNext(Magnitude(d, a), charged, rec);
    assert all[|charged|] == rec && all[..|charged|] == charged;
    if Summed(a) {
      if Summable(d, a, all) { SummablePrefix(d, a, all); }
      TotalBound(d, a, [], charged);
      hide Contribution, Total;
      assert forall r | r in charged :: r in all;
      assert rec in all;
      if b.exact && Whole(c) {
        var spent := Total(Magnitude(d, a), charged);
        ChargeIs(d, a, b, c, spent);
      }
    }
  }

  lemma ChargeIs(d: Def, a: Agg, b: Budget, c: Option<Float>, spent: nat)
    requires Rounds(d.rnd) && Summed(a) && b.exact && b.spent == Fin(spent as real) && spent < LIMIT && Whole(c)
    ensures var after := Charge(d, a, b, c);
      (after.exact <==> spent + IntAbs(Units(c)) < LIMIT)
      && (after.exact ==> after.spent == Fin((spent + IntAbs(Units(c))) as real))
  {
    if c.Some? {
      var n := spent + IntAbs(Units(c));
      assert spent as real + Abs(c.value.r) == n as real;
      assert (n as real).Floor == n;
    }
  }

  lemma ChargedNothing(d: Def)
    ensures forall i | 0 <= i < |d.aggs| :: ChargedOk(d, d.aggs[i], Empty(d).budgets[i], [])
  {
  }

  lemma {:induction false} ChargedExactly(d: Def, moves: seq<Move>)
    requires Rounds(d.rnd)
    ensures forall i | 0 <= i < |d.aggs| :: ChargedOk(d, d.aggs[i], TotalsAfter(d, moves).budgets[i], Charged(moves))
  {
    if moves == [] {
      ChargedNothing(d);
    } else {
      var before, last := moves[..|moves| - 1], moves[|moves| - 1];
      var t, rows := TotalsAfter(d, before), RowsAfter(before);
      ChargedExactly(d, before);
      hide ChargedOk, Charge, RowsAfter;
      match last {
        case Insert(rec) =>
          forall i | 0 <= i < |d.aggs| ensures ChargedOk(d, d.aggs[i], Inserted(d, t, rec).budgets[i], Charged(before) + [rec]) {
            ChargedNext(d, d.aggs[i], t.budgets[i], Charged(before), rec);
          }
        case Remove(j) =>
          if j < |rows| {
            PresentGroup(d, before, rows[j]);
            forall i | 0 <= i < |d.aggs| ensures ChargedOk(d, d.aggs[i], Removed(d, t, rows[j]).budgets[i], Charged(before) + [rows[j]]) {
              ChargedNext(d, d.aggs[i], t.budgets[i], Charged(before), rows[j]);
            }
          }
      }
    }
  }

  /** A record that is there has its group. */
  lemma PresentGroup(d: Def, moves: seq<Move>, rec: Record)
    requires Rounds(d.rnd) && rec in RowsAfter(moves)
    ensures KeyOf(d, rec) in TotalsAfter(d, moves).groups
  {
    RunOk(d, moves);
    hide TotalsAfter, RowsAfter;
    MemberCounts(d, RowsAfter(moves), rec);
  }

  lemma {:induction false} MemberCounts(d: Def, rows: seq<Record>, rec: Record)
    requires rec in rows
    ensures Total(InGroup(d, KeyOf(d, rec)), rows) > 0
  {
    var n := |rows| - 1;
    TotalNatural(d, KeyOf(d, rec), rows[..n]);
    if rows[n] != rec {
      MemberCounts(d, rows[..n], rec);
    }
  }

  /**
   * A view is trusted exactly while all that it was ever charged for is whole and less than 2^53
   * in all; so it is as long as the fields it sums hold whole numbers, whose sizes, counted each
   * time a record came or went, stay below that.
   */
  lemma TrustedExactly(d: Def, moves: seq<Move>)
    requires Rounds(d.rnd)
    ensures IsExact(TotalsAfter(d, moves)) <==> AllSummable(d, Charged(moves))
    ensures SumsExact(d, Charged(moves)) ==> IsExact(TotalsAfter(d, moves))
  {
    ChargedExactly(d, moves);
    if SumsExact(d, Charged(moves)) {
      AllExact(d, Charged(moves));
    }
    hide TotalsAfter, Charged, Summable, SumsExact;
  }

  lemma {:induction false} RunOk(d: Def, moves: seq<Move>)
    requires Rounds(d.rnd)
    ensures TotalsOk(d, TotalsAfter(d, moves), RowsAfter(moves))
  {
    if moves != [] {
      var before := moves[..|moves| - 1];
      RunOk(d, before);
      var t, rows := TotalsAfter(d, before), RowsAfter(before);
      match moves[|moves| - 1]
      case Insert(rec) => InsertedOk(d, t, rows, rec);
      case Remove(j) => if j < |rows| { RemovedOk(d, t, rows, j); }
    }
  }

  // -- the view against the scan -------------------------------------------

  /** A Sum whose contributions have all gone: the view still says zero where the scan says null. */
  predicate Emptied(a: Agg, acc: Acc) {
    a.kind == Sum && acc.saw && acc.count == 0
  }

  lemma OutsAgree(d: Def, a: Agg, acc: Acc, scan: Acc, k: GroupKey, rows: seq<Record>)
    requires a.kind in {Count, Sum, Avg} && AccOk(d, a, acc, k, rows, true) && ScanOk(d, a, scan, k, rows)
    ensures OutOf(d, a, acc) == OutOf(d, a, scan) <==> !Emptied(a, acc)
  {
  }

  /** What an exact view has spent covers the present rows. */
  lemma ExactIsSummable(d: Def, t: Sums, rows: seq<Record>, i: nat)
    requires TotalsOk(d, t, rows) && IsExact(t) && i < |d.aggs|
    ensures Summable(d, d.aggs[i], rows)
  {
    assert BudgetOk(d, d.aggs[i], t.budgets[i], rows);
  }

  lemma AccPermuted(d: Def, a: Agg, acc: Acc, k: GroupKey, rows: seq<Record>, other: seq<Record>, exact: bool)
    requires AccOk(d, a, acc, k, rows, exact) && multiset(rows) == multiset(other)
    ensures AccOk(d, a, acc, k, other, exact)
  {
    TotalPermuted(CountsIn(d, a, k), rows, other);
    TotalPermuted(UnitsIn(d, a, k), rows, other);
  }

  // -- in terms of the run -------------------------------------------------

  predicate InGroupNow(d: Def, k: GroupKey, rows: seq<Record>) {
    exists rec | rec in rows :: KeyOf(d, rec) == k
  }

  lemma {:induction false} InGroupCounts(d: Def, a: Agg, k: GroupKey, rows: seq<Record>)
    ensures Total(InGroup(d, k), rows) > 0 <==> InGroupNow(d, k, rows)
    ensures Total(CountsIn(d, a, k), rows) == 0 <==> NoneNow(d, a, k, rows)
  {
    hide KeyOf, Contribution;
    if rows != [] {
      var n := |rows| - 1;
      InGroupCounts(d, a, k, rows[..n]);
      TotalBound(d, a, k, rows[..n]);
      assert rows == rows[..n] + [rows[n]];
    }
  }

  /** No present row of the group contributes. */
  predicate NoneNow(d: Def, a: Agg, k: GroupKey, rows: seq<Record>) {
    forall rec | rec in rows && KeyOf(d, rec) == k :: Contribution(d, a, rec).None?
  }

  /** Move `m` brought the group a contribution, and the group has had a row ever since. */
  ghost predicate CameAt(d: Def, a: Agg, k: GroupKey, moves: seq<Move>, m: nat)
    requires m < |moves|
  {
    && moves[m].Insert? && KeyOf(d, moves[m].rec) == k && Contribution(d, a, moves[m].rec).Some?
    && forall n | m < n <= |moves| :: InGroupAfter(d, k, moves, n)
  }

  /** The group had a row after the first `n` moves. */
  ghost predicate InGroupAfter(d: Def, k: GroupKey, moves: seq<Move>, n: nat)
    requires n <= |moves|
  {
    InGroupNow(d, k, RowsAfter(moves[..n]))
  }

  lemma SameAfter(d: Def, k: GroupKey, moves: seq<Move>, n: nat)
    requires n < |moves|
    ensures InGroupAfter(d, k, moves, n) == InGroupAfter(d, k, moves[..|moves| - 1], n)
  {
    assert moves[..|moves| - 1][..n] == moves[..n];
  }

  lemma NowIsAfter(d: Def, k: GroupKey, moves: seq<Move>)
    ensures InGroupAfter(d, k, moves, |moves|) == InGroupNow(d, k, RowsAfter(moves))
  {
    assert moves[..|moves|] == moves;
  }

  ghost predicate Came(d: Def, a: Agg, k: GroupKey, moves: seq<Move>) {
    exists m | 0 <= m < |moves| :: CameAt(d, a, k, moves, m)
  }

  /** A group that has stayed since a contribution came, and none of whose rows contributes now. */
  ghost predicate CameAndWent(d: Def, a: Agg, k: GroupKey, moves: seq<Move>) {
    Came(d, a, k, moves) && NoneNow(d, a, k, RowsAfter(moves))
  }

  lemma CameAtFront(d: Def, a: Agg, k: GroupKey, moves: seq<Move>, m: nat)
    requires m < |moves| - 1
    ensures CameAt(d, a, k, moves, m) <==> CameAt(d, a, k, moves[..|moves| - 1], m) && InGroupNow(d, k, RowsAfter(moves))
  {
    hide KeyOf, Contribution, RowsAfter, InGroupNow, InGroupAfter;
    forall n | 0 <= n < |moves| ensures InGroupAfter(d, k, moves, n) == InGroupAfter(d, k, moves[..|moves| - 1], n) {
      SameAfter(d, k, moves, n);
    }
    NowIsAfter(d, k, moves);
    var before := moves[..|moves| - 1];
    assert before[m] == moves[m] && |before| == |moves| - 1;
    if CameAt(d, a, k, before, m) && InGroupNow(d, k, RowsAfter(moves)) {
      forall n | m < n <= |moves| ensures InGroupAfter(d, k, moves, n) {
        if n < |moves| { assert InGroupAfter(d, k, before, n); }
      }
    }
    if CameAt(d, a, k, moves, m) {
      forall n | m < n <= |before| ensures InGroupAfter(d, k, before, n) {
        assert InGroupAfter(d, k, moves, n);
      }
    }
  }

  lemma CameAtLast(d: Def, a: Agg, k: GroupKey, moves: seq<Move>)
    requires moves != []
    ensures var last := moves[|moves| - 1];
      CameAt(d, a, k, moves, |moves| - 1) <==>
        InGroupNow(d, k, RowsAfter(moves)) && last.Insert? && KeyOf(d, last.rec) == k && Contribution(d, a, last.rec).Some?
  {
    hide KeyOf, Contribution, RowsAfter, InGroupNow, InGroupAfter;
    NowIsAfter(d, k, moves);
  }

  lemma CameLonger(d: Def, a: Agg, k: GroupKey, moves: seq<Move>)
    requires moves != []
    ensures var n := |moves| - 1;
      var last := moves[n];
      Came(d, a, k, moves) <==>
        && InGroupNow(d, k, RowsAfter(moves))
        && (Came(d, a, k, moves[..n]) || (last.Insert? && KeyOf(d, last.rec) == k && Contribution(d, a, last.rec).Some?))
  {
    hide CameAt, KeyOf, Contribution, RowsAfter, InGroupNow;
    var n := |moves| - 1;
    CameAtLast(d, a, k, moves);
    if Came(d, a, k, moves) {
      var m :| 0 <= m < |moves| && CameAt(d, a, k, moves, m);
      if m < n {
        CameAtFront(d, a, k, moves, m);
      }
    }
    if Came(d, a, k, moves[..n]) && InGroupNow(d, k, RowsAfter(moves)) {
      var m :| 0 <= m < n && CameAt(d, a, k, moves[..n], m);
      CameAtFront(d, a, k, moves, m);
    }
  }

  lemma GroupStays(d: Def, moves: seq<Move>, k: GroupKey)
    requires Rounds(d.rnd)
    ensures k in TotalsAfter(d, moves).groups <==> InGroupNow(d, k, RowsAfter(moves))
  {
    RunOk(d, moves);
    hide TotalsAfter, RowsAfter, InGroupNow;
    InGroupCounts(d, Agg(Count, None, ""), k, RowsAfter(moves));
  }

  /** `saw` remembers exactly what came since the group was last empty. */
  lemma {:induction false} SawIsCame(d: Def, moves: seq<Move>, k: GroupKey, i: nat)
    requires Rounds(d.rnd) && i < |d.aggs| && k in TotalsAfter(d, moves).groups
    ensures TotalsAfter(d, moves).groups[k].accs[i].saw <==> Came(d, d.aggs[i], k, moves)
  {
    GroupStays(d, moves, k);
    if moves != [] {
      var before := moves[..|moves| - 1];
      GroupStays(d, before, k);
      CameLonger(d, d.aggs[i], k, moves);
      if k in TotalsAfter(d, before).groups {
        SawIsCame(d, before, k, i);
      } else {
        NotCame(d, d.aggs[i], k, before);
      }
      hide InGroupNow, Came, Rounds;
      SawNext(d, moves, k, i);
    }
  }

  lemma NotCame(d: Def, a: Agg, k: GroupKey, moves: seq<Move>)
    requires !InGroupNow(d, k, RowsAfter(moves))
    ensures !Came(d, a, k, moves)
  {
    hide InGroupNow, InGroupAfter;
    NowIsAfter(d, k, moves);
  }

  lemma SawNext(d: Def, moves: seq<Move>, k: GroupKey, i: nat)
    requires moves != [] && i < |d.aggs| && k in TotalsAfter(d, moves).groups
    ensures var n := |moves| - 1;
      var t, last := TotalsAfter(d, moves[..n]), moves[n];
      TotalsAfter(d, moves).groups[k].accs[i].saw <==>
        || (k in t.groups && t.groups[k].accs[i].saw)
        || (last.Insert? && KeyOf(d, last.rec) == k && Contribution(d, d.aggs[i], last.rec).Some?)
  {
    var n := |moves| - 1;
    var t, rows := TotalsAfter(d, moves[..n]), RowsAfter(moves[..n]);
    match moves[n] {
      case Insert(rec) =>
        assert TotalsAfter(d, moves) == Inserted(d, t, rec);
        hide TotalsAfter, RowsAfter, WellFormed;
        SawInserted(d, t, rec, k, i);
      case Remove(j) =>
        assert TotalsAfter(d, moves) == if j < |rows| then Removed(d, t, rows[j]) else t;
        hide TotalsAfter, RowsAfter, WellFormed;
        if j < |rows| {
          SawRemoved(d, t, rows[j], k, i);
        }
    }
  }

  lemma SawInserted(d: Def, t: Sums, rec: Record, k: GroupKey, i: nat)
    requires WellFormed(d, t) && i < |d.aggs| && k in Inserted(d, t, rec).groups
    ensures Inserted(d, t, rec).groups[k].accs[i].saw <==>
      || (k in t.groups && t.groups[k].accs[i].saw)
      || (KeyOf(d, rec) == k && Contribution(d, d.aggs[i], rec).Some?)
  {
    hide KeyOf, Contribution, Charge, ChargeAll;
  }

  lemma SawRemoved(d: Def, t: Sums, rec: Record, k: GroupKey, i: nat)
    requires WellFormed(d, t) && i < |d.aggs| && k in Removed(d, t, rec).groups
    ensures k in t.groups && Removed(d, t, rec).groups[k].accs[i].saw == t.groups[k].accs[i].saw
  {
    hide KeyOf, Contribution, Charge, ChargeAll;
  }

  /** Some Sum of some group has been emptied. */
  ghost predicate AnyEmptied(d: Def, t: Sums)
    requires WellFormed(d, t)
  {
    exists k, i | k in t.groups && 0 <= i < |d.aggs| && d.aggs[i].kind == Sum :: Emptied(d.aggs[i], t.groups[k].accs[i])
  }

  ghost predicate AnyWent(d: Def, moves: seq<Move>) {
    exists k, i | 0 <= i < |d.aggs| && d.aggs[i].kind == Sum :: CameAndWent(d, d.aggs[i], k, moves)
  }

  /**
   * While a view answers, its answer is that of a scan of the present records in any
   * order - except exactly where a Sum's contributions came and went while their group stayed.
   */
  lemma ViewIsScan(d: Def, moves: seq<Move>, order: seq<Record>)
    requires Rounds(d.rnd) && Maintainable(d) && IsExact(TotalsAfter(d, moves))
    requires multiset(order) == multiset(RowsAfter(moves))
    ensures ViewAnswer(d, TotalsAfter(d, moves)) == AnswerOf(d, Scan(d, order))
      <==> !AnyWent(d, moves)
  {
    ViewUnlessEmptied(d, moves, order);
    EmptiedSomewhere(d, moves);
    hide *;
  }

  // -- the rows of a view --------------------------------------------------

  /** The groups a view shows, in key order, from any listing of those it keeps. */
  function ViewKeys(d: Def, keys: seq<GroupKey>): seq<GroupKey> {
    if keys == [] && d.groupBy == [] then [[]] else S.Sort(ByKey(d.cmp), keys)
  }

  /** Its rows; their ids are their positions. */
  function ViewRows(d: Def, t: Sums, keys: seq<GroupKey>): (r: seq<Row>)
    requires WellFormed(d, t)
    ensures |r| == |ViewKeys(d, keys)|
  {
    var shown, answer := ViewKeys(d, keys), ViewAnswer(d, t);
    seq(|shown|, i requires 0 <= i < |shown| => Row(i, RenderedAt(d, shown[i], answer)))
  }

  /**
   * Row by row, ids included, a view that answers is a scan of the present records, if no
   * Sum's contributions came and went while their group stayed; and if no two outputs
   * share a name, only then.
   */
  lemma ViewRowsAreScan(d: Def, moves: seq<Move>, order: seq<Record>, keys: seq<GroupKey>)
    requires Rounds(d.rnd) && Maintainable(d) && IsExact(TotalsAfter(d, moves))
    requires multiset(order) == multiset(RowsAfter(moves)) && Faithful(d, order)
    requires Enumerates(keys, TotalsAfter(d, moves).groups.Keys)
    ensures !AnyWent(d, moves) ==> ViewRows(d, TotalsAfter(d, moves), keys) == AnswerRows(d, order)
    ensures OutputsApart(d) ==>
      (ViewRows(d, TotalsAfter(d, moves), keys) == AnswerRows(d, order) <==> !AnyWent(d, moves))
  {
    var t := TotalsAfter(d, moves);
    ViewIsScan(d, moves, order);
    ViewGroups(d, moves, order);
    SameShown(d, order, keys);
    ShownAre(d, order);
    hide TotalsAfter, AnyWent, Scan, ViewKeys, ShownKeys, RenderedAt, AnswerOf, IsExact, Rounds, Faithful;
    if ViewRows(d, t, keys) == AnswerRows(d, order) && OutputsApart(d) {
      var x, y := ViewAnswer(d, t), AnswerOf(d, Scan(d, order));
      forall k | k in y ensures x[k] == y[k] {
        var i :| 0 <= i < |ShownKeys(d, order)| && ShownKeys(d, order)[i] == k;
        assert ViewRows(d, t, keys)[i] == AnswerRows(d, order)[i];
        ShownApart(d, x, y, k);
      }
      assert x == y;
    }
  }

  lemma ShownApart(d: Def, x: Answer, y: Answer, k: GroupKey)
    requires OutputsApart(d) && k in x && k in y && |k| == |d.groupBy| && |x[k]| == |y[k]| == |d.aggs|
    requires RenderedAt(d, k, x) == RenderedAt(d, k, y)
    ensures x[k] == y[k]
  {
    RenderedShows(d, k, x[k], y[k]);
  }

  /** A view keeps the groups a scan meets. */
  lemma ViewGroups(d: Def, moves: seq<Move>, order: seq<Record>)
    requires Rounds(d.rnd) && Maintainable(d) && IsExact(TotalsAfter(d, moves))
    requires multiset(order) == multiset(RowsAfter(moves))
    ensures TotalsAfter(d, moves).groups.Keys == Scan(d, order).Keys
    ensures var x, y := ViewAnswer(d, TotalsAfter(d, moves)), AnswerOf(d, Scan(d, order));
      x.Keys == y.Keys && forall k | k in y :: |x[k]| == |y[k]| == |d.aggs|
  {
    var t, rows := TotalsAfter(d, moves), RowsAfter(moves);
    RunOk(d, moves);
    forall i | 0 <= i < |d.aggs| ensures Summable(d, d.aggs[i], order) {
      ExactIsSummable(d, t, rows, i);
      SummablePermuted(d, d.aggs[i], rows, order);
    }
    ScanTotals(d, order);
    hide Scan, Summable, TotalsAfter, RowsAfter, Total, Rounds, AccOk, ScanOk, OutOf;
    forall k ensures k in t.groups <==> k in Scan(d, order) {
      TotalPermuted(InGroup(d, k), rows, order);
    }
    assert t.groups.Keys == Scan(d, order).Keys;
    AnswerKeys(d, map k | k in t.groups :: t.groups[k].accs, Scan(d, order));
  }

  lemma AnswerKeys(d: Def, x: Groups, y: Groups)
    requires Shaped(d, x) && Shaped(d, y) && x.Keys == y.Keys
    ensures AnswerOf(d, x).Keys == AnswerOf(d, y).Keys
    ensures forall k | k in AnswerOf(d, x) :: |AnswerOf(d, x)[k]| == |AnswerOf(d, y)[k]| == |d.aggs|
  {
    hide Outs;
    assert x == map[] <==> y == map[] by {
      assert x == map[] <==> x.Keys == {};
      assert y == map[] <==> y.Keys == {};
    }
  }

  lemma SameShown(d: Def, order: seq<Record>, keys: seq<GroupKey>)
    requires Faithful(d, order) && Enumerates(keys, Scan(d, order).Keys)
    ensures ViewKeys(d, keys) == ShownKeys(d, order)
  {
    ListedOnce(d, order, keys);
    ScanNone(d, order);
    ListsSomething(keys, Scan(d, order).Keys);
    hide Met, S.Sort, Scan;
    assert keys == [] <==> order == [];
  }

  lemma ListsSomething<T>(q: seq<T>, s: set<T>)
    requires Enumerates(q, s)
    ensures q == [] <==> s == {}
  {
    if q != [] {
      assert q[0] in q;
    }
  }

  /** The groups shown are those answered for, each under as many fields as the grouping has. */
  lemma ShownAre(d: Def, rows: seq<Record>)
    ensures forall k :: k in ShownKeys(d, rows) <==> k in AnswerOf(d, Scan(d, rows))
    ensures forall k | k in ShownKeys(d, rows) :: |k| == |d.groupBy|
  {
    MetIs(d, rows);
    S.SortMembers(ByKey(d.cmp), Met(d, rows));
    ScanNone(d, rows);
    hide Met, S.Sort, Outs, Scan;
  }

  lemma EmptiedSomewhere(d: Def, moves: seq<Move>)
    requires Rounds(d.rnd)
    ensures AnyEmptied(d, TotalsAfter(d, moves)) <==> AnyWent(d, moves)
  {
    var t := TotalsAfter(d, moves);
    hide TotalsAfter, CameAndWent, Emptied, Rounds;
    if AnyEmptied(d, t) {
      var k, i :| k in t.groups && 0 <= i < |d.aggs| && d.aggs[i].kind == Sum && Emptied(d.aggs[i], t.groups[k].accs[i]);
      EmptiedIs(d, moves, k, i);
    }
    if AnyWent(d, moves) {
      var k, i :| 0 <= i < |d.aggs| && d.aggs[i].kind == Sum && CameAndWent(d, d.aggs[i], k, moves);
      EmptiedIs(d, moves, k, i);
    }
  }

  lemma EmptiedIs(d: Def, moves: seq<Move>, k: GroupKey, i: nat)
    requires Rounds(d.rnd) && i < |d.aggs| && d.aggs[i].kind == Sum
    ensures var t := TotalsAfter(d, moves);
      CameAndWent(d, d.aggs[i], k, moves) <==> k in t.groups && Emptied(d.aggs[i], t.groups[k].accs[i])
  {
    var t, rows := TotalsAfter(d, moves), RowsAfter(moves);
    GroupStays(d, moves, k);
    RunOk(d, moves);
    hide TotalsAfter, RowsAfter, Came, InGroupNow, NoneNow;
    if k in t.groups {
      SawIsCame(d, moves, k, i);
      InGroupCounts(d, d.aggs[i], k, rows);
      assert GroupOk(d, t.groups[k], k, rows, t.budgets);
    } else {
      NotCame(d, d.aggs[i], k, moves);
    }
  }

  lemma ViewUnlessEmptied(d: Def, moves: seq<Move>, order: seq<Record>)
    requires Rounds(d.rnd) && Maintainable(d) && IsExact(TotalsAfter(d, moves))
    requires multiset(order) == multiset(RowsAfter(moves))
    ensures var t := TotalsAfter(d, moves);
      ViewAnswer(d, t) == AnswerOf(d, Scan(d, order)) <==> !AnyEmptied(d, t)
  {
    var t, rows := TotalsAfter(d, moves), RowsAfter(moves);
    RunOk(d, moves);
    forall i | 0 <= i < |d.aggs| ensures Summable(d, d.aggs[i], order) {
      ExactIsSummable(d, t, rows, i);
      SummablePermuted(d, d.aggs[i], rows, order);
    }
    ScanTotals(d, order);
    var scan := Scan(d, order);
    hide Scan, Summable, TotalsAfter, RowsAfter, Total, Rounds, AccOk, ScanOk, Emptied, OutOf;
    forall k ensures k in t.groups <==> k in scan {
      TotalPermuted(InGroup(d, k), rows, order);
    }
    forall k, i | k in t.groups && 0 <= i < |d.aggs|
      ensures OutOf(d, d.aggs[i], t.groups[k].accs[i]) == OutOf(d, d.aggs[i], scan[k][i])
        <==> !Emptied(d.aggs[i], t.groups[k].accs[i])
    {
      assert GroupOk(d, t.groups[k], k, rows, t.budgets);
      AccPermuted(d, d.aggs[i], t.groups[k].accs[i], k, rows, order, true);
      OutsAgree(d, d.aggs[i], t.groups[k].accs[i], scan[k][i], k, order);
    }
    AnswersAgree(d, map k | k in t.groups :: t.groups[k].accs, scan);
  }

  const FIVE: Record := map["f" := Is(I64(5))]

  /** One value comes and goes beside a row without it: the view says 0, the scan says null. */
  const COMING_AND_GOING: seq<Move> := [Insert(FIVE), Insert(map[]), Remove(0)]

  lemma EmptiedSum(d: Def, name: string)
    requires Rounds(d.rnd) && d.groupBy == [] && d.aggs == [Agg(Sum, Some("f"), name)]
    ensures IsExact(TotalsAfter(d, COMING_AND_GOING))
    ensures ViewAnswer(d, TotalsAfter(d, COMING_AND_GOING)) != AnswerOf(d, Scan(d, RowsAfter(COMING_AND_GOING)))
  {
    var moves := COMING_AND_GOING;
    EmptiedTotals(d, name);
    var t := TotalsAfter(d, moves);
    assert Emptied(d.aggs[0], t.groups[[]].accs[0]);
    hide *;
    ViewUnlessEmptied(d, moves, RowsAfter(moves)) by { OneSum(d); }
  }

  lemma OneSum(d: Def)
    requires |d.aggs| == 1 && d.aggs[0].kind == Sum
    ensures Maintainable(d)
  {
  }

  lemma EmptiedTotals(d: Def, name: string)
    requires Rounds(d.rnd) && d.groupBy == [] && d.aggs == [Agg(Sum, Some("f"), name)]
    ensures var t := TotalsAfter(d, COMING_AND_GOING);
      && IsExact(t) && [] in t.groups && Emptied(d.aggs[0], t.groups[[]].accs[0])
  {
    var a: Record, b: Record := FIVE, map[];
    assert KeyOf(d, a) == [] && KeyOf(d, b) == [];
    FiveUnits(d, a, b, name);
    RunByHand(d, a, b);
    hide Rounds, KeyOf, Contribution, TotalsAfter;
    var t1 := Inserted(d, Empty(d), a);
    var t2 := Inserted(d, t1, b);
    assert IsExact(t2) && t2.groups[[]].rows == 2 && t2.groups[[]].accs[0] == ZERO.(count := 1, sum := Fin(5.0), saw := true);
    assert t2.budgets[0].spent == Fin(5.0);
  }

  lemma RunByHand(d: Def, a: Record, b: Record)
    requires a == FIVE && b == map[]
    ensures TotalsAfter(d, COMING_AND_GOING) == Removed(d, Inserted(d, Inserted(d, Empty(d), a), b), a)
  {
    hide Inserted, Removed;
    var m0: seq<Move>, m1, m2, m3 := [], [Insert(a)], [Insert(a), Insert(b)], COMING_AND_GOING;
    assert m3[..2] == m2 && m2[..1] == m1 && m1[..0] == m0;
    assert TotalsAfter(d, m0) == Empty(d) && RowsAfter(m0) == [];
    assert RowsAfter(m1) == [a] && TotalsAfter(d, m1) == Inserted(d, Empty(d), a);
    assert RowsAfter(m2) == [a, b] && TotalsAfter(d, m2) == Inserted(d, TotalsAfter(d, m1), b);
    assert TotalsAfter(d, m3) == Removed(d, TotalsAfter(d, m2), a);
  }

  lemma FiveUnits(d: Def, a: Record, b: Record, name: string)
    requires Rounds(d.rnd) && d.aggs == [Agg(Sum, Some("f"), name)] && a == FIVE && b == map[]
    ensures Contribution(d, d.aggs[0], a) == Some(Fin(5.0)) && Contribution(d, d.aggs[0], b) == None
    ensures d.rnd(0.0 + 5.0) == Fin(5.0) && d.rnd(5.0 + 5.0) == Fin(10.0)
  {
    assert (5 as real) == 5.0;
    assert 5.0.Floor == 5 && 10.0.Floor == 10;
  }

  // -- the view itself -----------------------------------------------------

  function Budgets(exact: seq<bool>, spent: seq<Float>): (b: seq<Budget>)
    requires |exact| == |spent|
    ensures |b| == |exact| && forall i :: 0 <= i < |b| ==> b[i] == Budget(exact[i], spent[i])
  {
    seq(|exact|, i requires 0 <= i < |exact| => Budget(exact[i], spent[i]))
  }

  class View {
    const d: Def
    var groups: map<GroupKey, Group>
    var exact: seq<bool>
    var spent: seq<Float>

    ghost function T(): Sums
      reads this
      requires |exact| == |spent|
    {
      Sums(groups, Budgets(exact, spent))
    }

    ghost predicate Valid()
      reads this
    {
      |exact| == |spent| && WellFormed(d, T())
    }

    constructor (d: Def)
      ensures Valid() && T() == Empty(d) && this.d == d
    {
      this.d, groups := d, map[];
      exact, spent := seq(|d.aggs|, _ => true), seq(|d.aggs|, _ => Fin(0.0));
    }

    /** Whether every aggregate is still exact. */
    method Trusted() returns (yes: bool)
      requires Valid()
      ensures yes <==> IsExact(T())
    {
      for i := 0 to |exact|
        invariant forall j :: 0 <= j < i ==> exact[j]
      {
        if !exact[i] {
          assert !T().budgets[i].exact;
          return false;
        }
      }
      yes := true;
    }

    /** Charge one value against one aggregate's budget. */
    method ChargeOne(i: nat, v: Float)
      requires Valid() && i < |d.aggs| && Summed(d.aggs[i])
      modifies this`exact, this`spent
      ensures Valid()
      ensures T().budgets == old(T().budgets)[i := Charge(d, d.aggs[i], old(T().budgets[i]), Some(v))]
    {
      if !exact[i] { return; }
      if v == Special || v.r.Floor as real != v.r {
        exact := exact[i := false];
        return;
      }
      spent := spent[i := Add(d.rnd, spent[i], Fin(Abs(v.r)))];
      if spent[i] == Special || spent[i].r >= LIMIT as real {
        exact := exact[i := false];
      }
    }

    method ChargeEach(rec: Record)
      requires Valid()
      modifies this`exact, this`spent
      ensures Valid() && T().budgets == ChargeAll(d, old(T().budgets), rec)
    {
      ghost var before := T().budgets;
      for i := 0 to |d.aggs|
        invariant Valid() && |before| == |d.aggs|
        invariant forall j :: 0 <= j < i ==>
          T().budgets[j] == Charge(d, d.aggs[j], before[j], Contribution(d, d.aggs[j], rec))
        invariant forall j :: i <= j < |d.aggs| ==> T().budgets[j] == before[j]
      {
        var c := Contribution(d, d.aggs[i], rec);
        if c.Some? && Summed(d.aggs[i]) {
          ChargeOne(i, c.value);
        }
      }
      assert T().budgets == ChargeAll(d, before, rec);
    }

    method InsertRow(rec: Record)
      requires Valid()
      modifies this
      ensures Valid() && T() == Inserted(d, old(T()), rec)
    {
      var k := KeyOf(d, rec);
      var g := if k in groups then groups[k] else Group(0, seq(|d.aggs|, _ => ZERO));
      var accs := g.accs;
      for i := 0 to |d.aggs|
        invariant |accs| == |d.aggs|
        invariant forall j :: 0 <= j < i ==> accs[j] == AccAdd(d, g.accs[j], Contribution(d, d.aggs[j], rec))
        invariant forall j :: i <= j < |d.aggs| ==> accs[j] == g.accs[j]
      {
        var c := Contribution(d, d.aggs[i], rec);
        if c.Some? {
          accs := accs[i := accs[i].(count := accs[i].count + 1, sum := Add(d.rnd, accs[i].sum, c.value), saw := true)];
        }
      }
      ChargeEach(rec);
      groups := groups[k := Group(g.rows + 1, accs)];
      assert Group(g.rows + 1, accs) == GroupAdd(d, g, rec);
    }

    method RemoveRow(rec: Record)
      requires Valid()
      modifies this
      ensures Valid() && T() == Removed(d, old(T()), rec)
    {
      var k := KeyOf(d, rec);
      if k !in groups { return; }
      var g := groups[k];
      var accs := g.accs;
      for i := 0 to |d.aggs|
        invariant |accs| == |d.aggs|
        invariant forall j :: 0 <= j < i ==> accs[j] == AccSub(d, g.accs[j], Contribution(d, d.aggs[j], rec))
        invariant forall j :: i <= j < |d.aggs| ==> accs[j] == g.accs[j]
      {
        var c := Contribution(d, d.aggs[i], rec);
        if c.Some? {
          var left := if accs[i].count == 0 then 0 else accs[i].count - 1;
          accs := accs[i := accs[i].(count := left, sum := Sub(d.rnd, accs[i].sum, c.value))];
        }
      }
      ChargeEach(rec);
      var rows := if g.rows == 0 then 0 else g.rows - 1;
      assert Group(rows, accs) == GroupSub(d, g, rec);
      groups := if rows == 0 then groups - {k} else groups[k := Group(rows, accs)];
    }
  }
}
