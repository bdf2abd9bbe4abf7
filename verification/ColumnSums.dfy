/**
 * Aggregation straight from columns, against the executor's aggregate over a
 * filtered scan of the same rows: when the two answer alike, and when not.
 */
module ColumnSums {
  import opened Basics
  import opened Varint
  import opened Floats
  import opened Records
  import opened Aggregates
  import opened Totals
  import S = Sorting

  /** A count of rows counts all of them; anything else observes every value that is there, number or not. */
  function Observe(d: Def, a: Agg, acc: Acc, v: Option<Atom>): Acc {
    if a.kind == Count && a.field.None? then acc.(count := acc.count + 1)
    else
      match v
      case None => acc
      case Some(x) =>
        Acc(acc.count + 1, match AsFloat(d, x) case Some(n) => Add(d.rnd, acc.sum, n) case None => acc.sum, true,
          Better(d.cmp, S.Less, acc.min, v), Better(d.cmp, S.Greater, acc.max, v))
  }

  function ObserveAll(d: Def, accs: Accs, rec: Record): (r: Accs)
    requires |accs| == |d.aggs|
    ensures |r| == |accs|
  {
    seq(|d.aggs|, i requires 0 <= i < |d.aggs| => Observe(d, d.aggs[i], accs[i], Given(d.aggs[i], rec)))
  }

  /** The groups of a pass over rows. */
  function Observed(d: Def, rows: seq<Record>): (groups: Groups)
    ensures Shaped(d, groups)
  {
    if rows == [] then map[]
    else
      var before, rec := Observed(d, rows[..|rows| - 1]), rows[|rows| - 1];
      before[KeyOf(d, rec) := ObserveAll(d, AccsAt(d, before, KeyOf(d, rec)), rec)]
  }

  lemma NothingObserved(d: Def)
    ensures Observed(d, []) == map[]
  {
  }

  lemma ObservedNext(d: Def, rows: seq<Record>, rec: Record)
    ensures Observed(d, rows + [rec]) ==
      Observed(d, rows)[KeyOf(d, rec) := ObserveAll(d, AccsAt(d, Observed(d, rows), KeyOf(d, rec)), rec)]
  {
    hide KeyOf, ObserveAll;
    assert (rows + [rec])[..|rows|] == rows;
  }

  /** The answer by group: an aggregate over nothing has no group at all. */
  function ColumnAnswer(d: Def, rows: seq<Record>): Answer {
    var groups := Observed(d, rows);
    map k | k in groups :: Outs(d, groups[k])
  }

  /** The answer's rows: groups in key order, ids by position. */
  function ColumnRows(d: Def, rows: seq<Record>): seq<Row> {
    var keys, answer := S.Sort(ByKey(d.cmp), Met(d, rows)), ColumnAnswer(d, rows);
    seq(|keys|, i requires 0 <= i < |keys| => Row(i, RenderedAt(d, keys[i], answer)))
  }

  // -- one accumulator -----------------------------------------------------

  /** The two accumulators of one group and aggregate, as far as the answer goes. */
  ghost predicate Alike(d: Def, a: Agg, x: Acc, y: Acc, k: GroupKey, rows: seq<Record>) {
    && (a.kind == Count ==> x.count == y.count)
    && (a.kind == Min ==> x.min == y.min)
    && (a.kind == Max ==> x.max == y.max)
    && (Summed(a) ==>
         && x.sum == y.sum
         && x.count == Total(ValuesIn(d, a, k), rows) && y.count == Total(NumbersIn(d, a, k), rows)
         && (x.saw <==> x.count > 0) && (y.saw <==> y.count > 0)
         && x.count >= y.count
         && (x.count > 0 <==> HasValue(d, a, k, rows))
         && (x.count > y.count <==> HasOther(d, a, k, rows))
         && (y.count > 0 <==> HasNumber(d, a, k, rows)))
  }

  /** How many values of the group the aggregate meets. */
  function ValuesIn(d: Def, a: Agg, k: GroupKey): Record -> int {
    (rec: Record) => if KeyOf(d, rec) == k && Given(a, rec).Some? then 1 else 0
  }

  /** How many of them are numbers. */
  function NumbersIn(d: Def, a: Agg, k: GroupKey): Record -> int {
    (rec: Record) => if KeyOf(d, rec) == k && Numeric(a, rec) then 1 else 0
  }

  predicate HasValue(d: Def, a: Agg, k: GroupKey, rows: seq<Record>) {
    exists rec | rec in rows :: KeyOf(d, rec) == k && Given(a, rec).Some?
  }

  predicate HasNumber(d: Def, a: Agg, k: GroupKey, rows: seq<Record>) {
    exists rec | rec in rows :: KeyOf(d, rec) == k && Numeric(a, rec)
  }

  /** A value of the group that is not a number. */
  predicate HasOther(d: Def, a: Agg, k: GroupKey, rows: seq<Record>) {
    exists rec | rec in rows :: KeyOf(d, rec) == k && NotNumeric(a, rec)
  }

  predicate IsNumber(a: Atom) { a.I64? || a.U64? || a.F64? }

  predicate Numeric(a: Agg, rec: Record) { Given(a, rec).Some? && IsNumber(Given(a, rec).value) }

  predicate NotNumeric(a: Agg, rec: Record) { Given(a, rec).Some? && !IsNumber(Given(a, rec).value) }

  lemma HasNext(d: Def, a: Agg, k: GroupKey, rows: seq<Record>, rec: Record)
    ensures HasValue(d, a, k, rows + [rec]) <==> HasValue(d, a, k, rows) || (KeyOf(d, rec) == k && Given(a, rec).Some?)
    ensures HasNumber(d, a, k, rows + [rec]) <==> HasNumber(d, a, k, rows) || (KeyOf(d, rec) == k && Numeric(a, rec))
    ensures HasOther(d, a, k, rows + [rec]) <==> HasOther(d, a, k, rows) || (KeyOf(d, rec) == k && NotNumeric(a, rec))
  {
    hide KeyOf, Given, Numeric, NotNumeric;
    var all := rows + [rec];
    assert all[|rows|] == rec;
    assert forall r :: r in all <==> r in rows || r == rec;
  }

  lemma AlikeNext(d: Def, a: Agg, x: Acc, y: Acc, k: GroupKey, rows: seq<Record>, rec: Record)
    requires Alike(d, a, x, y, k, rows)
    ensures KeyOf(d, rec) == k ==> Alike(d, a, Observe(d, a, x, Given(a, rec)), ScanAcc(d, a, y, rec), k, rows + [rec])
    ensures KeyOf(d, rec) != k ==> Alike(d, a, x, y, k, rows + [rec])
  {
    HasNext(d, a, k, rows, rec);
    TotalNext(ValuesIn(d, a, k), rows, rec);
    TotalNext(NumbersIn(d, a, k), rows, rec);
    hide KeyOf, HasValue, HasNumber, HasOther, Add, Total;
  }

  lemma AlikeNothing(d: Def, a: Agg, k: GroupKey)
    ensures Alike(d, a, ZERO, ZERO, k, [])
  {
  }

  /** Row by row, the pass over columns and the scan keep accumulators that differ only where a value is no number. */
  lemma {:induction false} PassAlike(d: Def, rows: seq<Record>, k: GroupKey, i: nat)
    requires i < |d.aggs|
    ensures k in Observed(d, rows) <==> k in Scan(d, rows)
    ensures Alike(d, d.aggs[i], AccsAt(d, Observed(d, rows), k)[i], AccsAt(d, Scan(d, rows), k)[i], k, rows)
  {
    hide Alike, KeyOf, Observe, ScanAcc;
    if rows == [] {
      AlikeNothing(d, d.aggs[i], k);
    } else {
      var n, rec := |rows| - 1, rows[|rows| - 1];
      PassAlike(d, rows[..n], k, i);
      AlikeNext(d, d.aggs[i], AccsAt(d, Observed(d, rows[..n]), k)[i], AccsAt(d, Scan(d, rows[..n]), k)[i], k, rows[..n], rec);
      assert rows == rows[..n] + [rec];
    }
  }

  lemma {:induction false} SameGroups(d: Def, rows: seq<Record>)
    ensures Observed(d, rows).Keys == Scan(d, rows).Keys
    ensures Scan(d, rows) == map[] <==> rows == []
  {
    hide KeyOf, ObserveAll, ScanAll;
    if rows != [] {
      SameGroups(d, rows[..|rows| - 1]);
    }
  }

  // -- the condition -------------------------------------------------------

  /** One sum, over two counts: the same average. */
  predicate SameMean(d: Def, sum: Float, n: nat, m: nat) {
    n > 0 && m > 0 && Divided(d, sum, n) == Divided(d, sum, m)
  }

  /**
   * One group's sum or average stands for the scan's: a sum when there is a number, if there
   * is anything; an average when, besides, it is the same over all the values as over the numbers.
   */
  ghost predicate Meets(d: Def, a: Agg, sum: Float, k: GroupKey, rows: seq<Record>) {
    Summed(a) && HasOther(d, a, k, rows) ==>
      && HasNumber(d, a, k, rows)
      && (a.kind == Avg ==>
           var n, m := Total(NumbersIn(d, a, k), rows), Total(ValuesIn(d, a, k), rows);
           n > 0 && m > 0 && SameMean(d, sum, n, m))
  }

  /** What the scan has summed of a group. */
  function SumOf(d: Def, rows: seq<Record>, k: GroupKey, i: nat): Float
    requires i < |d.aggs|
  {
    AccsAt(d, Scan(d, rows), k)[i].sum
  }

  /** The whole condition under which the columns' answer stands for the scan's. */
  ghost predicate Stands(d: Def, rows: seq<Record>) {
    && (d.groupBy != [] || rows != [])
    && forall k, i | k in Scan(d, rows) && 0 <= i < |d.aggs| :: Meets(d, d.aggs[i], SumOf(d, rows, k, i), k, rows)
  }

  lemma OutAgrees(d: Def, a: Agg, x: Acc, y: Acc, k: GroupKey, rows: seq<Record>)
    requires Alike(d, a, x, y, k, rows)
    ensures OutOf(d, a, x) == OutOf(d, a, y) <==> Meets(d, a, y.sum, k, rows)
  {
    hide HasNumber, HasOther, HasValue, Divided, Total;
  }

  lemma GroupAgrees(d: Def, rows: seq<Record>, k: GroupKey, i: nat)
    requires i < |d.aggs| && k in Observed(d, rows) && k in Scan(d, rows)
    ensures OutOf(d, d.aggs[i], Observed(d, rows)[k][i]) == OutOf(d, d.aggs[i], Scan(d, rows)[k][i])
      <==> Meets(d, d.aggs[i], SumOf(d, rows, k, i), k, rows)
  {
    hide Observed, Scan, OutOf, Alike, Meets;
    PassAlike(d, rows, k, i);
    OutAgrees(d, d.aggs[i], Observed(d, rows)[k][i], Scan(d, rows)[k][i], k, rows);
  }

  /**
   * Over the same rows in the same order, columns answer as the scan does exactly when
   * each group's sums and averages stand and, without grouping, some row is there.
   */
  lemma SameOrder(d: Def, rows: seq<Record>)
    ensures ColumnAnswer(d, rows) == AnswerOf(d, Scan(d, rows)) <==> Stands(d, rows)
  {
    if rows == [] {
      SameGroups(d, rows);
      assert ColumnAnswer(d, rows) == map[];
      assert d.groupBy == [] ==> [] in AnswerOf(d, Scan(d, rows));
    } else {
      SomeRows(d, rows);
    }
  }

  lemma SomeRows(d: Def, rows: seq<Record>)
    requires rows != []
    ensures ColumnAnswer(d, rows) == AnswerOf(d, Scan(d, rows)) <==> Stands(d, rows)
  {
    hide Observed, Scan, OutOf, Meets, SumOf, AnswerOf, ColumnAnswer;
    var x, y := Observed(d, rows), Scan(d, rows);
    SameGroups(d, rows);
    ShownGroups(d, rows);
    AnswersAgree(d, x, y);
    forall k, i | k in y && 0 <= i < |d.aggs|
      ensures OutOf(d, d.aggs[i], x[k][i]) == OutOf(d, d.aggs[i], y[k][i]) <==> Meets(d, d.aggs[i], SumOf(d, rows, k, i), k, rows)
    {
      GroupAgrees(d, rows, k, i);
    }
    assert forall k :: k in x <==> k in y;
  }

  lemma ShownGroups(d: Def, rows: seq<Record>)
    requires rows != []
    ensures ColumnAnswer(d, rows) == AnswerOf(d, Observed(d, rows))
  {
    SameGroups(d, rows);
    hide Outs;
    assert Observed(d, rows) != map[] by {
      assert Observed(d, rows).Keys == Scan(d, rows).Keys;
    }
  }

  /** In whatever order the rows are met, the condition is the same while sums are exact. */
  lemma StandsAnyOrder(d: Def, rows: seq<Record>, other: seq<Record>)
    requires Rounds(d.rnd) && AllSummable(d, rows) && multiset(rows) == multiset(other)
    ensures Stands(d, rows) <==> Stands(d, other)
  {
    GroupsAnyOrder(d, rows, other);
    SameSize(rows, other);
    forall k, i | k in Scan(d, rows) && 0 <= i < |d.aggs|
      ensures Meets(d, d.aggs[i], SumOf(d, rows, k, i), k, rows) <==> Meets(d, d.aggs[i], SumOf(d, other, k, i), k, other)
    {
      MeetsAnyOrder(d, rows, other, k, i);
    }
    hide Scan, Meets, SumOf, AllSummable;
  }

  lemma MeetsAnyOrder(d: Def, rows: seq<Record>, other: seq<Record>, k: GroupKey, i: nat)
    requires Rounds(d.rnd) && AllSummable(d, rows) && AllSummable(d, other) && multiset(rows) == multiset(other)
    requires k in Scan(d, rows) && k in Scan(d, other) && i < |d.aggs|
    ensures Meets(d, d.aggs[i], SumOf(d, rows, k, i), k, rows) <==> Meets(d, d.aggs[i], SumOf(d, other, k, i), k, other)
  {
    var a := d.aggs[i];
    ScanTotals(d, rows);
    ScanTotals(d, other);
    TotalPermuted(UnitsIn(d, a, k), rows, other);
    TotalPermuted(NumbersIn(d, a, k), rows, other);
    TotalPermuted(ValuesIn(d, a, k), rows, other);
    Present(rows, other);
    assert Summed(a) ==> SumOf(d, rows, k, i) == SumOf(d, other, k, i) by {
      assert ScanOk(d, a, Scan(d, rows)[k][i], k, rows) && ScanOk(d, a, Scan(d, other)[k][i], k, other);
      hide Scan, Total, Rounds, AllSummable;
    }
    hide Scan, Total, KeyOf, NotNumeric, Numeric, SumOf, SameMean, Rounds, AllSummable, ScanOk;
  }

  /**
   * Columns hold rows in the order they were written. While sums are exact that order
   * does not show, and the answer is the scan's exactly under the same condition.
   */
  lemma WrittenOrder(d: Def, rows: seq<Record>, table: seq<Record>)
    requires Rounds(d.rnd) && Faithful(d, rows) && AllSummable(d, rows)
    requires multiset(rows) == multiset(table)
    ensures ColumnAnswer(d, rows) == AnswerOf(d, Scan(d, table)) <==> Stands(d, table)
    ensures Stands(d, table) ==> ColumnRows(d, rows) == AnswerRows(d, table)
  {
    SameOrder(d, rows);
    AnyOrder(d, rows, table);
    StandsAnyOrder(d, rows, table);
    hide Rounds, Faithful, AllSummable, ColumnAnswer, AnswerOf, Scan, AnswerRows, ColumnRows, Meets;
    if Stands(d, rows) {
      SameRows(d, rows);
    }
  }

  /**
   * Under rounding to nearest, and over at most 2^51 numbers, an average that also
   * counted something else is the same only of a sum that is zero or not finite.
   */
  lemma MeanStands(d: Def, sum: Float, n: nat, m: nat)
    requires d.rnd == Double && 0 < n < m && 2.0 * n as real <= HALF
    ensures SameMean(d, sum, n, m) <==> sum == Fin(0.0) || sum == Special
  {
    if sum.Fin? {
      MeansApart(sum.r, n, m);
      hide Double;
      assert Divided(d, sum, n) == Double(sum.r / n as real) && Divided(d, sum, m) == Double(sum.r / m as real);
    }
  }

  // -- columns of one kind -------------------------------------------------

  /** The values a sum or average reads are all numbers or none of them is. */
  ghost predicate OneSort(d: Def, rows: seq<Record>) {
    forall i, a, b | 0 <= i < |d.aggs| && Summed(d.aggs[i]) && a in rows && b in rows ::
      !(Numeric(d.aggs[i], a) && NotNumeric(d.aggs[i], b))
  }

  /** Every value a sum or average reads is a number. */
  ghost predicate AllNumbers(d: Def, rows: seq<Record>) {
    forall i, rec | 0 <= i < |d.aggs| && Summed(d.aggs[i]) && rec in rows :: !NotNumeric(d.aggs[i], rec)
  }

  /** Then the columns' answer stands exactly when all the values summed are numbers. */
  lemma OneSortStands(d: Def, rows: seq<Record>)
    requires OneSort(d, rows)
    ensures Stands(d, rows) <==> AllNumbers(d, rows) && (d.groupBy != [] || rows != [])
  {
    hide NotNumeric, Numeric, KeyOf, Scan, SumOf, Total;
    if !AllNumbers(d, rows) {
      var i, rec :| 0 <= i < |d.aggs| && Summed(d.aggs[i]) && rec in rows && NotNumeric(d.aggs[i], rec);
      ScanMeets(d, rows, rec);
      var k := KeyOf(d, rec);
      assert HasOther(d, d.aggs[i], k, rows) && !HasNumber(d, d.aggs[i], k, rows);
      assert !Meets(d, d.aggs[i], SumOf(d, rows, k, i), k, rows);
    }
  }

  lemma SameRows(d: Def, rows: seq<Record>)
    requires ColumnAnswer(d, rows) == AnswerOf(d, Scan(d, rows)) && (d.groupBy != [] || rows != [])
    ensures ColumnRows(d, rows) == AnswerRows(d, rows)
  {
    hide ColumnAnswer, AnswerOf, Scan, RenderedAt, S.Sort, Met;
    assert ShownKeys(d, rows) == S.Sort(ByKey(d.cmp), Met(d, rows));
  }

  /** Rows passed over in one order stand in for a scan of them in another. */
  ghost predicate StandsIn(d: Def, rows: seq<Record>, table: seq<Record>) {
    Rounds(d.rnd) && Faithful(d, rows) && AllSummable(d, rows) ==>
      && (ColumnAnswer(d, rows) == AnswerOf(d, Scan(d, table)) <==> Stands(d, table))
      && (Stands(d, table) ==> ColumnRows(d, rows) == AnswerRows(d, table))
  }

  lemma AnyStandsIn(d: Def, rows: seq<Record>, table: seq<Record>)
    requires multiset(rows) == multiset(table)
    ensures StandsIn(d, rows, table)
  {
    hide Rounds, Faithful, AllSummable, ColumnAnswer, AnswerOf, Scan, AnswerRows, ColumnRows, Stands;
    if Rounds(d.rnd) && Faithful(d, rows) && AllSummable(d, rows) {
      WrittenOrder(d, rows, table);
    }
  }

  // -- where the answers part ----------------------------------------------

  function OneSum(cmp: Compare, canon: Atom -> Atom, rnd: real -> Float): Def {
    Def([], [Agg(Sum, Some("f"), "s")], cmp, canon, rnd)
  }

  function Holding(a: Atom): Record { map["f" := Is(a)] }

  /** A sum over texts: null by scan, zero by columns. */
  lemma TextsSumToZero(d: Def, s: string)
    requires d == OneSum(d.cmp, d.canon, d.rnd)
    ensures AnswerOf(d, Scan(d, [Holding(Str(s))])) == map[[] := [Null]]
    ensures ColumnAnswer(d, [Holding(Str(s))]) == map[[] := [Is(F64(Fin(0.0)))]]
  {
    var rec := Holding(Str(s));
    NoneMet(d);
    ScanNext(d, [], rec);
    ObservedNext(d, [], rec);
    assert [] + [rec] == [rec] && KeyOf(d, rec) == [];
    assert Given(d.aggs[0], rec) == Some(Str(s));
    var x, y := ObserveAll(d, Fresh(d), rec), ScanAll(d, Fresh(d), rec);
    assert Outs(d, x) == [Is(F64(Fin(0.0)))] && Outs(d, y) == [Null];
  }

  /** A sum over a number and a text stands: the text adds nothing, and the number was seen. */
  lemma TextBesideNumber(d: Def, s: string)
    requires d == OneSum(d.cmp, d.canon, Double)
    ensures Stands(d, [Holding(I64(1)), Holding(Str(s))])
  {
    var rows := [Holding(I64(1)), Holding(Str(s))];
    assert rows[0] in rows && Numeric(d.aggs[0], rows[0]) && KeyOf(d, rows[0]) == [];
    hide Scan, SumOf;
    forall k, i | k in Scan(d, rows) && 0 <= i < |d.aggs| ensures Meets(d, d.aggs[i], SumOf(d, rows, k, i), k, rows) {
      OnlyEmptyKey(d, rows, k);
      assert HasNumber(d, d.aggs[i], k, rows);
    }
  }

  lemma OnlyEmptyKey(d: Def, rows: seq<Record>, k: GroupKey)
    requires d.groupBy == [] && k in Scan(d, rows)
    ensures k == []
  {
    MetIs(d, rows);
    hide Met, Scan;
  }

  /** An ungrouped aggregate over nothing: one row by scan, none by columns. */
  lemma NothingHasNoRow(d: Def)
    requires d.groupBy == []
    ensures |AnswerRows(d, [])| == 1 && ColumnRows(d, []) == []
  {
  }

  const BIG: Atom := I64(9_007_199_254_740_992)

  /** 2^53 and two ones by id, and as they lie once the first has been written again. */
  const BY_ID: seq<Record> := [Holding(BIG), Holding(I64(1)), Holding(I64(1))]
  const AS_WRITTEN: seq<Record> := [Holding(I64(1)), Holding(I64(1)), Holding(BIG)]

  /** Beyond 2^53 the order shows: under rounding to nearest the scan stops at 2^53 and the columns do not. */
  lemma OrderShows(d: Def)
    requires d == OneSum(d.cmp, d.canon, Double)
    ensures multiset(BY_ID) == multiset(AS_WRITTEN)
    ensures AnswerOf(d, Scan(d, BY_ID)) == map[[] := [Is(F64(Fin(9007199254740992.0)))]]
    ensures ColumnAnswer(d, AS_WRITTEN) == map[[] := [Is(F64(Fin(9007199254740994.0)))]]
  {
    Exactly();
    hide Double, Scan, Observed, AnswerOf, ColumnAnswer;
    Bag(Holding(BIG), Holding(I64(1)));
    ThreeSummed(d, LIMIT, 1, 1, 9007199254740992.0, 9007199254740992.0, 9007199254740992.0);
    ThreeSummed(d, 1, 1, LIMIT, 1.0, 2.0, 9007199254740994.0);
  }

  lemma Exactly()
    ensures Double(1.0) == Fin(1.0) && Double(2.0) == Fin(2.0)
    ensures Double(9007199254740992.0) == Fin(9007199254740992.0)
    ensures Double(9007199254740993.0) == Fin(9007199254740992.0)
    ensures Double(9007199254740994.0) == Fin(9007199254740994.0)
  {
    DoubleRounds();
    FirstGap();
    hide Double;
    assert 1.0.Floor as real == 1.0 && 2.0.Floor as real == 2.0 && 9007199254740992.0.Floor as real == 9007199254740992.0;
  }

  lemma Bag<T>(x: T, y: T)
    ensures multiset([x, y, y]) == multiset([y, y, x])
  {
  }

  /** Both passes hold this lone sum so far. */
  ghost predicate SumIs(d: Def, rows: seq<Record>, sum: real) {
    && |d.aggs| == 1
    && Scan(d, rows).Keys == Observed(d, rows).Keys == {[]}
    && AccsAt(d, Scan(d, rows), [])[0].saw && AccsAt(d, Observed(d, rows), [])[0].saw
    && AccsAt(d, Scan(d, rows), [])[0].sum == AccsAt(d, Observed(d, rows), [])[0].sum == Fin(sum)
  }

  lemma ThreeSummed(d: Def, a: i64, b: i64, c: i64, x: real, y: real, z: real)
    requires d == OneSum(d.cmp, d.canon, Double)
    requires Double(a as real) == Fin(a as real) && Double(b as real) == Fin(b as real) && Double(c as real) == Fin(c as real)
    requires Double(0.0 + a as real) == Fin(x) && Double(x + b as real) == Fin(y) && Double(y + c as real) == Fin(z)
    ensures var rows := [Holding(I64(a)), Holding(I64(b)), Holding(I64(c))];
      && AnswerOf(d, Scan(d, rows)) == map[[] := [Is(F64(Fin(z)))]]
      && ColumnAnswer(d, rows) == map[[] := [Is(F64(Fin(z)))]]
  {
    hide *;
    var p, q, r := Holding(I64(a)), Holding(I64(b)), Holding(I64(c));
    SumFirst(d, a, x);
    SumNext(d, [p], x, b, y);
    assert [p] + [q] == [p, q];
    SumNext(d, [p, q], y, c, z);
    assert [p, q] + [r] == [p, q, r];
    OnlyGroup(d, [p, q, r], z);
  }

  lemma SumFirst(d: Def, n: i64, sum: real)
    requires d == OneSum(d.cmp, d.canon, Double)
    requires Double(n as real) == Fin(n as real) && Double(0.0 + n as real) == Fin(sum)
    ensures SumIs(d, [Holding(I64(n))], sum)
  {
    var rec := Holding(I64(n));
    assert [] + [rec] == [rec];
    assert KeyOf(d, rec) == [] && Given(d.aggs[0], rec) == Some(I64(n));
    NoneMet(d);
    ScanNext(d, [], rec);
    ObservedNext(d, [], rec);
    assert Observed(d, []) == map[];
    hide Scan, Observed, Double;
  }

  lemma SumNext(d: Def, rows: seq<Record>, before: real, n: i64, sum: real)
    requires d == OneSum(d.cmp, d.canon, Double) && SumIs(d, rows, before)
    requires Double(n as real) == Fin(n as real) && Double(before + n as real) == Fin(sum)
    ensures SumIs(d, rows + [Holding(I64(n))], sum)
  {
    var rec := Holding(I64(n));
    assert KeyOf(d, rec) == [];
    ScanNext(d, rows, rec);
    ObservedNext(d, rows, rec);
    hide Scan, Observed, KeyOf;
    SumSteps(d, AccsAt(d, Scan(d, rows), [])[0], n, before, sum);
    SumSteps(d, AccsAt(d, Observed(d, rows), [])[0], n, before, sum);
    hide Double, ScanAcc, Observe, Holding;
  }

  /** What either pass makes of one integer. */
  lemma SumSteps(d: Def, acc: Acc, n: i64, before: real, sum: real)
    requires d == OneSum(d.cmp, d.canon, Double) && acc.sum == Fin(before)
    requires Double(n as real) == Fin(n as real) && Double(before + n as real) == Fin(sum)
    ensures var rec, a := Holding(I64(n)), d.aggs[0];
      && ScanAcc(d, a, acc, rec).sum == Fin(sum) && ScanAcc(d, a, acc, rec).saw
      && Observe(d, a, acc, Given(a, rec)).sum == Fin(sum) && Observe(d, a, acc, Given(a, rec)).saw
  {
    hide Double, Better;
    assert Given(d.aggs[0], Holding(I64(n))) == Some(I64(n));
  }

  lemma OnlyGroup(d: Def, rows: seq<Record>, sum: real)
    requires d == OneSum(d.cmp, d.canon, Double) && SumIs(d, rows, sum)
    ensures AnswerOf(d, Scan(d, rows)) == map[[] := [Is(F64(Fin(sum)))]]
    ensures ColumnAnswer(d, rows) == map[[] := [Is(F64(Fin(sum)))]]
  {
    hide Scan, Observed, Double;
    var x, y := Scan(d, rows), Observed(d, rows);
    assert [] in x && [] in y && x != map[];
    assert Outs(d, x[[]]) == [Is(F64(Fin(sum)))] && Outs(d, y[[]]) == [Is(F64(Fin(sum)))];
  }
}
