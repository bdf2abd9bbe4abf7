/**
 * What an aggregate answers, from the rows alone: which rows an answer row is of,
 * and what their fields make of each output.
 */
module Answers {
  import opened Basics
  import opened Varint
  import opened Floats
  import opened Records
  import opened Aggregates
  import opened Totals
  import S = Sorting
  import TopK

  // -- rows and their groups -----------------------------------------------

  /** A record is of a group: the group holds in each grouping field its value's representative, or null for none. */
  predicate Belongs(d: Def, rec: Record, group: Record) {
    forall f | f in d.groupBy ::
      f in group && group[f] == match Field(rec, f) case None => Null case Some(a) => Is(d.canon(a))
  }

  /** One for each row of the group that meets a test. */
  function Where(d: Def, group: Record, test: Record -> bool): Record -> int {
    (rec: Record) => if Belongs(d, rec, group) && test(rec) then 1 else 0
  }

  predicate IsNumber(a: Atom) { a.I64? || a.U64? || a.F64? }

  /** The whole number a value is, if it is one. */
  function WholeOf(a: Atom): Option<int> {
    match a
    case I64(n) => Some(n)
    case U64(n) => Some(n)
    case F64(Fin(r)) => if r.Floor as real == r then Some(r.Floor) else None
    case _ => None
  }

  /** The whole number a field holds, or zero. */
  function NumberIn(f: string): Record -> int {
    (rec: Record) => if Field(rec, f).Some? && WholeOf(Field(rec, f).value).Some? then WholeOf(Field(rec, f).value).value else 0
  }

  function SizeIn(f: string): Record -> int {
    (rec: Record) => IntAbs(NumberIn(f)(rec))
  }

  /** Every number a field holds is whole, and their sizes add up to less than 2^53. */
  ghost predicate Exactly(f: string, rows: seq<Record>) {
    && (forall rec | rec in rows :: Field(rec, f).Some? && IsNumber(Field(rec, f).value) ==> WholeOf(Field(rec, f).value).Some?)
    && Total(SizeIn(f), rows) < LIMIT
  }

  /** Whatever is summed or averaged is exact. */
  ghost predicate SumsExact(d: Def, rows: seq<Record>) {
    forall i | 0 <= i < |d.aggs| && Summed(d.aggs[i]) && d.aggs[i].field.Some? :: Exactly(d.aggs[i].field.value, rows)
  }

  function HasNumber(f: string): Record -> bool {
    (rec: Record) => Field(rec, f).Some? && IsNumber(Field(rec, f).value)
  }

  function GroupNumber(d: Def, group: Record, f: string): Record -> int {
    (rec: Record) => if Belongs(d, rec, group) then NumberIn(f)(rec) else 0
  }

  /** What a count counts: every row, or those with the field. */
  function Counted(a: Agg): Record -> bool {
    (rec: Record) => a.field.None? || Field(rec, a.field.value).Some?
  }

  /** A value of the group, and none of the group strictly to one side of it; null where the group holds none. */
  ghost predicate IsBest(d: Def, c: Cell, side: S.Ordering, f: string, group: Record, rows: seq<Record>) {
    if !(exists rec | rec in rows :: Belongs(d, rec, group) && Field(rec, f).Some?) then c == Null
    else
      exists rec | rec in rows :: Belongs(d, rec, group) && Field(rec, f).Some? && c == Is(d.canon(Field(rec, f).value)) &&
        forall other | other in rows :: Belongs(d, other, group) && Field(other, f).Some? ==>
          d.cmp(Field(other, f).value, Field(rec, f).value) != side
  }

  /** What the rows of a group make of one aggregate. */
  ghost predicate CellIs(d: Def, a: Agg, c: Cell, group: Record, rows: seq<Record>) {
    match a.kind
    case Count =>
      c == Is(U64(Total(Where(d, group, Counted(a)), rows) % TWO64))
    case Min => if a.field.None? then c == Null else IsBest(d, c, S.Less, a.field.value, group, rows)
    case Max => if a.field.None? then c == Null else IsBest(d, c, S.Greater, a.field.value, group, rows)
    case Sum =>
      c == if a.field.None? || Total(Where(d, group, HasNumber(a.field.value)), rows) == 0 then Null
        else Is(F64(Fin(Total(GroupNumber(d, group, a.field.value), rows) as real)))
    case Avg =>
      if a.field.None? || Total(Where(d, group, HasNumber(a.field.value)), rows) == 0 then c == Null
      else
        var n := Total(Where(d, group, HasNumber(a.field.value)), rows);
        n > 0 && c == Is(F64(d.rnd(Total(GroupNumber(d, group, a.field.value), rows) as real / n as real)))
  }

  // -- groups --------------------------------------------------------------

  /** An answer row shows its group's key. */
  lemma ShownKeyIs(d: Def, rows: seq<Record>, i: nat)
    requires OwnNames(d) && i < |AnswerRows(d, rows)|
    ensures var k, shown := ShownKeys(d, rows)[i], AnswerRows(d, rows)[i].rec;
      && |k| == |d.groupBy| && k in AnswerOf(d, Scan(d, rows))
      && shown == Rendered(d, k, AnswerOf(d, Scan(d, rows))[k])
      && forall p | 0 <= p < |k| :: Lookup(shown, d.groupBy[p]) == Some(k[p])
  {
    var k := ShownKeys(d, rows)[i];
    KeyShown(d, rows, k);
    var outs := AnswerOf(d, Scan(d, rows))[k];
    forall p | 0 <= p < |k| ensures Lookup(Rendered(d, k, outs), d.groupBy[p]) == Some(k[p]) {
      var rec := MetBy(d, rows, k);
      hide Scan, AnswerOf, ShownKeys;
      SetOther(SetAll(map[], d.groupBy, k), Outputs(d), outs, d.groupBy[p]);
      SetOwn(map[], d.groupBy, k, (g: string) => Canon(d, CellOf(rec, g)), d.groupBy[p]);
    }
  }

  lemma KeyShown(d: Def, rows: seq<Record>, k: GroupKey)
    requires k in ShownKeys(d, rows)
    ensures |k| == |d.groupBy| && k in AnswerOf(d, Scan(d, rows)) && |AnswerOf(d, Scan(d, rows))[k]| == |d.aggs|
  {
    MetIs(d, rows);
    S.SortMembers(ByKey(d.cmp), Met(d, rows));
    ScanNone(d, rows);
    hide Met, S.Sort, Scan;
  }

  /** A row of a group that is shown under some grouping. */
  lemma MetBy(d: Def, rows: seq<Record>, k: GroupKey) returns (rec: Record)
    requires k in ShownKeys(d, rows) && d.groupBy != []
    ensures rec in rows && KeyOf(d, rec) == k
  {
    S.SortMembers(ByKey(d.cmp), Met(d, rows));
    hide KeyOf, Met, S.Sort;
    MetFrom(d, rows, k);
    rec :| rec in rows && KeyOf(d, rec) == k;
  }

  /** Belonging to an answer row is being filed under its key. */
  lemma BelongsIs(d: Def, rows: seq<Record>, i: nat, rec: Record)
    requires OwnNames(d) && i < |AnswerRows(d, rows)|
    ensures Belongs(d, rec, AnswerRows(d, rows)[i].rec) <==> KeyOf(d, rec) == ShownKeys(d, rows)[i]
  {
    ShownKeyIs(d, rows, i);
    var k, shown := ShownKeys(d, rows)[i], AnswerRows(d, rows)[i].rec;
    hide AnswerRows, ShownKeys, Rendered, AnswerOf, Scan;
    KeyByFields(d, rec, k, shown);
  }

  lemma KeyByFields(d: Def, rec: Record, k: GroupKey, shown: Record)
    requires |k| == |d.groupBy| && forall p | 0 <= p < |k| :: Lookup(shown, d.groupBy[p]) == Some(k[p])
    ensures Belongs(d, rec, shown) <==> KeyOf(d, rec) == k
  {
    forall p | 0 <= p < |k| ensures KeyOf(d, rec)[p] == match Field(rec, d.groupBy[p]) case None => Null case Some(a) => Is(d.canon(a)) {
    }
    if Belongs(d, rec, shown) {
      forall p | 0 <= p < |k| ensures KeyOf(d, rec)[p] == k[p] {
        assert d.groupBy[p] in d.groupBy;
      }
    }
  }

  /** A group's grouping fields hold its key. */
  predicate Holding(d: Def, group: Record, k: GroupKey) {
    |k| == |d.groupBy| && forall p | 0 <= p < |k| :: Lookup(group, d.groupBy[p]) == Some(k[p])
  }

  /** The group of a shown key. */
  lemma GroupHolding(d: Def, rows: seq<Record>, k: GroupKey) returns (group: Record)
    requires k in ShownKeys(d, rows)
    ensures Holding(d, group, k) && (forall f :: f in group <==> f in d.groupBy)
    ensures group == SetAll(map[], d.groupBy, k)
  {
    KeyShown(d, rows, k);
    group := SetAll(map[], d.groupBy, k);
    forall f | f !in d.groupBy ensures f !in group {
      SetOther(map[], d.groupBy, k, f);
    }
    forall p | 0 <= p < |k| ensures Lookup(group, d.groupBy[p]) == Some(k[p]) {
      var rec := MetBy(d, rows, k);
      hide ShownKeys;
      SetOwn(map[], d.groupBy, k, (g: string) => Canon(d, CellOf(rec, g)), d.groupBy[p]);
    }
  }

  // -- sums ----------------------------------------------------------------

  lemma {:induction false} TotalSame(f: Record -> int, g: Record -> int, rows: seq<Record>)
    requires forall rec | rec in rows :: f(rec) == g(rec)
    ensures Total(f, rows) == Total(g, rows)
  {
    if rows != [] {
      TotalSame(f, g, rows[..|rows| - 1]);
    }
  }

  lemma {:induction false} TotalMember(f: Record -> int, rows: seq<Record>, rec: Record)
    requires rec in rows && forall r :: f(r) >= 0
    ensures 0 <= f(rec) <= Total(f, rows)
  {
    var n := |rows| - 1;
    if rec in rows[..n] {
      TotalMember(f, rows[..n], rec);
    } else {
      TotalNonNegative(f, rows[..n]);
    }
  }

  lemma {:induction false} TotalNonNegative(f: Record -> int, rows: seq<Record>)
    requires forall r :: f(r) >= 0
    ensures Total(f, rows) >= 0
  {
    if rows != [] {
      TotalNonNegative(f, rows[..|rows| - 1]);
    }
  }

  /** A field that is exact contributes the very whole numbers it holds. */
  lemma ContributesWhole(d: Def, a: Agg, f: string, rows: seq<Record>, rec: Record)
    requires Rounds(d.rnd) && Summed(a) && a.field == Some(f) && Exactly(f, rows) && rec in rows
    ensures Contribution(d, a, rec) == if HasNumber(f)(rec) then Some(Fin(NumberIn(f)(rec) as real)) else None
  {
    forall r: Record ensures SizeIn(f)(r) >= 0 {
      assert SizeIn(f)(r) == IntAbs(NumberIn(f)(r));
    }
    TotalMember(SizeIn(f), rows, rec);
    hide Total;
    var n := NumberIn(f)(rec);
    assert -LIMIT < n < LIMIT;
    assert (n as real).Floor == n;
  }

  lemma NoContribution(d: Def, a: Agg, rec: Record)
    requires Summed(a) && a.field.None?
    ensures Contribution(d, a, rec) == None
  {
  }

  lemma SummableExact(d: Def, a: Agg, rows: seq<Record>)
    requires Rounds(d.rnd) && Summed(a) && a.field.Some? && Exactly(a.field.value, rows)
    ensures Summable(d, a, rows)
  {
    var f := a.field.value;
    forall rec | rec in rows ensures Whole(Contribution(d, a, rec)) && Magnitude(d, a)(rec) == SizeIn(f)(rec) {
      ContributesWhole(d, a, f, rows, rec);
      assert (NumberIn(f)(rec) as real).Floor == NumberIn(f)(rec);
    }
    TotalSame(Magnitude(d, a), SizeIn(f), rows);
  }

  lemma SummableNothing(d: Def, a: Agg, rows: seq<Record>)
    requires Summed(a) && a.field.None?
    ensures Summable(d, a, rows)
  {
    forall rec ensures Magnitude(d, a)(rec) == 0 && Whole(Contribution(d, a, rec)) {
      NoContribution(d, a, rec);
    }
    TotalZero(Magnitude(d, a), rows);
  }

  lemma {:induction false} TotalZero(f: Record -> int, rows: seq<Record>)
    requires forall rec | rec in rows :: f(rec) == 0
    ensures Total(f, rows) == 0
  {
    if rows != [] {
      TotalZero(f, rows[..|rows| - 1]);
    }
  }

  lemma AllExact(d: Def, rows: seq<Record>)
    requires Rounds(d.rnd) && SumsExact(d, rows)
    ensures AllSummable(d, rows)
  {
    hide Summable, Exactly, Rounds;
    forall i | 0 <= i < |d.aggs| ensures Summable(d, d.aggs[i], rows) {
      if Summed(d.aggs[i]) {
        if d.aggs[i].field.Some? { SummableExact(d, d.aggs[i], rows); } else { SummableNothing(d, d.aggs[i], rows); }
      } else {
        NotSummed(d, d.aggs[i], rows);
      }
    }
  }

  lemma NotSummed(d: Def, a: Agg, rows: seq<Record>)
    requires !Summed(a)
    ensures Summable(d, a, rows)
  {
  }

  // -- cells ---------------------------------------------------------------

  /** What the accumulator of a shown group is. */
  lemma AccShown(d: Def, rows: seq<Record>, i: nat, j: nat)
    requires i < |AnswerRows(d, rows)| && j < |d.aggs|
    ensures var k := ShownKeys(d, rows)[i];
      && k in AnswerOf(d, Scan(d, rows)) && |AnswerOf(d, Scan(d, rows))[k]| == |d.aggs|
      && AnswerOf(d, Scan(d, rows))[k][j] == OutOf(d, d.aggs[j], AccsAt(d, Scan(d, rows), k)[j])
  {
    var k := ShownKeys(d, rows)[i];
    KeyShown(d, rows, k);
    hide OutOf, Scan, ShownKeys;
  }

  /** The totals of a shown group, met or not. */
  lemma ShownTotals(d: Def, rows: seq<Record>, k: GroupKey, j: nat)
    requires Rounds(d.rnd) && AllSummable(d, rows) && j < |d.aggs|
    ensures ScanOk(d, d.aggs[j], AccsAt(d, Scan(d, rows), k)[j], k, rows)
  {
    ScanTotals(d, rows);
    if k !in Scan(d, rows) {
      TotalNatural(d, k, rows);
      TotalBound(d, d.aggs[j], k, rows);
    }
    hide Scan, Total, Summable;
  }

  lemma CountIs(d: Def, a: Agg, rows: seq<Record>, group: Record, k: GroupKey)
    requires Holding(d, group, k) && a.kind == Count
    ensures Total(CountsIn(d, a, k), rows) == Total(Where(d, group, Counted(a)), rows)
  {
    var test := Counted(a);
    forall rec ensures CountsIn(d, a, k)(rec) == Where(d, group, test)(rec) {
      KeyByFields(d, rec, k, group);
      hide KeyOf, Belongs;
    }
    TotalSame(CountsIn(d, a, k), Where(d, group, test), rows);
  }

  lemma SumIs(d: Def, a: Agg, f: string, rows: seq<Record>, group: Record, k: GroupKey)
    requires Holding(d, group, k) && Rounds(d.rnd) && Summed(a) && a.field == Some(f) && Exactly(f, rows)
    ensures Total(CountsIn(d, a, k), rows) == Total(Where(d, group, HasNumber(f)), rows)
    ensures Total(UnitsIn(d, a, k), rows) == Total(GroupNumber(d, group, f), rows)
  {
    forall rec | rec in rows
      ensures CountsIn(d, a, k)(rec) == Where(d, group, HasNumber(f))(rec) && UnitsIn(d, a, k)(rec) == GroupNumber(d, group, f)(rec)
    {
      KeyByFields(d, rec, k, group);
      ContributesWhole(d, a, f, rows, rec);
      hide KeyOf, Belongs, Contribution, Exactly, Rounds;
      assert (NumberIn(f)(rec) as real).Floor == NumberIn(f)(rec);
    }
    TotalSame(CountsIn(d, a, k), Where(d, group, HasNumber(f)), rows);
    TotalSame(UnitsIn(d, a, k), GroupNumber(d, group, f), rows);
  }

  lemma NoSum(d: Def, a: Agg, k: GroupKey, rows: seq<Record>)
    requires Summed(a) && a.field.None?
    ensures Total(CountsIn(d, a, k), rows) == 0
  {
    forall rec ensures CountsIn(d, a, k)(rec) == 0 {
      NoContribution(d, a, rec);
    }
    TotalZero(CountsIn(d, a, k), rows);
  }

  /** A best value of a group, told from its accumulator. */
  lemma BestIs(d: Def, a: Agg, side: S.Ordering, f: string, m: Option<Atom>, rows: seq<Record>, group: Record, k: GroupKey)
    requires Holding(d, group, k) && a.field == Some(f) && BestOk(d, a, side, m, k, rows)
    ensures IsBest(d, if m.Some? then Is(d.canon(m.value)) else Null, side, f, group, rows)
  {
    forall rec ensures Belongs(d, rec, group) && Field(rec, f).Some? <==> exists v :: Holds(d, a, k, rec, v)
      ensures forall v :: Holds(d, a, k, rec, v) <==> Belongs(d, rec, group) && Field(rec, f) == Some(v)
    {
      KeyByFields(d, rec, k, group);
      hide KeyOf, Belongs;
      if Belongs(d, rec, group) && Field(rec, f).Some? {
        assert Holds(d, a, k, rec, Field(rec, f).value);
      }
    }
    hide Holds, KeyOf, Belongs;
    if m.Some? {
      var rec :| rec in rows && Holds(d, a, k, rec, m.value);
      assert Field(rec, f) == Some(m.value);
      forall other | other in rows && Belongs(d, other, group) && Field(other, f).Some?
        ensures d.cmp(Field(other, f).value, m.value) != side
      {
        assert Holds(d, a, k, other, Field(other, f).value);
      }
    }
  }

  /** The accumulators of a shown group hold its best values. */
  lemma ShownBests(d: Def, rows: seq<Record>, k: GroupKey, j: nat)
    requires Faithful(d, rows) && j < |d.aggs|
    ensures BestsOk(d, d.aggs[j], AccsAt(d, Scan(d, rows), k)[j], k, rows)
  {
    var kinds := HeldBy(d, rows);
    HeldTyped(d, rows);
    KindTells(d, kinds, j, rows);
    hide Scan, BestsOk, TellsAll, Tells, S.LawfulOn, AllGiven, KindOf;
    ScanBests(d, KindOf(kinds, d.aggs[j]), rows, k, j);
  }

  lemma BestCell(d: Def, a: Agg, acc: Acc, rows: seq<Record>, group: Record, k: GroupKey)
    requires Holding(d, group, k) && (a.kind == Min || a.kind == Max) && BestsOk(d, a, acc, k, rows)
    ensures CellIs(d, a, OutOf(d, a, acc), group, rows)
  {
    var m, side := if a.kind == Min then acc.min else acc.max, if a.kind == Min then S.Less else S.Greater;
    if a.field.Some? {
      BestIs(d, a, side, a.field.value, m, rows, group, k);
    } else {
      forall rec, v ensures !Holds(d, a, k, rec, v) {
      }
    }
    hide IsBest, KeyOf;
  }

  lemma SumCell(d: Def, a: Agg, acc: Acc, rows: seq<Record>, group: Record, k: GroupKey)
    requires Holding(d, group, k) && Rounds(d.rnd) && (a.kind == Count || Summed(a))
    requires Summed(a) && a.field.Some? ==> Exactly(a.field.value, rows)
    requires ScanOk(d, a, acc, k, rows)
    ensures CellIs(d, a, OutOf(d, a, acc), group, rows)
  {
    if a.kind == Count {
      CountIs(d, a, rows, group, k);
    } else if a.field.Some? {
      SumIs(d, a, a.field.value, rows, group, k);
    } else {
      NoSum(d, a, k, rows);
    }
    hide Total, Exactly, Rounds, KeyOf;
  }

  /** No later output takes this one's name. */
  predicate LastNamed(d: Def, j: nat)
    requires j < |d.aggs|
  {
    forall q | j < q < |d.aggs| :: d.aggs[q].output != d.aggs[j].output
  }

  lemma {:induction false} SetLast(r: Record, names: seq<string>, cells: seq<Cell>, i: nat)
    requires i < |names| == |cells| && forall q :: i < q < |names| ==> names[q] != names[i]
    ensures Lookup(SetAll(r, names, cells), names[i]) == Some(cells[i])
    decreases names
  {
    var next, rest := r[names[0] := cells[0]], names[1..];
    if i == 0 {
      SetOther(next, rest, cells[1..], names[0]);
    } else {
      SetLast(next, rest, cells[1..], i - 1);
    }
  }

  lemma GroupCell(d: Def, rows: seq<Record>, i: nat, j: nat, group: Record)
    requires Rounds(d.rnd) && Faithful(d, rows) && SumsExact(d, rows)
    requires i < |AnswerRows(d, rows)| && j < |d.aggs| && Holding(d, group, ShownKeys(d, rows)[i])
    ensures var k := ShownKeys(d, rows)[i];
      && k in AnswerOf(d, Scan(d, rows)) && |AnswerOf(d, Scan(d, rows))[k]| == |d.aggs|
      && CellIs(d, d.aggs[j], AnswerOf(d, Scan(d, rows))[k][j], group, rows)
  {
    var k, acc := ShownKeys(d, rows)[i], AccsAt(d, Scan(d, rows), ShownKeys(d, rows)[i])[j];
    AllExact(d, rows);
    AccShown(d, rows, i, j);
    hide Holding;
    if d.aggs[j].kind == Min || d.aggs[j].kind == Max {
      ShownBests(d, rows, k, j);
      hide Scan, ShownKeys, AnswerRows, AnswerOf, CellIs, OutOf, BestsOk;
      BestCell(d, d.aggs[j], acc, rows, group, k);
    } else {
      ShownTotals(d, rows, k, j);
      hide Scan, ShownKeys, AnswerRows, AnswerOf, CellIs, OutOf, ScanOk, AllSummable, Exactly, Rounds;
      SumCell(d, d.aggs[j], acc, rows, group, k);
    }
  }

  /**
   * An answer row is of one group of rows. It shows the group's grouping fields, but for those an
   * output takes the name of, and each output - the last of those that share a name - from
   * the rows of the group: how many there are or have the field, the exact sum of the numbers in
   * it, that sum over how many they are, a least or a greatest value, or null where there is
   * nothing to answer.
   */
  lemma AnswerCells(d: Def, rows: seq<Record>, i: nat) returns (group: Record)
    requires Rounds(d.rnd) && Faithful(d, rows) && SumsExact(d, rows) && i < |AnswerRows(d, rows)|
    ensures (forall f :: f in group <==> f in d.groupBy) && (d.groupBy != [] ==> exists rec | rec in rows :: Belongs(d, rec, group))
    ensures forall f | (forall j | 0 <= j < |d.aggs| :: d.aggs[j].output != f) ::
      Lookup(AnswerRows(d, rows)[i].rec, f) == if f in d.groupBy then Some(group[f]) else None
    ensures forall j | 0 <= j < |d.aggs| && LastNamed(d, j) ::
      var shown := AnswerRows(d, rows)[i].rec;
      d.aggs[j].output in shown && CellIs(d, d.aggs[j], shown[d.aggs[j].output], group, rows)
  {
    var k, shown := ShownKeys(d, rows)[i], AnswerRows(d, rows)[i].rec;
    group := GroupHolding(d, rows, k);
    KeyShown(d, rows, k);
    if d.groupBy != [] {
      var rec := MetBy(d, rows, k);
      KeyByFields(d, rec, k, group);
    }
    var outs := AnswerOf(d, Scan(d, rows))[k];
    assert shown == SetAll(group, Outputs(d), outs);
    hide Scan, ShownKeys, AnswerRows, AnswerOf, Rounds, Faithful, SumsExact, Belongs, Holding;
    forall f | forall j | 0 <= j < |d.aggs| :: d.aggs[j].output != f
      ensures Lookup(shown, f) == if f in d.groupBy then Some(group[f]) else None
    {
      SetOther(group, Outputs(d), outs, f);
    }
    forall j | 0 <= j < |d.aggs| && LastNamed(d, j)
      ensures d.aggs[j].output in shown && CellIs(d, d.aggs[j], shown[d.aggs[j].output], group, rows)
    {
      SetLast(group, Outputs(d), outs, j);
      GroupCell(d, rows, i, j, group);
      hide CellIs;
    }
  }

  // -- the rows of an answer -----------------------------------------------

  /** Of two cells that differ the first comes before: null before a value, a lesser value before a greater. */
  predicate Before(cmp: Compare, x: Cell, y: Cell) {
    match (x, y)
    case (Null, Is(_)) => true
    case (Is(a), Is(b)) => cmp(a, b) == S.Less
    case _ => false
  }

  /** One answer row comes before another by the first grouping field in which they differ. */
  ghost predicate KeyedBefore(d: Def, x: Record, y: Record) {
    exists p | 0 <= p < |d.groupBy| ::
      && (forall q | 0 <= q <= p :: d.groupBy[q] in x && d.groupBy[q] in y)
      && (forall q | 0 <= q < p :: x[d.groupBy[q]] == y[d.groupBy[q]])
      && Before(d.cmp, x[d.groupBy[p]], y[d.groupBy[p]])
  }

  lemma {:induction false} FirstDifference(d: Def, kinds: Kinds, names: seq<string>, a: GroupKey, b: GroupKey) returns (p: nat)
    requires forall f | f in names :: Tells(d, kinds(f))
    requires KeysOf(kinds, names)(a) && KeysOf(kinds, names)(b) && Canonical(d, a) && Canonical(d, b)
    requires KeyOrder(d.cmp, a, b) == S.Less
    ensures p < |a| == |b| && (forall q | 0 <= q < p :: a[q] == b[q]) && Before(d.cmp, a[p], b[p])
  {
    KeyTail(kinds, names, a);
    KeyTail(kinds, names, b);
    if CellOrder(d.cmp, a[0], b[0]) == S.Less {
      p := 0;
    } else {
      CanonicalTail(d, a);
      CanonicalTail(d, b);
      assert a[0] == b[0] by {
        assert names[0] in names && Tells(d, kinds(names[0]));
      }
      hide KeysOf, Canonical, Tells;
      p := FirstDifference(d, kinds, names[1..], a[1..], b[1..]);
      assert forall q | 0 <= q < p :: a[1..][q] == a[q + 1] && b[1..][q] == b[q + 1];
      forall q | 0 <= q < p + 1 ensures a[q] == b[q] {
        if q > 0 { assert a[1..][q - 1] == b[1..][q - 1]; }
      }
      p := p + 1;
    }
  }

  lemma DistinctPermuted<T>(a: seq<T>, b: seq<T>)
    requires multiset(a) == multiset(b) && forall i, j :: 0 <= i < j < |a| ==> a[i] != a[j]
    ensures forall i, j :: 0 <= i < j < |b| ==> b[i] != b[j]
  {
    forall i, j | 0 <= i < j < |b| ensures b[i] != b[j] {
      if b[i] == b[j] {
        TopK.Twice(b, i, j);
        assert b[i] in multiset(a);
        var p :| 0 <= p < |a| && a[p] == b[i];
        var r := TopK.SecondPlace(a, p);
      }
    }
  }

  lemma GroupedKeys(d: Def, rows: seq<Record>, i: nat, j: nat)
    requires i < j < |ShownKeys(d, rows)|
    ensures ShownKeys(d, rows) == S.Sort(ByKey(d.cmp), Met(d, rows))
  {
    hide Met, S.Sort;
  }

  /** The keys of a grouped answer ascend. */
  lemma KeysAscend(d: Def, rows: seq<Record>, i: nat, j: nat)
    requires Faithful(d, rows) && i < j < |ShownKeys(d, rows)|
    ensures var x, y := ShownKeys(d, rows)[i], ShownKeys(d, rows)[j];
      && x != y && x in Met(d, rows) && y in Met(d, rows) && KeyOrder(d.cmp, x, y) == S.Less
  {
    KeysApart(d, rows, i, j);
    GroupedKeys(d, rows, i, j);
    MetUntied(d, HeldBy(d, rows), rows) by { HeldTyped(d, rows); assert Faithful(d, rows); }
    FaithfulKeys(d, rows);
    hide ShownKeys, Met, S.Sort, KeyOrder, S.LawfulOn, Faithful, Settled, HeldBy;
    var met, keys := Met(d, rows), ShownKeys(d, rows);
    S.SortSortsAmong(ByKey(d.cmp), met);
    assert S.Le(ByKey(d.cmp), keys[i], keys[j]);
    var p :| 0 <= p < |met| && met[p] == keys[i];
    var q :| 0 <= q < |met| && met[q] == keys[j];
    assert ByKey(d.cmp)(met[p], met[q]) != S.Equal;
  }

  /** The groups shown are those met, each once. */
  lemma KeysApart(d: Def, rows: seq<Record>, i: nat, j: nat)
    requires i < j < |ShownKeys(d, rows)|
    ensures var x, y := ShownKeys(d, rows)[i], ShownKeys(d, rows)[j];
      x != y && x in Met(d, rows) && y in Met(d, rows)
  {
    GroupedKeys(d, rows, i, j);
    MetIs(d, rows);
    hide ShownKeys, Met, S.Sort;
    var met := Met(d, rows);
    S.SortMembers(ByKey(d.cmp), met);
    DistinctPermuted(met, S.Sort(ByKey(d.cmp), met));
  }

  /** Answer rows are numbered as they come, and come in the order of their groups. */
  lemma AnswersAscend(d: Def, rows: seq<Record>, i: nat, j: nat)
    requires Faithful(d, rows) && OwnNames(d) && i < j < |AnswerRows(d, rows)|
    ensures AnswerRows(d, rows)[i].id == i && AnswerRows(d, rows)[j].id == j
    ensures KeyedBefore(d, AnswerRows(d, rows)[i].rec, AnswerRows(d, rows)[j].rec)
  {
    KeysAscend(d, rows, i, j);
    ShownKeyIs(d, rows, i);
    ShownKeyIs(d, rows, j);
    var kinds, a, b := HeldBy(d, rows), ShownKeys(d, rows)[i], ShownKeys(d, rows)[j];
    HeldTyped(d, rows);
    MetTyped(d, kinds, rows);
    forall f | f in d.groupBy ensures Tells(d, kinds(f)) {
      assert Compares(d, f);
    }
    assert AnswerRows(d, rows)[i].id == i && AnswerRows(d, rows)[j].id == j;
    hide Met, ShownKeys, AnswerRows, Scan, AnswerOf, KeyOrder, TellsAll, Tells, KeysOf, Rendered, Canonical, AllTyped;
    var p := FirstDifference(d, kinds, d.groupBy, a, b);
    KeyedFrom(d, AnswerRows(d, rows)[i].rec, AnswerRows(d, rows)[j].rec, a, b, p);
  }

  lemma KeyedFrom(d: Def, x: Record, y: Record, a: GroupKey, b: GroupKey, p: nat)
    requires |a| == |b| == |d.groupBy| && p < |a|
    requires forall q | 0 <= q < |a| :: Lookup(x, d.groupBy[q]) == Some(a[q]) && Lookup(y, d.groupBy[q]) == Some(b[q])
    requires (forall q | 0 <= q < p :: a[q] == b[q]) && Before(d.cmp, a[p], b[p])
    ensures KeyedBefore(d, x, y)
  {
    hide Before;
    forall q | 0 <= q < |a| ensures d.groupBy[q] in x && x[d.groupBy[q]] == a[q] && d.groupBy[q] in y && y[d.groupBy[q]] == b[q] {
    }
  }

  /** Each record belongs to an answer row. */
  lemma RowShown(d: Def, rows: seq<Record>, rec: Record) returns (i: nat)
    requires OwnNames(d) && rec in rows
    ensures i < |AnswerRows(d, rows)| && Belongs(d, rec, AnswerRows(d, rows)[i].rec)
  {
    KeyIsShown(d, rows, rec);
    var k := KeyOf(d, rec);
    i :| 0 <= i < |ShownKeys(d, rows)| && ShownKeys(d, rows)[i] == k;
    BelongsIs(d, rows, i, rec);
  }

  /** To one only. */
  lemma RowShownOnce(d: Def, rows: seq<Record>, rec: Record, i: nat, j: nat)
    requires Faithful(d, rows) && OwnNames(d) && i < |AnswerRows(d, rows)| && j < |AnswerRows(d, rows)|
    requires Belongs(d, rec, AnswerRows(d, rows)[i].rec) && Belongs(d, rec, AnswerRows(d, rows)[j].rec)
    ensures i == j
  {
    BelongsIs(d, rows, i, rec);
    BelongsIs(d, rows, j, rec);
    hide AnswerRows, Belongs, KeyOf, ShownKeys, Faithful;
    if i < j { KeysAscend(d, rows, i, j); } else if j < i { KeysAscend(d, rows, j, i); }
  }

  /** With grouping each answer row has a record of its own; without, there is one answer row. */
  lemma RowOfSome(d: Def, rows: seq<Record>, i: nat)
    requires OwnNames(d) && i < |AnswerRows(d, rows)|
    ensures d.groupBy != [] ==> exists rec | rec in rows :: Belongs(d, rec, AnswerRows(d, rows)[i].rec)
    ensures d.groupBy == [] ==> |AnswerRows(d, rows)| == 1
  {
    if d.groupBy == [] {
      Ungrouped(d, rows);
    } else {
      var rec := MetBy(d, rows, ShownKeys(d, rows)[i]);
      BelongsIs(d, rows, i, rec);
    }
    hide Belongs, ShownKeys, KeyOf;
  }

  lemma KeyIsShown(d: Def, rows: seq<Record>, rec: Record)
    requires rec in rows
    ensures KeyOf(d, rec) in ShownKeys(d, rows)
  {
    MetIs(d, rows);
    S.SortMembers(ByKey(d.cmp), Met(d, rows));
    ScanMeets(d, rows, rec);
    hide Met, S.Sort, Scan, KeyOf;
  }
}
