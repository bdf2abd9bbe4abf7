/**
 * The executor's aggregate: rows met one by one, a running accumulator for each
 * group and aggregate, and one answer row per group in key order.
 */
module Aggregates {
  import opened Basics
  import opened Varint
  import opened Floats
  import opened Records
  import S = Sorting
  import TopK

  datatype Kind = Count | Sum | Avg | Min | Max

  datatype Agg = Agg(kind: Kind, field: Option<string>, output: string)

  /** A grouping, its aggregates, the order and equality of values, rounding. */
  datatype Def = Def(groupBy: seq<string>, aggs: seq<Agg>, cmp: Compare, canon: Atom -> Atom, rnd: real -> Float)

  /** Of the values of one kind: the order is a total preorder, equality its equivalence, and representatives are of the kind. */
  ghost predicate Tells(d: Def, on: Atom -> bool) {
    && S.LawfulOn(d.cmp, on)
    && (forall a, b | on(a) && on(b) :: d.cmp(a, b) == S.Equal <==> d.canon(a) == d.canon(b))
    && (forall a | on(a) :: on(d.canon(a)) && d.canon(d.canon(a)) == d.canon(a))
  }

  /** A field whose values the aggregate compares. */
  predicate Compares(d: Def, f: string) {
    f in d.groupBy || exists i :: 0 <= i < |d.aggs| && (d.aggs[i].kind == Min || d.aggs[i].kind == Max) && d.aggs[i].field == Some(f)
  }

  /** What each field may hold. */
  type Kinds = string -> Atom -> bool

  ghost predicate TellsAll(d: Def, kinds: Kinds) {
    forall f | Compares(d, f) :: Tells(d, kinds(f))
  }

  predicate Typed(kinds: Kinds, rec: Record) {
    forall f | f in rec :: CellOn(kinds(f), rec[f])
  }

  ghost predicate AllTyped(kinds: Kinds, rows: seq<Record>) {
    forall rec | rec in rows :: Typed(kinds, rec)
  }

  /** What each field does hold in some rows, and the representatives of that. */
  ghost function HeldBy(d: Def, rows: seq<Record>): Kinds {
    (f: string) => (v: Atom) => exists rec, a :: rec in rows && Field(rec, f) == Some(a) && (v == a || v == d.canon(a))
  }

  /** The engine's order and equality can be relied on for every value the aggregate compares. */
  ghost predicate Faithful(d: Def, rows: seq<Record>) {
    TellsAll(d, HeldBy(d, rows))
  }

  lemma HeldTyped(d: Def, rows: seq<Record>)
    ensures AllTyped(HeldBy(d, rows), rows)
  {
    forall rec: Record, f | rec in rows && f in rec && rec[f].Is? ensures HeldBy(d, rows)(f)(rec[f].atom) {
      assert Field(rec, f) == Some(rec[f].atom);
    }
  }

  /** To rely on the values at hand it is enough to rely on their kinds. */
  lemma KindsFaithful(d: Def, kinds: Kinds, rows: seq<Record>)
    requires TellsAll(d, kinds) && AllTyped(kinds, rows)
    ensures Faithful(d, rows)
  {
    forall f | Compares(d, f) ensures Tells(d, HeldBy(d, rows)(f)) {
      var on, held := kinds(f), HeldBy(d, rows)(f);
      assert Tells(d, on);
      forall v | held(v) ensures on(v) && held(d.canon(v)) {
        var rec, a :| rec in rows && Field(rec, f) == Some(a) && (v == a || v == d.canon(a));
        FieldTyped(kinds, rec, f, a);
      }
    }
  }

  lemma FieldTyped(kinds: Kinds, rec: Record, f: string, a: Atom)
    requires Typed(kinds, rec) && Field(rec, f) == Some(a)
    ensures kinds(f)(a)
  {
    assert CellOn(kinds(f), rec[f]);
  }

  lemma FewerFaithful(d: Def, rows: seq<Record>, other: seq<Record>)
    requires Faithful(d, rows) && forall rec | rec in other :: rec in rows
    ensures Faithful(d, other)
  {
    HeldTyped(d, rows);
    KindsFaithful(d, HeldBy(d, rows), other);
  }

  type GroupKey = seq<Cell>

  function Canon(d: Def, c: Cell): Cell {
    match c case Null => Null case Is(a) => Is(d.canon(a))
  }

  function CellOf(r: Record, f: string): Cell {
    if f in r then r[f] else Null
  }

  /** A missing field groups under null, and equal values under one key. */
  function KeyOf(d: Def, rec: Record): (k: GroupKey)
    ensures |k| == |d.groupBy|
  {
    seq(|d.groupBy|, i requires 0 <= i < |d.groupBy| => Canon(d, CellOf(rec, d.groupBy[i])))
  }

  function AsFloat(d: Def, v: Atom): Option<Float> {
    match v
    case I64(n) => Some(d.rnd(n as real))
    case U64(n) => Some(d.rnd(n as real))
    case F64(f) => Some(f)
    case _ => None
  }

  function Summed(a: Agg): bool { a.kind == Sum || a.kind == Avg }

  /** The value of the aggregated field, if it is present and not null. */
  function Given(a: Agg, rec: Record): Option<Atom> {
    match a.field case None => None case Some(f) => Field(rec, f)
  }

  /** What a record adds to a count or a sum, or nothing. */
  function Contribution(d: Def, a: Agg, rec: Record): Option<Float> {
    match a.kind
    case Count => if a.field.None? || Given(a, rec).Some? then Some(Fin(0.0)) else None
    case Sum => (match Given(a, rec) case None => None case Some(v) => AsFloat(d, v))
    case Avg => (match Given(a, rec) case None => None case Some(v) => AsFloat(d, v))
    case _ => None
  }

  datatype Acc = Acc(count: nat, sum: Float, saw: bool, min: Option<Atom>, max: Option<Atom>)

  const ZERO := Acc(0, Fin(0.0), false, None, None)

  function AccAdd(d: Def, acc: Acc, c: Option<Float>): Acc {
    match c case None => acc case Some(v) => acc.(count := acc.count + 1, sum := Add(d.rnd, acc.sum, v), saw := true)
  }

  /** The first of the values that nothing is strictly better than. */
  function Better(cmp: Compare, wanted: S.Ordering, m: Option<Atom>, v: Option<Atom>): Option<Atom> {
    if v.Some? && (m.None? || cmp(v.value, m.value) == wanted) then v else m
  }

  /** One row met by the scanning aggregate. */
  function ScanAcc(d: Def, a: Agg, acc: Acc, rec: Record): Acc {
    match a.kind
    case Count => if Contribution(d, a, rec).Some? then acc.(count := acc.count + 1) else acc
    case Min => acc.(min := Better(d.cmp, S.Less, acc.min, Given(a, rec)))
    case Max => acc.(max := Better(d.cmp, S.Greater, acc.max, Given(a, rec)))
    case _ => AccAdd(d, acc, Contribution(d, a, rec))
  }

  type Accs = seq<Acc>

  function Fresh(d: Def): (r: Accs)
    ensures |r| == |d.aggs|
  {
    seq(|d.aggs|, _ => ZERO)
  }

  function ScanAll(d: Def, accs: Accs, rec: Record): (r: Accs)
    requires |accs| == |d.aggs|
    ensures |r| == |accs|
  {
    seq(|d.aggs|, i requires 0 <= i < |d.aggs| => ScanAcc(d, d.aggs[i], accs[i], rec))
  }

  type Groups = map<GroupKey, Accs>

  predicate Shaped(d: Def, g: Groups) {
    forall k | k in g :: |g[k]| == |d.aggs|
  }

  function AccsAt(d: Def, g: Groups, k: GroupKey): (r: Accs)
    requires Shaped(d, g)
    ensures |r| == |d.aggs|
  {
    if k in g then g[k] else Fresh(d)
  }

  function Scan(d: Def, rows: seq<Record>): (groups: Groups)
    ensures Shaped(d, groups)
  {
    if rows == [] then map[]
    else
      var before, rec := Scan(d, rows[..|rows| - 1]), rows[|rows| - 1];
      before[KeyOf(d, rec) := ScanAll(d, AccsAt(d, before, KeyOf(d, rec)), rec)]
  }

  // -- answers -------------------------------------------------------------

  function Divided(d: Def, sum: Float, n: nat): Float
    requires n > 0
  {
    if sum.Fin? then d.rnd(sum.r / n as real) else Special
  }

  /** Values are answered up to the engine's equality. */
  function OutOf(d: Def, a: Agg, acc: Acc): Cell {
    match a.kind
    case Count => Is(U64(acc.count % TWO64))
    case Sum => if acc.saw then Is(F64(acc.sum)) else Null
    case Avg => if acc.count > 0 then Is(F64(Divided(d, acc.sum, acc.count))) else Null
    case Min => if acc.min.Some? then Is(d.canon(acc.min.value)) else Null
    case Max => if acc.max.Some? then Is(d.canon(acc.max.value)) else Null
  }

  function Outs(d: Def, accs: Accs): (r: seq<Cell>)
    requires |accs| == |d.aggs|
    ensures |r| == |d.aggs|
  {
    seq(|d.aggs|, i requires 0 <= i < |d.aggs| => OutOf(d, d.aggs[i], accs[i]))
  }

  type Answer = map<GroupKey, seq<Cell>>

  /** An ungrouped aggregate over no rows is still one row. */
  function Shown(d: Def, groups: Groups): (r: Groups)
    requires Shaped(d, groups)
    ensures Shaped(d, r)
  {
    if groups == map[] && d.groupBy == [] then map[[] := Fresh(d)] else groups
  }

  function AnswerOf(d: Def, groups: Groups): Answer
    requires Shaped(d, groups)
  {
    map k | k in Shown(d, groups) :: Outs(d, Shown(d, groups)[k])
  }

  /** The groups in the order they are first met. */
  function Met(d: Def, rows: seq<Record>): seq<GroupKey> {
    if rows == [] then []
    else
      var before, k := Met(d, rows[..|rows| - 1]), KeyOf(d, rows[|rows| - 1]);
      if k in before then before else before + [k]
  }

  /** Keys compare cell by cell, and a shorter one that agrees comes first. */
  function KeyOrder(cmp: Compare, a: GroupKey, b: GroupKey): S.Ordering {
    if a == [] then (if b == [] then S.Equal else S.Less)
    else if b == [] then S.Greater
    else S.Then(CellOrder(cmp, a[0], b[0]), KeyOrder(cmp, a[1..], b[1..]))
  }

  function ByKey(cmp: Compare): (GroupKey, GroupKey) -> S.Ordering {
    (a, b) => KeyOrder(cmp, a, b)
  }

  function ShownKeys(d: Def, rows: seq<Record>): seq<GroupKey> {
    if rows == [] && d.groupBy == [] then [[]] else S.Sort(ByKey(d.cmp), Met(d, rows))
  }

  /** Fields set one after another, a later one of the same name over an earlier. */
  function SetAll(r: Record, names: seq<string>, cells: seq<Cell>): Record
    requires |names| == |cells|
    decreases names
  {
    if names == [] then r else SetAll(r[names[0] := cells[0]], names[1..], cells[1..])
  }

  function Outputs(d: Def): (names: seq<string>)
    ensures |names| == |d.aggs|
  {
    seq(|d.aggs|, i requires 0 <= i < |d.aggs| => d.aggs[i].output)
  }

  /** One answer row: the group's key under its own field names, then every output. */
  function Rendered(d: Def, k: GroupKey, outs: seq<Cell>): Record
    requires |k| == |d.groupBy| && |outs| == |d.aggs|
  {
    SetAll(SetAll(map[], d.groupBy, k), Outputs(d), outs)
  }

  function RenderedAt(d: Def, k: GroupKey, answer: Answer): Record {
    if k in answer && |k| == |d.groupBy| && |answer[k]| == |d.aggs| then Rendered(d, k, answer[k]) else map[]
  }

  /** The answer rows, in key order; their ids are their positions. */
  function AnswerRows(d: Def, rows: seq<Record>): (r: seq<Row>)
    ensures |r| == |ShownKeys(d, rows)|
  {
    var keys, answer := ShownKeys(d, rows), AnswerOf(d, Scan(d, rows));
    seq(|keys|, i requires 0 <= i < |keys| => Row(i, RenderedAt(d, keys[i], answer)))
  }

  function Recs(rows: seq<Row>): (r: seq<Record>)
    ensures |r| == |rows| && forall i :: 0 <= i < |r| ==> r[i] == rows[i].rec
  {
    seq(|rows|, i requires 0 <= i < |rows| => rows[i].rec)
  }

  // -- fields of an answer row ---------------------------------------------

  lemma {:induction false} SetOther(r: Record, names: seq<string>, cells: seq<Cell>, f: string)
    requires |names| == |cells| && f !in names
    ensures Lookup(SetAll(r, names, cells), f) == Lookup(r, f)
    decreases names
  {
    if names != [] {
      SetOther(r[names[0] := cells[0]], names[1..], cells[1..], f);
    }
  }

  lemma {:induction false} SetOwn(r: Record, names: seq<string>, cells: seq<Cell>, value: string -> Cell, f: string)
    requires |names| == |cells| && f in names
    requires forall i :: 0 <= i < |names| ==> cells[i] == value(names[i])
    ensures Lookup(SetAll(r, names, cells), f) == Some(value(f))
    decreases names
  {
    var next, rest := r[names[0] := cells[0]], names[1..];
    assert names == [names[0]] + rest;
    if f in rest {
      SetOwn(next, rest, cells[1..], value, f);
    } else {
      SetOther(next, rest, cells[1..], f);
    }
  }

  /** Under names of its own each field keeps what it was set to. */
  lemma {:induction false} SetEach(r: Record, names: seq<string>, cells: seq<Cell>, i: nat)
    requires i < |names| == |cells| && forall p, q :: 0 <= p < q < |names| ==> names[p] != names[q]
    ensures Lookup(SetAll(r, names, cells), names[i]) == Some(cells[i])
    decreases names
  {
    var next, rest := r[names[0] := cells[0]], names[1..];
    if i == 0 {
      SetOther(next, rest, cells[1..], names[0]);
    } else {
      SetEach(next, rest, cells[1..], i - 1);
    }
  }

  /** No output takes the name of a grouping field. */
  predicate OwnNames(d: Def) {
    forall i :: 0 <= i < |d.aggs| ==> d.aggs[i].output !in d.groupBy
  }

  /** No two outputs share a name. */
  predicate OutputsApart(d: Def) {
    forall i, j :: 0 <= i < j < |d.aggs| ==> d.aggs[i].output != d.aggs[j].output
  }

  /** Then an answer row shows every output. */
  lemma RenderedShows(d: Def, k: GroupKey, x: seq<Cell>, y: seq<Cell>)
    requires OutputsApart(d) && |k| == |d.groupBy| && |x| == |y| == |d.aggs|
    ensures Rendered(d, k, x) == Rendered(d, k, y) <==> x == y
  {
    if Rendered(d, k, x) == Rendered(d, k, y) {
      forall i | 0 <= i < |x| ensures x[i] == y[i] {
        SetEach(SetAll(map[], d.groupBy, k), Outputs(d), x, i);
        SetEach(SetAll(map[], d.groupBy, k), Outputs(d), y, i);
      }
    }
  }

  // -- groups met ----------------------------------------------------------

  lemma NoneMet(d: Def)
    ensures Met(d, []) == [] && Scan(d, []) == map[]
  {
  }

  lemma MetNext(d: Def, rows: seq<Record>, rec: Record)
    ensures Met(d, rows + [rec]) ==
      if KeyOf(d, rec) in Met(d, rows) then Met(d, rows) else Met(d, rows) + [KeyOf(d, rec)]
  {
    hide KeyOf;
    assert (rows + [rec])[..|rows|] == rows;
  }

  lemma ScanNext(d: Def, rows: seq<Record>, rec: Record)
    ensures Scan(d, rows + [rec]) ==
      Scan(d, rows)[KeyOf(d, rec) := ScanAll(d, AccsAt(d, Scan(d, rows), KeyOf(d, rec)), rec)]
  {
    hide KeyOf, ScanAll;
    assert (rows + [rec])[..|rows|] == rows;
  }

  lemma ScanNone(d: Def, rows: seq<Record>)
    ensures Scan(d, rows) == map[] <==> rows == []
  {
    hide KeyOf, ScanAll;
    if rows != [] {
      assert KeyOf(d, rows[|rows| - 1]) in Scan(d, rows);
    }
  }

  lemma {:induction false} ScanMeets(d: Def, rows: seq<Record>, rec: Record)
    requires rec in rows
    ensures KeyOf(d, rec) in Scan(d, rows)
  {
    hide KeyOf, ScanAll;
    var n := |rows| - 1;
    if rows[n] != rec {
      ScanMeets(d, rows[..n], rec);
    }
  }

  /** The groups listed are those scanned, each once. */
  lemma {:induction false} MetIs(d: Def, rows: seq<Record>)
    ensures Enumerates(Met(d, rows), Scan(d, rows).Keys)
    ensures forall k | k in Scan(d, rows) :: |k| == |d.groupBy|
  {
    hide KeyOf, ScanAll;
    if rows != [] {
      MetIs(d, rows[..|rows| - 1]);
    }
  }

  lemma {:induction false} MetFrom(d: Def, rows: seq<Record>, k: GroupKey)
    requires k in Met(d, rows)
    ensures exists rec | rec in rows :: KeyOf(d, rec) == k
  {
    hide KeyOf;
    var n := |rows| - 1;
    if k in Met(d, rows[..n]) {
      MetFrom(d, rows[..n], k);
    } else {
      assert rows[n] in rows;
    }
  }

  /** Without grouping there is always one group, and one answer row. */
  lemma {:induction false} Ungrouped(d: Def, rows: seq<Record>)
    requires d.groupBy == []
    ensures Met(d, rows) == if rows == [] then [] else [[]]
    ensures ShownKeys(d, rows) == [[]]
  {
    if rows != [] {
      Ungrouped(d, rows[..|rows| - 1]);
      assert KeyOf(d, rows[|rows| - 1]) == [];
      var one: seq<GroupKey> := [[]];
      assert one[..0] == [];
      assert S.Sort(ByKey(d.cmp), one) == one;
    }
  }

  /** A key of the grouping whose values are of their fields' kinds. */
  ghost function KeysOf(kinds: Kinds, names: seq<string>): GroupKey -> bool {
    (k: GroupKey) => |k| == |names| && forall i :: 0 <= i < |k| ==> CellOn(kinds(names[i]), k[i])
  }

  lemma KeyTail(kinds: Kinds, names: seq<string>, k: GroupKey)
    requires KeysOf(kinds, names)(k) && k != []
    ensures CellOn(kinds(names[0]), k[0]) && KeysOf(kinds, names[1..])(k[1..])
  {
    assert forall i | 0 <= i < |k| - 1 :: k[1..][i] == k[i + 1] && names[1..][i] == names[i + 1];
  }

  lemma {:induction false} KeyLawful(cmp: Compare, kinds: Kinds, names: seq<string>, a: GroupKey, b: GroupKey, c: GroupKey)
    requires forall f | f in names :: S.LawfulOn(cmp, kinds(f))
    requires KeysOf(kinds, names)(a) && KeysOf(kinds, names)(b) && KeysOf(kinds, names)(c)
    ensures KeyOrder(cmp, b, a) == S.Flip(KeyOrder(cmp, a, b))
    ensures KeyOrder(cmp, a, b) != S.Greater && KeyOrder(cmp, b, c) != S.Greater ==> KeyOrder(cmp, a, c) != S.Greater
    decreases |a|
  {
    if a != [] {
      var on := kinds(names[0]);
      KeyTail(kinds, names, a);
      KeyTail(kinds, names, b);
      KeyTail(kinds, names, c);
      hide CellOrder, KeysOf, CellOn, S.LawfulOn;
      assert names[0] in names;
      CellLawful(cmp, on, a[0], b[0], c[0]);
      CellLawful(cmp, on, b[0], c[0], a[0]);
      CellLawful(cmp, on, c[0], a[0], b[0]);
      KeyLawful(cmp, kinds, names[1..], a[1..], b[1..], c[1..]);
    }
  }

  lemma ByKeyLawful(d: Def, kinds: Kinds)
    requires TellsAll(d, kinds)
    ensures S.LawfulOn(ByKey(d.cmp), KeysOf(kinds, d.groupBy))
  {
    forall f | f in d.groupBy ensures S.LawfulOn(d.cmp, kinds(f)) {
      assert Compares(d, f);
    }
    hide KeyOrder, TellsAll;
    var on := KeysOf(kinds, d.groupBy);
    forall a: GroupKey, b: GroupKey, c: GroupKey | on(a) && on(b) && on(c)
      ensures ByKey(d.cmp)(b, a) == S.Flip(ByKey(d.cmp)(a, b))
      ensures ByKey(d.cmp)(a, b) != S.Greater && ByKey(d.cmp)(b, c) != S.Greater ==> ByKey(d.cmp)(a, c) != S.Greater
    {
      hide KeysOf, S.LawfulOn;
      KeyLawful(d.cmp, kinds, d.groupBy, a, b, c);
    }
  }

  /** A key made of representatives. */
  predicate Canonical(d: Def, k: GroupKey) {
    forall i :: 0 <= i < |k| ==> Canon(d, k[i]) == k[i]
  }

  /** A record's key is of its fields' kinds, and made of representatives. */
  lemma KeysTyped(d: Def, kinds: Kinds, rec: Record)
    requires TellsAll(d, kinds) && Typed(kinds, rec)
    ensures KeysOf(kinds, d.groupBy)(KeyOf(d, rec)) && Canonical(d, KeyOf(d, rec))
  {
    var k := KeyOf(d, rec);
    forall i | 0 <= i < |k| ensures CellOn(kinds(d.groupBy[i]), k[i]) && Canon(d, k[i]) == k[i] {
      var f := d.groupBy[i];
      assert Compares(d, f) && Tells(d, kinds(f));
      assert CellOn(kinds(f), CellOf(rec, f));
    }
  }

  lemma {:induction false} KeysUntied(d: Def, kinds: Kinds, names: seq<string>, a: GroupKey, b: GroupKey)
    requires forall f | f in names :: Tells(d, kinds(f))
    requires KeysOf(kinds, names)(a) && KeysOf(kinds, names)(b)
    requires Canonical(d, a) && Canonical(d, b) && KeyOrder(d.cmp, a, b) == S.Equal
    ensures a == b
  {
    if a != [] {
      KeyTail(kinds, names, a);
      KeyTail(kinds, names, b);
      CanonicalTail(d, a);
      CanonicalTail(d, b);
      assert CellOrder(d.cmp, a[0], b[0]) == S.Equal;
      assert a[0] == b[0] by {
        assert names[0] in names && Tells(d, kinds(names[0]));
      }
      hide KeysOf, Canonical, Tells;
      KeysUntied(d, kinds, names[1..], a[1..], b[1..]);
      assert a == [a[0]] + a[1..] && b == [b[0]] + b[1..];
    }
  }

  lemma CanonicalTail(d: Def, a: GroupKey)
    requires Canonical(d, a) && a != []
    ensures Canon(d, a[0]) == a[0] && Canonical(d, a[1..])
  {
    assert forall i | 0 <= i < |a| - 1 :: a[1..][i] == a[i + 1];
  }

  lemma {:induction false} MetTyped(d: Def, kinds: Kinds, rows: seq<Record>)
    requires TellsAll(d, kinds) && AllTyped(kinds, rows)
    ensures forall k | k in Met(d, rows) :: KeysOf(kinds, d.groupBy)(k) && Canonical(d, k)
  {
    hide KeysOf, Canonical, TellsAll, Typed, KeyOf;
    if rows != [] {
      MetTyped(d, kinds, rows[..|rows| - 1]);
      assert rows[|rows| - 1] in rows;
      KeysTyped(d, kinds, rows[|rows| - 1]);
    }
  }

  lemma MetUntied(d: Def, kinds: Kinds, rows: seq<Record>)
    requires TellsAll(d, kinds) && AllTyped(kinds, rows)
    ensures TopK.Untied(ByKey(d.cmp), Met(d, rows))
  {
    MetIs(d, rows);
    MetTyped(d, kinds, rows);
    forall f | f in d.groupBy ensures Tells(d, kinds(f)) {
      assert Compares(d, f);
    }
    hide Met, KeyOrder, Canonical, TellsAll, Tells, KeysOf, AllTyped;
    var m := Met(d, rows);
    forall i, j | 0 <= i < |m| && 0 <= j < |m| && i != j ensures ByKey(d.cmp)(m[i], m[j]) != S.Equal {
      assert m[i] != m[j];
      assert m[i] in m && m[j] in m;
      if KeyOrder(d.cmp, m[i], m[j]) == S.Equal {
        KeysUntied(d, kinds, d.groupBy, m[i], m[j]);
      }
    }
  }

  lemma SameBag<T>(a: seq<T>, b: seq<T>, s: set<T>)
    requires Enumerates(a, s) && Enumerates(b, s)
    ensures multiset(a) == multiset(b)
  {
    OneOfEach(a, s);
    OneOfEach(b, s);
  }

  lemma {:induction false} OneOfEach<T>(a: seq<T>, s: set<T>)
    requires Enumerates(a, s)
    ensures multiset(a) == multiset(s)
  {
    if a == [] {
      assert s == {};
    } else {
      var n := |a| - 1;
      assert a == a[..n] + [a[n]];
      forall x | x in s - {a[n]} ensures x in a[..n] {
        assert x in a;
      }
      assert Enumerates(a[..n], s - {a[n]});
      OneOfEach(a[..n], s - {a[n]});
      assert s == (s - {a[n]}) + {a[n]};
    }
  }

  /** The representatives of the values grouped by represent themselves. */
  ghost predicate Settled(d: Def, rows: seq<Record>) {
    forall rec | rec in rows :: Canonical(d, KeyOf(d, rec))
  }

  /** Keys of rows whose values can be relied on are lawfully ordered. */
  lemma FaithfulKeys(d: Def, rows: seq<Record>)
    requires Faithful(d, rows)
    ensures Settled(d, rows) && S.LawfulOn(ByKey(d.cmp), S.Among(Met(d, rows)))
  {
    var kinds := HeldBy(d, rows);
    HeldTyped(d, rows);
    MetTyped(d, kinds, rows);
    ByKeyLawful(d, kinds);
    hide KeyOrder, KeysOf, Canonical, KeyOf, TellsAll, Met;
    forall rec | rec in rows ensures Canonical(d, KeyOf(d, rec)) {
      KeysTyped(d, kinds, rec);
    }
  }

  /** Any listing of the groups some rows meet is answered in one order. */
  lemma ListedOnce(d: Def, rows: seq<Record>, keys: seq<GroupKey>)
    requires Faithful(d, rows) && Enumerates(keys, Scan(d, rows).Keys)
    ensures S.Sort(ByKey(d.cmp), Met(d, rows)) == S.Sort(ByKey(d.cmp), keys)
  {
    var kinds := HeldBy(d, rows);
    HeldTyped(d, rows);
    MetIs(d, rows);
    SameBag(Met(d, rows), keys, Scan(d, rows).Keys);
    MetUntied(d, kinds, rows);
    MetTyped(d, kinds, rows);
    ByKeyLawful(d, kinds);
    hide KeysOf, Met, S.Sort, KeyOrder;
    TopK.UntiedSameAmong(ByKey(d.cmp), KeysOf(kinds, d.groupBy), Met(d, rows), keys);
  }

  /** Which groups there are fixes the order they are answered in. */
  lemma SameKeys(d: Def, a: seq<Record>, b: seq<Record>)
    requires Faithful(d, a) && Scan(d, a).Keys == Scan(d, b).Keys && (a == [] <==> b == [])
    ensures ShownKeys(d, a) == ShownKeys(d, b)
  {
    MetIs(d, b);
    hide Faithful, Met, Scan, S.Sort;
    ListedOnce(d, a, Met(d, b));
  }

  // -- equal answers -------------------------------------------------------

  /** Two groupings over the same keys give one answer exactly when they give every output. */
  lemma AnswersAgree(d: Def, a: Groups, b: Groups)
    requires Shaped(d, a) && Shaped(d, b) && a.Keys == b.Keys
    ensures AnswerOf(d, a) == AnswerOf(d, b)
      <==> forall k, i | k in a && 0 <= i < |d.aggs| :: OutOf(d, d.aggs[i], a[k][i]) == OutOf(d, d.aggs[i], b[k][i])
  {
    hide OutOf;
    forall k | k in a
      ensures Outs(d, a[k]) == Outs(d, b[k])
        <==> forall i | 0 <= i < |d.aggs| :: OutOf(d, d.aggs[i], a[k][i]) == OutOf(d, d.aggs[i], b[k][i])
    {
      OutsEqual(d, a[k], b[k]);
    }
    if a == map[] {
      assert b == map[];
    } else {
      var k0 :| k0 in a;
      assert k0 in b && b != map[];
      hide Outs;
      if AnswerOf(d, a) == AnswerOf(d, b) {
        forall k | k in a ensures Outs(d, a[k]) == Outs(d, b[k]) {
          assert AnswerOf(d, a)[k] == AnswerOf(d, b)[k];
        }
      }
    }
  }

  lemma OutsEqual(d: Def, x: Accs, y: Accs)
    requires |x| == |y| == |d.aggs|
    ensures Outs(d, x) == Outs(d, y)
      <==> forall i | 0 <= i < |d.aggs| :: OutOf(d, d.aggs[i], x[i]) == OutOf(d, d.aggs[i], y[i])
  {
    if Outs(d, x) == Outs(d, y) {
      forall i | 0 <= i < |d.aggs| ensures OutOf(d, d.aggs[i], x[i]) == OutOf(d, d.aggs[i], y[i]) {
        assert Outs(d, x)[i] == Outs(d, y)[i];
      }
    }
  }
}
