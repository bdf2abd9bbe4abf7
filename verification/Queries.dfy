/** Logical plans over one collection, and what they mean. */
module Queries {
  import opened Basics
  import opened Records
  import A = Aggregates
  import S = Sorting

  /** Predicates are three-valued; only a definite truth keeps a row. */
  datatype Truth = True | False | Unknown

  datatype SortKey = SortKey(field: string, descending: bool)

  datatype Plan =
    | Scan
    | GetById(id: nat)
    | GetByIds(ids: set<nat>)
    | Filter(input: Plan, p: Record -> Truth)
    | Project(input: Plan, fields: seq<string>)
    | Sort(input: Plan, keys: seq<SortKey>)
    | Limit(input: Plan, n: nat)
    | Aggregate(input: Plan, d: A.Def)

  // -- the order of rows ---------------------------------------------------

  /** A missing field sorts after a present one, and direction applies to all of it. */
  function KeyOrder(cmp: Compare, key: SortKey, a: Row, b: Row): S.Ordering {
    var o := PresentOrder(cmp, Lookup(a.rec, key.field), Lookup(b.rec, key.field));
    if key.descending then S.Flip(o) else o
  }

  function PresentOrder(cmp: Compare, x: Option<Cell>, y: Option<Cell>): S.Ordering {
    match (x, y)
    case (Some(c), Some(d)) => CellOrder(cmp, c, d)
    case (None, None) => S.Equal
    case (None, Some(_)) => S.Greater
    case (Some(_), None) => S.Less
  }

  function IdOrder(a: Row, b: Row): S.Ordering {
    if a.id < b.id then S.Less else if a.id == b.id then S.Equal else S.Greater
  }

  /** The sort keys in turn, then the record id. */
  function RowOrder(cmp: Compare, keys: seq<SortKey>, a: Row, b: Row): S.Ordering {
    if keys == [] then IdOrder(a, b)
    else S.Then(KeyOrder(cmp, keys[0], a, b), RowOrder(cmp, keys[1..], a, b))
  }

  function ByKey(cmp: Compare, key: SortKey): (Row, Row) -> S.Ordering {
    (a, b) => KeyOrder(cmp, key, a, b)
  }

  function ByRow(cmp: Compare, keys: seq<SortKey>): (Row, Row) -> S.Ordering {
    (a, b) => RowOrder(cmp, keys, a, b)
  }

  /** The values some rows hold in a field. */
  ghost function HeldIn(rows: seq<Row>, f: string): Atom -> bool {
    (v: Atom) => exists r :: r in rows && f in r.rec && r.rec[f] == Is(v)
  }

  predicate PresentOn(on: Atom -> bool, x: Option<Cell>) {
    x.Some? ==> CellOn(on, x.value)
  }

  lemma PresentLawful(cmp: Compare, on: Atom -> bool, x: Option<Cell>, y: Option<Cell>, z: Option<Cell>)
    requires S.LawfulOn(cmp, on) && PresentOn(on, x) && PresentOn(on, y) && PresentOn(on, z)
    ensures PresentOrder(cmp, y, x) == S.Flip(PresentOrder(cmp, x, y))
    ensures PresentOrder(cmp, x, y) != S.Greater && PresentOrder(cmp, y, z) != S.Greater
      ==> PresentOrder(cmp, x, z) != S.Greater
  {
    if x.Some? && y.Some? {
      CellLawful(cmp, on, x.value, y.value, if z.Some? then z.value else Null);
    }
  }

  /** A sort key orders rows as lawfully as the values they hold in its field are ordered. */
  lemma KeyLawful(cmp: Compare, key: SortKey, rows: seq<Row>)
    requires S.LawfulOn(cmp, HeldIn(rows, key.field))
    ensures S.LawfulOn(ByKey(cmp, key), S.Among(rows))
  {
    var order, on := ByKey(cmp, key), HeldIn(rows, key.field);
    assert forall r | r in rows :: PresentOn(on, Lookup(r.rec, key.field));
    hide HeldIn, S.LawfulOn, PresentOn, PresentOrder;
    forall a: Row, b: Row | a in rows && b in rows ensures order(b, a) == S.Flip(order(a, b)) {
      PresentLawful(cmp, on, Lookup(a.rec, key.field), Lookup(b.rec, key.field), Lookup(a.rec, key.field));
    }
    forall a: Row, b: Row, c: Row | a in rows && b in rows && c in rows && order(a, b) != S.Greater && order(b, c) != S.Greater
      ensures order(a, c) != S.Greater
    {
      var x, y, z := Lookup(a.rec, key.field), Lookup(b.rec, key.field), Lookup(c.rec, key.field);
      PresentLawful(cmp, on, x, y, z);
      PresentLawful(cmp, on, z, y, x);
      PresentLawful(cmp, on, x, z, y);
    }
    S.LawfulParts(order, S.Among(rows));
  }

  /** The keys in turn and then the id: a total preorder of the rows, if each key's values are lawfully ordered. */
  lemma {:induction false} RowLawful(cmp: Compare, keys: seq<SortKey>, rows: seq<Row>)
    requires forall key | key in keys :: S.LawfulOn(cmp, HeldIn(rows, key.field))
    ensures S.LawfulOn(ByRow(cmp, keys), S.Among(rows))
  {
    if keys != [] {
      KeyLawful(cmp, keys[0], rows);
      RowLawful(cmp, keys[1..], rows);
      S.ThenLawful(ByKey(cmp, keys[0]), ByRow(cmp, keys[1..]), ByRow(cmp, keys), S.Among(rows));
    }
  }

  // -- meaning -------------------------------------------------------------

  function Passes(p: Record -> Truth): Row -> bool {
    (row: Row) => p(row.rec) == True
  }

  function Kept(rec: Record, fields: seq<string>): Record {
    map f | f in rec && f in fields :: rec[f]
  }

  function Projected(rows: seq<Row>, fields: seq<string>): (r: seq<Row>)
    ensures |r| == |rows|
  {
    seq(|rows|, i requires 0 <= i < |rows| => rows[i].(rec := Kept(rows[i].rec, fields)))
  }

  /** The rows a leaf reads, given the table in ascending id order. */
  function Reads(leaf: Plan): Row -> bool {
    match leaf
    case GetById(id) => (row: Row) => row.id == id
    case GetByIds(ids) => (row: Row) => row.id in ids
    case _ => (row: Row) => true
  }

  function Eval(cmp: Compare, plan: Plan, table: seq<Row>): seq<Row> {
    match plan
    case Filter(input, p) => S.Filter(Passes(p), Eval(cmp, input, table))
    case Project(input, fields) => Projected(Eval(cmp, input, table), fields)
    case Sort(input, keys) => S.Sort(ByRow(cmp, keys), Eval(cmp, input, table))
    case Limit(input, n) => S.Take(Eval(cmp, input, table), n)
    case Aggregate(input, d) => A.AnswerRows(d, A.Recs(Eval(cmp, input, table)))
    case _ => S.Filter(Reads(plan), table)
  }

  ghost predicate Ascending(rows: seq<Row>) {
    forall i, j :: 0 <= i < j < |rows| ==> rows[i].id < rows[j].id
  }

  // -- what each operator answers ------------------------------------------

  /** Going by a field alone, the first row comes strictly before the second. */
  predicate Ahead(cmp: Compare, key: SortKey, a: Row, b: Row) {
    var x: Option<Cell>, y: Option<Cell> := Lookup(a.rec, key.field), Lookup(b.rec, key.field);
    match (x, y)
    case (None, None) => false
    case (Some(_), None) => !key.descending
    case (None, Some(_)) => key.descending
    case (Some(Null), Some(Null)) => false
    case (Some(Null), Some(Is(_))) => !key.descending
    case (Some(Is(_)), Some(Null)) => key.descending
    case (Some(Is(v)), Some(Is(w))) => cmp(v, w) == if key.descending then S.Greater else S.Less
  }

  /** The field does not tell the two rows apart. */
  predicate Level(cmp: Compare, f: string, a: Row, b: Row) {
    var x: Option<Cell>, y: Option<Cell> := Lookup(a.rec, f), Lookup(b.rec, f);
    match (x, y)
    case (None, None) => true
    case (Some(Null), Some(Null)) => true
    case (Some(Is(v)), Some(Is(w))) => cmp(v, w) == S.Equal
    case _ => false
  }

  /** The first field that tells the rows apart puts the first row ahead, or none does and its id is no greater. */
  predicate Comes(cmp: Compare, keys: seq<SortKey>, a: Row, b: Row) {
    if keys == [] then a.id <= b.id
    else Ahead(cmp, keys[0], a, b) || (Level(cmp, keys[0].field, a, b) && Comes(cmp, keys[1..], a, b))
  }

  lemma {:induction false} ComesIs(cmp: Compare, keys: seq<SortKey>, a: Row, b: Row)
    ensures Comes(cmp, keys, a, b) <==> S.Le(ByRow(cmp, keys), a, b)
  {
    if keys != [] {
      ComesIs(cmp, keys[1..], a, b);
      assert S.Le(ByRow(cmp, keys[1..]), a, b) <==> RowOrder(cmp, keys[1..], a, b) != S.Greater;
    }
  }

  /** A sort yields the rows it is given, each before those it comes before. */
  lemma SortedRows(cmp: Compare, keys: seq<SortKey>, rows: seq<Row>)
    requires S.LawfulOn(ByRow(cmp, keys), S.Among(rows))
    ensures var sorted := S.Sort(ByRow(cmp, keys), rows);
      && multiset(sorted) == multiset(rows)
      && forall i, j | 0 <= i < j < |sorted| :: Comes(cmp, keys, sorted[i], sorted[j])
  {
    S.SortMembers(ByRow(cmp, keys), rows);
    S.SortSortsAmong(ByRow(cmp, keys), rows);
    hide S.Sort, ByRow, S.LawfulOn, Comes;
    var sorted := S.Sort(ByRow(cmp, keys), rows);
    forall i, j | 0 <= i < j < |sorted| ensures Comes(cmp, keys, sorted[i], sorted[j]) {
      ComesIs(cmp, keys, sorted[i], sorted[j]);
    }
  }

  /** The rows a sort and a limit leave: as many as there are up to the limit, in order, and none before them left out. */
  lemma FirstRows(cmp: Compare, keys: seq<SortKey>, rows: seq<Row>, n: nat)
    requires S.LawfulOn(ByRow(cmp, keys), S.Among(rows))
    ensures var sorted := S.Sort(ByRow(cmp, keys), rows);
      var first := S.Take(sorted, n);
      && |first| == (if |rows| < n then |rows| else n)
      && (forall r | r in first :: r in rows)
      && (forall i, j | 0 <= i < j < |first| :: Comes(cmp, keys, first[i], first[j]))
      && (forall r, i | r in rows && r !in first && 0 <= i < |first| :: Comes(cmp, keys, first[i], r))
  {
    SortedRows(cmp, keys, rows);
    var sorted := S.Sort(ByRow(cmp, keys), rows);
    var first := S.Take(sorted, n);
    S.SortMembers(ByRow(cmp, keys), rows);
    hide S.Sort, ByRow, S.LawfulOn, Comes;
    assert forall i | 0 <= i < |first| :: first[i] == sorted[i];
    forall r, i | r in rows && r !in first && 0 <= i < |first| ensures Comes(cmp, keys, first[i], r) {
      var j :| 0 <= j < |sorted| && sorted[j] == r;
      assert j >= |first| by {
        assert forall p | 0 <= p < |first| :: first[p] in first;
      }
    }
  }

  /** Row by row a projection keeps the id and, of the record, exactly the named fields. */
  lemma ProjectedRows(rows: seq<Row>, fields: seq<string>)
    ensures |Projected(rows, fields)| == |rows|
    ensures forall i | 0 <= i < |rows| :: Projected(rows, fields)[i].id == rows[i].id
    ensures forall i, f | 0 <= i < |rows| ::
      Lookup(Projected(rows, fields)[i].rec, f) == if f in fields then Lookup(rows[i].rec, f) else None
  {
  }

  /** What each operator yields of the rows below it. */
  lemma OperatorRows(cmp: Compare, plan: Plan, table: seq<Row>)
    ensures plan.Scan? ==> Eval(cmp, plan, table) == table
    ensures plan.GetById? ==> forall r :: r in Eval(cmp, plan, table) <==> r in table && r.id == plan.id
    ensures plan.GetByIds? ==> forall r :: r in Eval(cmp, plan, table) <==> r in table && r.id in plan.ids
    ensures plan.Filter? ==> forall r :: r in Eval(cmp, plan, table) <==> r in Eval(cmp, plan.input, table) && plan.p(r.rec) == True
    ensures plan.Limit? ==>
      var rows := Eval(cmp, plan.input, table);
      Eval(cmp, plan, table) == if |rows| <= plan.n then rows else rows[..plan.n]
  {
    match plan
    case Scan => S.FilterIdentity(Reads(plan), table);
    case GetById(_) => S.FilterMembers(Reads(plan), table);
    case GetByIds(_) => S.FilterMembers(Reads(plan), table);
    case Filter(input, p) => S.FilterMembers(Passes(p), Eval(cmp, input, table));
    case _ =>
  }

  /** Ascending rows are determined by which rows they are. */
  lemma {:induction false} AscendingUnique(a: seq<Row>, b: seq<Row>)
    requires Ascending(a) && Ascending(b)
    requires forall r :: r in a <==> r in b
    ensures a == b
    decreases |a|
  {
    assert b != [] ==> b[0] in b;
    if a != [] {
      assert a[0] in a;
      LastRow(a, b);
      LastRow(b, a);
      var m, n := |a| - 1, |b| - 1;
      assert a[m].id == b[n].id && a[m] == b[n] by {
        var j :| 0 <= j < |b| && b[j] == a[m];
        assert b[j].id <= b[n].id;
      }
      forall r ensures r in a[..m] <==> r in b[..n] {
        ButLast(a, r);
        ButLast(b, r);
      }
      AscendingUnique(a[..m], b[..n]);
    }
  }

  lemma LastRow(a: seq<Row>, b: seq<Row>)
    requires Ascending(a) && Ascending(b) && a != [] && b != []
    requires forall r :: r in a <==> r in b
    ensures a[|a| - 1] in b && a[|a| - 1].id >= b[|b| - 1].id
  {
    var m, n := |a| - 1, |b| - 1;
    assert a[m] in a && b[n] in b;
    var i :| 0 <= i < |a| && a[i] == b[n];
    assert a[i].id <= a[m].id;
  }

  lemma ButLast(a: seq<Row>, r: Row)
    requires Ascending(a) && a != []
    ensures r in a[..|a| - 1] <==> r in a && r != a[|a| - 1]
  {
    if r in a[..|a| - 1] {
      var k :| 0 <= k < |a| - 1 && a[k] == r;
      assert a[k].id < a[|a| - 1].id;
    }
    assert a == a[..|a| - 1] + [a[|a| - 1]];
  }

  lemma {:induction false} FilterAscending(p: Row -> bool, rows: seq<Row>)
    requires Ascending(rows)
    ensures Ascending(S.Filter(p, rows))
  {
    if rows != [] {
      var n := |rows| - 1;
      FilterAscending(p, rows[..n]);
      S.FilterMembers(p, rows[..n]);
      forall r | r in S.Filter(p, rows[..n]) ensures r.id < rows[n].id {
        var i :| 0 <= i < n && rows[..n][i] == r;
      }
    }
  }
}
