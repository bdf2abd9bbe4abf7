/**
 * A columnar copy of a collection: one typed column per field, rows appended
 * and tombstoned but never moved. It reads as the map from id to record that
 * the heap holds, whatever the order its rows were written in - as long as
 * every value is of its column's kind.
 */
module ColumnStore {
  import opened Basics
  import opened Varint
  import opened Records
  import opened Queries
  import opened Columns
  import A = Aggregates
  import C = ColumnSums
  import S = Sorting
  import T = Totals
  import TopK

  type ColumnMap = map<string, Column>

  // -- rows ----------------------------------------------------------------

  function RowRecord(columns: ColumnMap, row: nat): Record {
    map f | f in columns && row < Length(columns[f]) && At(columns[f], row).Some? :: Is(At(columns[f], row).value)
  }

  function Padded(col: Column, n: nat): (r: Column)
    ensures Length(r) == if n < Length(col) then Length(col) else n
    decreases n - Length(col)
  {
    if n <= Length(col) then col else Padded(PushNull(col), n)
  }

  lemma {:induction false} PaddedAt(col: Column, n: nat, row: nat)
    requires row < Length(Padded(col, n))
    ensures At(Padded(col, n), row) == if row < Length(col) then At(col, row) else None
    decreases n - Length(col)
  {
    if n > Length(col) {
      PaddedAt(PushNull(col), n, row);
    }
  }

  lemma {:induction false} PaddedSound(col: Column, n: nat)
    requires Sound(col) && InOrder(col)
    ensures Sound(Padded(col, n)) && InOrder(Padded(col, n))
    decreases n - Length(col)
  {
    if n > Length(col) {
      PaddedSound(PushNull(col), n);
    }
  }

  /** Stored records hold no nulls. */
  predicate Whole(rec: Record) {
    forall f | f in rec :: rec[f].Is?
  }

  /** The column a field's value is pushed onto: back-filled, and made for that value if there was none. */
  function ColumnFor(columns: ColumnMap, f: string, a: Atom, row: nat): (c: Column)
    ensures Length(c) >= row
  {
    Padded(if f in columns then columns[f] else ForValue(a), row)
  }

  function NextColumn(columns: ColumnMap, row: nat, delta: bool, rec: Record, f: string): Column
    requires Whole(rec) && (f in columns || f in rec)
  {
    if f in rec then Push(ColumnFor(columns, f, rec[f].atom, row), delta, rec[f].atom) else Padded(columns[f], row + 1)
  }

  /** Every column one row longer, and a column for every field the record brings. */
  function Appended(columns: ColumnMap, row: nat, delta: bool, rec: Record): ColumnMap
    requires Whole(rec)
  {
    map f | f in columns.Keys + rec.Keys :: NextColumn(columns, row, delta, rec, f)
  }

  ghost predicate Even(columns: ColumnMap, n: nat) {
    forall f | f in columns :: Length(columns[f]) == n && Sound(columns[f]) && InOrder(columns[f])
  }

  /** The value is of its column's kind, and the delta form does not lose it. */
  predicate Fits(columns: ColumnMap, row: nat, delta: bool, f: string, a: Atom) {
    var c := ColumnFor(columns, f, a, row);
    Suits(c, a) && Reaches(c, delta, a)
  }

  /** An earlier row keeps its value of the field through the push. */
  predicate Spares(columns: ColumnMap, row: nat, delta: bool, f: string, a: Atom, earlier: nat)
    requires earlier < row
  {
    !Loses(ColumnFor(columns, f, a, row), delta, a, earlier)
  }

  lemma ColumnForIs(columns: ColumnMap, row: nat, f: string, a: Atom)
    requires Even(columns, row)
    ensures var c := ColumnFor(columns, f, a, row);
      && Length(c) == row && Sound(c) && InOrder(c)
      && forall r | 0 <= r < row :: At(c, r) == if f in columns then At(columns[f], r) else None
  {
    var c0 := if f in columns then columns[f] else ForValue(a);
    PaddedSound(c0, row);
    forall r | 0 <= r < row ensures At(Padded(c0, row), r) == if r < Length(c0) then At(c0, r) else None {
      PaddedAt(c0, row, r);
    }
    hide Padded, At, Sound, InOrder;
  }

  /** A field's column after an append: sound, one longer, and with the value or the gap. */
  lemma NextIs(columns: ColumnMap, row: nat, delta: bool, rec: Record, f: string)
    requires Even(columns, row) && Whole(rec) && (f in columns || f in rec)
    ensures var c := NextColumn(columns, row, delta, rec, f);
      && Length(c) == row + 1 && Sound(c) && InOrder(c)
      && (f !in rec ==> At(c, row) == None)
      && (f in rec ==> (At(c, row) == Some(rec[f].atom) <==> Fits(columns, row, delta, f, rec[f].atom)))
  {
    if f in rec {
      var a := rec[f].atom;
      ColumnForIs(columns, row, f, a);
      PushedLast(ColumnFor(columns, f, a, row), delta, a);
      PushedSound(ColumnFor(columns, f, a, row), delta, Some(a));
    } else {
      PaddedAt(columns[f], row + 1, row);
      PaddedSound(columns[f], row + 1);
    }
  }

  lemma NextBefore(columns: ColumnMap, row: nat, delta: bool, rec: Record, f: string, r: nat)
    requires Even(columns, row) && Whole(rec) && (f in columns || f in rec) && r < row
    ensures var c := NextColumn(columns, row, delta, rec, f);
      && Length(c) == row + 1
      && (At(c, r) == (if f in columns then At(columns[f], r) else None)
          <==> (f in rec ==> Spares(columns, row, delta, f, rec[f].atom, r)))
  {
    NextIs(columns, row, delta, rec, f);
    if f in rec {
      var a := rec[f].atom;
      ColumnForIs(columns, row, f, a);
      PushedBefore(ColumnFor(columns, f, a, row), delta, a, r);
    } else {
      PaddedAt(columns[f], row + 1, r);
    }
  }

  ghost predicate AllFit(columns: ColumnMap, row: nat, delta: bool, rec: Record)
    requires Whole(rec)
  {
    forall f | f in rec :: Fits(columns, row, delta, f, rec[f].atom)
  }

  ghost predicate AllSpared(columns: ColumnMap, row: nat, delta: bool, rec: Record, earlier: nat)
    requires Whole(rec) && earlier < row
  {
    forall f | f in rec :: Spares(columns, row, delta, f, rec[f].atom, earlier)
  }

  lemma AppendedEven(columns: ColumnMap, row: nat, delta: bool, rec: Record)
    requires Even(columns, row) && Whole(rec)
    ensures Even(Appended(columns, row, delta, rec), row + 1)
  {
    hide NextColumn, Fits;
    forall f | f in Appended(columns, row, delta, rec)
      ensures var c := Appended(columns, row, delta, rec)[f]; Length(c) == row + 1 && Sound(c) && InOrder(c)
    {
      NextIs(columns, row, delta, rec, f);
    }
  }

  /** The new row reads back as the record exactly when every value fits its column. */
  lemma AppendedNew(columns: ColumnMap, row: nat, delta: bool, rec: Record)
    requires Even(columns, row) && Whole(rec)
    ensures RowRecord(Appended(columns, row, delta, rec), row) == rec <==> AllFit(columns, row, delta, rec)
  {
    hide NextColumn, Fits, Even;
    var after := Appended(columns, row, delta, rec);
    var x := RowRecord(after, row);
    forall f ensures (Lookup(x, f) == Lookup(rec, f)) <==> (f in rec ==> Fits(columns, row, delta, f, rec[f].atom)) {
      if f in after {
        NextIs(columns, row, delta, rec, f);
      }
    }
    hide RowRecord, Appended;
    SameMap(x, rec);
  }

  /** An earlier row reads as before exactly when no push turns its column and loses it. */
  lemma AppendedOld(columns: ColumnMap, row: nat, delta: bool, rec: Record, r: nat)
    requires Even(columns, row) && Whole(rec) && r < row
    ensures RowRecord(Appended(columns, row, delta, rec), r) == RowRecord(columns, r) <==> AllSpared(columns, row, delta, rec, r)
  {
    hide NextColumn, Spares;
    var after := Appended(columns, row, delta, rec);
    var x, y := RowRecord(after, r), RowRecord(columns, r);
    forall f ensures (Lookup(x, f) == Lookup(y, f)) <==> (f in rec ==> Spares(columns, row, delta, f, rec[f].atom, r)) {
      if f in after {
        NextBefore(columns, row, delta, rec, f, r);
      }
    }
    hide RowRecord, Appended;
    SameMap(x, y);
  }

  /** The live rows among the first `n`, as they lie. */
  function Rows(ids: seq<nat>, dead: seq<bool>, columns: ColumnMap, n: nat): seq<Row>
    requires n <= |ids| == |dead|
  {
    if n == 0 then []
    else Rows(ids, dead, columns, n - 1) + if dead[n - 1] then [] else [Row(ids[n - 1], RowRecord(columns, n - 1))]
  }

  ghost predicate Indexed(ids: seq<nat>, dead: seq<bool>, rowOf: map<nat, nat>) {
    && |dead| == |ids|
    && (forall id | id in rowOf :: rowOf[id] < |ids| && ids[rowOf[id]] == id && !dead[rowOf[id]])
    && (forall r | 0 <= r < |ids| && !dead[r] :: ids[r] in rowOf && rowOf[ids[r]] == r)
  }

  ghost function ReadBack(rowOf: map<nat, nat>, columns: ColumnMap): map<nat, Record> {
    map id | id in rowOf :: RowRecord(columns, rowOf[id])
  }

  /** The rows of a map in id order: what a scan of the collection yields. */
  ghost predicate TableOf(rows: seq<Row>, m: map<nat, Record>) {
    Ascending(rows) && forall r: Row :: r in rows <==> r.id in m && m[r.id] == r.rec
  }

  /** No id twice. */
  ghost predicate OneEach(rows: seq<Row>) {
    forall i, j | 0 <= i < j < |rows| :: rows[i].id != rows[j].id
  }

  /** What the live rows among the first `n` are. */
  ghost predicate RowsUpTo(rows: seq<Row>, columns: ColumnMap, rowOf: map<nat, nat>, n: nat) {
    && OneEach(rows)
    && (forall row | row in rows :: row.id in rowOf && rowOf[row.id] < n && row.rec == RowRecord(columns, rowOf[row.id]))
    && (forall id | id in rowOf && rowOf[id] < n :: Row(id, RowRecord(columns, rowOf[id])) in rows)
  }

  lemma RowJoins(rows: seq<Row>, columns: ColumnMap, rowOf: map<nat, nat>, n: nat, id: nat)
    requires RowsUpTo(rows, columns, rowOf, n) && id in rowOf && rowOf[id] == n
    requires forall j | j in rowOf :: rowOf[j] == n ==> j == id
    ensures RowsUpTo(rows + [Row(id, RowRecord(columns, n))], columns, rowOf, n + 1)
  {
    hide RowRecord;
    forall i | 0 <= i < |rows| ensures rows[i].id != id {
      assert rows[i] in rows;
    }
  }

  lemma {:induction false} RowsAre(ids: seq<nat>, dead: seq<bool>, columns: ColumnMap, rowOf: map<nat, nat>, n: nat)
    requires Indexed(ids, dead, rowOf) && n <= |ids|
    ensures RowsUpTo(Rows(ids, dead, columns, n), columns, rowOf, n)
  {
    hide RowRecord, RowsUpTo;
    if n == 0 {
      NoRowsYet(columns, rowOf);
    } else {
      RowsAre(ids, dead, columns, rowOf, n - 1);
      if dead[n - 1] {
        var rows := Rows(ids, dead, columns, n - 1);
        assert Rows(ids, dead, columns, n) == rows by {
          assert rows + [] == rows;
        }
        RowSkipped(rows, columns, rowOf, n - 1);
      } else {
        RowJoins(Rows(ids, dead, columns, n - 1), columns, rowOf, n - 1, ids[n - 1]);
      }
    }
  }

  lemma NoRowsYet(columns: ColumnMap, rowOf: map<nat, nat>)
    ensures RowsUpTo([], columns, rowOf, 0)
  {
  }

  lemma RowSkipped(rows: seq<Row>, columns: ColumnMap, rowOf: map<nat, nat>, n: nat)
    requires RowsUpTo(rows, columns, rowOf, n) && forall id | id in rowOf :: rowOf[id] != n
    ensures RowsUpTo(rows, columns, rowOf, n + 1)
  {
    hide RowRecord, OneEach;
  }

  function ById(a: Row, b: Row): S.Ordering { IdOrder(a, b) }

  lemma ByIdLawful()
    ensures S.Lawful(ById)
  {
  }

  /** Sorted by id, the live rows are the table the map describes. */
  lemma SortedIsTable(rows: seq<Row>, m: map<nat, Record>)
    requires OneEach(rows) && forall r: Row :: r in rows <==> r.id in m && m[r.id] == r.rec
    ensures TableOf(S.Sort(ById, rows), m) && multiset(S.Sort(ById, rows)) == multiset(rows)
  {
    ByIdLawful();
    S.SortSorts(ById, rows);
    RowsUntied(rows);
    hide S.Sort, S.Lawful, OneEach, TopK.Untied, S.Sorted;
    var out := S.Sort(ById, rows);
    TopK.UntiedAny(ById, rows, out);
    SortedAscends(out);
    SameMembers(out, rows);
    hide Ascending;
  }

  lemma RowsUntied(rows: seq<Row>)
    requires OneEach(rows)
    ensures TopK.Untied(ById, rows)
  {
  }

  lemma SortedAscends(out: seq<Row>)
    requires S.Sorted(ById, out) && TopK.Untied(ById, out)
    ensures Ascending(out)
  {
    forall i, j | 0 <= i < j < |out| ensures out[i].id < out[j].id {
      assert S.Le(ById, out[i], out[j]) && ById(out[i], out[j]) != S.Equal;
    }
  }

  lemma SameMembers(a: seq<Row>, b: seq<Row>)
    requires multiset(a) == multiset(b)
    ensures forall r: Row :: r in a <==> r in b
  {
    forall r: Row ensures r in a <==> r in b {
      assert r in multiset(a) <==> r in multiset(b);
    }
  }

  lemma TableOnce(a: seq<Row>, b: seq<Row>, m: map<nat, Record>)
    requires TableOf(a, m) && TableOf(b, m)
    ensures a == b
  {
    AscendingUnique(a, b);
  }

  // -- the k best ids ------------------------------------------------------

  datatype Candidate = Candidate(id: nat, value: Option<Atom>)

  function OrderVs(cmp: Compare, descending: bool, a: Candidate, b: Candidate): S.Ordering {
    var ord :=
      match (a.value, b.value)
      case (Some(x), Some(y)) => cmp(x, y)
      case (None, None) => S.Equal
      case (None, Some(_)) => S.Greater
      case (Some(_), None) => S.Less;
    S.Then(if descending then S.Flip(ord) else ord,
      if a.id < b.id then S.Less else if a.id == b.id then S.Equal else S.Greater)
  }

  function ByCandidate(cmp: Compare, descending: bool): (Candidate, Candidate) -> S.Ordering {
    (a, b) => OrderVs(cmp, descending, a, b)
  }

  function CandidateOf(row: Row, f: string): Candidate {
    Candidate(row.id, Field(row.rec, f))
  }

  function Candidates(rows: seq<Row>, f: string): (r: seq<Candidate>)
    ensures |r| == |rows| && forall i :: 0 <= i < |rows| ==> r[i] == CandidateOf(rows[i], f)
  {
    seq(|rows|, i requires 0 <= i < |rows| => CandidateOf(rows[i], f))
  }

  predicate NoNulls(rows: seq<Row>) {
    forall i | 0 <= i < |rows| :: Whole(rows[i].rec)
  }

  /** The order of candidates is the executor's order of whole rows. */
  lemma CandidateOrder(cmp: Compare, f: string, descending: bool, a: Row, b: Row)
    requires Whole(a.rec) && Whole(b.rec)
    ensures OrderVs(cmp, descending, CandidateOf(a, f), CandidateOf(b, f)) == RowOrder(cmp, [SortKey(f, descending)], a, b)
  {
    var key := SortKey(f, descending);
    assert [key][1..] == [];
    assert RowOrder(cmp, [], a, b) == IdOrder(a, b);
    assert KeyOrder(cmp, key, a, b) ==
      var o := PresentOrder(cmp, Lookup(a.rec, f), Lookup(b.rec, f)); if descending then S.Flip(o) else o;
  }

  /** Candidates are as lawfully ordered as the rows they stand for. */
  lemma CandidatesLawful(cmp: Compare, f: string, descending: bool, rows: seq<Row>)
    requires NoNulls(rows) && S.LawfulOn(ByRow(cmp, [SortKey(f, descending)]), S.Among(rows))
    ensures S.LawfulOn(ByCandidate(cmp, descending), S.Among(Candidates(rows, f)))
  {
    var byRow, byCand, cands := ByRow(cmp, [SortKey(f, descending)]), ByCandidate(cmp, descending), Candidates(rows, f);
    forall i, j | 0 <= i < |rows| && 0 <= j < |rows| ensures byCand(cands[i], cands[j]) == byRow(rows[i], rows[j]) {
      CandidateOrder(cmp, f, descending, rows[i], rows[j]);
    }
    hide *;
    S.MappedLawful(byRow, rows, byCand, cands);
  }

  lemma {:induction false} SortMapped(cmp: Compare, f: string, descending: bool, rows: seq<Row>)
    requires NoNulls(rows)
    ensures Candidates(S.Sort(ByRow(cmp, [SortKey(f, descending)]), rows), f) ==
      S.Sort(ByCandidate(cmp, descending), Candidates(rows, f))
  {
    hide *;
    var byRow, byCand := ByRow(cmp, [SortKey(f, descending)]), ByCandidate(cmp, descending);
    if rows == [] {
      NoneSorted(byRow);
      NoneSorted(byCand);
      assert Candidates(rows, f) == [];
    } else {
      var front, x := rows[..|rows| - 1], rows[|rows| - 1];
      assert rows == front + [x];
      FrontNoNulls(front, x);
      SortMapped(cmp, f, descending, front);
      S.SortMembers(byRow, front);
      StillNoNulls(front, S.Sort(byRow, front));
      PlaceMapped(cmp, f, descending, x, S.Sort(byRow, front));
      assert Candidates(rows, f) == Candidates(front, f) + [CandidateOf(x, f)];
      S.SortNext(byRow, front, x);
      S.SortNext(byCand, Candidates(front, f), CandidateOf(x, f));
    }
  }

  lemma NoneSorted<T>(cmp: (T, T) -> S.Ordering)
    ensures S.Sort(cmp, []) == []
  {
  }

  lemma FrontNoNulls(front: seq<Row>, x: Row)
    requires NoNulls(front + [x])
    ensures NoNulls(front) && Whole(x.rec)
  {
    hide Whole;
    var all := front + [x];
    assert all[|front|] == x;
    forall i | 0 <= i < |front| ensures Whole(front[i].rec) {
      assert all[i] == front[i];
    }
  }

  lemma StillNoNulls(a: seq<Row>, b: seq<Row>)
    requires NoNulls(a) && multiset(a) == multiset(b)
    ensures NoNulls(b)
  {
    forall i | 0 <= i < |b| ensures Whole(b[i].rec) {
      assert b[i] in multiset(a);
      var j :| 0 <= j < |a| && a[j] == b[i];
    }
  }

  lemma {:induction false} PlaceMapped(cmp: Compare, f: string, descending: bool, x: Row, s: seq<Row>)
    requires NoNulls(s) && Whole(x.rec)
    ensures Candidates(S.Place(ByRow(cmp, [SortKey(f, descending)]), x, s), f) ==
      S.Place(ByCandidate(cmp, descending), CandidateOf(x, f), Candidates(s, f))
  {
    hide RowOrder, OrderVs, Whole;
    if s != [] {
      CandidateOrder(cmp, f, descending, s[0], x);
      assert Candidates(s, f)[1..] == Candidates(s[1..], f);
      PlaceMapped(cmp, f, descending, x, s[1..]);
    }
  }

  lemma CandidatesUntied(cmp: Compare, f: string, descending: bool, rows: seq<Row>)
    requires OneEach(rows)
    ensures TopK.Untied(ByCandidate(cmp, descending), Candidates(rows, f))
  {
    var c := Candidates(rows, f);
    forall i, j | 0 <= i < |c| && 0 <= j < |c| && i != j ensures ByCandidate(cmp, descending)(c[i], c[j]) != S.Equal {
      assert c[i].id == rows[i].id && c[j].id == rows[j].id;
    }
  }

  lemma {:induction false} CandidatesBag(a: seq<Row>, b: seq<Row>, f: string)
    requires multiset(a) == multiset(b)
    ensures multiset(Candidates(a, f)) == multiset(Candidates(b, f))
    decreases |a|
  {
    if a == [] {
      assert |b| == |multiset(b)| == |multiset(a)| == 0;
    } else {
      var n := |a| - 1;
      var i := DropCommon(a, b);
      var rest := b[..i] + b[i + 1..];
      CandidatesBag(a[..n], rest, f);
      assert Candidates(a, f) == Candidates(a[..n], f) + [CandidateOf(a[n], f)];
      var left, right := Candidates(b[..i], f), Candidates(b[i + 1..], f);
      assert Candidates(rest, f) == left + right;
      assert Candidates(b, f) == left + [CandidateOf(b[i], f)] + right;
    }
  }

  function Ids(rows: seq<Row>): (r: seq<nat>)
    ensures |r| == |rows| && forall i :: 0 <= i < |rows| ==> r[i] == rows[i].id
  {
    seq(|rows|, i requires 0 <= i < |rows| => rows[i].id)
  }

  function CandidateIds(cs: seq<Candidate>): (r: seq<nat>)
    ensures |r| == |cs| && forall i :: 0 <= i < |cs| ==> r[i] == cs[i].id
  {
    seq(|cs|, i requires 0 <= i < |cs| => cs[i].id)
  }

  /**
   * The k best candidates, chosen from rows in any order, are the ids a full sort
   * of the table and a limit would return, if the sort orders those rows lawfully.
   */
  lemma BestIsSortLimit(cmp: Compare, f: string, descending: bool, k: nat, rows: seq<Row>, table: seq<Row>)
    requires S.LawfulOn(ByRow(cmp, [SortKey(f, descending)]), S.Among(rows))
    requires OneEach(rows) && NoNulls(rows) && multiset(rows) == multiset(table)
    ensures CandidateIds(S.Take(S.Sort(ByCandidate(cmp, descending), Candidates(rows, f)), k)) ==
      Ids(S.Take(S.Sort(ByRow(cmp, [SortKey(f, descending)]), table), k))
  {
    var cands := Candidates(rows, f);
    CandidatesLawful(cmp, f, descending, rows);
    CandidatesUntied(cmp, f, descending, rows);
    CandidatesBag(rows, table, f);
    StillNoNulls(rows, table);
    SortMapped(cmp, f, descending, table);
    TopK.UntiedSameAmong(ByCandidate(cmp, descending), S.Among(cands), cands, Candidates(table, f)) by { hide *; AllAmong(cands); }
    TakenIds(S.Sort(ByRow(cmp, [SortKey(f, descending)]), table), f, k) by { hide *; }
    hide *;
  }

  lemma AllAmong(cands: seq<Candidate>)
    ensures forall c | c in cands :: S.Among(cands)(c)
  {
  }

  lemma TakenIds(sorted: seq<Row>, f: string, k: nat)
    ensures CandidateIds(S.Take(Candidates(sorted, f), k)) == Ids(S.Take(sorted, k))
  {
  }

  lemma EvalSortLimit(cmp: Compare, keys: seq<SortKey>, k: nat, table: seq<Row>)
    ensures Eval(cmp, Plan.Limit(Plan.Sort(Plan.Scan, keys), k), table) == S.Take(S.Sort(ByRow(cmp, keys), table), k)
  {
    S.FilterIdentity(Reads(Plan.Scan), table);
    assert Eval(cmp, Plan.Scan, table) == table;
    hide S.Sort;
  }

  // -- the store -----------------------------------------------------------

  /** What a store must be asked to take for its copy to stay exact: each value fits, and no live row is lost. */
  ghost predicate Takes(columns: ColumnMap, rowOf: map<nat, nat>, row: nat, delta: bool, rec: Record)
    requires Whole(rec) && forall id | id in rowOf :: rowOf[id] < row
  {
    AllFit(columns, row, delta, rec) && forall id | id in rowOf :: AllSpared(columns, row, delta, rec, rowOf[id])
  }

  /** A store's fields: ids and tombstones by row, the live rows by id, and the columns. */
  datatype Copy = Copy(ids: seq<nat>, rowOf: map<nat, nat>, columns: ColumnMap, dead: seq<bool>)

  ghost predicate Proper(s: Copy) {
    Indexed(s.ids, s.dead, s.rowOf) && Even(s.columns, |s.ids|)
  }

  /** The collection, as it reads from the columns. */
  ghost function LiveIn(s: Copy): map<nat, Record> {
    ReadBack(s.rowOf, s.columns)
  }

  ghost function Marked(s: Copy, id: nat): Copy
    requires Proper(s)
  {
    if id in s.rowOf then s.(rowOf := s.rowOf - {id}, dead := s.dead[s.rowOf[id] := true]) else s
  }

  ghost function Extended(s: Copy, id: nat, rec: Record, delta: bool): Copy
    requires Proper(s) && Whole(rec)
  {
    Copy(s.ids + [id], s.rowOf[id := |s.ids|], Appended(s.columns, |s.ids|, delta, rec), s.dead + [false])
  }

  ghost function AllExpanded(s: Copy): Copy {
    s.(columns := map f | f in s.columns :: Expanded(s.columns[f]))
  }

  /** Whether a record written now would read back, beside everything that does already. */
  ghost predicate CanTake(s: Copy, id: nat, delta: bool, rec: Record)
    requires Proper(s) && Whole(rec)
  {
    Takes(s.columns, s.rowOf - {id}, |s.ids|, delta, rec)
  }

  class Store {
    var ids: seq<nat>
    var rowOf: map<nat, nat>
    var columns: ColumnMap
    var dead: seq<bool>
    var deadCount: nat

    ghost predicate Valid()
      reads this
    {
      && Proper(State())
      && deadCount == multiset(dead)[true]
    }

    ghost function State(): Copy
      reads this
    {
      Copy(ids, rowOf, columns, dead)
    }

    ghost function Live(): map<nat, Record>
      reads this
    {
      LiveIn(State())
    }

    constructor ()
      ensures Valid() && State() == Copy([], map[], map[], [])
    {
      ids, rowOf, columns, dead, deadCount := [], map[], map[], [], 0;
    }

    /** Tombstone the row an id has, if it has one. */
    method MarkDead(id: nat)
      requires Valid()
      modifies this
      ensures Valid() && State() == Marked(old(State()), id) && Live() == old(Live()) - {id}
    {
      MarkedIs(State(), id);
      if id !in rowOf {
        return;
      }
      hide Even, LiveIn;
      var row := rowOf[id];
      if !dead[row] {
        DeadMore(dead, row);
        dead := dead[row := true];
        deadCount := deadCount + 1;
      }
      rowOf := rowOf - {id};
    }

    /** A record for an id with no live row: the columns it leads to, and when they read as they should. */
    method Append(id: nat, rec: Record, delta: bool)
      requires Valid() && id !in rowOf && Whole(rec)
      modifies this
      ensures Valid()
      ensures State() == Extended(old(State()), id, rec, delta)
      ensures Live() == old(Live())[id := rec] <==> old(Takes(columns, rowOf, |ids|, delta, rec))
    {
      ExtendedIs(State(), id, rec, delta);
      AliveMore(dead);
      hide Appended, Proper, LiveIn, Takes, Whole;
      assert Even(columns, |ids|) && Indexed(ids, dead, rowOf) by { assert Proper(State()); }
      hide Even, Indexed;
      columns := AppendRow(columns, |ids|, delta, rec);
      ids, rowOf, dead := ids + [id], rowOf[id := |ids|], dead + [false];
    }

    /** Maintenance on a write: the old row is tombstoned and a new one appended. */
    method Write(id: nat, rec: Record, delta: bool)
      requires Valid() && Whole(rec)
      modifies this
      ensures Valid()
      ensures State() == Extended(Marked(old(State()), id), id, rec, delta)
      ensures Live() == old(Live())[id := rec] <==> old(CanTake(State(), id, delta, rec))
    {
      hide Appended, Indexed, Even, RowRecord, Takes, AllFit, AllSpared, ReadBack, Whole;
      MarkDead(id);
      assert rowOf == old(rowOf) - {id};
      Append(id, rec, delta);
      assert (old(Live()) - {id})[id := rec] == old(Live())[id := rec];
    }

    /** Switching the delta form off expands every delta column, and reads the same. */
    method DisableDelta()
      requires Valid()
      modifies this`columns
      ensures Valid() && State() == AllExpanded(old(State())) && Live() == old(Live())
    {
      hide Expanded, Even, ReadBack, Indexed;
      var names := ToSeq(columns.Keys);
      ghost var before := columns;
      for i := 0 to |names|
        invariant columns.Keys == before.Keys
        invariant forall f | f in before :: columns[f] == if f in names[..i] then Expanded(before[f]) else before[f]
      {
        assert names[..i + 1] == names[..i] + [names[i]] && names[i] !in names[..i];
        columns := columns[names[i] := Expanded(columns[names[i]])];
      }
      assert names[..|names|] == names;
      ExpandedLive(rowOf, |ids|, before, columns);
    }

    /** Each live row, as the columns give it. */
    method LiveRows() returns (rows: seq<Row>)
      requires Valid()
      ensures rows == Rows(ids, dead, columns, |ids|)
      ensures OneEach(rows) && forall r: Row :: r in rows <==> r.id in Live() && Live()[r.id] == r.rec
    {
      hide RowRecord;
      rows := [];
      for row := 0 to |ids|
        invariant rows == Rows(ids, dead, columns, row)
      {
        if !dead[row] {
          rows := rows + [Row(ids[row], RowRecord(columns, row))];
        }
      }
      RowsAre(ids, dead, columns, rowOf, |ids|);
      hide Rows;
      forall r: Row ensures r in rows <==> r.id in Live() && Live()[r.id] == r.rec {
      }
    }

    /** The named fields of every live record, in id order. */
    method Project(fields: seq<string>) returns (out: seq<Row>)
      requires Valid()
      ensures forall table | TableOf(table, Live()) :: out == Projected(table, fields)
      ensures NamedFields(out, Live(), fields)
    {
      var rows := LiveRows();
      SortedIsTable(rows, Live());
      var table := S.Sort(ById, rows);
      out := Projected(table, fields);
      ProjectedTable(table, Live(), fields);
      forall other | TableOf(other, Live()) ensures out == Projected(other, fields) {
        TableOnce(table, other, Live());
      }
    }

    method Get(id: nat, fields: seq<string>) returns (r: Option<Record>)
      requires Valid()
      ensures r.Some? <==> id in Live()
      ensures r.Some? ==> forall f :: Lookup(r.value, f) == if f in fields then Lookup(Live()[id], f) else None
    {
      if id !in rowOf || dead[rowOf[id]] {
        return None;
      }
      r := Some(Kept(RowRecord(columns, rowOf[id]), fields));
    }

    /** The ids of the k rows a sort on one field and a limit would return, without building a record per row. */
    method TopkIds(cmp: Compare, field: string, descending: bool, k: nat) returns (r: Option<seq<nat>>)
      requires Valid()
      ensures r.Some? <==> field in columns
      ensures r.Some? ==> forall table | TableOf(table, Live()) ::
        S.LawfulOn(ByRow(cmp, [SortKey(field, descending)]), S.Among(table)) ==>
          && r.value == Ids(Eval(cmp, Plan.Limit(Plan.Sort(Plan.Scan, [SortKey(field, descending)]), k), table))
          && BestIds(cmp, SortKey(field, descending), k, Live(), r.value)
    {
      if field !in columns {
        return None;
      }
      var rows := LiveRows();
      var best := TopK.Select(ByCandidate(cmp, descending), Candidates(rows, field), k);
      r := Some(CandidateIds(best));
      RowsWhole(ids, dead, columns, |ids|);
      ghost var live := Live();
      hide *;
      forall table | TableOf(table, live) && S.LawfulOn(ByRow(cmp, [SortKey(field, descending)]), S.Among(table))
        ensures r.value == Ids(Eval(cmp, Plan.Limit(Plan.Sort(Plan.Scan, [SortKey(field, descending)]), k), table))
        ensures BestIds(cmp, SortKey(field, descending), k, live, r.value)
      {
        BestIsAnswer(cmp, field, descending, k, rows, live, table, best);
        BestOfTable(cmp, SortKey(field, descending), k, live, table);
      }
    }

    /** Group and accumulate straight from the columns, testing each row in one reused scratch record. */
    method Aggregate(d: A.Def, fields: seq<string>, test: Record -> bool) returns (groups: A.Groups)
      requires Valid()
      ensures groups == C.Observed(d, Passing(fields, test, Rows(ids, dead, columns, |ids|)))
      ensures forall table | TableOf(table, Live()) ::
        C.StandsIn(d, Passing(fields, test, Rows(ids, dead, columns, |ids|)), Passing(fields, test, table))
    {
      hide RowRecord, A.KeyOf, C.ObserveAll, Rows, C.Observed, Kept, Even;
      groups := map[];
      ghost var met: seq<Record> := [];
      assert groups == C.Observed(d, []) by { C.NothingObserved(d); }
      NonePass(fields, test);
      assert Rows(ids, dead, columns, 0) == [] by { RowsNone(ids, dead, columns); }
      var scratch: Record := map[];
      for row := 0 to |ids|
        invariant groups == C.Observed(d, met)
        invariant met == Passing(fields, test, Rows(ids, dead, columns, row))
        invariant scratch.Keys <= set f | f in fields
      {
        RowsNext(ids, dead, columns, row);
        if !dead[row] {
          PassingNext(fields, test, Rows(ids, dead, columns, row), Row(ids[row], RowRecord(columns, row)));
          scratch := Load(fields, row, scratch);
          if test(scratch) {
            var rec := RowRecord(columns, row);
            C.ObservedNext(d, met, rec);
            CellwiseIsRowwise(d, A.AccsAt(d, groups, KeyAt(d, columns, row)), columns, row);
            var key := KeyAt(d, columns, row);
            groups := groups[key := ObserveAt(d, A.AccsAt(d, groups, key), columns, row)];
            met := met + [rec];
          }
        }
      }
      var live := LiveRows();
      SortedIsTable(live, Live());
      hide S.Sort;
      hide C.StandsIn;
      forall table | TableOf(table, Live())
        ensures C.StandsIn(d, met, Passing(fields, test, table))
      {
        TableOnce(S.Sort(ById, live), table, Live());
        PassingBag(fields, test, live, table);
        C.AnyStandsIn(d, met, Passing(fields, test, table));
      }
    }

    /** Set or clear each field the test reads; whatever the last row left behind is overwritten. */
    method Load(fields: seq<string>, row: nat, before: Record) returns (scratch: Record)
      requires before.Keys <= set f | f in fields
      ensures scratch == Kept(RowRecord(columns, row), fields) && scratch.Keys <= set f | f in fields
    {
      hide At;
      scratch := before;
      for i := 0 to |fields|
        invariant scratch.Keys <= set f | f in fields
        invariant forall f | f in fields[..i] :: Lookup(scratch, f) == Lookup(RowRecord(columns, row), f)
      {
        var v := CellAt(columns, fields[i], row);
        scratch := if v.Some? then scratch[fields[i] := Is(v.value)] else scratch - {fields[i]};
      }
      assert fields[..|fields|] == fields;
    }
  }

  /** The record's own fields, back-filling a column that appears late; then a gap in every other. */
  method AppendRow(before: ColumnMap, row: nat, delta: bool, rec: Record) returns (columns: ColumnMap)
    requires Even(before, row) && Whole(rec)
    ensures columns == Appended(before, row, delta, rec)
  {
    var pushed := PushFields(before, row, delta, rec);
    columns := PadAll(pushed, row + 1);
    hide Padded, ColumnFor;
    forall f | f in columns ensures columns[f] == NextColumn(before, row, delta, rec, f) {
      PadsGap(before, row, delta, rec, f);
    }
  }

  method PushFields(before: ColumnMap, row: nat, delta: bool, rec: Record) returns (columns: ColumnMap)
    requires Whole(rec)
    ensures columns.Keys == before.Keys + rec.Keys
    ensures forall f | f in columns ::
      columns[f] == if f in rec then Push(ColumnFor(before, f, rec[f].atom, row), delta, rec[f].atom) else before[f]
  {
    hide Padded, Push;
    columns := before;
    var names := ToSeq(rec.Keys);
    for i := 0 to |names|
      invariant forall f :: f in columns <==> f in before || f in names[..i]
      invariant forall f | f in columns ::
        columns[f] == if f in names[..i] then Push(ColumnFor(before, f, rec[f].atom, row), delta, rec[f].atom) else before[f]
    {
      assert names[..i + 1] == names[..i] + [names[i]] && names[i] !in names[..i];
      var a := rec[names[i]].atom;
      columns := columns[names[i] := Push(ColumnFor(columns, names[i], a, row), delta, a)];
    }
    assert names[..|names|] == names;
  }

  /** A pushed column is already long enough for the padding that follows. */
  lemma PadsGap(before: ColumnMap, row: nat, delta: bool, rec: Record, f: string)
    requires Even(before, row) && Whole(rec)
    ensures f in rec ==>
      var c := Push(ColumnFor(before, f, rec[f].atom, row), delta, rec[f].atom); Padded(c, row + 1) == c
  {
    if f in rec {
      NextIs(before, row, delta, rec, f);
    }
  }

  method PadAll(columns: ColumnMap, n: nat) returns (padded: ColumnMap)
    ensures padded == map f | f in columns :: Padded(columns[f], n)
  {
    hide Padded;
    padded := columns;
    var all := ToSeq(columns.Keys);
    for i := 0 to |all|
      invariant padded.Keys == columns.Keys
      invariant forall f | f in columns :: padded[f] == if f in all[..i] then Padded(columns[f], n) else columns[f]
    {
      assert all[..i + 1] == all[..i] + [all[i]] && all[i] !in all[..i];
      padded := padded[all[i] := Padded(padded[all[i]], n)];
    }
    assert all[..|all|] == all;
  }

  /** One cell, absent past the end of a column or without one. */
  function CellAt(columns: ColumnMap, f: string, row: nat): (v: Option<Atom>)
    ensures v == Field(RowRecord(columns, row), f)
  {
    if f in columns && row < Length(columns[f]) then At(columns[f], row) else None
  }

  function KeyAt(d: A.Def, columns: ColumnMap, row: nat): A.GroupKey {
    seq(|d.groupBy|, i requires 0 <= i < |d.groupBy| =>
      A.Canon(d, match CellAt(columns, d.groupBy[i], row) case None => Null case Some(a) => Is(a)))
  }

  function ObserveAt(d: A.Def, accs: A.Accs, columns: ColumnMap, row: nat): A.Accs
    requires |accs| == |d.aggs|
  {
    seq(|d.aggs|, i requires 0 <= i < |d.aggs| =>
      C.Observe(d, d.aggs[i], accs[i],
        match d.aggs[i].field case None => None case Some(f) => CellAt(columns, f, row)))
  }

  /** Cell by cell, the same key and the same observations as from the record. */
  lemma CellwiseIsRowwise(d: A.Def, accs: A.Accs, columns: ColumnMap, row: nat)
    requires |accs| == |d.aggs|
    ensures KeyAt(d, columns, row) == A.KeyOf(d, RowRecord(columns, row))
    ensures ObserveAt(d, accs, columns, row) == C.ObserveAll(d, accs, RowRecord(columns, row))
  {
    var rec := RowRecord(columns, row);
    assert Whole(rec);
    hide RowRecord, C.Observe;
    forall i | 0 <= i < |d.groupBy| ensures KeyAt(d, columns, row)[i] == A.KeyOf(d, rec)[i] {
    }
    forall i | 0 <= i < |accs| ensures ObserveAt(d, accs, columns, row)[i] == C.ObserveAll(d, accs, rec)[i] {
    }
  }

  // -- rows that pass ------------------------------------------------------

  function Tested(fields: seq<string>, test: Record -> bool): Record -> bool {
    (rec: Record) => test(Kept(rec, fields))
  }

  /** The records a test passes, seeing only the fields it reads. */
  function Passing(fields: seq<string>, test: Record -> bool, rows: seq<Row>): seq<Record> {
    S.Filter(Tested(fields, test), A.Recs(rows))
  }

  lemma PassingNext(fields: seq<string>, test: Record -> bool, rows: seq<Row>, x: Row)
    ensures Passing(fields, test, rows + [x]) ==
      if test(Kept(x.rec, fields)) then Passing(fields, test, rows) + [x.rec] else Passing(fields, test, rows)
  {
    assert A.Recs(rows + [x]) == A.Recs(rows) + [x.rec];
    S.FilterNext(Tested(fields, test), A.Recs(rows), x.rec);
  }

  lemma {:induction false} PassingBag(fields: seq<string>, test: Record -> bool, a: seq<Row>, b: seq<Row>)
    requires multiset(a) == multiset(b)
    ensures multiset(Passing(fields, test, a)) == multiset(Passing(fields, test, b))
    decreases |a|
  {
    hide *;
    if a == [] {
      assert |b| == |multiset(b)| == |multiset(a)| == 0;
    } else {
      var n := |a| - 1;
      var i := DropCommon(a, b);
      var head, tail := b[..i], b[i + 1..];
      PassingBag(fields, test, a[..n], head + tail);
      assert a == a[..n] + [a[n]] && b == head + [b[i]] + tail;
      PassingNext(fields, test, a[..n], a[n]);
      PassingNext(fields, test, head, b[i]);
      PassingSplit(fields, test, head, tail);
      PassingSplit(fields, test, head + [b[i]], tail);
      Between(Passing(fields, test, a[..n]), Passing(fields, test, head), Passing(fields, test, tail), a[n].rec);
    }
  }

  lemma Between<T>(p: seq<T>, head: seq<T>, tail: seq<T>, x: T)
    requires multiset(p) == multiset(head + tail)
    ensures multiset(p + [x]) == multiset(head + [x] + tail)
  {
  }

  lemma NonePass(fields: seq<string>, test: Record -> bool)
    ensures Passing(fields, test, []) == []
  {
  }

  lemma PassingSplit(fields: seq<string>, test: Record -> bool, a: seq<Row>, b: seq<Row>)
    ensures Passing(fields, test, a + b) == Passing(fields, test, a) + Passing(fields, test, b)
  {
    assert A.Recs(a + b) == A.Recs(a) + A.Recs(b);
    S.FilterSplit(Tested(fields, test), A.Recs(a), A.Recs(b));
  }

  lemma RowsNone(ids: seq<nat>, dead: seq<bool>, columns: ColumnMap)
    requires |dead| == |ids|
    ensures Rows(ids, dead, columns, 0) == []
  {
  }

  lemma RowsNext(ids: seq<nat>, dead: seq<bool>, columns: ColumnMap, n: nat)
    requires n < |ids| == |dead|
    ensures Rows(ids, dead, columns, n + 1) ==
      if dead[n] then Rows(ids, dead, columns, n) else Rows(ids, dead, columns, n) + [Row(ids[n], RowRecord(columns, n))]
  {
  }

  lemma ExpandedLive(rowOf: map<nat, nat>, n: nat, before: ColumnMap, after: ColumnMap)
    requires Even(before, n) && after == map f | f in before :: Expanded(before[f])
    ensures Even(after, n) && ReadBack(rowOf, after) == ReadBack(rowOf, before)
  {
    hide RowRecord, At;
    forall row ensures RowRecord(after, row) == RowRecord(before, row) {
      ExpandedReads(before, after, row);
    }
  }

  lemma ExpandedReads(before: ColumnMap, after: ColumnMap, row: nat)
    requires after == map f | f in before :: Expanded(before[f])
    ensures RowRecord(after, row) == RowRecord(before, row)
  {
  }

  lemma BestIsAnswer(
      cmp: Compare, f: string, descending: bool, k: nat, rows: seq<Row>, live: map<nat, Record>, table: seq<Row>, best: seq<Candidate>)
    requires OneEach(rows) && NoNulls(rows) && TableOf(table, live)
    requires forall r: Row :: r in rows <==> r.id in live && live[r.id] == r.rec
    requires S.LawfulOn(ByRow(cmp, [SortKey(f, descending)]), S.Among(table))
    requires var order, cands := ByCandidate(cmp, descending), Candidates(rows, f);
      TopK.Settles(order, cands) ==> best == S.Take(S.Sort(order, cands), k)
    ensures CandidateIds(best) == Ids(Eval(cmp, Plan.Limit(Plan.Sort(Plan.Scan, [SortKey(f, descending)]), k), table))
  {
    SortedIsTable(rows, live);
    TableOnce(S.Sort(ById, rows), table, live);
    hide *;
    S.SameMembers(rows, table);
    S.SameLawful(ByRow(cmp, [SortKey(f, descending)]), rows, table);
    CandidatesLawful(cmp, f, descending, rows);
    CandidatesUntied(cmp, f, descending, rows);
    BothSettle(ByCandidate(cmp, descending), Candidates(rows, f));
    EvalSortLimit(cmp, [SortKey(f, descending)], k, table);
    BestIsSortLimit(cmp, f, descending, k, rows, table);
  }

  /** The ids of the first `k` rows by one field: as many as there are, in order, and none before them left out. */
  ghost predicate BestIds(cmp: Compare, key: SortKey, k: nat, live: map<nat, Record>, ids: seq<nat>) {
    && |ids| == (if |live| < k then |live| else k)
    && (forall i | 0 <= i < |ids| :: ids[i] in live)
    && (forall i, j | 0 <= i < j < |ids| :: ids[i] != ids[j] && Comes(cmp, [key], Row(ids[i], live[ids[i]]), Row(ids[j], live[ids[j]])))
    && (forall id, i | id in live && id !in ids && 0 <= i < |ids| :: Comes(cmp, [key], Row(ids[i], live[ids[i]]), Row(id, live[id])))
  }

  /** A table without its last row is of what is left without that row's id. */
  lemma TableButLast(table: seq<Row>, live: map<nat, Record>)
    requires TableOf(table, live) && table != []
    ensures var id := table[|table| - 1].id;
      id in live && TableOf(table[..|table| - 1], live - {id})
  {
    var n, last := |table| - 1, table[|table| - 1];
    assert last in table;
    var less := live - {last.id};
    forall r: Row ensures r in table[..n] <==> r.id in less && less[r.id] == r.rec {
      ButLast(table, r);
      if r in table && r.id == last.id {
        assert live[r.id] == r.rec == last.rec;
      }
    }
  }

  lemma {:induction false} TableSize(table: seq<Row>, live: map<nat, Record>)
    requires TableOf(table, live)
    ensures |table| == |live|
    decreases |table|
  {
    forall id | id in live ensures exists r :: r in table && r.id == id {
      assert Row(id, live[id]) in table;
    }
    if table == [] {
      assert live.Keys == {};
    } else {
      hide TableOf;
      var n, id := |table| - 1, table[|table| - 1].id;
      TableButLast(table, live);
      TableSize(table[..n], live - {id});
      assert live.Keys == (live - {id}).Keys + {id};
    }
  }

  lemma BestOfTable(cmp: Compare, key: SortKey, k: nat, live: map<nat, Record>, table: seq<Row>)
    requires TableOf(table, live) && S.LawfulOn(ByRow(cmp, [key]), S.Among(table))
    ensures BestIds(cmp, key, k, live, Ids(Eval(cmp, Plan.Limit(Plan.Sort(Plan.Scan, [key]), k), table)))
  {
    hide S.Sort, ByRow, S.LawfulOn, Comes, Eval, S.Take;
    EvalSortLimit(cmp, [key], k, table);
    FirstRows(cmp, [key], table, k);
    TableSize(table, live);
    FirstDistinct(cmp, key, k, table);
    FirstAreBest(cmp, key, k, live, table, S.Take(S.Sort(ByRow(cmp, [key]), table), k));
  }

  lemma FirstAreBest(cmp: Compare, key: SortKey, k: nat, live: map<nat, Record>, table: seq<Row>, first: seq<Row>)
    requires TableOf(table, live) && |table| == |live| && |first| == if |table| < k then |table| else k
    requires (forall r | r in first :: r in table) && forall i, j | 0 <= i < j < |first| :: first[i].id != first[j].id
    requires forall i, j | 0 <= i < j < |first| :: Comes(cmp, [key], first[i], first[j])
    requires forall r, i | r in table && r !in first && 0 <= i < |first| :: Comes(cmp, [key], first[i], r)
    ensures BestIds(cmp, key, k, live, Ids(first))
  {
    hide Comes, Ascending;
    var ids := Ids(first);
    forall i | 0 <= i < |first| ensures ids[i] in live && Row(ids[i], live[ids[i]]) == first[i] {
      assert first[i] in first;
    }
    forall r | r in first ensures r.id in ids {
      var j :| 0 <= j < |first| && first[j] == r;
      assert ids[j] == r.id;
    }
    forall id, i | id in live && id !in ids && 0 <= i < |ids| ensures Comes(cmp, [key], Row(ids[i], live[ids[i]]), Row(id, live[id])) {
      var r := Row(id, live[id]);
      assert r in table && r !in first;
      assert Comes(cmp, [key], first[i], r);
    }
  }

  lemma FirstDistinct(cmp: Compare, key: SortKey, k: nat, table: seq<Row>)
    requires Ascending(table)
    ensures var first := S.Take(S.Sort(ByRow(cmp, [key]), table), k);
      forall i, j | 0 <= i < j < |first| :: first[i].id != first[j].id
  {
    var sorted := S.Sort(ByRow(cmp, [key]), table);
    S.SortMembers(ByRow(cmp, [key]), table);
    hide S.Sort, ByRow;
    forall i, j | 0 <= i < j < |sorted| ensures sorted[i].id != sorted[j].id {
      if sorted[i].id == sorted[j].id {
        assert sorted[i] in sorted && sorted[j] in sorted;
        var p :| 0 <= p < |table| && table[p] == sorted[i];
        var q :| 0 <= q < |table| && table[q] == sorted[j];
        TopK.Twice(sorted, i, j);
        var r := TopK.SecondPlace(table, p);
      }
    }
  }

  /** One row for each live id, in id order, of exactly the named fields of its record. */
  ghost predicate NamedFields(out: seq<Row>, live: map<nat, Record>, fields: seq<string>) {
    && |out| == |live|
    && (forall i, j | 0 <= i < j < |out| :: out[i].id < out[j].id)
    && (forall i | 0 <= i < |out| :: out[i].id in live)
    && (forall i, f | 0 <= i < |out| && out[i].id in live ::
         Lookup(out[i].rec, f) == if f in fields then Lookup(live[out[i].id], f) else None)
  }

  lemma ProjectedTable(table: seq<Row>, live: map<nat, Record>, fields: seq<string>)
    requires TableOf(table, live)
    ensures NamedFields(Projected(table, fields), live, fields)
  {
    ProjectedRows(table, fields);
    TableSize(table, live);
    hide Projected;
    assert forall i | 0 <= i < |table| :: table[i] in table;
  }

  lemma BothSettle<T(!new)>(cmp: (T, T) -> S.Ordering, s: seq<T>)
    requires S.LawfulOn(cmp, S.Among(s)) && TopK.Untied(cmp, s)
    ensures TopK.Settles(cmp, s)
  {
  }

  lemma {:induction false} RowsWhole(ids: seq<nat>, dead: seq<bool>, columns: ColumnMap, n: nat)
    requires n <= |ids| == |dead|
    ensures NoNulls(Rows(ids, dead, columns, n))
  {
    if n > 0 {
      RowsWhole(ids, dead, columns, n - 1);
    }
  }

  lemma AppendedIndexed(ids: seq<nat>, dead: seq<bool>, rowOf: map<nat, nat>, id: nat)
    requires Indexed(ids, dead, rowOf) && id !in rowOf
    ensures Indexed(ids + [id], dead + [false], rowOf[id := |ids|])
    ensures multiset(dead + [false])[true] == multiset(dead)[true]
  {
  }

  lemma AliveMore(dead: seq<bool>)
    ensures multiset(dead + [false])[true] == multiset(dead)[true]
  {
  }

  lemma DeadMore(dead: seq<bool>, row: nat)
    requires row < |dead| && !dead[row]
    ensures multiset(dead[row := true])[true] == multiset(dead)[true] + 1
  {
  }

  lemma AppendedLive(ids: seq<nat>, rowOf: map<nat, nat>, columns: ColumnMap, row: nat, delta: bool, id: nat, rec: Record)
    requires row == |ids| && Even(columns, row) && Whole(rec) && id !in rowOf && forall j | j in rowOf :: rowOf[j] < row
    ensures Even(Appended(columns, row, delta, rec), row + 1)
    ensures ReadBack(rowOf[id := row], Appended(columns, row, delta, rec)) == ReadBack(rowOf, columns)[id := rec]
      <==> Takes(columns, rowOf, row, delta, rec)
  {
    hide RowRecord, Appended, AllFit, AllSpared;
    var after := Appended(columns, row, delta, rec);
    AppendedEven(columns, row, delta, rec);
    AppendedNew(columns, row, delta, rec);
    forall j | j in rowOf
      ensures RowRecord(after, rowOf[j]) == RowRecord(columns, rowOf[j]) <==> AllSpared(columns, row, delta, rec, rowOf[j])
    {
      AppendedOld(columns, row, delta, rec, rowOf[j]);
    }
    hide Even;
    var x, y := ReadBack(rowOf[id := row], after), ReadBack(rowOf, columns)[id := rec];
    if x == y {
      assert x[id] == y[id];
      forall j | j in rowOf ensures AllSpared(columns, row, delta, rec, rowOf[j]) {
        assert x[j] == y[j];
      }
    }
  }

  // -- runs ----------------------------------------------------------------

  /** What happens to a copy: a record is written, one is deleted, the delta form is switched off. */
  datatype Step = Write(id: nat, rec: Record, delta: bool) | Remove(id: nat) | Off

  lemma WholeStored(rec: Record)
    ensures Whole(Normalize(rec))
  {
  }

  lemma MarkedIs(s: Copy, id: nat)
    requires Proper(s)
    ensures Proper(Marked(s, id)) && LiveIn(Marked(s, id)) == LiveIn(s) - {id}
  {
    hide Even, RowRecord;
  }

  lemma ExtendedIs(s: Copy, id: nat, rec: Record, delta: bool)
    requires Proper(s) && Whole(rec) && id !in s.rowOf
    ensures Proper(Extended(s, id, rec, delta))
    ensures LiveIn(Extended(s, id, rec, delta)) == LiveIn(s)[id := rec] <==> Takes(s.columns, s.rowOf, |s.ids|, delta, rec)
  {
    AppendedLive(s.ids, s.rowOf, s.columns, |s.ids|, delta, id, rec);
    AppendedIndexed(s.ids, s.dead, s.rowOf, id);
    hide Appended, Even, RowRecord, Takes, ReadBack, Whole;
  }

  ghost function Next(s: Copy, step: Step): (t: Copy)
    requires Proper(s)
    ensures Proper(t)
  {
    match step
    case Write(id, rec, delta) =>
      WholeStored(rec);
      MarkedIs(s, id);
      ExtendedIs(Marked(s, id), id, Normalize(rec), delta);
      Extended(Marked(s, id), id, Normalize(rec), delta)
    case Remove(id) =>
      MarkedIs(s, id);
      Marked(s, id)
    case Off =>
      ExpandedLive(s.rowOf, |s.ids|, s.columns, AllExpanded(s).columns);
      AllExpanded(s)
  }

  ghost function After(steps: seq<Step>): (s: Copy)
    ensures Proper(s)
  {
    if steps == [] then Copy([], map[], map[], []) else Next(After(steps[..|steps| - 1]), steps[|steps| - 1])
  }

  /** The heap the same steps leave. */
  function HeapAfter(steps: seq<Step>): map<nat, Record> {
    if steps == [] then map[]
    else
      var before := HeapAfter(steps[..|steps| - 1]);
      match steps[|steps| - 1]
      case Write(id, rec, _) => before[id := Normalize(rec)]
      case Remove(id) => before - {id}
      case Off => before
  }

  /** The columns can take what the step writes. */
  ghost predicate Taken(s: Copy, step: Step)
    requires Proper(s)
  {
    step.Write? ==> (WholeStored(step.rec); CanTake(s, step.id, step.delta, Normalize(step.rec)))
  }

  lemma WriteReads(s: Copy, id: nat, rec: Record, delta: bool)
    requires Proper(s)
    ensures LiveIn(Next(s, Write(id, rec, delta))) == LiveIn(s)[id := Normalize(rec)] <==> Taken(s, Write(id, rec, delta))
  {
    hide LiveIn, Takes, Extended, Normalize, Proper, Marked, Whole;
    WholeStored(rec);
    MarkedIs(s, id);
    MarkedFields(s, id);
    ExtendedIs(Marked(s, id), id, Normalize(rec), delta);
    assert (LiveIn(s) - {id})[id := Normalize(rec)] == LiveIn(s)[id := Normalize(rec)];
  }

  lemma MarkedFields(s: Copy, id: nat)
    requires Proper(s)
    ensures Marked(s, id).rowOf == s.rowOf - {id} && Marked(s, id).ids == s.ids && Marked(s, id).columns == s.columns
  {
  }

  lemma OffReads(s: Copy)
    requires Proper(s)
    ensures LiveIn(Next(s, Off)) == LiveIn(s)
  {
    ExpandedLive(s.rowOf, |s.ids|, s.columns, AllExpanded(s).columns);
    hide ReadBack, Even, Indexed, Expanded;
  }

  lemma NextReads(steps: seq<Step>)
    requires steps != [] && LiveIn(After(steps[..|steps| - 1])) == HeapAfter(steps[..|steps| - 1])
    ensures LiveIn(After(steps)) == HeapAfter(steps) <==> Taken(After(steps[..|steps| - 1]), steps[|steps| - 1])
  {
    hide LiveIn, Taken, Next, Proper, Normalize;
    var s := After(steps[..|steps| - 1]);
    match steps[|steps| - 1] {
      case Write(id, rec, delta) => WriteReads(s, id, rec, delta);
      case Remove(id) => RemoveReads(s, id);
      case Off => OffReads(s); OtherTaken(s, Off);
    }
  }

  lemma RemoveReads(s: Copy, id: nat)
    requires Proper(s)
    ensures LiveIn(Next(s, Remove(id))) == LiveIn(s) - {id}
    ensures Taken(s, Remove(id))
  {
    MarkedIs(s, id);
    hide LiveIn, Marked, Proper;
  }

  lemma OtherTaken(s: Copy, step: Step)
    requires Proper(s) && !step.Write?
    ensures Taken(s, step)
  {
  }

  /**
   * Over every run of writes, deletes and switches, the copy reads as the heap all
   * the way exactly when the columns could take each record as it was written.
   */
  lemma {:induction false} RunReads(steps: seq<Step>)
    ensures (forall n | 0 <= n <= |steps| :: LiveIn(After(steps[..n])) == HeapAfter(steps[..n])) <==>
      forall n | 0 <= n < |steps| :: Taken(After(steps[..n]), steps[n])
  {
    hide LiveIn, Taken, Proper, After, HeapAfter;
    if steps == [] {
      NothingLive();
      assert steps[..0] == [];
    } else {
      var n := |steps| - 1;
      var front := steps[..n];
      RunReads(front);
      assert forall i | 0 <= i <= n :: front[..i] == steps[..i];
      assert front[..n] == front && steps[..n + 1] == steps;
      assert forall i | 0 <= i < n :: front[i] == steps[i];
      if LiveIn(After(front)) == HeapAfter(front) {
        NextReads(steps);
      }
    }
  }

  lemma NothingLive()
    ensures LiveIn(After([])) == HeapAfter([])
  {
  }

  // -- one kind a column ---------------------------------------------------

  /** No summed field has a catch-all column. */
  predicate SumsOneKind(d: A.Def, columns: ColumnMap) {
    forall i | 0 <= i < |d.aggs| && A.Summed(d.aggs[i]) && d.aggs[i].field.Some? && d.aggs[i].field.value in columns ::
      !CatchAll(columns[d.aggs[i].field.value])
  }

  /** Then the values a sum reads are all numbers or none is. */
  lemma KindsOneSort(d: A.Def, columns: ColumnMap, n: nat, rows: seq<Record>)
    requires Even(columns, n) && SumsOneKind(d, columns)
    requires forall rec | rec in rows :: exists r | 0 <= r < n :: rec == RowRecord(columns, r)
    ensures C.OneSort(d, rows)
  {
    hide RowRecord, SumsOneKind, Even;
    forall i, a, b | 0 <= i < |d.aggs| && A.Summed(d.aggs[i]) && a in rows && b in rows
      ensures !(C.Numeric(d.aggs[i], a) && C.NotNumeric(d.aggs[i], b))
    {
      var x :| 0 <= x < n && a == RowRecord(columns, x);
      var y :| 0 <= y < n && b == RowRecord(columns, y);
      OneSortOf(d, columns, n, i, x, y);
    }
  }

  lemma OneSortOf(d: A.Def, columns: ColumnMap, n: nat, i: nat, x: nat, y: nat)
    requires Even(columns, n) && SumsOneKind(d, columns) && i < |d.aggs| && A.Summed(d.aggs[i]) && x < n && y < n
    ensures !(C.Numeric(d.aggs[i], RowRecord(columns, x)) && C.NotNumeric(d.aggs[i], RowRecord(columns, y)))
  {
    var a := d.aggs[i];
    if a.field.Some? && a.field.value in columns {
      var c := columns[a.field.value];
      hide At, Sound;
      if At(c, x).Some? && At(c, y).Some? {
        OneKind(c, x, y);
      }
    }
  }

  /** While no column is in its delta form and none may take it, only kinds matter. */
  lemma KindsSuffice(columns: ColumnMap, rowOf: map<nat, nat>, row: nat, rec: Record)
    requires Whole(rec) && Even(columns, row) && forall id | id in rowOf :: rowOf[id] < row
    requires forall f | f in columns :: columns[f].Ints? ==> columns[f].s.shape.PlainShape?
    ensures Takes(columns, rowOf, row, false, rec) <==>
      forall f | f in rec :: Suits(if f in columns then columns[f] else ForValue(rec[f].atom), rec[f].atom)
  {
    forall f | f in rec
      ensures Fits(columns, row, false, f, rec[f].atom) <==>
        Suits(if f in columns then columns[f] else ForValue(rec[f].atom), rec[f].atom)
      ensures forall r | 0 <= r < row :: Spares(columns, row, false, f, rec[f].atom, r)
    {
      PaddedKind(if f in columns then columns[f] else ForValue(rec[f].atom), row);
    }
    hide Fits, Spares;
  }

  lemma {:induction false} PaddedKind(c: Column, n: nat)
    ensures Padded(c, n).Ints? <==> c.Ints?
    ensures c.Ints? ==> Padded(c, n).unsigned == c.unsigned && Padded(c, n).s.shape == c.s.shape
    ensures c.Typed? ==> Padded(c, n).kind == c.kind
    decreases n - Length(c)
  {
    if n > Length(c) {
      PaddedKind(PushNull(c), n);
    }
  }

  // -- where the copy parts from the heap ----------------------------------

  /** One field, one value; then another. */
  function OneRow(a: Atom, delta: bool): ColumnMap {
    Appended(map[], 0, delta, map["f" := Is(a)])
  }

  function TwoRows(a: Atom, b: Atom, delta: bool): ColumnMap {
    Appended(OneRow(a, delta), 1, delta, map["f" := Is(b)])
  }

  /** Of one kind, as a column tells kinds apart: what is none of the five takes whatever is no integer. */
  predicate OneColumn(a: Atom, b: Atom) {
    match a
    case Bool(_) => b.Bool?
    case I64(_) => b.I64?
    case U64(_) => b.U64?
    case F64(_) => b.F64?
    case Str(_) => b.Str?
    case _ => !b.I64? && !b.U64?
  }

  lemma SuitsOneColumn(a: Atom, b: Atom)
    ensures Suits(ForValue(a), b) <==> OneColumn(a, b)
  {
  }

  /** The second value reads back exactly when it is of the first one's kind. */
  lemma FirstKindDecides(a: Atom, b: Atom, delta: bool)
    ensures RowRecord(TwoRows(a, b, delta), 1) == map["f" := Is(b)] <==> OneColumn(a, b)
  {
    SuitsOneColumn(a, b);
    hide Suits, OneColumn, ForValue;
    var first := OneRow(a, delta);
    AppendedEven(map[], 0, delta, map["f" := Is(a)]);
    AppendedNew(first, 1, delta, map["f" := Is(b)]);
    FirstColumn(a, delta);
    assert TwoRows(a, b, delta) == Appended(first, 1, delta, map["f" := Is(b)]);
    hide *;
    FitsSecond(a, b, delta);
    AllFitOne(first, delta, b);
  }

  lemma AllFitOne(columns: ColumnMap, delta: bool, b: Atom)
    ensures AllFit(columns, 1, delta, map["f" := Is(b)]) <==> Fits(columns, 1, delta, "f", b)
  {
    hide Fits;
    var rec: Record := map["f" := Is(b)];
    assert "f" in rec;
    assert forall f | f in rec :: f == "f";
  }

  lemma FirstColumn(a: Atom, delta: bool)
    ensures OneRow(a, delta) == map["f" := Push(ForValue(a), delta, a)]
    ensures ColumnFor(OneRow(a, delta), "f", a, 1) == Push(ForValue(a), delta, a)
  {
    assert ColumnFor(map[], "f", a, 0) == ForValue(a);
    ShortPush(ForValue(a), delta, a);
  }

  lemma FitsSecond(a: Atom, b: Atom, delta: bool)
    ensures Fits(OneRow(a, delta), 1, delta, "f", b) <==> Suits(ForValue(a), b)
  {
    FirstColumn(a, delta);
    ShortPush(ForValue(a), delta, a);
    var d := ColumnFor(OneRow(a, delta), "f", b, 1);
    hide Push, OneRow;
    assert d == Push(ForValue(a), delta, a);
    ShortReaches(d, delta, b);
    hide Reaches;
  }

  /** A short column stays as it is. */
  lemma ShortPush(c: Column, delta: bool, a: Atom)
    requires Suits(c, a) && Length(c) == 0 && (c.Ints? ==> c.s.shape.PlainShape?)
    ensures var after := Push(c, delta, a);
      && Length(after) == 1 && (after.Ints? <==> c.Ints?)
      && (c.Ints? ==> after.unsigned == c.unsigned && after.s.shape.PlainShape?)
      && (c.Typed? ==> after.kind == c.kind)
  {
  }

  lemma ShortReaches(c: Column, delta: bool, b: Atom)
    requires Length(c) == 1 && (c.Ints? ==> c.s.shape.PlainShape?)
    ensures Suits(c, b) ==> Reaches(c, delta, b)
  {
  }

  /** Text in a column made for an integer, and an integer in one made for a decimal: both read as absent. */
  lemma LostToItsColumn(n: i64, s: string, thing: Thing, delta: bool)
    ensures RowRecord(TwoRows(I64(n), Str(s), delta), 1) == map[]
    ensures RowRecord(TwoRows(Other(thing), I64(n), delta), 1) == map[]
  {
    LostValue(I64(n), Str(s), delta);
    LostValue(Other(thing), I64(n), delta);
  }

  lemma LostValue(a: Atom, b: Atom, delta: bool)
    requires !Suits(ForValue(a), b) && (ForValue(a).Typed? || !Integer(b))
    ensures RowRecord(TwoRows(a, b, delta), 1) == map[]
  {
    var ra, rb: Record := map["f" := Is(a)], map["f" := Is(b)];
    var c := ForValue(a);
    var first := Appended(map[], 0, delta, ra);
    assert ColumnFor(map[], "f", a, 0) == c;
    assert first == map["f" := Push(c, delta, a)];
    ShortPush(c, delta, a);
    var d := ColumnFor(first, "f", b, 1);
    assert d == Push(c, delta, a);
    assert Push(d, delta, b) == PushNull(d);
    assert Appended(first, 1, delta, rb) == map["f" := PushNull(d)];
  }
}
