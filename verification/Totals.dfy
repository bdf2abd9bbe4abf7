/**
 * What a scan's totals really are: counts, integer sums while they stay below
 * 2^53, and least and greatest values, whatever order the rows are met in.
 */
module Totals {
  import opened Basics
  import opened Varint
  import opened Floats
  import opened Records
  import opened Aggregates
  import S = Sorting

  /** The integer a contribution is, where it is one. */
  function Units(c: Option<Float>): int {
    if c.Some? && c.value.Fin? then c.value.r.Floor else 0
  }

  function IntAbs(x: int): nat { if x < 0 then -x else x }

  predicate Whole(c: Option<Float>) {
    c.Some? ==> c.value.Fin? && c.value.r.Floor as real == c.value.r
  }

  function Total(f: Record -> int, rows: seq<Record>): int {
    if rows == [] then 0 else Total(f, rows[..|rows| - 1]) + f(rows[|rows| - 1])
  }

  function InGroup(d: Def, k: GroupKey): Record -> int {
    rec => if KeyOf(d, rec) == k then 1 else 0
  }

  function CountsIn(d: Def, a: Agg, k: GroupKey): Record -> int {
    rec => if KeyOf(d, rec) == k && Contribution(d, a, rec).Some? then 1 else 0
  }

  function UnitsIn(d: Def, a: Agg, k: GroupKey): Record -> int {
    rec => if KeyOf(d, rec) == k then Units(Contribution(d, a, rec)) else 0
  }

  function Magnitude(d: Def, a: Agg): Record -> int {
    rec => IntAbs(Units(Contribution(d, a, rec)))
  }

  lemma {:induction false} TotalSplit(f: Record -> int, a: seq<Record>, b: seq<Record>)
    ensures Total(f, a + b) == Total(f, a) + Total(f, b)
  {
    if b == [] {
      assert a + b == a;
    } else {
      assert (a + b)[..|a + b| - 1] == a + b[..|b| - 1];
      TotalSplit(f, a, b[..|b| - 1]);
    }
  }

  lemma TotalOne(f: Record -> int, rec: Record)
    ensures Total(f, [rec]) == f(rec)
  {
    assert [rec][..0] == [];
  }

  lemma TotalRemove(f: Record -> int, rows: seq<Record>, i: nat)
    requires i < |rows|
    ensures Total(f, rows) == Total(f, rows[..i] + rows[i + 1..]) + f(rows[i])
  {
    hide Total;
    var head, one, tail := rows[..i], [rows[i]], rows[i + 1..];
    TotalOne(f, rows[i]);
    assert rows == head + (one + tail);
    TotalSplit(f, head, one + tail);
    TotalSplit(f, one, tail);
    TotalSplit(f, head, tail);
  }

  /** Totals do not depend on the order of rows. */
  lemma {:induction false} TotalPermuted(f: Record -> int, a: seq<Record>, b: seq<Record>)
    requires multiset(a) == multiset(b)
    ensures Total(f, a) == Total(f, b)
    decreases |a|
  {
    if a == [] {
      assert |multiset(b)| == 0;
    } else {
      var i := DropCommon(a, b);
      TotalPermuted(f, a[..|a| - 1], b[..i] + b[i + 1..]);
      TotalRemove(f, b, i);
    }
  }

  lemma {:induction false} TotalBound(d: Def, a: Agg, k: GroupKey, rows: seq<Record>)
    ensures IntAbs(Total(UnitsIn(d, a, k), rows)) <= Total(Magnitude(d, a), rows)
    ensures 0 <= Total(CountsIn(d, a, k), rows) <= Total(InGroup(d, k), rows)
    ensures Total(InGroup(d, k), rows) == 0 ==> Total(UnitsIn(d, a, k), rows) == 0
  {
    if rows != [] { TotalBound(d, a, k, rows[..|rows| - 1]); }
  }

  /** Adding a value inside the budget is exact. */
  lemma AddExact(d: Def, sum: int, c: Option<Float>, spent: int)
    requires Rounds(d.rnd) && Whole(c) && c.Some?
    requires IntAbs(sum) <= spent && spent + IntAbs(Units(c)) < LIMIT
    ensures Add(d.rnd, Fin(sum as real), c.value) == Fin((sum + Units(c)) as real)
    ensures Sub(d.rnd, Fin(sum as real), c.value) == Fin((sum - Units(c)) as real)
  {
    var n := c.value.r.Floor;
    assert sum as real + c.value.r == (sum + n) as real;
    assert sum as real - c.value.r == (sum - n) as real;
  }

  lemma {:induction false} TotalNatural(d: Def, k: GroupKey, rows: seq<Record>)
    ensures Total(InGroup(d, k), rows) >= 0
  {
    if rows != [] { TotalNatural(d, k, rows[..|rows| - 1]); }
  }

  ghost predicate ScanOk(d: Def, a: Agg, acc: Acc, k: GroupKey, rows: seq<Record>) {
    && acc.count == Total(CountsIn(d, a, k), rows)
    && (Summed(a) ==> (acc.saw <==> acc.count > 0))
    && (Summed(a) ==> acc.sum == Fin(Total(UnitsIn(d, a, k), rows) as real))
  }

  /** Integer contributions whose magnitudes stay below 2^53 in total. */
  ghost predicate Summable(d: Def, a: Agg, rows: seq<Record>) {
    Summed(a) ==>
      && Total(Magnitude(d, a), rows) < LIMIT
      && forall rec | rec in rows :: Whole(Contribution(d, a, rec))
  }

  lemma ScanStep(d: Def, a: Agg, acc: Acc, k: GroupKey, rows: seq<Record>, rec: Record)
    requires Rounds(d.rnd) && Summable(d, a, rows + [rec]) && ScanOk(d, a, acc, k, rows)
    ensures ScanOk(d, a, if KeyOf(d, rec) == k then ScanAcc(d, a, acc, rec) else acc, k, rows + [rec])
  {
    hide Total, Rounds, KeyOf, Contribution, Add, Summable, Units, Better, IntAbs, Whole;
    var c := Contribution(d, a, rec);
    TotalNext(CountsIn(d, a, k), rows, rec);
    TotalNext(UnitsIn(d, a, k), rows, rec);
    TotalBound(d, a, k, rows);
    if Summed(a) {
      SummableNext(d, a, rows, rec);
      if KeyOf(d, rec) == k && c.Some? {
        AddExact(d, Total(UnitsIn(d, a, k), rows), c, Total(Magnitude(d, a), rows));
      } else {
        NoUnits(c);
      }
    } else {
      NotCounted(d, a, rec);
    }
  }

  lemma NoUnits(c: Option<Float>)
    ensures c.None? ==> Units(c) == 0
  {
  }

  lemma NotCounted(d: Def, a: Agg, rec: Record)
    ensures a.kind == Min || a.kind == Max ==> Contribution(d, a, rec).None?
  {
  }

  lemma TotalNext(f: Record -> int, rows: seq<Record>, rec: Record)
    ensures Total(f, rows + [rec]) == Total(f, rows) + f(rec)
  {
    assert (rows + [rec])[..|rows|] == rows;
  }

  lemma SummableNext(d: Def, a: Agg, rows: seq<Record>, rec: Record)
    requires Summed(a) && Summable(d, a, rows + [rec])
    ensures Total(Magnitude(d, a), rows) + IntAbs(Units(Contribution(d, a, rec))) < LIMIT && Whole(Contribution(d, a, rec))
  {
    assert (rows + [rec])[|rows|] == rec;
    TotalNext(Magnitude(d, a), rows, rec);
    hide Total, Contribution;
  }

  lemma SummablePrefix(d: Def, a: Agg, rows: seq<Record>)
    requires rows != [] && Summable(d, a, rows)
    ensures Summable(d, a, rows[..|rows| - 1])
  {
    assert forall rec | rec in rows[..|rows| - 1] :: rec in rows;
  }

  /** The scan computes the true totals of every group, in whatever order it meets the rows. */
  lemma {:induction false} ScanTotals(d: Def, rows: seq<Record>)
    requires Rounds(d.rnd) && forall i :: 0 <= i < |d.aggs| ==> Summable(d, d.aggs[i], rows)
    ensures forall k :: k in Scan(d, rows) <==> Total(InGroup(d, k), rows) > 0
    ensures forall k, i | k in Scan(d, rows) && 0 <= i < |d.aggs| :: ScanOk(d, d.aggs[i], Scan(d, rows)[k][i], k, rows)
  {
    if rows != [] {
      var n, rec := |rows| - 1, rows[|rows| - 1];
      var before := rows[..n];
      assert rows == before + [rec];
      forall i | 0 <= i < |d.aggs| ensures Summable(d, d.aggs[i], before) { SummablePrefix(d, d.aggs[i], rows); }
      ScanTotals(d, before);
      forall k ensures k in Scan(d, rows) <==> Total(InGroup(d, k), rows) > 0 {
        TotalNatural(d, k, before);
      }
      forall k, i | k in Scan(d, rows) && 0 <= i < |d.aggs|
        ensures ScanOk(d, d.aggs[i], Scan(d, rows)[k][i], k, rows)
      {
        var acc := if k in Scan(d, before) then Scan(d, before)[k][i] else ZERO;
        if k !in Scan(d, before) {
          TotalNatural(d, k, before);
          TotalBound(d, d.aggs[i], k, before);
        }
        ScanStep(d, d.aggs[i], acc, k, before, rec);
      }
    }
  }

  lemma SummablePermuted(d: Def, a: Agg, rows: seq<Record>, other: seq<Record>)
    requires Summable(d, a, rows) && multiset(rows) == multiset(other)
    ensures Summable(d, a, other)
  {
    TotalPermuted(Magnitude(d, a), rows, other);
    forall rec | rec in other ensures rec in rows {
      assert rec in multiset(other);
    }
  }

  lemma {:induction false} MemberWeighs(d: Def, a: Agg, rows: seq<Record>, rec: Record)
    requires rec in rows
    ensures Magnitude(d, a)(rec) <= Total(Magnitude(d, a), rows)
  {
    var n := |rows| - 1;
    if rows[n] != rec {
      MemberWeighs(d, a, rows[..n], rec);
    } else {
      TotalBound(d, a, [], rows[..n]);
    }
  }

  /** While the sum is exact, a summed integer field counts as the very integer it holds. */
  lemma IntegersAreExact(d: Def, a: Agg, rows: seq<Record>, rec: Record, n: int)
    requires Rounds(d.rnd) && Summed(a) && Summable(d, a, rows) && rec in rows
    requires Given(a, rec).Some?
    requires match Given(a, rec).value case I64(i) => i == n case U64(u) => u == n case _ => false
    ensures Units(Contribution(d, a, rec)) == n
  {
    MemberWeighs(d, a, rows, rec);
    assert (n as real).Floor == n;
    assert Contribution(d, a, rec) == Some(d.rnd(n as real));
    assert IntAbs(Units(Contribution(d, a, rec))) < LIMIT;
    assert Whole(Contribution(d, a, rec));
  }

  // -- least and greatest --------------------------------------------------

  predicate Holds(d: Def, a: Agg, k: GroupKey, rec: Record, v: Atom) {
    KeyOf(d, rec) == k && Given(a, rec) == Some(v)
  }

  /** One of the group's values, and none of them is strictly better. */
  ghost predicate BestOk(d: Def, a: Agg, wanted: S.Ordering, m: Option<Atom>, k: GroupKey, rows: seq<Record>) {
    && (m.Some? ==> exists rec | rec in rows :: Holds(d, a, k, rec, m.value))
    && (forall rec, v | rec in rows && Holds(d, a, k, rec, v) :: m.Some? && d.cmp(v, m.value) != wanted)
  }

  lemma BestNext(d: Def, on: Atom -> bool, a: Agg, wanted: S.Ordering, m: Option<Atom>, k: GroupKey, rows: seq<Record>, rec: Record)
    requires S.LawfulOn(d.cmp, on) && AllGiven(a, on, rows + [rec])
    requires wanted != S.Equal && BestOk(d, a, wanted, m, k, rows)
    ensures BestOk(d, a, wanted, if KeyOf(d, rec) == k then Better(d.cmp, wanted, m, Given(a, rec)) else m, k, rows + [rec])
  {
    hide KeyOf, Given, S.LawfulOn;
    var all, m' := rows + [rec], if KeyOf(d, rec) == k then Better(d.cmp, wanted, m, Given(a, rec)) else m;
    assert all[|rows|] == rec;
    if m'.Some? {
      if m' == m {
        var r :| r in rows && Holds(d, a, k, r, m.value);
        assert r in all;
      } else {
        assert rec in all && Holds(d, a, k, rec, m'.value);
      }
    }
    forall r, v | r in all && Holds(d, a, k, r, v) ensures m'.Some? && d.cmp(v, m'.value) != wanted {
      SameAsSelf(d.cmp, on, v);
      if r in rows && m' != m {
        var best :| best in rows && Holds(d, a, k, best, m.value);
        assert best in all && rec in all;
        NoWorse(d.cmp, on, wanted, v, m.value, m'.value);
      }
    }
  }

  /** Every value the rows give to an aggregate is of the kind. */
  ghost predicate AllGiven(a: Agg, on: Atom -> bool, rows: seq<Record>) {
    forall rec | rec in rows && Given(a, rec).Some? :: on(Given(a, rec).value)
  }

  lemma SameAsSelf(cmp: Compare, on: Atom -> bool, v: Atom)
    requires S.LawfulOn(cmp, on) && on(v)
    ensures cmp(v, v) == S.Equal
  {
    assert cmp(v, v) == S.Flip(cmp(v, v));
  }

  /** What is no better than the old best is no better than a better one. */
  lemma NoWorse(cmp: Compare, on: Atom -> bool, wanted: S.Ordering, v: Atom, x: Atom, better: Atom)
    requires S.LawfulOn(cmp, on) && on(v) && on(x) && on(better) && wanted != S.Equal
    requires cmp(v, x) != wanted && cmp(better, x) == wanted
    ensures cmp(v, better) != wanted
  {
    assert cmp(x, v) == S.Flip(cmp(v, x)) && cmp(x, better) == S.Flip(cmp(better, x)) && cmp(better, v) == S.Flip(cmp(v, better));
  }

  ghost predicate BestsOk(d: Def, a: Agg, acc: Acc, k: GroupKey, rows: seq<Record>) {
    && (a.kind == Min ==> BestOk(d, a, S.Less, acc.min, k, rows))
    && (a.kind == Max ==> BestOk(d, a, S.Greater, acc.max, k, rows))
  }

  lemma NoBest(d: Def, a: Agg, wanted: S.Ordering, k: GroupKey)
    ensures BestOk(d, a, wanted, None, k, [])
  {
  }

  lemma BestsNext(d: Def, on: Atom -> bool, a: Agg, acc: Acc, k: GroupKey, rows: seq<Record>, rec: Record)
    requires a.kind == Min || a.kind == Max ==> S.LawfulOn(d.cmp, on) && AllGiven(a, on, rows + [rec])
    requires BestsOk(d, a, acc, k, rows)
    ensures BestsOk(d, a, if KeyOf(d, rec) == k then ScanAcc(d, a, acc, rec) else acc, k, rows + [rec])
  {
    hide BestOk, Better, Given, S.LawfulOn, KeyOf, Contribution, AllGiven;
    if a.kind == Min {
      BestNext(d, on, a, S.Less, acc.min, k, rows, rec);
    } else if a.kind == Max {
      BestNext(d, on, a, S.Greater, acc.max, k, rows, rec);
    }
  }

  /** The kind of the values an aggregate looks for a least or greatest of. */
  function KindOf(kinds: Kinds, a: Agg): Atom -> bool {
    if a.field.Some? then kinds(a.field.value) else (v: Atom) => false
  }

  lemma KindTells(d: Def, kinds: Kinds, i: nat, rows: seq<Record>)
    requires TellsAll(d, kinds) && AllTyped(kinds, rows) && i < |d.aggs|
    ensures d.aggs[i].kind == Min || d.aggs[i].kind == Max ==>
      Tells(d, KindOf(kinds, d.aggs[i])) && S.LawfulOn(d.cmp, KindOf(kinds, d.aggs[i])) && AllGiven(d.aggs[i], KindOf(kinds, d.aggs[i]), rows)
  {
    var a := d.aggs[i];
    if a.kind == Min || a.kind == Max {
      if a.field.Some? {
        assert Compares(d, a.field.value);
        forall rec | rec in rows && Given(a, rec).Some? ensures KindOf(kinds, a)(Given(a, rec).value) {
          FieldTyped(kinds, rec, a.field.value, Given(a, rec).value);
        }
      }
    }
  }

  lemma FewerGiven(a: Agg, on: Atom -> bool, rows: seq<Record>, other: seq<Record>)
    requires AllGiven(a, on, rows) && forall rec | rec in other :: rec in rows
    ensures AllGiven(a, on, other)
  {
  }

  /** The scan keeps a least and a greatest value of every group. */
  lemma {:induction false} ScanBests(d: Def, on: Atom -> bool, rows: seq<Record>, k: GroupKey, i: nat)
    requires i < |d.aggs|
    requires d.aggs[i].kind == Min || d.aggs[i].kind == Max ==> S.LawfulOn(d.cmp, on) && AllGiven(d.aggs[i], on, rows)
    ensures BestsOk(d, d.aggs[i], AccsAt(d, Scan(d, rows), k)[i], k, rows)
  {
    hide BestOk, S.LawfulOn, ScanAcc, KeyOf, AllGiven;
    if rows == [] {
      NoBest(d, d.aggs[i], S.Less, k);
      NoBest(d, d.aggs[i], S.Greater, k);
    } else {
      var n, rec := |rows| - 1, rows[|rows| - 1];
      assert rows == rows[..n] + [rec];
      if d.aggs[i].kind == Min || d.aggs[i].kind == Max {
        FewerGiven(d.aggs[i], on, rows, rows[..n]);
      }
      ScanBests(d, on, rows[..n], k, i);
      BestsNext(d, on, d.aggs[i], AccsAt(d, Scan(d, rows[..n]), k)[i], k, rows[..n], rec);
    }
  }

  /** Two best values of one group are equal. */
  lemma BestsEqual(d: Def, on: Atom -> bool, a: Agg, wanted: S.Ordering, x: Option<Atom>, y: Option<Atom>, k: GroupKey, rows: seq<Record>, other: seq<Record>)
    requires Tells(d, on) && AllGiven(a, on, rows)
    requires wanted != S.Equal && BestOk(d, a, wanted, x, k, rows) && BestOk(d, a, wanted, y, k, other)
    requires multiset(rows) == multiset(other)
    ensures x.Some? <==> y.Some?
    ensures x.Some? ==> d.canon(x.value) == d.canon(y.value)
  {
    hide KeyOf;
    Present(rows, other);
    if x.Some? {
      var r :| r in rows && Holds(d, a, k, r, x.value);
      assert r in other;
    }
    if y.Some? {
      var r :| r in other && Holds(d, a, k, r, y.value);
      assert r in rows;
    }
    if x.Some? && y.Some? {
      assert d.cmp(y.value, x.value) == S.Flip(d.cmp(x.value, y.value));
    }
  }

  lemma Present(a: seq<Record>, b: seq<Record>)
    requires multiset(a) == multiset(b)
    ensures forall r :: r in a <==> r in b
  {
    forall r ensures r in a <==> r in b {
      assert r in multiset(a) <==> r in multiset(b);
    }
  }

  // -- any order -----------------------------------------------------------

  ghost predicate AllSummable(d: Def, rows: seq<Record>) {
    forall i :: 0 <= i < |d.aggs| ==> Summable(d, d.aggs[i], rows)
  }

  lemma OutAnyOrder(d: Def, on: Atom -> bool, a: Agg, x: Acc, y: Acc, k: GroupKey, rows: seq<Record>, other: seq<Record>)
    requires a.kind == Min || a.kind == Max ==> Tells(d, on) && AllGiven(a, on, rows)
    requires multiset(rows) == multiset(other)
    requires ScanOk(d, a, x, k, rows) && ScanOk(d, a, y, k, other)
    requires BestsOk(d, a, x, k, rows) && BestsOk(d, a, y, k, other)
    ensures OutOf(d, a, x) == OutOf(d, a, y)
  {
    TotalPermuted(CountsIn(d, a, k), rows, other);
    TotalPermuted(UnitsIn(d, a, k), rows, other);
    hide Total, Tells, AllGiven;
    match a.kind {
      case Min => BestsEqual(d, on, a, S.Less, x.min, y.min, k, rows, other);
      case Max => BestsEqual(d, on, a, S.Greater, x.max, y.max, k, rows, other);
      case _ =>
    }
  }

  lemma GroupsAnyOrder(d: Def, rows: seq<Record>, other: seq<Record>)
    requires Rounds(d.rnd) && AllSummable(d, rows) && multiset(rows) == multiset(other)
    ensures AllSummable(d, other) && Scan(d, rows).Keys == Scan(d, other).Keys
  {
    forall i | 0 <= i < |d.aggs| ensures Summable(d, d.aggs[i], other) {
      SummablePermuted(d, d.aggs[i], rows, other);
    }
    hide Summable;
    ScanTotals(d, rows);
    ScanTotals(d, other);
    hide Scan, Total, ScanOk;
    forall k ensures k in Scan(d, rows) <==> k in Scan(d, other) {
      TotalPermuted(InGroup(d, k), rows, other);
    }
  }

  lemma OutsAnyOrder(d: Def, kinds: Kinds, rows: seq<Record>, other: seq<Record>, k: GroupKey)
    requires Rounds(d.rnd) && TellsAll(d, kinds) && AllTyped(kinds, rows) && AllSummable(d, rows) && AllSummable(d, other)
    requires multiset(rows) == multiset(other) && k in Scan(d, rows) && k in Scan(d, other)
    ensures Outs(d, Scan(d, rows)[k]) == Outs(d, Scan(d, other)[k])
  {
    ScanTotals(d, rows);
    ScanTotals(d, other);
    Present(rows, other);
    hide Scan, ScanOk, BestsOk, OutOf, Summable, TellsAll, Rounds, Tells, S.LawfulOn, AllGiven, KindOf;
    var x, y := Scan(d, rows)[k], Scan(d, other)[k];
    forall i | 0 <= i < |d.aggs| ensures OutOf(d, d.aggs[i], x[i]) == OutOf(d, d.aggs[i], y[i]) {
      var on := KindOf(kinds, d.aggs[i]);
      KindTells(d, kinds, i, rows);
      KindTells(d, kinds, i, other) by { assert AllTyped(kinds, other); }
      ScanBests(d, on, rows, k, i);
      ScanBests(d, on, other, k, i);
      OutAnyOrder(d, on, d.aggs[i], x[i], y[i], k, rows, other);
    }
  }

  /** While sums are exact the answer does not depend on the order rows are met in. */
  lemma AnyOrder(d: Def, rows: seq<Record>, other: seq<Record>)
    requires Rounds(d.rnd) && Faithful(d, rows) && AllSummable(d, rows) && multiset(rows) == multiset(other)
    ensures AnswerOf(d, Scan(d, rows)) == AnswerOf(d, Scan(d, other))
    ensures AnswerRows(d, rows) == AnswerRows(d, other)
  {
    HeldTyped(d, rows);
    hide Scan, TellsAll, Rounds, AllSummable, Outs, ShownKeys, RenderedAt, AllTyped, HeldBy;
    GroupsAnyOrder(d, rows, other);
    var x, y := Scan(d, rows), Scan(d, other);
    forall k | k in x ensures Outs(d, x[k]) == Outs(d, y[k]) {
      OutsAnyOrder(d, HeldBy(d, rows), rows, other, k);
    }
    SameSize(rows, other);
    SameKeys(d, rows, other);
    SameAnswers(d, x, y);
  }

  lemma SameSize(a: seq<Record>, b: seq<Record>)
    requires multiset(a) == multiset(b)
    ensures a == [] <==> b == []
  {
    assert |a| == |multiset(a)| && |b| == |multiset(b)|;
  }

  lemma SameAnswers(d: Def, x: Groups, y: Groups)
    requires Shaped(d, x) && Shaped(d, y) && x.Keys == y.Keys
    requires forall k | k in x :: Outs(d, x[k]) == Outs(d, y[k])
    ensures AnswerOf(d, x) == AnswerOf(d, y)
  {
    hide Outs;
    assert x == map[] <==> y == map[] by {
      assert x == map[] <==> x.Keys == {};
      assert y == map[] <==> y.Keys == {};
    }
  }
}
