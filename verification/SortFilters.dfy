/**
 * A filter above a sort, pushed below it as well: it makes no difference, for
 * whatever predicate, exactly when the sort keys order the rows lawfully.
 */
module SortFilters {
  import opened Basics
  import opened Floats
  import opened Records
  import opened Queries
  import opened Sharding
  import opened ValueOrder
  import E = Equality
  import S = Sorting

  /** A sharded plan answers as the plan unsharded. */
  ghost predicate KeepsMeaning(cmp: Compare, plan: Plan, table: seq<Row>, shards: nat)
    requires shards > 0
  {
    ShardedAnswer(cmp, plan, table, shards, Eval(cmp, plan, table))
  }

  /** Turning the values compared round turns the answer round. */
  ghost predicate ReadsBothWays(cmp: Compare) {
    forall a, b :: cmp(b, a) == S.Flip(cmp(a, b))
  }

  // -- keys and ids --------------------------------------------------------

  /** The sort keys alone. */
  function KeysOrder(cmp: Compare, keys: seq<SortKey>, a: Row, b: Row): S.Ordering {
    if keys == [] then S.Equal else S.Then(KeyOrder(cmp, keys[0], a, b), KeysOrder(cmp, keys[1..], a, b))
  }

  lemma {:induction false} RowOrderIs(cmp: Compare, keys: seq<SortKey>, a: Row, b: Row)
    ensures RowOrder(cmp, keys, a, b) == S.Then(KeysOrder(cmp, keys, a, b), IdOrder(a, b))
  {
    if keys != [] {
      RowOrderIs(cmp, keys[1..], a, b);
    }
  }

  /** The keys look at records only, the same both ways. */
  lemma {:induction false} KeysFlip(cmp: Compare, keys: seq<SortKey>, a: Row, b: Row)
    requires ReadsBothWays(cmp)
    ensures KeysOrder(cmp, keys, b, a) == S.Flip(KeysOrder(cmp, keys, a, b))
    ensures a.rec == b.rec ==> KeysOrder(cmp, keys, a, b) == S.Equal
  {
    if keys != [] {
      KeysFlip(cmp, keys[1..], a, b);
      KeyFlips(cmp, keys[0], a, b);
    }
  }

  lemma KeyFlips(cmp: Compare, key: SortKey, a: Row, b: Row)
    requires ReadsBothWays(cmp)
    ensures KeyOrder(cmp, key, b, a) == S.Flip(KeyOrder(cmp, key, a, b))
    ensures a.rec == b.rec ==> KeyOrder(cmp, key, a, b) == S.Equal
  {
    var x := Lookup(a.rec, key.field);
    if x.Some? && x.value.Is? {
      assert cmp(x.value.atom, x.value.atom) == S.Flip(cmp(x.value.atom, x.value.atom));
    }
  }

  lemma {:induction false} KeysSameRecord(cmp: Compare, keys: seq<SortKey>, a: Row, b: Row, c: Row)
    requires a.rec == b.rec
    ensures KeysOrder(cmp, keys, a, c) == KeysOrder(cmp, keys, b, c) && KeysOrder(cmp, keys, c, a) == KeysOrder(cmp, keys, c, b)
  {
    if keys != [] {
      KeysSameRecord(cmp, keys[1..], a, b, c);
    }
  }

  /** Rows holding one of two records. */
  function OneOf(x: Record, y: Record): Row -> bool {
    (r: Row) => r.rec == x || r.rec == y
  }

  /** Two records are always in order. */
  lemma TwoRecordsLawful(cmp: Compare, keys: seq<SortKey>, x: Record, y: Record)
    requires ReadsBothWays(cmp)
    ensures S.LawfulOn(ByRow(cmp, keys), OneOf(x, y))
  {
    var on := OneOf(x, y);
    var byKeys := (a: Row, b: Row) => KeysOrder(cmp, keys, a, b);
    forall a: Row, b: Row ensures byKeys(b, a) == S.Flip(byKeys(a, b)) {
      KeysFlip(cmp, keys, a, b);
    }
    forall a: Row, b: Row, c: Row | on(a) && on(b) && on(c) && byKeys(a, b) != S.Greater && byKeys(b, c) != S.Greater
      ensures byKeys(a, c) != S.Greater
    {
      hide KeysOrder;
      KeysFlip(cmp, keys, a, c);
      if a.rec == b.rec {
        KeysSameRecord(cmp, keys, a, b, c);
      } else if b.rec == c.rec {
        KeysSameRecord(cmp, keys, b, c, a);
      }
    }
    hide KeysOrder, OneOf;
    S.LawfulParts(byKeys, on);
    forall a: Row, b: Row ensures ByRow(cmp, keys)(a, b) == S.Then(byKeys(a, b), IdOrder(a, b)) {
      hide *;
      RowOrderIs(cmp, keys, a, b);
    }
    S.ThenLawful(byKeys, IdOrder, ByRow(cmp, keys), on);
  }

  // -- every predicate -----------------------------------------------------

  /** What passes lies in a filtered sequence in the order it lay in before. */
  lemma FilteredPair(p: Row -> bool, t: seq<Row>, i: nat, j: nat) returns (x: nat, y: nat)
    requires i < j < |t| && p(t[i]) && p(t[j])
    ensures x < y < |S.Filter(p, t)| && S.Filter(p, t)[x] == t[i] && S.Filter(p, t)[y] == t[j]
  {
    hide S.Filter;
    var head, tail := t[..j], t[j..];
    assert t == head + tail;
    S.FilterSplit(p, head, tail);
    S.FilterMembers(p, head);
    S.FilterFront(p, tail);
    assert t[i] == head[i] && t[i] in head;
    x :| 0 <= x < |S.Filter(p, head)| && S.Filter(p, head)[x] == t[i];
    y := |S.Filter(p, head)|;
  }

  /** The predicate that picks out two records. */
  function Picks(x: Record, y: Record): Record -> Truth {
    (rec: Record) => if rec == x || rec == y then True else False
  }

  /** Filtering two records out before the sort: they come out in order. */
  lemma PickedInOrder(cmp: Compare, keys: seq<SortKey>, rows: seq<Row>, x: Record, y: Record)
    requires ReadsBothWays(cmp)
    ensures S.Sorted(ByRow(cmp, keys), S.Sort(ByRow(cmp, keys), S.Filter(Passes(Picks(x, y)), rows)))
  {
    var picked := S.Filter(Passes(Picks(x, y)), rows);
    S.FilterMembers(Passes(Picks(x, y)), rows);
    TwoRecordsLawful(cmp, keys, x, y);
    assert forall r | r in picked :: OneOf(x, y)(r);
    hide S.Filter, ByRow;
    assert S.LawfulOn(ByRow(cmp, keys), S.Among(picked));
    S.SortSortsAmong(ByRow(cmp, keys), picked);
  }

  /** What a sharded filter above a sort answers, and what the plan means. */
  lemma SortedAnswer(cmp: Compare, input: Plan, keys: seq<SortKey>, p: Record -> Truth, table: seq<Row>, shards: nat)
    requires shards > 0 && Ascending(table) && RowLocal(input) && Ordered(cmp, input, table)
    ensures var rows := Eval(cmp, input, table);
      KeepsMeaning(cmp, Plan.Filter(Plan.Sort(input, keys), p), table, shards) <==>
        S.Filter(Passes(p), S.Sort(ByRow(cmp, keys), rows)) == S.Sort(ByRow(cmp, keys), S.Filter(Passes(p), rows))
  {
    var above := Plan.Sort(input, keys);
    var plan := Plan.Filter(above, p);
    ShardedIs(cmp, plan, table, shards, Eval(cmp, plan, table));
    PushedThrough(cmp, input, above, p, table);
    SortEval(cmp, input, keys, p, table);
    SortEval(cmp, input, keys, p, S.Filter(Keeps(plan), table));
    AllPass(cmp, keys, p, Eval(cmp, input, table));
    hide *;
  }

  lemma SortEval(cmp: Compare, input: Plan, keys: seq<SortKey>, p: Record -> Truth, table: seq<Row>)
    ensures Eval(cmp, Plan.Filter(Plan.Sort(input, keys), p), table) ==
      S.Filter(Passes(p), S.Sort(ByRow(cmp, keys), Eval(cmp, input, table)))
  {
    hide S.Filter, S.Sort;
    assert Eval(cmp, Plan.Sort(input, keys), table) == S.Sort(ByRow(cmp, keys), Eval(cmp, input, table));
  }

  lemma AllPass(cmp: Compare, keys: seq<SortKey>, p: Record -> Truth, rows: seq<Row>)
    ensures var sorted := S.Sort(ByRow(cmp, keys), S.Filter(Passes(p), rows)); S.Filter(Passes(p), sorted) == sorted
  {
    S.FilterMembers(Passes(p), rows);
    S.SortMembers(ByRow(cmp, keys), S.Filter(Passes(p), rows));
    hide S.Filter, S.Sort;
    S.FilterIdentity(Passes(p), S.Sort(ByRow(cmp, keys), S.Filter(Passes(p), rows)));
  }

  lemma SortedThroughout(cmp: Compare, keys: seq<SortKey>, rows: seq<Row>)
    requires ReadsBothWays(cmp)
    requires forall p :: S.Filter(Passes(p), S.Sort(ByRow(cmp, keys), rows)) == S.Sort(ByRow(cmp, keys), S.Filter(Passes(p), rows))
    ensures S.Sorted(ByRow(cmp, keys), S.Sort(ByRow(cmp, keys), rows))
  {
    hide S.Sort, S.Filter, ByRow;
    var order := ByRow(cmp, keys);
    var t := S.Sort(order, rows);
    forall i, j | 0 <= i < j < |t| ensures S.Le(order, t[i], t[j]) {
      var p := Picks(t[i].rec, t[j].rec);
      PickedInOrder(cmp, keys, rows, t[i].rec, t[j].rec);
      assert S.Filter(Passes(p), t) == S.Sort(order, S.Filter(Passes(p), rows));
      var x, y := FilteredPair(Passes(p), t, i, j);
    }
  }

  /** No two rows of a table tie. */
  lemma RowsApart(cmp: Compare, keys: seq<SortKey>, input: Plan, table: seq<Row>)
    requires Ascending(table) && RowLocal(input)
    ensures var t := S.Sort(ByRow(cmp, keys), Eval(cmp, input, table));
      forall a, b | a in t && b in t :: ByRow(cmp, keys)(a, b) == S.Equal ==> a == b
  {
    var rows := Eval(cmp, input, table);
    RowLocalKeeps(cmp, input, table);
    S.SortMembers(ByRow(cmp, keys), rows);
    var t := S.Sort(ByRow(cmp, keys), rows);
    hide Eval, Keeps, S.Sort;
    forall a, b | a in t && b in t && ByRow(cmp, keys)(a, b) == S.Equal ensures a == b {
      RowOrderIs(cmp, keys, a, b);
      assert a in table && b in table;
      SameId(table, a, b);
    }
  }

  lemma SameId(table: seq<Row>, a: Row, b: Row)
    requires Ascending(table) && a in table && b in table && a.id == b.id
    ensures a == b
  {
    var i :| 0 <= i < |table| && table[i] == a;
    var j :| 0 <= j < |table| && table[j] == b;
  }

  /**
   * Over any number of shards, a filter above a sort keeps its meaning whatever its
   * predicate, exactly when no rows that reach the sort are out of order among
   * themselves: no three of them of which the first is before the second, the second
   * before the third, and the third before the first.
   */
  lemma SortsExactly(cmp: Compare, input: Plan, keys: seq<SortKey>, table: seq<Row>, shards: nat)
    requires shards > 0 && Ascending(table) && RowLocal(input) && Ordered(cmp, input, table) && ReadsBothWays(cmp)
    ensures (forall p :: KeepsMeaning(cmp, Plan.Filter(Plan.Sort(input, keys), p), table, shards)) <==>
      S.LawfulOn(ByRow(cmp, keys), S.Among(S.Filter(Keeps(input), table)))
  {
    var rows, order := Eval(cmp, input, table), ByRow(cmp, keys);
    var t := S.Sort(order, rows);
    ReachLawful(cmp, input, keys, table);
    forall p ensures KeepsMeaning(cmp, Plan.Filter(Plan.Sort(input, keys), p), table, shards) <==>
      S.Filter(Passes(p), t) == S.Sort(order, S.Filter(Passes(p), rows))
    {
      SortedAnswer(cmp, input, keys, p, table, shards);
    }
    hide KeepsMeaning, S.Sort, S.Filter, Eval, S.LawfulOn, Ordered;
    if S.LawfulOn(order, S.Among(rows)) {
      forall p ensures KeepsMeaning(cmp, Plan.Filter(Plan.Sort(input, keys), p), table, shards) {
        S.FilterSortAmong(order, Passes(p), rows);
      }
    } else if forall p :: KeepsMeaning(cmp, Plan.Filter(Plan.Sort(input, keys), p), table, shards) {
      SortedThroughout(cmp, keys, rows);
      RowsApart(cmp, keys, input, table);
      RowsFlip(cmp, keys);
      S.SortedLawful(order, t);
      S.SortMembers(order, rows);
      S.SameLawful(order, t, rows);
    }
  }

  lemma RowsFlip(cmp: Compare, keys: seq<SortKey>)
    requires ReadsBothWays(cmp)
    ensures forall a, b :: ByRow(cmp, keys)(b, a) == S.Flip(ByRow(cmp, keys)(a, b))
  {
    forall a: Row, b: Row ensures ByRow(cmp, keys)(b, a) == S.Flip(ByRow(cmp, keys)(a, b)) {
      KeysFlip(cmp, keys, a, b);
      RowOrderIs(cmp, keys, a, b);
      RowOrderIs(cmp, keys, b, a);
    }
  }

  // -- tables that can be relied on ----------------------------------------

  /** Every value a table holds is of the kind. */
  ghost predicate Holds(table: seq<Row>, on: Atom -> bool) {
    forall r, f | r in table && f in r.rec :: CellOn(on, r.rec[f])
  }

  lemma KeptLawful(cmp: Compare, keys: seq<SortKey>, q: Row -> bool, table: seq<Row>, on: Atom -> bool)
    requires S.LawfulOn(cmp, on) && Holds(table, on)
    ensures S.LawfulOn(ByRow(cmp, keys), S.Among(S.Filter(q, table)))
  {
    var rows := S.Filter(q, table);
    S.FilterMembers(q, table);
    hide S.Filter;
    forall key | key in keys ensures S.LawfulOn(cmp, HeldIn(rows, key.field)) {
      assert forall v | HeldIn(rows, key.field)(v) :: on(v);
    }
    RowLawful(cmp, keys, rows);
  }

  lemma {:induction false} TableOrdered(cmp: Compare, plan: Plan, table: seq<Row>, on: Atom -> bool)
    requires RowLocal(plan) && S.LawfulOn(cmp, on) && Holds(table, on)
    ensures Ordered(cmp, plan, table)
    decreases plan
  {
    hide S.LawfulOn, Holds, Keeps;
    match plan
    case Filter(input, _) => TableOrdered(cmp, input, table, on);
    case Sort(input, keys) =>
      TableOrdered(cmp, input, table, on);
      KeptLawful(cmp, keys, Keeps(input), table, on);
    case _ =>
  }

  lemma {:induction false} TableFiltersOrdered(cmp: Compare, plan: Plan, table: seq<Row>, on: Atom -> bool)
    requires Safe(plan) && S.LawfulOn(cmp, on) && Holds(table, on)
    ensures FiltersOrdered(cmp, plan, table)
    decreases plan
  {
    hide S.LawfulOn, Holds, Ordered;
    if plan.Filter? {
      TableOrdered(cmp, plan.input, table, on);
    } else if !Leaf(plan) {
      TableFiltersOrdered(cmp, plan.input, table, on);
    }
  }

  /**
   * By the engine's own order, partitioning never changes the answer to a safe plan
   * over a table whose numbers are of one sort: all whole, or small decimals and whole
   * numbers up to 2^53, or floats and whole numbers up to 2^53; and whose timestamps,
   * byte strings, lists and maps, if any, are lawfully ordered.
   */
  lemma OneSortShards(
      m: E.Machine, things: ThingOrder, on: E.Number -> bool, of: Thing -> bool, plan: Plan, table: seq<Row>, shards: nat, rows: seq<Row>)
    requires S.LawfulOn(things, of) && Rounds(m.rnd) && (on == E.IsWhole || on == E.Fine || on == E.IsFloat)
    requires shards > 0 && Ascending(table) && Safe(plan) && Holds(table, Holding(on, of))
    ensures ShardedAnswer(ByValue(m, things), plan, table, shards, rows) <==> rows == Eval(ByValue(m, things), plan, table)
  {
    hide ByValue, Holds;
    if on == E.IsWhole {
      WholesOrdered(m, things, of);
    } else if on == E.Fine {
      FinesOrdered(m, things, of);
    } else {
      FloatsOrdered(m, things, of);
    }
    TableFiltersOrdered(ByValue(m, things), plan, table, Holding(on, of));
    ShardingPreservesMeaning(ByValue(m, things), plan, table, shards, rows);
  }

  // -- where it makes a difference -----------------------------------------

  /** The order a sort on `x` compares rows by. */
  function ByX(cmp: Compare): (Row, Row) -> S.Ordering {
    ByRow(cmp, [SortKey("x", false)])
  }

  function Flagged(rec: Record): Truth {
    if Field(rec, "k") == Some(Bool(true)) then True else False
  }

  /** Sort on `x`, then keep the flagged rows. */
  function Flagging(): Plan {
    Plan.Filter(Plan.Sort(Plan.Scan, [SortKey("x", false)]), Flagged)
  }

  function Numbered(id: nat, x: Atom, flag: bool): Row {
    Row(id, map["x" := Is(x), "k" := Is(Bool(flag))])
  }

  lemma FlaggedIs(i: nat, x: Atom, flag: bool)
    ensures Passes(Flagged)(Numbered(i, x, flag)) <==> flag
  {
    var rec := Numbered(i, x, flag).rec;
    assert rec["k"] == Is(Bool(flag));
    assert Field(rec, "k") == Some(Bool(flag));
    assert Flagged(rec) == if flag then True else False;
  }

  lemma ByXIs(cmp: Compare, i: nat, a: Atom, p: bool, j: nat, b: Atom, q: bool)
    requires i < j
    ensures S.Le(ByX(cmp), Numbered(i, a, p), Numbered(j, b, q)) <==> cmp(a, b) != S.Greater
  {
    var x, y := Numbered(i, a, p), Numbered(j, b, q);
    var keys := [SortKey("x", false)];
    assert keys[1..] == [];
    assert KeyOrder(cmp, keys[0], x, y) == cmp(a, b);
    assert RowOrder(cmp, keys, x, y) == S.Then(KeyOrder(cmp, keys[0], x, y), RowOrder(cmp, [], x, y));
  }

  /** Three rows whose last belongs before the first, though neither of the two pairs between says so. */
  lemma SortsRound<T>(order: (T, T) -> S.Ordering, x: T, y: T, z: T)
    requires S.Le(order, x, y) && S.Le(order, y, z) && !S.Le(order, x, z)
    ensures S.Sort(order, [x, y, z]) == [z, x, y] && S.Sort(order, [y, z]) == [y, z]
  {
    SortsPair(order, x, y);
    SortsPair(order, y, z);
    S.SortNext(order, [x, y], z);
    assert [x, y] + [z] == [x, y, z];
    assert S.Place(order, z, [x, y]) == [z, x, y];
  }

  lemma SortsPair<T>(order: (T, T) -> S.Ordering, x: T, y: T)
    requires S.Le(order, x, y)
    ensures S.Sort(order, [x, y]) == [x, y]
  {
    assert [x][..0] == [] && [x, y][..1] == [x];
    assert S.Sort(order, [x]) == [x];
    assert S.Place(order, y, [x])[1..] == [y] by { assert [x][1..] == []; }
  }

  /**
   * 2^53 + 1, the float 2^53, and 2^53 in three rows, sorted and then filtered: by the
   * engine's own order the answer over two shards is not the answer over one.
   */
  lemma FloatSplitsSort(m: E.Machine, things: ThingOrder)
    requires m.rnd == Double
    ensures var cmp := ByValue(m, things);
      var table := [
        Numbered(1, I64(9_007_199_254_740_993), false),
        Numbered(2, F64(Fin(9007199254740992.0)), true),
        Numbered(3, I64(9_007_199_254_740_992), true)];
      var plan := Flagging();
      && Safe(plan) && Ascending(table)
      && Eval(cmp, plan, table) == [table[2], table[1]]
      && forall rows :: ShardedAnswer(cmp, plan, table, 2, rows) <==> rows == [table[1], table[2]]
  {
    var cmp := ByValue(m, things);
    var c, b, a := I64(9_007_199_254_740_993), F64(Fin(9007199254740992.0)), I64(9_007_199_254_740_992);
    var x, y, z := Numbered(1, c, false), Numbered(2, b, true), Numbered(3, a, true);
    var table := [x, y, z];
    MixedUnordered(m, things);
    hide ByValue;
    ByXIs(cmp, 1, c, false, 2, b, true);
    ByXIs(cmp, 2, b, true, 3, a, true);
    ByXIs(cmp, 1, c, false, 3, a, true);
    FlaggedIs(1, c, false);
    FlaggedIs(2, b, true);
    FlaggedIs(3, a, true);
    hide *;
    ThreeRows(cmp, x, y, z);
  }

  lemma ThreeRows(cmp: Compare, x: Row, y: Row, z: Row)
    requires x.id < y.id < z.id
    requires S.Le(ByX(cmp), x, y) && S.Le(ByX(cmp), y, z) && !S.Le(ByX(cmp), x, z)
    requires !Passes(Flagged)(x) && Passes(Flagged)(y) && Passes(Flagged)(z)
    ensures var table, plan := [x, y, z], Flagging();
      && Safe(plan) && Ascending(table)
      && Eval(cmp, plan, table) == [z, y]
      && forall rows :: ShardedAnswer(cmp, plan, table, 2, rows) <==> rows == [y, z]
  {
    hide *;
    var table, plan := [x, y, z], Flagging();
    FlaggingIs(x, y, z);
    SortsRound(ByX(cmp), x, y, z);
    FilterTriple(Passes(Flagged), z, x, y);
    FlaggedKept(x, y, z);
    PairKept(Passes(Flagged), y, z);
    FlaggingEval(cmp, table);
    FlaggingEval(cmp, [y, z]);
    forall rows ensures ShardedAnswer(cmp, plan, table, 2, rows) <==> rows == [y, z] {
      ShardedIs(cmp, plan, table, 2, rows);
    }
  }

  lemma FlaggingIs(x: Row, y: Row, z: Row)
    requires x.id < y.id < z.id
    ensures Safe(Flagging()) && !OnlyPushdown(Flagging()) && !Flagging().GetById? && Ascending([x, y, z])
  {
  }

  lemma FlaggingEval(cmp: Compare, table: seq<Row>)
    ensures Eval(cmp, Flagging(), table) == S.Filter(Passes(Flagged), S.Sort(ByX(cmp), table))
  {
    ScanAll(cmp, table);
    SortEval(cmp, Plan.Scan, [SortKey("x", false)], Flagged, table);
    hide Eval, S.Filter, S.Sort;
  }

  lemma ScanAll(cmp: Compare, table: seq<Row>)
    ensures Eval(cmp, Plan.Scan, table) == table
  {
    S.FilterIdentity(Reads(Plan.Scan), table);
  }

  lemma FilterTriple<T>(p: T -> bool, x: T, y: T, z: T)
    requires p(x) != p(y) || p(y) != p(z)
    ensures S.Filter(p, [x, y, z]) == (if p(x) then [x] else []) + (if p(y) then [y] else []) + (if p(z) then [z] else [])
  {
    S.FilterNext(p, [x, y], z);
    S.FilterNext(p, [x], y);
    S.FilterNext(p, [], x);
    S.FilterNone(p);
    assert [x, y] + [z] == [x, y, z] && [x] + [y] == [x, y] && [] + [x] == [x];
  }

  lemma PairKept<T>(p: T -> bool, y: T, z: T)
    requires p(y) && p(z)
    ensures S.Filter(p, [y, z]) == [y, z]
  {
    S.FilterIdentity(p, [y, z]);
  }

  lemma FlaggedKept(x: Row, y: Row, z: Row)
    requires !Passes(Flagged)(x) && Passes(Flagged)(y) && Passes(Flagged)(z)
    ensures S.Filter(Keeps(Flagging()), [x, y, z]) == [y, z]
  {
    hide Flagged;
    var plan := Flagging();
    assert Keeps(plan)(y) && Keeps(plan)(z) && !Keeps(plan)(x);
    FilterTriple(Keeps(plan), x, y, z);
  }
}
