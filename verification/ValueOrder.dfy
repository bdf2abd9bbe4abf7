/**
 * The engine's order of stored values: by kind first, and of two of a kind by
 * what they hold. It can be relied on of a table whose numbers are of one sort.
 */
module ValueOrder {
  import opened Basics
  import opened Floats
  import opened Records
  import opened Equality
  import opened Numerics
  import A = Aggregates
  import S = Sorting

  type ThingOrder = (Thing, Thing) -> S.Ordering

  /** Kinds in the order they sort; all numbers are of one kind. */
  function Rank(a: Atom): nat {
    match a
    case Bool(_) => 1
    case Str(_) => 3
    case Other(_) => 4
    case _ => 2
  }

  function NumberOf(a: Atom): (n: Option<Number>)
    ensures n.Some? <==> Rank(a) == 2
  {
    match a
    case I64(i) => Some(Int(i))
    case U64(u) => Some(Int(u))
    case F64(f) => Some(Approx(f))
    case Dec(x) => Some(Number.Dec(x))
    case _ => None
  }

  function BoolOrder(a: bool, b: bool): S.Ordering {
    if a == b then S.Equal else if b then S.Less else S.Greater
  }

  /** Character by character, a text before its extensions. */
  function TextOrder(a: string, b: string): S.Ordering {
    if a == [] then (if b == [] then S.Equal else S.Less)
    else if b == [] then S.Greater
    else if a[0] < b[0] then S.Less
    else if b[0] < a[0] then S.Greater
    else TextOrder(a[1..], b[1..])
  }

  /** The order of values; that of timestamps, bytes, lists and maps is given. */
  function ByValue(m: Machine, things: ThingOrder): Compare {
    (a: Atom, b: Atom) => OrderOf(m, things, a, b)
  }

  function OrderOf(m: Machine, things: ThingOrder, a: Atom, b: Atom): S.Ordering {
    if Rank(a) < Rank(b) then S.Less
    else if Rank(b) < Rank(a) then S.Greater
    else
      match a
      case Bool(p) => BoolOrder(p, b.b)
      case Str(s) => TextOrder(s, b.s)
      case Other(t) => things(t, b.thing)
      case _ => Cmp(m, NumberOf(a).value, NumberOf(b).value)
  }

  // -- both ways -----------------------------------------------------------

  lemma {:induction false} TextLawful(a: string, b: string, c: string)
    ensures TextOrder(b, a) == S.Flip(TextOrder(a, b))
    ensures TextOrder(a, b) != S.Greater && TextOrder(b, c) != S.Greater ==> TextOrder(a, c) != S.Greater
  {
    if a != [] && b != [] {
      TextLawful(a[1..], b[1..], if c == [] then [] else c[1..]);
    }
  }

  /** Turning any two values round turns the answer round. */
  lemma OrderFlips(m: Machine, things: ThingOrder, a: Atom, b: Atom)
    requires a.Other? && b.Other? ==> things(b.thing, a.thing) == S.Flip(things(a.thing, b.thing))
    ensures ByValue(m, things)(b, a) == S.Flip(ByValue(m, things)(a, b))
  {
    if Rank(a) == Rank(b) {
      hide Cmp;
      match a {
        case Bool(_) =>
        case Str(s) => TextLawful(s, b.s, []);
        case Other(_) =>
        case _ => NumbersFlip(m, NumberOf(a).value, NumberOf(b).value);
      }
    }
  }

  // -- what it says --------------------------------------------------------

  /** Up to some place two texts agree, and there the first has the lesser character or, before the second, its end. */
  predicate LesserAt(a: string, b: string, p: nat) {
    && p <= |a| && p <= |b| && a[..p] == b[..p]
    && if p < |a| && p < |b| then a[p] < b[p] else |a| < |b|
  }

  lemma LesserLater(a: string, b: string, p: nat)
    requires a != [] && b != [] && a[0] == b[0]
    ensures LesserAt(a, b, p + 1) <==> LesserAt(a[1..], b[1..], p)
    ensures !LesserAt(a, b, 0)
  {
    var x, y := a[1..], b[1..];
    if p <= |x| && p <= |y| {
      assert a[..p + 1] == [a[0]] + x[..p] && b[..p + 1] == [b[0]] + y[..p];
      assert a[..p + 1] == b[..p + 1] <==> x[..p] == y[..p] by {
        assert a[..p + 1][1..] == x[..p] && b[..p + 1][1..] == y[..p];
      }
    }
  }

  /** Texts compare as their characters do at the first place they differ, and a text comes before its extensions. */
  lemma {:induction false} TextsCompare(a: string, b: string)
    ensures TextOrder(a, b) == S.Less <==> exists p: nat :: LesserAt(a, b, p)
    ensures TextOrder(a, b) == S.Equal <==> a == b
  {
    if a == [] || b == [] || a[0] != b[0] {
      FirstPlace(a, b);
    } else {
      var x, y := a[1..], b[1..];
      TextsCompare(x, y);
      assert a == [a[0]] + x && b == [b[0]] + y;
      LesserLater(a, b, 0);
      if p: nat :| LesserAt(x, y, p) {
        LesserLater(a, b, p);
      }
      if p: nat :| LesserAt(a, b, p) {
        assert p > 0;
        LesserLater(a, b, p - 1);
      }
      hide LesserAt;
    }
  }

  lemma FirstPlace(a: string, b: string)
    requires a == [] || b == [] || a[0] != b[0]
    ensures TextOrder(a, b) == S.Less <==> exists p: nat :: LesserAt(a, b, p)
    ensures TextOrder(a, b) == S.Equal <==> a == b
  {
    assert a[..0] == b[..0];
    assert LesserAt(a, b, 0) <==> TextOrder(a, b) == S.Less;
    forall p: nat | LesserAt(a, b, p) ensures p == 0 {
      AgreeBefore(a, b, p);
    }
  }

  lemma AgreeBefore(a: string, b: string, p: nat)
    ensures LesserAt(a, b, p) && p > 0 ==> a != [] && b != [] && a[0] == b[0]
  {
    if LesserAt(a, b, p) && p > 0 {
      assert a[..p][0] == b[..p][0];
    }
  }

  /** False before true, then numbers, then texts, then everything else. */
  lemma KindsRank(m: Machine, things: ThingOrder, a: Atom, b: Atom)
    ensures a == Bool(false) && b == Bool(true) ==> ByValue(m, things)(a, b) == S.Less
    ensures a.Bool? && !b.Bool? ==> ByValue(m, things)(a, b) == S.Less
    ensures (a.I64? || a.U64? || a.F64? || a.Dec?) && (b.Str? || b.Other?) ==> ByValue(m, things)(a, b) == S.Less
    ensures a.Str? && b.Other? ==> ByValue(m, things)(a, b) == S.Less
    ensures a.Str? && b.Str? ==> ByValue(m, things)(a, b) == TextOrder(a.s, b.s)
  {
    hide Cmp, TextOrder;
  }

  /** The real number a value is, if it is one. */
  function RealOf(a: Atom): Option<real> {
    match a
    case I64(i) => Some(i as real)
    case U64(u) => Some(u as real)
    case F64(Fin(r)) => Some(r)
    case Dec(x) => Some(x.units as real / Pow10(x.scale) as real)
    case _ => None
  }

  function Compared(x: real, y: real): S.Ordering {
    if x < y then S.Less else if x == y then S.Equal else S.Greater
  }

  /** Fractions compare as the reals they are. */
  lemma FractionsAreReals(x: Exact, y: Exact)
    ensures CompareFractions(x, y) == Compared(x.units as real / Pow10(x.scale) as real, y.units as real / Pow10(y.scale) as real)
  {
    var p, q := Pow10(x.scale), Pow10(y.scale);
    hide Pow10;
    var a, b := x.units as real / p as real, y.units as real / q as real;
    assert a * p as real == x.units as real && b * q as real == y.units as real;
    assert (x.units * q) as real == x.units as real * q as real && (y.units * p) as real == y.units as real * p as real;
    CrossMultiplied(a, b, p as real, q as real, (x.units * q) as real, (y.units * p) as real);
  }

  lemma CrossMultiplied(a: real, b: real, p: real, q: real, x: real, y: real)
    requires p > 0.0 && q > 0.0 && x == a * p * q && y == b * q * p
    ensures Compared(x, y) == Compared(a, b)
  {
    var w := p * q;
    assert w > 0.0 && x == a * w && y == b * w;
    if a < b {
      assert (b - a) * w > 0.0;
    } else if b < a {
      assert (a - b) * w > 0.0;
    }
  }

  /** Numbers of one of those sorts compare as the reals they are. */
  lemma NumbersAreReals(m: Machine, things: ThingOrder, on: Number -> bool, a: Atom, b: Atom)
    requires Rounds(m.rnd) && (on == IsWhole || on == Fine || on == IsFloat)
    requires RealOf(a).Some? && RealOf(b).Some? && on(NumberOf(a).value) && on(NumberOf(b).value)
    ensures ByValue(m, things)(a, b) == Compared(RealOf(a).value, RealOf(b).value)
  {
    var x, y := NumberOf(a).value, NumberOf(b).value;
    NumbersOrder(m, things, a, b);
    if on == IsFloat {
      FloatsCompare(m, x, y);
      AsReal(m, a);
      AsReal(m, b);
      hide Rounds, Cmp, AsNum, OrderOf, RealOf;
    } else {
      hide Rounds, Cmp, OrderOf, RealOf;
      ExactsAreReals(m, on, a, b);
    }
  }

  lemma ExactsAreReals(m: Machine, on: Number -> bool, a: Atom, b: Atom)
    requires on == IsWhole || on == Fine
    requires RealOf(a).Some? && RealOf(b).Some? && on(NumberOf(a).value) && on(NumberOf(b).value)
    ensures Cmp(m, NumberOf(a).value, NumberOf(b).value) == Compared(RealOf(a).value, RealOf(b).value)
  {
    var x, y := NumberOf(a).value, NumberOf(b).value;
    var u, v := ExactOf(x).value, ExactOf(y).value;
    CmpExactIsRational(u, v);
    if on == IsWhole { WholeLift(x.n, y.n); } else { FineLift(u, v); }
    FractionsAreReals(u, v);
    hide CmpExact, CompareFractions, BothLift, Pow10, AsNum, RealOf;
    ExactReal(a, u);
    ExactReal(b, v);
  }

  lemma AsReal(m: Machine, a: Atom)
    requires Rounds(m.rnd) && RealOf(a).Some? && IsFloat(NumberOf(a).value)
    ensures AsNum(m, NumberOf(a).value) == Fin(RealOf(a).value)
  {
    if !a.F64? {
      var n := NumberOf(a).value.n;
      assert (n as real).Floor == n;
    }
  }

  /** A float that is no real comes after every one that is, and after the whole numbers a float holds; two of them are equal. */
  lemma SpecialsLast(m: Machine, things: ThingOrder, a: Atom)
    requires Rounds(m.rnd) && RealOf(a).Some? && IsFloat(NumberOf(a).value)
    ensures ByValue(m, things)(a, F64(Special)) == S.Less && ByValue(m, things)(F64(Special), a) == S.Greater
    ensures ByValue(m, things)(F64(Special), F64(Special)) == S.Equal
  {
    AsReal(m, a);
    hide Rounds, RealOf;
  }

  lemma ExactReal(a: Atom, x: Exact)
    requires NumberOf(a).Some? && ExactOf(NumberOf(a).value) == Some(x)
    ensures RealOf(a) == Some(x.units as real / Pow10(x.scale) as real)
  {
    NoTens();
    hide Pow10;
    assert a.I64? || a.U64? || a.Dec?;
    if !a.Dec? {
      assert x.scale == 0 && Pow10(0) as real == 1.0;
      assert x.units as real / 1.0 == x.units as real;
    }
  }

  // -- where it is an order ------------------------------------------------

  /** A truth value or text, a number of one sort, or a timestamp, byte string, list or map of another. */
  function Holding(on: Number -> bool, of: Thing -> bool): Atom -> bool {
    (a: Atom) => (NumberOf(a).Some? ==> on(NumberOf(a).value)) && (a.Other? ==> of(a.thing))
  }

  /** Values of every kind are lawfully ordered among each other once the numbers and things among them are. */
  lemma KindsLawful(m: Machine, things: ThingOrder, on: Number -> bool, of: Thing -> bool)
    requires S.LawfulOn(ByNumber(m), on) && S.LawfulOn(things, of)
    ensures S.LawfulOn(ByValue(m, things), Holding(on, of))
  {
    var order, kind := ByValue(m, things), Holding(on, of);
    forall a: Atom, b: Atom | kind(a) && kind(b) ensures order(b, a) == S.Flip(order(a, b)) {
      hide Cmp, TextOrder;
      OrderFlips(m, things, a, b);
    }
    hide Cmp, TextOrder, S.LawfulOn;
    forall a: Atom, b: Atom, c: Atom
      | kind(a) && kind(b) && kind(c) && order(a, b) != S.Greater && order(b, c) != S.Greater
      ensures order(a, c) != S.Greater
    {
      if Rank(a) == Rank(b) == Rank(c) {
        OfOneKind(m, things, on, of, a, b, c);
      }
    }
    S.LawfulParts(order, kind);
  }

  lemma OfOneKind(m: Machine, things: ThingOrder, on: Number -> bool, of: Thing -> bool, a: Atom, b: Atom, c: Atom)
    requires S.LawfulOn(ByNumber(m), on) && S.LawfulOn(things, of) && Rank(a) == Rank(b) == Rank(c)
    requires Holding(on, of)(a) && Holding(on, of)(b) && Holding(on, of)(c)
    requires OrderOf(m, things, a, b) != S.Greater && OrderOf(m, things, b, c) != S.Greater
    ensures OrderOf(m, things, a, c) != S.Greater
  {
    hide Cmp, TextOrder;
    match a {
      case Bool(_) =>
      case Str(s) => TextLawful(s, b.s, c.s);
      case Other(_) =>
      case _ =>
        var x, y, z := NumberOf(a).value, NumberOf(b).value, NumberOf(c).value;
        assert ByNumber(m)(x, y) != S.Greater && ByNumber(m)(y, z) != S.Greater;
    }
  }

  /** A table whose numbers are all whole. */
  lemma WholesOrdered(m: Machine, things: ThingOrder, of: Thing -> bool)
    requires S.LawfulOn(things, of)
    ensures S.LawfulOn(ByValue(m, things), Holding(IsWhole, of))
  {
    WholesLawful(m);
    KindsLawful(m, things, IsWhole, of);
  }

  /** One whose numbers are small decimals, and whole numbers up to 2^53. */
  lemma FinesOrdered(m: Machine, things: ThingOrder, of: Thing -> bool)
    requires S.LawfulOn(things, of)
    ensures S.LawfulOn(ByValue(m, things), Holding(Fine, of))
  {
    FineLawful(m);
    KindsLawful(m, things, Fine, of);
  }

  /** One whose numbers are floats, and whole numbers up to 2^53. */
  lemma FloatsOrdered(m: Machine, things: ThingOrder, of: Thing -> bool)
    requires S.LawfulOn(things, of) && Rounds(m.rnd)
    ensures S.LawfulOn(ByValue(m, things), Holding(IsFloat, of))
  {
    FloatsLawful(m);
    KindsLawful(m, things, IsFloat, of);
  }

  /** Floats beside larger whole numbers are not in order. */
  lemma MixedUnordered(m: Machine, things: ThingOrder)
    requires m.rnd == Double
    ensures var a, b, c := I64(9_007_199_254_740_992), F64(Fin(9007199254740992.0)), I64(9_007_199_254_740_993);
      var order := ByValue(m, things);
      && order(a, b) == S.Equal && order(b, c) == S.Equal && order(a, c) == S.Less
      && order(b, a) == S.Equal && order(c, b) == S.Equal && order(c, a) == S.Greater
  {
    var a, b, c := I64(9_007_199_254_740_992), F64(Fin(9007199254740992.0)), I64(9_007_199_254_740_993);
    EqualThroughAFloat(m);
    NumbersOrder(m, things, a, b);
    NumbersOrder(m, things, b, c);
    NumbersOrder(m, things, a, c);
    hide *;
    OrderFlips(m, things, a, b);
    OrderFlips(m, things, b, c);
    OrderFlips(m, things, a, c);
  }

  lemma NumbersOrder(m: Machine, things: ThingOrder, a: Atom, b: Atom)
    requires NumberOf(a).Some? && NumberOf(b).Some?
    ensures ByValue(m, things)(a, b) == Cmp(m, NumberOf(a).value, NumberOf(b).value)
  {
    hide Cmp;
  }

  lemma {:induction false} TextsEqual(a: string, b: string)
    requires TextOrder(a, b) == S.Equal
    ensures a == b
  {
    if a != [] && b != [] {
      TextsEqual(a[1..], b[1..]);
      assert a == [a[0]] + a[1..] && b == [b[0]] + b[1..];
    }
  }

  /** Two equal values are both numbers, or the same. */
  lemma EqualIsSame(m: Machine, things: ThingOrder, a: Atom, b: Atom)
    requires ByValue(m, things)(a, b) == S.Equal
    requires a.Other? && b.Other? && things(a.thing, b.thing) == S.Equal ==> a == b
    ensures a == b || (Rank(a) == Rank(b) == 2 && Cmp(m, NumberOf(a).value, NumberOf(b).value) == S.Equal)
  {
    hide Cmp, TextOrder;
    if a.Str? {
      TextsEqual(a.s, b.s);
    }
  }

  // -- representatives -----------------------------------------------------

  /** One of a set, the same whenever the set is the same. */
  ghost function Pick(s: iset<Atom>): Atom
    requires s != iset{}
  {
    var a :| a in s; a
  }

  ghost function EqualTo(order: Compare, on: Atom -> bool, a: Atom): iset<Atom> {
    iset b | on(b) && order(a, b) == S.Equal
  }

  /** One of the values of the kind that are equal to a value. */
  ghost function Representative(order: Compare, on: Atom -> bool): Atom -> Atom {
    (a: Atom) => if EqualTo(order, on, a) != iset{} && on(a) then Pick(EqualTo(order, on, a)) else a
  }

  lemma RepresentativeEqual(order: Compare, on: Atom -> bool, a: Atom)
    requires S.LawfulOn(order, on) && on(a)
    ensures on(Representative(order, on)(a)) && order(a, Representative(order, on)(a)) == S.Equal
  {
    assert order(a, a) == S.Flip(order(a, a));
    assert a in EqualTo(order, on, a);
    assert Pick(EqualTo(order, on, a)) in EqualTo(order, on, a);
  }

  lemma RepresentativeSame(order: Compare, on: Atom -> bool, a: Atom, b: Atom)
    requires S.LawfulOn(order, on) && on(a) && on(b)
    ensures Representative(order, on)(a) == Representative(order, on)(b) <==> order(a, b) == S.Equal
  {
    RepresentativeEqual(order, on, a);
    RepresentativeEqual(order, on, b);
    if order(a, b) == S.Equal {
      SameEquals(order, on, a, b);
      hide S.LawfulOn;
      assert order(a, a) == S.Equal by { assert S.LawfulOn(order, on); assert order(a, a) == S.Flip(order(a, a)); }
      assert a in EqualTo(order, on, a);
    } else {
      hide Representative;
      var c := Representative(order, on)(a);
      assert order(c, b) == S.Flip(order(b, c)) && order(c, a) == S.Flip(order(a, c)) && order(b, a) == S.Flip(order(a, b));
    }
  }

  /** Wherever the order is one, equality has representatives for an aggregate to group by. */
  lemma Represented(d: A.Def, on: Atom -> bool)
    requires S.LawfulOn(d.cmp, on) && d.canon == Representative(d.cmp, on)
    ensures A.Tells(d, on)
  {
    hide Representative, S.LawfulOn;
    forall a, b | on(a) && on(b) ensures d.cmp(a, b) == S.Equal <==> d.canon(a) == d.canon(b) {
      RepresentativeSame(d.cmp, on, a, b);
    }
    forall a | on(a) ensures on(d.canon(a)) && d.canon(d.canon(a)) == d.canon(a) {
      RepresentativeEqual(d.cmp, on, a);
      RepresentativeSame(d.cmp, on, a, d.canon(a));
    }
  }

  lemma SameEquals(order: Compare, on: Atom -> bool, a: Atom, b: Atom)
    requires S.LawfulOn(order, on) && on(a) && on(b) && order(a, b) == S.Equal
    ensures EqualTo(order, on, a) == EqualTo(order, on, b)
  {
    assert order(b, a) == S.Equal;
    forall c | on(c) ensures order(a, c) == S.Equal <==> order(b, c) == S.Equal {
      assert order(c, a) == S.Flip(order(a, c)) && order(c, b) == S.Flip(order(b, c));
    }
  }

  /** So an aggregate over values lawfully ordered can be relied on. */
  lemma OrderedFaithful(d: A.Def, on: Atom -> bool, rows: seq<Record>)
    requires S.LawfulOn(d.cmp, on) && d.canon == Representative(d.cmp, on)
    requires forall rec, f | rec in rows && f in rec :: CellOn(on, rec[f])
    ensures A.Faithful(d, rows)
  {
    Represented(d, on);
    hide S.LawfulOn, A.Tells, Representative;
    A.KindsFaithful(d, (f: string) => on, rows);
  }
}
