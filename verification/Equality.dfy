/**
 * Equality, order and hashing of numbers: exact where two numbers fit one
 * scale, by rounding to floats where they do not. Hashing always rounds.
 */
module Equality {
  import opened Basics
  import opened Wire
  import opened Floats
  import opened Numerics
  import S = Sorting

  /** A whole number of 64 bits, a decimal, or a float. */
  datatype Number = Int(n: int64) | Dec(x: Exact) | Approx(f: Float)

  /** Signed and unsigned words together. */
  type int64 = n: int | -0x8000_0000_0000_0000 <= n < 0x1_0000_0000_0000_0000

  /** Rounding, and the powers of ten a float stands for. */
  datatype Machine = Machine(rnd: real -> Float, tens: nat -> Float)

  /** Rounding keeps integers up to 2^53, and the first twenty-two powers of ten are exact. */
  ghost predicate Sane(m: Machine) {
    Rounds(m.rnd) && forall s: nat :: s <= 22 ==> m.tens(s) == Fin(Pow10(s) as real)
  }

  function Quotient(m: Machine, a: Float, b: Float): Float {
    if a.Fin? && b.Fin? && b.r != 0.0 then m.rnd(a.r / b.r) else Special
  }

  /** `as_num`: what the float order compares and every hash is taken of. */
  function AsNum(m: Machine, v: Number): Float {
    match v
    case Int(n) => m.rnd(n as real)
    case Dec(x) => Quotient(m, m.rnd(x.units as real), m.tens(x.scale))
    case Approx(f) => f
  }

  function ExactOf(v: Number): Option<Exact> {
    match v
    case Int(n) => Some(Exact(n, 0))
    case Dec(x) => Some(x)
    case Approx(_) => None
  }

  /** Floats in canonical form: every one that is no real is one value, above all reals. */
  function CompareFloats(a: Float, b: Float): S.Ordering {
    match (a, b)
    case (Fin(x), Fin(y)) => if x < y then S.Less else if x == y then S.Equal else S.Greater
    case (Fin(_), Special) => S.Less
    case (Special, Fin(_)) => S.Greater
    case (Special, Special) => S.Equal
  }

  /** The engine's order of numbers. */
  function Cmp(m: Machine, a: Number, b: Number): S.Ordering {
    match (ExactOf(a), ExactOf(b))
    case (Some(x), Some(y)) =>
      (match CmpExact(x, y) case Some(o) => o case None => CompareFloats(AsNum(m, a), AsNum(m, b)))
    case _ => CompareFloats(AsNum(m, a), AsNum(m, b))
  }

  predicate HashAlike(m: Machine, a: Number, b: Number) {
    AsNum(m, a) == AsNum(m, b)
  }

  // -- where hashing agrees with equality ----------------------------------

  /** At most 2^53 units, and at most twenty-two places. */
  predicate Small(x: Exact) {
    -LIMIT <= x.units <= LIMIT && x.scale <= 22
  }

  /** A whole number, or a decimal whose units and scale a float holds. */
  predicate Hashable(v: Number) {
    v.Int? || (v.Dec? && Small(v.x))
  }

  /** A small decimal's float is its fraction, rounded once. */
  lemma SmallRounds(m: Machine, x: Exact)
    requires Sane(m) && Small(x)
    ensures AsNum(m, Dec(x)) == m.rnd(x.units as real / Pow10(x.scale) as real)
  {
    hide Pow10;
    assert (x.units as real).Floor as real == x.units as real;
  }

  lemma SameQuotient(x: int, y: int, p: nat, q: nat)
    requires p > 0 && q > 0 && x * q == y * p
    ensures x as real / p as real == y as real / q as real
  {
    var a, b := x as real / p as real, y as real / q as real;
    assert a * p as real == x as real && b * q as real == y as real;
    assert x as real * q as real == (x * q) as real && y as real * p as real == (y * p) as real;
    RealCancel(a, b, p as real * q as real);
  }

  lemma RealCancel(a: real, b: real, p: real)
    requires p > 0.0 && a * p == b * p
    ensures a == b
  {
    assert (a - b) * p == 0.0;
  }

  /** Two small decimals that are one fraction have one float. */
  lemma SmallAlike(m: Machine, x: Exact, y: Exact)
    requires Sane(m) && Small(x) && Small(y) && CompareFractions(x, y) == S.Equal
    ensures HashAlike(m, Dec(x), Dec(y))
  {
    SmallRounds(m, x);
    SmallRounds(m, y);
    hide Pow10, AsNum;
    SameQuotient(x.units, y.units, Pow10(x.scale), Pow10(y.scale));
  }

  /** A whole number equal to a small decimal has its float. */
  lemma WholeAlike(m: Machine, n: int64, y: Exact)
    requires Sane(m) && Small(y) && CompareFractions(Exact(n, 0), y) == S.Equal
    ensures HashAlike(m, Int(n), Dec(y))
  {
    SmallRounds(m, y);
    NoTens();
    hide Pow10, AsNum;
    SameQuotient(n, y.units, 1, Pow10(y.scale));
    assert n as real / 1.0 == n as real;
    assert AsNum(m, Int(n)) == m.rnd(n as real) by { IntRounds(m, n); }
  }

  lemma IntRounds(m: Machine, n: int64)
    ensures AsNum(m, Int(n)) == m.rnd(n as real)
  {
  }

  lemma FractionsFlip(x: Exact, y: Exact)
    ensures CompareFractions(x, y) == S.Equal <==> CompareFractions(y, x) == S.Equal
  {
    hide Pow10;
  }

  lemma WholesEqual(a: int64, b: int64)
    requires CompareFractions(Exact(a, 0), Exact(b, 0)) == S.Equal
    ensures a == b
  {
  }

  lemma FloatsEqual(a: Float, b: Float)
    ensures CompareFloats(a, b) == S.Equal <==> a == b
  {
  }

  /** Numbers that compare equal hash alike, as long as every decimal among them is small. */
  lemma EqualHashAlike(m: Machine, a: Number, b: Number)
    requires Sane(m) && Hashable(a) && Hashable(b) && Cmp(m, a, b) == S.Equal
    ensures HashAlike(m, a, b)
  {
    var x, y := ExactOf(a).value, ExactOf(b).value;
    CmpExactIsRational(x, y);
    FloatsEqual(AsNum(m, a), AsNum(m, b));
    hide AsNum, CompareFractions, CompareFloats, Rounds, Small, BothLift;
    if CmpExact(x, y).Some? {
      match (a, b) {
        case (Int(p), Int(q)) => WholesEqual(p, q);
        case (Int(p), Dec(v)) => WholeAlike(m, p, v);
        case (Dec(u), Int(q)) => FractionsFlip(x, y); WholeAlike(m, q, u);
        case (Dec(u), Dec(v)) => SmallAlike(m, u, v);
      }
    }
  }

  // -- where the order is an order -----------------------------------------

  /** Numbers the engine compares without rounding, whichever two it takes. */
  ghost predicate Comparable(on: Number -> bool) {
    forall a, b | on(a) && on(b) :: ExactOf(a).Some? && ExactOf(b).Some? && BothLift(ExactOf(a).value, ExactOf(b).value)
  }

  /** Among such numbers the engine's order is a total preorder. */
  lemma ComparableLawful(m: Machine, on: Number -> bool)
    requires Comparable(on)
    ensures S.LawfulOn(ByNumber(m), on)
  {
    hide CmpExact, CompareFloats, AsNum, BothLift;
    forall a: Number, b: Number, c: Number | on(a) && on(b) && on(c)
      ensures Cmp(m, b, a) == S.Flip(Cmp(m, a, b))
      ensures Cmp(m, a, b) != S.Greater && Cmp(m, b, c) != S.Greater ==> Cmp(m, a, c) != S.Greater
    {
      CmpExactOrders(ExactOf(a).value, ExactOf(b).value, ExactOf(c).value);
    }
  }

  function ByNumber(m: Machine): (Number, Number) -> S.Ordering {
    (a: Number, b: Number) => Cmp(m, a, b)
  }

  /** A number that can be brought to twenty-two places beside any other such: a small decimal, or a whole number up to 2^53. */
  predicate Fine(v: Number) {
    match v
    case Int(n) => -LIMIT <= n <= LIMIT
    case Dec(x) => Small(x)
    case Approx(_) => false
  }

  lemma FineLift(x: Exact, y: Exact)
    requires Small(x) && Small(y)
    ensures BothLift(x, y)
  {
    TwentyTwo();
    FineAt(x, Finer(x, y));
    FineAt(y, Finer(x, y));
    hide Pow10;
  }

  lemma TwentyTwo()
    ensures Pow10(22) == 10_000_000_000_000_000_000_000
  {
    SixMore(16);
    SixMore(10);
    SixMore(4);
    assert Pow10(4) == 10 * Pow10(3) && Pow10(3) == 10 * Pow10(2) && Pow10(2) == 10 * Pow10(1) && Pow10(1) == 10 * Pow10(0);
  }

  lemma FineAt(x: Exact, target: nat)
    requires Small(x) && x.scale <= target <= 22
    ensures CanLift(x, target)
  {
    TwentyTwo();
    PowGrows(target - x.scale, 22);
    hide Pow10;
    var p: int := Pow10(target - x.scale);
    Within(x.units, p);
  }

  lemma Within(u: int, p: int)
    requires -LIMIT <= u <= LIMIT && 0 <= p <= 10_000_000_000_000_000_000_000
    ensures Fits(u * p)
  {
    Scaled(u, LIMIT, p);
    Scaled(-LIMIT, u, p);
    assert LIMIT * p <= LIMIT * 10_000_000_000_000_000_000_000;
  }

  /** Among small decimals and whole numbers up to 2^53 the engine's order is a total preorder. */
  lemma FineLawful(m: Machine)
    ensures S.LawfulOn(ByNumber(m), Fine)
  {
    hide BothLift;
    forall a, b | Fine(a) && Fine(b) ensures BothLift(ExactOf(a).value, ExactOf(b).value) {
      FineLift(ExactOf(a).value, ExactOf(b).value);
    }
    ComparableLawful(m, Fine);
  }

  predicate IsWhole(v: Number) { v.Int? }

  /** So it is among all whole numbers of 64 bits. */
  lemma WholesLawful(m: Machine)
    ensures S.LawfulOn(ByNumber(m), IsWhole)
  {
    hide BothLift;
    forall a, b | IsWhole(a) && IsWhole(b) ensures BothLift(ExactOf(a).value, ExactOf(b).value) {
      WholeLift(a.n, b.n);
    }
    ComparableLawful(m, IsWhole);
  }

  lemma WholeLift(a: int64, b: int64)
    ensures BothLift(Exact(a, 0), Exact(b, 0))
  {
  }

  /** A float, or a whole number that a float holds. */
  predicate IsFloat(v: Number) {
    v.Approx? || (v.Int? && -LIMIT <= v.n <= LIMIT)
  }

  /** Among floats and the whole numbers up to 2^53 every comparison is one of floats. */
  lemma FloatsCompare(m: Machine, a: Number, b: Number)
    requires Rounds(m.rnd) && IsFloat(a) && IsFloat(b)
    ensures Cmp(m, a, b) == CompareFloats(AsNum(m, a), AsNum(m, b))
  {
    if a.Int? && b.Int? {
      WholesCompare(m, a.n, b.n);
      assert (a.n as real).Floor == a.n && (b.n as real).Floor == b.n;
      assert m.rnd(a.n as real) == Fin(a.n as real) && m.rnd(b.n as real) == Fin(b.n as real);
    }
  }

  /** And so the order is a total preorder. */
  lemma FloatsLawful(m: Machine)
    requires Rounds(m.rnd)
    ensures S.LawfulOn(ByNumber(m), IsFloat)
  {
    hide Cmp, AsNum, Rounds;
    forall a: Number, b: Number | IsFloat(a) && IsFloat(b) ensures Cmp(m, a, b) == CompareFloats(AsNum(m, a), AsNum(m, b)) {
      FloatsCompare(m, a, b);
    }
  }

  /** Whatever the numbers, turning them round turns the answer round. */
  lemma NumbersFlip(m: Machine, a: Number, b: Number)
    ensures Cmp(m, b, a) == S.Flip(Cmp(m, a, b))
  {
    if ExactOf(a).Some? && ExactOf(b).Some? {
      var x, y := ExactOf(a).value, ExactOf(b).value;
      CmpExactIsRational(x, y);
      CmpExactIsRational(y, x);
      FractionsOrdered(x, y, x);
      hide CmpExact, CompareFractions, AsNum;
    }
  }

  // -- where they are not --------------------------------------------------

  /** Two ways of writing 2^53 + 1. */
  const WHOLE: Number := Int(9_007_199_254_740_993)
  const TENTHS: Number := Dec(Exact(90_071_992_547_409_930, 1))

  /** They are equal, and hash as 2^53 and 2^53 + 2. */
  lemma EqualHashedApart(m: Machine)
    requires m.rnd == Double && Sane(m)
    ensures Cmp(m, WHOLE, TENTHS) == S.Equal && !HashAlike(m, WHOLE, TENTHS)
  {
    OddHash(m);
    TenthsHash(m);
    CmpExactIsRational(Exact(9_007_199_254_740_993, 0), Exact(90_071_992_547_409_930, 1));
    assert Pow10(1) == 10 * Pow10(0) == 10;
    hide Double, Sane, AsNum;
  }

  lemma OddHash(m: Machine)
    requires m.rnd == Double
    ensures AsNum(m, WHOLE) == Fin(9007199254740992.0)
  {
    FirstGap();
    hide Double;
  }

  lemma TenthsHash(m: Machine)
    requires m.rnd == Double && Sane(m)
    ensures AsNum(m, TENTHS) == Fin(9007199254740994.0)
  {
    Ten(m);
    SixteenBits();
    hide *;
    Rounded(90071992547409930.0, 4, 16.0, 5629499534213121) by { SixteenthsRound(); }
    Rounded(9007199254740993.6, 1, 2.0, 4503599627370497) by { HalvesRound(); }
    FloatOf(m, Exact(90_071_992_547_409_930, 1), 90071992547409936.0, 10.0, 9007199254740994.0);
  }

  lemma Ten(m: Machine)
    requires Sane(m)
    ensures m.tens(1) == Fin(10.0)
  {
    assert Pow10(1) == 10 * Pow10(0) == 10;
    hide Rounds;
  }

  lemma SixteenthsRound()
    ensures RoundEven(90071992547409930.0 / 16.0) == 5629499534213121 && HALF * 16.0 <= 90071992547409930.0 < TOP * 16.0
  {
  }

  lemma HalvesRound()
    ensures RoundEven(9007199254740993.6 / 2.0) == 4503599627370497 && HALF * 2.0 <= 9007199254740993.6 < TOP * 2.0
  {
  }

  lemma SixteenBits()
    ensures Pow2(1) == 2.0 && Pow2(4) == 16.0
  {
    assert Pow2(1) == 2.0 * Pow2(0) == 2.0;
    assert Pow2(4) == 2.0 * Pow2(3) == 4.0 * Pow2(2) == 8.0 * Pow2(1);
  }

  /** Rounding a number of a known binade, given its multiple of the unit there. */
  lemma Rounded(x: real, k: nat, p: real, n: int)
    requires p == Pow2(k) && k > 0 && HALF * p <= x < TOP * p && RoundEven(x / p) == n
    ensures Double(x) == Fin(n as real * p)
  {
    hide *;
    PowStep(k);
    DownIs(x, k);
    AtLeastTop(x, p);
    DownWhenLarge(x);
  }

  lemma AtLeastTop(x: real, p: real)
    requires p >= 2.0 && HALF * p <= x
    ensures x >= TOP
  {
  }

  lemma DownWhenLarge(x: real)
    requires x >= TOP
    ensures Double(x) == Fin(Down(x))
  {
    hide Down;
  }

  /** A decimal as wide as 128 bits allow, and two neighbouring whole decimals just beyond it. */
  const WIDE: Number := Dec(Exact(170_141_183_460_469_231_731_687_303_715_884_105_727, 18))
  const BEYOND: Number := Dec(Exact(170_141_183_460_469_231_732, 0))
  const FURTHER: Number := Dec(Exact(170_141_183_460_469_231_733, 0))

  /** Each equals the wide one, by float; between themselves they compare exactly, and differ. */
  lemma EqualToOneNotToEachOther(m: Machine)
    requires m.rnd == Double && Sane(m)
    ensures Cmp(m, BEYOND, WIDE) == S.Equal && Cmp(m, WIDE, FURTHER) == S.Equal && Cmp(m, BEYOND, FURTHER) == S.Less
  {
    WideFloats(m);
    WideFits();
    hide *;
    ByFloat(m, BEYOND.x, WIDE.x);
    ByFloat(m, WIDE.x, FURTHER.x);
    ByUnits(m, BEYOND.x, FURTHER.x, S.Less);
  }

  lemma ByFloat(m: Machine, x: Exact, y: Exact)
    requires CmpExact(x, y) == None && AsNum(m, Dec(x)) == AsNum(m, Dec(y))
    ensures Cmp(m, Dec(x), Dec(y)) == S.Equal
  {
    hide CmpExact, AsNum;
  }

  lemma ByUnits(m: Machine, x: Exact, y: Exact, o: S.Ordering)
    requires CmpExact(x, y) == Some(o)
    ensures Cmp(m, Dec(x), Dec(y)) == o
  {
    hide CmpExact, AsNum;
  }

  lemma TenToThe18()
    ensures Pow10(0) == 1 && Pow10(18) == 1_000_000_000_000_000_000
  {
    SixMore(0);
    SixMore(6);
    SixMore(12);
  }

  lemma WideFits()
    ensures CmpExact(BEYOND.x, WIDE.x) == None && CmpExact(WIDE.x, FURTHER.x) == None
    ensures CmpExact(BEYOND.x, FURTHER.x) == Some(S.Less)
  {
    TenToThe18();
    hide Pow10, CmpExact;
    CmpExactIsRational(BEYOND.x, WIDE.x);
    CmpExactIsRational(WIDE.x, FURTHER.x);
    CmpExactIsRational(BEYOND.x, FURTHER.x);
  }

  lemma FloatOf(m: Machine, x: Exact, a: real, p: real, b: real)
    requires m.rnd(x.units as real) == Fin(a) && m.tens(x.scale) == Fin(p) && p != 0.0 && m.rnd(a / p) == Fin(b)
    ensures AsNum(m, Dec(x)) == Fin(b)
  {
  }

  lemma TensOf(m: Machine)
    requires Sane(m)
    ensures m.tens(0) == Fin(1.0) && m.tens(18) == Fin(1000000000000000000.0)
  {
    TenToThe18();
    hide Pow10, Rounds;
  }

  lemma WideFloats(m: Machine)
    requires m.rnd == Double && Sane(m)
    ensures AsNum(m, BEYOND) == AsNum(m, FURTHER) == AsNum(m, WIDE) == Fin(170141183460469243904.0)
  {
    WideRounds();
    BeyondRounds();
    TensOf(m);
    hide *;
    var r := 170141183460469243904.0;
    FloatOf(m, BEYOND.x, r, 1.0, r);
    FloatOf(m, FURTHER.x, r, 1.0, r);
    FloatOf(m, WIDE.x, 170141183460469231731687303715884105728.0, 1000000000000000000.0, r);
  }

  lemma WideRounds()
    ensures Double(170141183460469231731687303715884105727.0) == Fin(170141183460469231731687303715884105728.0)
    ensures Double(170141183460469231731.687303715884105728) == Fin(170141183460469243904.0)
  {
    Unit15();
    Unit74();
    hide Pow2, Double;
    Rounded(170141183460469231731687303715884105727.0, 74, 18889465931478580854784.0, 9007199254740992);
    Rounded(170141183460469231731.687303715884105728, 15, 32768.0, 5192296858534828);
  }

  lemma BeyondRounds()
    ensures Double(170141183460469231732.0) == Fin(170141183460469243904.0)
    ensures Double(170141183460469231733.0) == Fin(170141183460469243904.0)
    ensures Double(170141183460469243904.0) == Fin(170141183460469243904.0)
  {
    Unit15();
    hide Pow2, Double;
    Rounded(170141183460469231732.0, 15, 32768.0, 5192296858534828);
    Rounded(170141183460469231733.0, 15, 32768.0, 5192296858534828);
    Rounded(170141183460469243904.0, 15, 32768.0, 5192296858534828);
  }

  lemma FiveMore(k: nat)
    ensures Pow2(k + 5) == 32.0 * Pow2(k)
  {
    assert Pow2(k + 5) == 2.0 * Pow2(k + 4) == 4.0 * Pow2(k + 3) == 8.0 * Pow2(k + 2) == 16.0 * Pow2(k + 1);
  }

  lemma Unit15()
    ensures Pow2(15) == 32768.0
  {
    FiveMore(0);
    FiveMore(5);
    FiveMore(10);
  }

  lemma Unit74()
    ensures Pow2(74) == 18889465931478580854784.0
  {
    Unit15();
    FiveMore(15);
    FiveMore(20);
    FiveMore(25);
    FiveMore(30);
    FiveMore(35);
    FiveMore(40);
    FiveMore(45);
    FiveMore(50);
    FiveMore(55);
    FiveMore(60);
    FiveMore(65);
    hide Pow2;
    assert Pow2(70) == 1180591620717411303424.0;
    FourMore();
  }

  lemma FourMore()
    ensures Pow2(74) == 16.0 * Pow2(70)
  {
    assert Pow2(74) == 2.0 * Pow2(73) == 4.0 * Pow2(72) == 8.0 * Pow2(71);
  }

  /** Equality is no equivalence once numbers that do not fit one scale are compared with both kinds. */
  lemma NoOrderOfAllDecimals(m: Machine)
    requires m.rnd == Double && Sane(m)
    ensures !S.Lawful((a: Number, b: Number) => Cmp(m, a, b))
  {
    EqualToOneNotToEachOther(m);
    hide Cmp;
    var cmp := (a: Number, b: Number) => Cmp(m, a, b);
    assert cmp(BEYOND, WIDE) == S.Equal && cmp(WIDE, FURTHER) == S.Equal && cmp(BEYOND, FURTHER) == S.Less;
    NotLawful(cmp, BEYOND, WIDE, FURTHER);
  }

  lemma NotLawful<T(!new)>(cmp: (T, T) -> S.Ordering, a: T, b: T, c: T)
    requires cmp(a, b) == S.Equal && cmp(b, c) == S.Equal && cmp(a, c) == S.Less
    ensures !S.Lawful(cmp)
  {
    var lawful := S.Lawful(cmp);
    assert lawful ==> cmp(c, b) == S.Equal && cmp(b, a) == S.Equal && cmp(c, a) == S.Greater;
  }

  /** Nor when a float stands between two whole numbers. */
  lemma EqualThroughAFloat(m: Machine)
    requires m.rnd == Double
    ensures var a, b, c := Int(9_007_199_254_740_992), Approx(Fin(9007199254740992.0)), Int(9_007_199_254_740_993);
      Cmp(m, a, b) == S.Equal && Cmp(m, b, c) == S.Equal && Cmp(m, a, c) == S.Less
  {
    BigWholes();
    hide Double;
    WholeByFloat(m, 9_007_199_254_740_992, 9007199254740992.0);
    WholeByFloat(m, 9_007_199_254_740_993, 9007199254740992.0);
    WholesCompare(m, 9_007_199_254_740_992, 9_007_199_254_740_993);
    hide *;
  }

  lemma BigWholes()
    ensures Double(9_007_199_254_740_992 as real) == Fin(9007199254740992.0)
    ensures Double(9_007_199_254_740_993 as real) == Fin(9007199254740992.0)
  {
    DoubleRounds();
    FirstGap();
    hide Double;
    assert 9007199254740992.0.Floor as real == 9007199254740992.0;
  }

  lemma WholeByFloat(m: Machine, n: int64, r: real)
    requires m.rnd(n as real) == Fin(r)
    ensures Cmp(m, Int(n), Approx(Fin(r))) == S.Equal && Cmp(m, Approx(Fin(r)), Int(n)) == S.Equal
  {
  }

  lemma WholesCompare(m: Machine, a: int64, b: int64)
    ensures Cmp(m, Int(a), Int(b)) == Compare(a, b)
  {
    CmpExactIsRational(Exact(a, 0), Exact(b, 0));
    WholeLift(a, b);
    NoTens();
    hide CmpExact, BothLift, Pow10, CompareFloats;
  }
}
