/** Floating point as the engine relies on it: reals, rounded. */
module Floats {
  /** Above this magnitude a 64-bit float no longer holds every integer: 2^53. */
  const LIMIT: int := 9_007_199_254_740_992

  /** A float is a real, or not finite. */
  datatype Float = Fin(r: real) | Special

  /**
   * All that sums assume of rounding: integers up to 2^53 are exact, and nothing
   * beyond that magnitude rounds back below it.
   */
  ghost predicate Rounds(rnd: real -> Float) {
    && (forall x: real :: x.Floor as real == x && -LIMIT <= x.Floor <= LIMIT ==> rnd(x) == Fin(x))
    && (forall x: real :: x >= LIMIT as real && rnd(x).Fin? ==> rnd(x).r >= LIMIT as real)
    && (forall x: real :: x <= -LIMIT as real && rnd(x).Fin? ==> rnd(x).r <= -LIMIT as real)
  }

  function Add(rnd: real -> Float, a: Float, b: Float): Float {
    if a.Fin? && b.Fin? then rnd(a.r + b.r) else Special
  }

  function Sub(rnd: real -> Float, a: Float, b: Float): Float {
    if a.Fin? && b.Fin? then rnd(a.r - b.r) else Special
  }

  function Abs(x: real): real { if x < 0.0 then -x else x }

  // -- round to nearest, ties to even --------------------------------------

  const TOP: real := 9007199254740992.0
  const HALF: real := 4503599627370496.0

  function RoundEven(x: real): int {
    var d := x - x.Floor as real;
    if d < 0.5 || (d == 0.5 && x.Floor % 2 == 0) then x.Floor else x.Floor + 1
  }

  /** No whole number is nearer, and of two as near the even one is taken. */
  lemma NearestWhole(x: real, n: int)
    ensures var r := RoundEven(x);
      && Abs(r as real - x) <= Abs(n as real - x)
      && (n != r && Abs(r as real - x) == Abs(n as real - x) ==> r % 2 == 0)
  {
    var f := x.Floor;
    assert n <= f ==> n as real <= f as real;
    assert n >= f + 1 ==> n as real >= f as real + 1.0;
  }

  /** A large number, scaled down until its 53 bits are the integer part. */
  function Down(x: real): (r: real)
    requires x >= HALF
    ensures r >= HALF && (x >= TOP ==> r >= TOP)
    decreases x
  {
    if x < TOP then RoundEven(x) as real else 2.0 * Down(x / 2.0)
  }

  function Steps(x: real): nat
    requires 0.0 < x < TOP
  {
    assert TOP / x >= 0.0;
    (TOP / x).Floor
  }

  lemma FewerSteps(x: real)
    requires 0.0 < x < HALF
    ensures Steps(2.0 * x) < Steps(x)
  {
    var q := TOP / x;
    assert q * x == TOP;
    assert TOP / (2.0 * x) == q / 2.0 by {
      assert q / 2.0 * (2.0 * x) == TOP;
    }
    assert q <= 2.0 ==> (2.0 - q) * x >= 0.0;
  }

  /** A small one, scaled up. */
  function Up(x: real): (r: real)
    requires 0.0 < x < TOP
    ensures r >= 0.0
    decreases Steps(x)
  {
    if x >= HALF then RoundEven(x) as real else FewerSteps(x); Up(2.0 * x) / 2.0
  }

  /** The nearest number of 53 significant bits; the exponent is unbounded. */
  function NearestAbove(x: real): (r: real)
    requires x > 0.0
    ensures r >= 0.0 && (x >= TOP ==> r >= TOP)
  {
    if x >= TOP then Down(x) else Up(x)
  }

  function Nearest(x: real): real {
    if x == 0.0 then 0.0 else if x < 0.0 then -NearestAbove(-x) else NearestAbove(x)
  }

  function Double(x: real): Float { Fin(Nearest(x)) }

  lemma {:induction false} UpExact(x: real)
    requires 0.0 < x < TOP && x.Floor as real == x
    ensures Up(x) == x
    decreases Steps(x)
  {
    if x < HALF {
      FewerSteps(x);
      var n := x.Floor;
      assert 2.0 * x == (2 * n) as real;
      UpExact(2.0 * x);
    }
  }

  lemma AboveExact(n: nat)
    requires 0 < n <= LIMIT
    ensures NearestAbove(n as real) == n as real
  {
    if n == LIMIT {
      assert Down(HALF) == HALF;
      assert Down(TOP) == 2.0 * Down(TOP / 2.0);
    } else {
      UpExact(n as real);
    }
  }

  /** What sums assume of rounding holds of rounding to nearest. */
  lemma DoubleRounds()
    ensures Rounds(Double)
  {
    hide NearestAbove;
    forall x: real | x.Floor as real == x && -LIMIT <= x.Floor <= LIMIT ensures Double(x) == Fin(x) {
      var n := x.Floor;
      if n > 0 {
        AboveExact(n);
      } else if n < 0 {
        AboveExact(-n);
        assert (-n) as real == -x;
      }
    }
    forall x: real | x >= LIMIT as real ensures Nearest(x) >= LIMIT as real {
      assert LIMIT as real == TOP;
    }
    forall x: real | x <= -LIMIT as real ensures Nearest(x) <= -LIMIT as real {
      assert LIMIT as real == TOP;
    }
  }

  // -- how far off rounding is ---------------------------------------------

  /** Off by no more than one part in 2^53. */
  predicate Close(r: real, x: real) {
    -x <= (r - x) * TOP <= x
  }

  lemma {:induction false} UpClose(x: real)
    requires 0.0 < x < TOP
    ensures Close(Up(x), x)
    decreases Steps(x)
  {
    if x < HALF {
      FewerSteps(x);
      UpClose(2.0 * x);
    }
  }

  lemma {:induction false} DownClose(x: real)
    requires x >= HALF
    ensures Close(Down(x), x)
    decreases x
  {
    if x >= TOP {
      DownClose(x / 2.0);
    }
  }

  lemma NearestClose(x: real)
    requires x > 0.0
    ensures Close(NearestAbove(x), x)
  {
    if x >= TOP { DownClose(x); } else { UpClose(x); }
  }

  /** One quotient by two divisors, the smaller at most 2^51, rounds to two numbers. */
  lemma QuotientsApart(s: real, n: nat, m: nat)
    requires s > 0.0 && 0 < n < m && 2.0 * n as real <= HALF
    ensures NearestAbove(s / n as real) > NearestAbove(s / m as real)
  {
    var u, v := s / n as real, s / m as real;
    assert u * n as real == s && v * m as real == s;
    NearestClose(u);
    NearestClose(v);
    hide *;
    Apart(u, v, n as real, m as real, NearestAbove(u), NearestAbove(v));
  }

  lemma Apart(u: real, v: real, n: real, m: real, a: real, b: real)
    requires u > 0.0 && v > 0.0 && u * n == v * m && 1.0 <= n && 2.0 * n <= HALF && n + 1.0 <= m
    requires Close(a, u) && Close(b, v)
    ensures a > b
  {
    Spread(u, v, n, m);
    if a <= b {
      assert (u - v) * TOP <= u + v;
      assert u <= 2.0 * v;
      Stretch(v, (u - v) * TOP, 3.0 * v, n);
    }
  }

  lemma Spread(u: real, v: real, n: real, m: real)
    requires v > 0.0 && u * n == v * m && n + 1.0 <= m
    ensures (u - v) * n >= v
  {
    Stretched(n + 1.0, m, v);
    assert (n + 1.0) * v == n * v + v;
    assert (u - v) * n == u * n - v * n;
  }

  lemma Stretched(a: real, b: real, p: real)
    requires a <= b && p >= 0.0
    ensures a * p <= b * p
  {
  }

  lemma Stretch(v: real, d: real, w: real, n: real)
    requires v > 0.0 && d <= w && w == 3.0 * v && 0.0 < n && 2.0 * n <= HALF
    ensures d * n < v * TOP
  {
    Stretched(d, w, n);
    Stretched(n, HALF / 2.0, 3.0 * v);
    assert w * n == n * (3.0 * v);
    assert HALF / 2.0 * (3.0 * v) == v * 6755399441055744.0;
  }

  /** The same, whatever the sign; zero is the only sum two counts divide alike. */
  lemma MeansApart(s: real, n: nat, m: nat)
    requires 0 < n < m && 2.0 * n as real <= HALF
    ensures Double(s / n as real) == Double(s / m as real) <==> s == 0.0
  {
    hide NearestAbove;
    if s > 0.0 {
      Positive(s, n as real);
      Positive(s, m as real);
      QuotientsApart(s, n, m);
    } else if s < 0.0 {
      Positive(-s, n as real);
      Positive(-s, m as real);
      QuotientsApart(-s, n, m);
      Negated(s, n as real);
      Negated(s, m as real);
    }
  }

  lemma Positive(s: real, n: real)
    requires s > 0.0 && n > 0.0
    ensures s / n > 0.0
  {
  }

  lemma Negated(s: real, n: real)
    requires n > 0.0
    ensures -s / n == -(s / n)
  {
    var q := s / n;
    assert q * n == s;
    assert (-q) * n == -s;
  }

  function Pow2(k: nat): (p: real)
    ensures p >= 1.0
  {
    if k == 0 then 1.0 else 2.0 * Pow2(k - 1)
  }

  /** Between two powers of two, rounding is to a multiple of a fixed unit. */
  lemma {:induction false} DownIs(x: real, k: nat)
    requires HALF * Pow2(k) <= x < TOP * Pow2(k)
    ensures x >= HALF && Down(x) == RoundEven(x / Pow2(k)) as real * Pow2(k)
    decreases k
  {
    hide *;
    PowStep(k);
    if k == 0 {
      DownBase(x, Pow2(0));
    } else {
      var p := Pow2(k - 1);
      Between(x, p);
      DownIs(x / 2.0, k - 1);
      Halves(x, p);
      DownStep(x);
      Regroup(RoundEven(x / (2.0 * p)) as real, p);
    }
  }

  lemma PowStep(k: nat)
    ensures Pow2(k) == if k == 0 then 1.0 else 2.0 * Pow2(k - 1)
  {
  }

  lemma DownBase(x: real, p: real)
    requires p == 1.0 && HALF * p <= x < TOP * p
    ensures x >= HALF && Down(x) == RoundEven(x / p) as real * p
  {
    hide RoundEven;
  }

  lemma DownStep(x: real)
    requires x >= TOP
    ensures Down(x) == 2.0 * Down(x / 2.0)
  {
    hide RoundEven;
  }

  lemma Regroup(m: real, p: real)
    ensures 2.0 * (m * p) == m * (2.0 * p)
  {
  }

  lemma Between(x: real, p: real)
    requires p >= 1.0 && HALF * (2.0 * p) <= x < TOP * (2.0 * p)
    ensures x >= TOP && HALF * p <= x / 2.0 < TOP * p
  {
  }

  lemma Halves(x: real, p: real)
    requires p > 0.0
    ensures x / 2.0 / p == x / (2.0 * p)
  {
    var q := x / 2.0 / p;
    assert q * p == x / 2.0;
    assert q * (2.0 * p) == x;
  }

  /** Between 2^53 and 2^54 every odd integer is a tie. */
  lemma OddIntegers(n: int, r: real)
    requires LIMIT < n < 2 * LIMIT && r == (2 * RoundEven(n as real / 2.0)) as real
    ensures Double(n as real) == Fin(r)
  {
    assert Pow2(1) == 2.0 * Pow2(0) == 2.0;
    DownIs(n as real, 1);
  }

  /** The first integer a float cannot hold. */
  lemma FirstGap()
    ensures Double((LIMIT + 1) as real) == Fin(LIMIT as real)
    ensures Double((LIMIT + 2) as real) == Fin((LIMIT + 2) as real)
  {
    assert ((LIMIT + 1) as real / 2.0).Floor == LIMIT / 2;
    assert ((LIMIT + 2) as real / 2.0).Floor == LIMIT / 2 + 1;
    OddIntegers(LIMIT + 1, LIMIT as real);
    OddIntegers(LIMIT + 2, (LIMIT + 2) as real);
  }
}
