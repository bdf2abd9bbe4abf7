/**
 * Exact numbers: integers and decimals as 128-bit units at a power-of-ten
 * scale. Moving, comparing and combining them must agree with arithmetic on
 * the fractions they stand for, or refuse.
 */
module Numerics {
  import opened Basics
  import opened Wire
  import S = Sorting

  /** `units / 10^scale`. */
  datatype Exact = Exact(units: i128, scale: nat)

  function Pow10(n: nat): (p: nat)
    ensures p > 0
  {
    if n == 0 then 1 else 10 * Pow10(n - 1)
  }

  predicate Fits(x: int) { -TWO127 <= x < TWO127 }

  function Checked(x: int): Option<i128> {
    if Fits(x) then Some(x) else None
  }

  /** `10i128.checked_pow(n)`. */
  function CheckedPow(n: nat): (p: Option<i128>)
    ensures p.Some? ==> p.value == Pow10(n)
  {
    Checked(Pow10(n))
  }

  function Abs(x: int): (a: int)
    ensures a >= 0
  {
    if x < 0 then -x else x
  }

  /** Division towards zero. */
  function Truncate(a: int, b: int): int
    requires b != 0
  {
    var q := Abs(a) / Abs(b);
    if (a >= 0) == (b > 0) then q else -q
  }

  lemma Swap(x: int, p: int, q: int)
    ensures x * (p * q) == x * q * p
  {
  }

  lemma {:induction false} PowAdds(m: nat, n: nat)
    ensures Pow10(m + n) == Pow10(m) * Pow10(n)
  {
    if m > 0 {
      PowAdds(m - 1, n);
      assert Pow10(m + n) == 10 * Pow10(m - 1 + n) && Pow10(m) == 10 * Pow10(m - 1);
      hide Pow10;
      Swap(10, Pow10(n), Pow10(m - 1));
    }
  }

  lemma {:induction false} PowGrows(m: nat, n: nat)
    requires m <= n
    ensures Pow10(m) <= Pow10(n)
    decreases n
  {
    if m < n {
      PowGrows(m, n - 1);
    }
  }

  lemma SixMore(n: nat)
    ensures Pow10(n + 6) == 1000000 * Pow10(n)
  {
    assert Pow10(n + 6) == 10 * Pow10(n + 5) == 100 * Pow10(n + 4) == 1000 * Pow10(n + 3);
    assert Pow10(n + 3) == 10 * Pow10(n + 2) == 100 * Pow10(n + 1) == 1000 * Pow10(n);
  }

  lemma LastFitting()
    ensures Pow10(38) == 100000000000000000000000000000000000000 && Pow10(39) == 10 * Pow10(38)
  {
    SixMore(0);
    SixMore(6);
    SixMore(12);
    SixMore(18);
    SixMore(24);
    SixMore(30);
    assert Pow10(0) == 1;
    assert Pow10(38) == 10 * Pow10(37) && Pow10(37) == 10 * Pow10(36);
    hide Pow10;
  }

  /** Thirty-eight tens fit a signed 128-bit word and thirty-nine do not. */
  lemma PowFits(n: nat)
    ensures CheckedPow(n).Some? <==> n <= 38
  {
    LastFitting();
    hide Pow10;
    if n <= 38 {
      PowGrows(n, 38);
    } else {
      PowGrows(39, n);
    }
  }

  // -- division ------------------------------------------------------------

  lemma TruncateNear(a: int, b: int)
    requires b != 0
    ensures Abs(a - Truncate(a, b) * b) < Abs(b)
  {
    var m, n := Abs(a), Abs(b);
    var k := m / n;
    assert m == n * k + m % n;
    assert Truncate(a, b) * b == if a >= 0 then k * n else -(k * n) by {
      Signs(k, b);
    }
  }

  lemma Signs(k: int, b: int)
    ensures (-k) * b == -(k * b) && k * (-b) == -(k * b)
  {
  }

  // -- rescaling -----------------------------------------------------------

  function Rescale(units: i128, from: nat, to: nat): Option<i128> {
    if to >= from then
      match CheckedPow(to - from) case None => None case Some(p) => Checked(units * p)
    else
      match CheckedPow(from - to)
      case None => None
      case Some(p) => if units % p == 0 then Checked(units / p) else None
  }

  /** Two scaled numbers are the same fraction. */
  predicate SameFraction(x: int, xs: nat, y: int, ys: nat) {
    x * Pow10(ys) == y * Pow10(xs)
  }

  lemma Cancel(x: int, y: int, p: nat)
    requires p > 0
    ensures x * p == y * p <==> x == y
    ensures x * p < y * p <==> x < y
  {
    Grows(y - x, p);
    Grows(x - y, p);
    assert (y - x) * p == y * p - x * p && (x - y) * p == x * p - y * p;
  }

  lemma Grows(d: int, p: int)
    requires p > 0
    ensures d > 0 ==> d * p >= p
    ensures d < 0 ==> d * p <= -p
  {
    if d > 0 {
      assert (d - 1) * p >= 0;
    } else if d < 0 {
      assert (-d - 1) * p >= 0;
    }
  }

  /** The common factor of two scales, taken out. */
  lemma FractionOver(x: int, y: int, s: nat, d: nat)
    ensures SameFraction(x, s, y, s + d) <==> y == x * Pow10(d)
  {
    hide Pow10;
    PowAdds(s, d);
    Swap(x, Pow10(s), Pow10(d));
    Cancel(x * Pow10(d), y, Pow10(s));
  }

  /**
   * Rescaling answers with the one number of units that is the same fraction,
   * exactly when 128 bits hold it and the scales are within thirty-eight places.
   */
  lemma RescaleExactly(units: i128, from: nat, to: nat, r: i128)
    ensures Rescale(units, from, to) == Some(r) <==>
      SameFraction(units, from, r, to) && from - 38 <= to <= from + 38
  {
    hide Pow10, SameFraction, CheckedPow;
    if to >= from {
      PowFits(to - from);
      FractionOver(units, r, from, to - from);
    } else {
      PowFits(from - to);
      FractionOver(r, units, to, from - to);
      SameBack(units, from, r, to);
      if from - to <= 38 {
        var p := Pow10(from - to);
        DividesExactly(units, p, r);
        SmallerFits(units, p);
      }
    }
  }

  lemma SameBack(x: int, xs: nat, y: int, ys: nat)
    ensures SameFraction(x, xs, y, ys) <==> SameFraction(y, ys, x, xs)
  {
  }

  lemma DividesExactly(a: int, p: nat, r: int)
    requires p > 0
    ensures a == r * p <==> a % p == 0 && a / p == r
  {
    assert a == a / p * p + a % p;
    Cancel(a / p, r, p);
    Grows(r - a / p, p);
    assert (r - a / p) * p == r * p - a / p * p;
  }

  /** A quotient lies between zero and what was divided. */
  lemma QuotientBetween(a: int, q: int, p: int, r: int)
    requires p > 0 && a == q * p + r && 0 <= r < p
    ensures 0 <= q <= a || a <= q < 0
  {
    if q >= 0 {
      NoLess(q, p);
    } else {
      NoLess(-(q + 1), p);
      assert (q + 1) * p == q * p + p;
      Signs(q + 1, p);
    }
  }

  lemma NoLess(q: nat, p: nat)
    requires p > 0
    ensures q * p >= q
  {
    assert q * (p - 1) >= 0;
  }

  lemma SmallerFits(units: i128, p: nat)
    requires p > 0
    ensures Fits(units / p)
  {
    var q: int := units / p;
    QuotientBetween(units, q, p, units % p);
  }

  // -- comparison and arithmetic -------------------------------------------

  function Finer(a: Exact, b: Exact): nat {
    if a.scale < b.scale then b.scale else a.scale
  }

  function Lift(x: Exact, target: nat): Option<i128>
    requires x.scale <= target
  {
    match CheckedPow(target - x.scale) case None => None case Some(p) => Checked(x.units * p)
  }

  function Compare(x: int, y: int): S.Ordering {
    if x < y then S.Less else if x == y then S.Equal else S.Greater
  }

  /** `None` sends the caller to the float comparison. */
  function CmpExact(a: Exact, b: Exact): Option<S.Ordering> {
    match (Lift(a, Finer(a, b)), Lift(b, Finer(a, b)))
    case (Some(x), Some(y)) => Some(Compare(x, y))
    case _ => None
  }

  /** The units of a number at a finer scale. */
  function At(x: Exact, target: nat): int
    requires x.scale <= target
  {
    x.units * Pow10(target - x.scale)
  }

  /** A number can be written at a scale: at most 38 places finer, and within 128 bits there. */
  predicate CanLift(x: Exact, target: nat)
    requires x.scale <= target
  {
    target - x.scale <= 38 && Fits(At(x, target))
  }

  predicate BothLift(a: Exact, b: Exact) {
    CanLift(a, Finer(a, b)) && CanLift(b, Finer(a, b))
  }

  lemma Lifts(x: Exact, target: nat)
    requires x.scale <= target
    ensures Lift(x, target) == if CanLift(x, target) then Some(At(x, target)) else None
  {
    PowFits(target - x.scale);
    hide Pow10;
  }

  lemma Lifted(x: Exact, target: nat)
    requires x.scale <= target
    ensures SameFraction(x.units, x.scale, At(x, target), target)
  {
    FractionOver(x.units, At(x, target), x.scale, target - x.scale);
  }

  /** How two fractions compare, cross-multiplied. */
  function CompareFractions(a: Exact, b: Exact): S.Ordering {
    Compare(a.units * Pow10(b.scale), b.units * Pow10(a.scale))
  }

  /** At the finer scale, units compare as the fractions do. */
  lemma LiftedCompare(a: Exact, b: Exact)
    ensures Compare(At(a, Finer(a, b)), At(b, Finer(a, b))) == CompareFractions(a, b)
  {
    var t := Finer(a, b);
    var x, y := At(a, t), At(b, t);
    assert Pow10(0) == 1 by { NoTens(); }
    hide Pow10;
    if a.scale <= b.scale {
      PowAdds(a.scale, b.scale - a.scale);
      Swap(a.units, Pow10(a.scale), Pow10(b.scale - a.scale));
      Cancel(x, y, Pow10(a.scale));
      Cancel(y, x, Pow10(a.scale));
    } else {
      PowAdds(b.scale, a.scale - b.scale);
      Swap(b.units, Pow10(b.scale), Pow10(a.scale - b.scale));
      Cancel(x, y, Pow10(b.scale));
      Cancel(y, x, Pow10(b.scale));
    }
  }

  /** The exact comparison answers exactly when both numbers fit at the finer scale, and then as the fractions do. */
  lemma CmpExactIsRational(a: Exact, b: Exact)
    ensures CmpExact(a, b) == if BothLift(a, b) then Some(CompareFractions(a, b)) else None
  {
    Lifts(a, Finer(a, b));
    Lifts(b, Finer(a, b));
    LiftedCompare(a, b);
    hide Pow10, CompareFractions;
  }

  lemma {:induction false} FractionsOrdered(a: Exact, b: Exact, c: Exact)
    ensures CompareFractions(b, a) == S.Flip(CompareFractions(a, b))
    ensures CompareFractions(a, b) != S.Greater && CompareFractions(b, c) != S.Greater ==> CompareFractions(a, c) != S.Greater
  {
    hide Pow10;
    var p, q, r := Pow10(a.scale), Pow10(b.scale), Pow10(c.scale);
    if a.units * q <= b.units * p && b.units * r <= c.units * q {
      Scaled(a.units * q, b.units * p, r);
      Scaled(b.units * r, c.units * q, p);
      Swap3(a.units, q, r);
      Swap3(b.units, p, r);
      Swap3(c.units, q, p);
      NotGreater(a.units * r, c.units * p, q);
    }
  }

  lemma Scaled(x: int, y: int, p: nat)
    requires x <= y
    ensures x * p <= y * p
  {
    assert (y - x) * p >= 0;
  }

  lemma Swap3(x: int, p: int, q: int)
    ensures x * p * q == x * q * p
  {
  }

  lemma NotGreater(x: int, y: int, p: nat)
    requires p > 0 && x * p <= y * p
    ensures x <= y
  {
    Cancel(y, x, p);
  }

  /** On numbers that fit each other's scales the comparison is a total preorder. */
  lemma CmpExactOrders(a: Exact, b: Exact, c: Exact)
    requires BothLift(a, b) && BothLift(b, c) && BothLift(a, c)
    ensures CmpExact(a, b).Some? && CmpExact(b, a) == Some(S.Flip(CmpExact(a, b).value))
    ensures CmpExact(b, c).Some? && CmpExact(a, c).Some?
    ensures CmpExact(a, b).value != S.Greater && CmpExact(b, c).value != S.Greater ==> CmpExact(a, c).value != S.Greater
  {
    CmpExactIsRational(a, b);
    CmpExactIsRational(b, a);
    CmpExactIsRational(b, c);
    CmpExactIsRational(a, c);
    FractionsOrdered(a, b, c);
    hide CompareFractions, Pow10;
  }

  lemma NoTens()
    ensures Pow10(0) == 1
  {
  }

  datatype Op = Add | Sub | Mul | Div

  /** An exact answer, a turn to floating point, or nothing at all. */
  datatype Outcome = Exactly(value: Exact) | Float | Nothing

  function FromChecked(u: Option<i128>, scale: nat): Outcome {
    match u case Some(x) => Exactly(Exact(x, scale)) case None => Float
  }

  /** A quotient that fits: only the least word divided by minus one does not. */
  function CheckedDiv(a: int, b: int): Option<i128> {
    if b == 0 then None else Checked(Truncate(a, b))
  }

  /** Division gives up outright where multiplication falls back, once ten to the scale does not fit. */
  function CheckedArith(op: Op, a: Exact, b: Exact): Outcome {
    var t := Finer(a, b);
    match (Lift(a, t), Lift(b, t))
    case (Some(x), Some(y)) =>
      (match op
       case Add => FromChecked(Checked(x + y), t)
       case Sub => FromChecked(Checked(x - y), t)
       case Mul =>
         if !Fits(x * y) || CheckedPow(t) == None then Float
         else FromChecked(CheckedDiv(x * y, Pow10(t)), t)
       case Div =>
         if y == 0 then Float
         else if CheckedPow(t) == None then Nothing
         else if !Fits(x * Pow10(t)) then Float
         else FromChecked(CheckedDiv(x * Pow10(t), y), t))
    case _ => Float
  }

  /** When there is an exact answer, in terms of the operands at their finer scale. */
  predicate HasExact(op: Op, a: Exact, b: Exact) {
    BothLift(a, b) &&
    var t := Finer(a, b);
    var x, y := At(a, t), At(b, t);
    match op
    case Add => Fits(x + y)
    case Sub => Fits(x - y)
    case Mul => t <= 38 && Fits(x * y)
    case Div => t <= 38 && y != 0 && Fits(x * Pow10(t)) && !(x * Pow10(t) == -TWO127 && y == -1)
  }

  /** Division by a number other than zero, past 38 places: not even a float. */
  predicate GivesUp(op: Op, a: Exact, b: Exact) {
    op == Div && BothLift(a, b) && b.units != 0 && Finer(a, b) > 38
  }

  lemma QuotientFits(a: int, b: int)
    requires Fits(a) && b != 0
    ensures Fits(Truncate(a, b)) <==> !(a == -TWO127 && b == -1)
  {
    var m, n := Abs(a), Abs(b);
    assert m == m / n * n + m % n;
    QuotientBetween(m, m / n, n, m % n);
    if n > 1 {
      Grows(m / n, n);
      Scaled(2, n, m / n);
      assert 2 * (m / n) <= n * (m / n) <= m;
    } else {
      assert m / n == m;
    }
  }

  lemma NotZero(x: int, p: nat)
    requires p > 0
    ensures x * p == 0 <==> x == 0
  {
    Grows(x, p);
  }

  lemma ArithUnfolds(op: Op, a: Exact, b: Exact)
    ensures var t := Finer(a, b);
      var x, y := At(a, t), At(b, t);
      CheckedArith(op, a, b) ==
        if !BothLift(a, b) then Float
        else
          match op
          case Add => FromChecked(Checked(x + y), t)
          case Sub => FromChecked(Checked(x - y), t)
          case Mul => if !Fits(x * y) || t > 38 then Float else FromChecked(CheckedDiv(x * y, Pow10(t)), t)
          case Div =>
            if y == 0 then Float else if t > 38 then Nothing
            else if !Fits(x * Pow10(t)) then Float else FromChecked(CheckedDiv(x * Pow10(t), y), t)
  {
    Lifts(a, Finer(a, b));
    Lifts(b, Finer(a, b));
    PowFits(Finer(a, b));
    hide Pow10, Truncate, Lift;
  }

  /** Every operation's outcome is decided by the units and scales of its operands. */
  lemma ArithAnswers(op: Op, a: Exact, b: Exact)
    ensures CheckedArith(op, a, b).Exactly? <==> HasExact(op, a, b)
    ensures CheckedArith(op, a, b).Nothing? <==> GivesUp(op, a, b)
  {
    var t := Finer(a, b);
    var x, y := At(a, t), At(b, t);
    ArithUnfolds(op, a, b);
    NotZero(b.units, Pow10(t - b.scale));
    hide Pow10, Truncate, CheckedArith;
    match op {
      case Mul => if Fits(x * y) { QuotientFits(x * y, Pow10(t)); }
      case Div => if y != 0 && Fits(x * Pow10(t)) { QuotientFits(x * Pow10(t), y); }
      case _ =>
    }
  }

  /**
   * Where the answer is exact: a sum or difference is the sum or difference of the
   * fractions, and a product or quotient is within one unit of the last place, towards zero.
   */
  lemma ArithIsRational(op: Op, a: Exact, b: Exact)
    requires CheckedArith(op, a, b).Exactly?
    ensures var t := Finer(a, b);
      var r, x, y := CheckedArith(op, a, b).value, At(a, t), At(b, t);
      && r.scale == t
      && SameFraction(a.units, a.scale, x, t) && SameFraction(b.units, b.scale, y, t)
      && match op
         case Add => r.units == x + y
         case Sub => r.units == x - y
         case Mul => Abs(x * y - r.units * Pow10(t)) < Pow10(t)
         case Div => y != 0 && Abs(x * Pow10(t) - r.units * y) < Abs(y)
  {
    var t := Finer(a, b);
    Lifted(a, t);
    Lifted(b, t);
    ArithUnfolds(op, a, b);
    hide Pow10, SameFraction, Truncate, CheckedArith;
    match op
    case Mul => TruncateNear(At(a, t) * At(b, t), Pow10(t));
    case Div => if At(b, t) != 0 { TruncateNear(At(a, t) * Pow10(t), At(b, t)); }
    case _ =>
  }

  /** Past 38 places multiplying falls back to floats where dividing answers nothing. */
  lemma PastThirtyEight(a: Exact, b: Exact)
    requires BothLift(a, b) && b.units != 0 && Finer(a, b) > 38
    ensures CheckedArith(Mul, a, b) == Float && CheckedArith(Div, a, b) == Nothing
  {
    ArithAnswers(Mul, a, b);
    ArithAnswers(Div, a, b);
    hide CheckedArith;
  }
}
