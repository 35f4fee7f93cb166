/**
 * Java's `BigDecimal` as the pantheon libraries use it: an unscaled integer and
 * a scale, denoting unscaled × 10^(−scale).  Addition aligns to the larger
 * scale, multiplication adds scales, comparison is by numeric value while
 * `equals` is structural, and `divide(divisor, scale, ROUND_HALF_EVEN)`
 * rounds to the nearest multiple of 10^(−scale), ties to the even neighbour.
 *
 * Values are compared through `Units(d, s)`: the number `d` counted in units
 * of 10^(−s), for any scale `s` at least `d`'s own.  Two decimals denote the
 * same number exactly when they count the same units at a common scale.
 */
module Decimals {
  import opened Wrappers
  import opened Digits

  datatype Decimal = Decimal(unscaled: int, scale: int)

  /** The Java `Number` subclasses a numeric range rule can step through. */
  datatype NumberType = IntegerType | LongType | BigIntegerType | BigDecimalType

  const Zero: Decimal := Decimal(0, 0)

  function Abs(x: int): (r: int)
    ensures r >= 0
  {
    if x < 0 then -x else x
  }

  /** `d` counted in units of 10^(−s). */
  function Units(d: Decimal, s: int): int
    requires d.scale <= s
  {
    d.unscaled * Pow10(s - d.scale)
  }

  lemma {:induction false} Pow10Add(a: nat, b: nat)
    ensures Pow10(a + b) == Pow10(a) * Pow10(b)
    decreases a
  {
    if a > 0 {
      Pow10Add(a - 1, b);
    }
  }

  /** Counting at a finer scale multiplies the count by the power of ten in between. */
  lemma UnitsShift(d: Decimal, s: int, t: int)
    requires d.scale <= s <= t
    ensures Units(d, t) == Units(d, s) * Pow10(t - s)
  {
    Pow10Add(s - d.scale, t - s);
  }

  lemma ScaleEquality(x: int, y: int, f: int)
    requires f > 0
    ensures x == y <==> x * f == y * f
    ensures x < y <==> x * f < y * f
  {
    if x < y {
      assert y * f - x * f == (y - x) * f;
    } else if y < x {
      assert x * f - y * f == (x - y) * f;
    }
  }

  /** Numeric equality, `compareTo(...) == 0`, as opposed to structural `equals`. */
  predicate SameValue(a: Decimal, b: Decimal) {
    var s := Max(a.scale, b.scale);
    Units(a, s) == Units(b, s)
  }

  /** Numeric equality does not depend on the common scale it is checked at. */
  lemma SameValueAt(a: Decimal, b: Decimal, t: int)
    requires Max(a.scale, b.scale) <= t
    ensures SameValue(a, b) <==> Units(a, t) == Units(b, t)
  {
    var s := Max(a.scale, b.scale);
    UnitsShift(a, s, t);
    UnitsShift(b, s, t);
    ScaleEquality(Units(a, s), Units(b, s), Pow10(t - s));
  }

  lemma SameValueTransitive(a: Decimal, b: Decimal, c: Decimal)
    requires SameValue(a, b) && SameValue(b, c)
    ensures SameValue(a, c)
  {
    var t := Max(Max(a.scale, b.scale), c.scale);
    SameValueAt(a, b, t);
    SameValueAt(b, c, t);
    SameValueAt(a, c, t);
  }

  /** `BigDecimal.add`: exact, at the larger of the two scales. */
  function Add(a: Decimal, b: Decimal): (r: Decimal)
    ensures r.scale == Max(a.scale, b.scale)
    ensures forall t :: r.scale <= t ==> Units(r, t) == Units(a, t) + Units(b, t)
  {
    var s := Max(a.scale, b.scale);
    var r := Decimal(Units(a, s) + Units(b, s), s);
    AddUnits(a, b, r);
    r
  }

  lemma AddUnits(a: Decimal, b: Decimal, r: Decimal)
    requires r.scale == Max(a.scale, b.scale)
    requires r.unscaled == Units(a, r.scale) + Units(b, r.scale)
    ensures forall t :: r.scale <= t ==> Units(r, t) == Units(a, t) + Units(b, t)
  {
    forall t | r.scale <= t
      ensures Units(r, t) == Units(a, t) + Units(b, t)
    {
      var s := r.scale;
      UnitsShift(a, s, t);
      UnitsShift(b, s, t);
      assert Units(r, t) == (Units(a, s) + Units(b, s)) * Pow10(t - s);
    }
  }

  /** `BigDecimal.negate`: same scale, opposite value. */
  function Negate(a: Decimal): (r: Decimal)
    ensures r.scale == a.scale
    ensures forall t :: a.scale <= t ==> Units(r, t) == -Units(a, t)
  {
    Decimal(-a.unscaled, a.scale)
  }

  /** `BigDecimal.subtract`: exact, at the larger of the two scales. */
  function Subtract(a: Decimal, b: Decimal): (r: Decimal)
    ensures r.scale == Max(a.scale, b.scale)
    ensures forall t :: r.scale <= t ==> Units(r, t) == Units(a, t) - Units(b, t)
  {
    var s := Max(a.scale, b.scale);
    var r := Decimal(Units(a, s) - Units(b, s), s);
    AddUnits(a, Negate(b), r);
    r
  }

  /** `BigDecimal.multiply`: exact, the scales add. */
  function Multiply(a: Decimal, b: Decimal): (r: Decimal)
    ensures r.scale == a.scale + b.scale
    ensures forall s, t :: a.scale <= s && b.scale <= t ==> Units(r, s + t) == Units(a, s) * Units(b, t)
  {
    var r := Decimal(a.unscaled * b.unscaled, a.scale + b.scale);
    MultiplyUnits(a, b, r);
    r
  }

  lemma MultiplyUnits(a: Decimal, b: Decimal, r: Decimal)
    requires r == Decimal(a.unscaled * b.unscaled, a.scale + b.scale)
    ensures forall s, t :: a.scale <= s && b.scale <= t ==> Units(r, s + t) == Units(a, s) * Units(b, t)
  {
    forall s, t | a.scale <= s && b.scale <= t
      ensures Units(r, s + t) == Units(a, s) * Units(b, t)
    {
      Pow10Add(s - a.scale, t - b.scale);
    }
  }

  /** `BigDecimal.compareTo`: the order of the two values at any common scale. */
  function Compare(a: Decimal, b: Decimal): (c: int)
    ensures c == -1 || c == 0 || c == 1
    ensures forall t :: Max(a.scale, b.scale) <= t ==> c == Sign(Units(a, t) - Units(b, t))
    ensures c == 0 <==> SameValue(a, b)
  {
    var s := Max(a.scale, b.scale);
    CompareAt(a, b);
    Sign(Units(a, s) - Units(b, s))
  }

  lemma CompareAt(a: Decimal, b: Decimal)
    ensures forall t :: Max(a.scale, b.scale) <= t ==>
      Sign(Units(a, Max(a.scale, b.scale)) - Units(b, Max(a.scale, b.scale))) == Sign(Units(a, t) - Units(b, t))
  {
    var s := Max(a.scale, b.scale);
    forall t | s <= t
      ensures Sign(Units(a, s) - Units(b, s)) == Sign(Units(a, t) - Units(b, t))
    {
      UnitsShift(a, s, t);
      UnitsShift(b, s, t);
      ScaleEquality(Units(a, s), Units(b, s), Pow10(t - s));
    }
  }

  predicate IsZero(a: Decimal) {
    a.unscaled == 0
  }

  lemma IsZeroSameValue(a: Decimal)
    ensures IsZero(a) <==> SameValue(a, Zero)
  {
    if a.scale < 0 {
      ScaleEquality(a.unscaled, 0, Pow10(-a.scale));
    }
  }

  /** `add` does not depend on the order of its operands. */
  lemma AddCommutative(a: Decimal, b: Decimal)
    ensures Add(a, b) == Add(b, a)
  {
  }

  /** `add` does not depend on how a sum is bracketed, down to the scale. */
  lemma AddAssociative(a: Decimal, b: Decimal, c: Decimal)
    ensures Add(Add(a, b), c) == Add(a, Add(b, c))
  {
    var s := Max(Max(a.scale, b.scale), c.scale);
    var l, r := Add(Add(a, b), c), Add(a, Add(b, c));
    assert l.scale == s == r.scale;
    assert Units(l, s) == Units(a, s) + Units(b, s) + Units(c, s) == Units(r, s);
  }

  /** The normal form of `stripTrailingZeros`: zero is `0` at scale 0, anything else ends in a non-zero digit. */
  predicate Stripped(d: Decimal) {
    if d.unscaled == 0 then d.scale == 0 else d.unscaled % 10 != 0
  }

  /** `BigDecimal.stripTrailingZeros`, with zero stripped to scale 0. */
  function StripTrailingZeros(d: Decimal): (r: Decimal)
    ensures Stripped(r)
    ensures SameValue(r, d)
    ensures Sign(r.unscaled) == Sign(d.unscaled)
    ensures d.unscaled != 0 ==> r.scale <= d.scale
    decreases Abs(d.unscaled)
  {
    if d.unscaled == 0 then
      IsZeroSameValue(d);
      Zero
    else if d.unscaled % 10 == 0 then
      var shorter := Decimal(d.unscaled / 10, d.scale - 1);
      assert Units(shorter, d.scale) == d.unscaled;
      var r := StripTrailingZeros(shorter);
      SameValueTransitive(r, shorter, d);
      r
    else
      d
  }

  lemma TimesTenMod(y: int)
    ensures (y * 10) % 10 == 0
  {
  }

  /** Two stripped decimals with the same value are identical. */
  lemma StrippedUnique(x: Decimal, y: Decimal)
    requires Stripped(x) && Stripped(y)
    requires SameValue(x, y)
    ensures x == y
  {
    if x.scale <= y.scale {
      StrippedUniqueOrdered(x, y);
    } else {
      StrippedUniqueOrdered(y, x);
    }
  }

  lemma StrippedUniqueOrdered(x: Decimal, y: Decimal)
    requires Stripped(x) && Stripped(y) && x.scale <= y.scale
    requires Units(x, y.scale) == y.unscaled
    ensures x == y
  {
    var k := y.scale - x.scale;
    if k > 0 {
      assert y.unscaled == (x.unscaled * Pow10(k - 1)) * 10;
      TimesTenMod(x.unscaled * Pow10(k - 1));
    }
  }

  lemma SameValueSymmetric(a: Decimal, b: Decimal)
    ensures SameValue(a, b) <==> SameValue(b, a)
  {
  }

  /** Stripping is a canonical form: two decimals strip alike exactly when their values agree. */
  lemma StripCanonical(a: Decimal, b: Decimal)
    ensures StripTrailingZeros(a) == StripTrailingZeros(b) <==> SameValue(a, b)
  {
    var sa, sb := StripTrailingZeros(a), StripTrailingZeros(b);
    SameValueSymmetric(sa, a);
    SameValueSymmetric(sb, b);
    if SameValue(a, b) {
      SameValueTransitive(sa, a, b);
      SameValueTransitive(sa, b, sb);
      StrippedUnique(sa, sb);
    } else if sa == sb {
      SameValueTransitive(a, sa, b);
    }
  }

  /** Whether `d` can be written at scale `s` without losing a digit. */
  predicate Representable(d: Decimal, s: int) {
    d.scale <= s || d.unscaled % Pow10(d.scale - s) == 0
  }

  /** `BigDecimal.setScale(s)` without a rounding mode: exact, or `ArithmeticException`. */
  function SetScale(d: Decimal, s: int): (r: Result<Decimal, Failure>)
    ensures r.Ok? <==> Representable(d, s)
    ensures r.Ok? ==> r.value.scale == s && SameValue(r.value, d)
  {
    if d.scale <= s then
      Ok(Decimal(Units(d, s), s))
    else if d.unscaled % Pow10(d.scale - s) == 0 then
      var q := d.unscaled / Pow10(d.scale - s);
      assert Units(Decimal(q, s), d.scale) == d.unscaled;
      Ok(Decimal(q, s))
    else
      Err(Arithmetic("Rounding necessary"))
  }

  /** When `setScale` fails, no decimal at that scale has the value. */
  lemma SetScaleFailsOnlyWhenInexact(d: Decimal, s: int, v: int)
    requires SetScale(d, s).Err?
    ensures !SameValue(Decimal(v, s), d)
  {
    var k := d.scale - s;
    if SameValue(Decimal(v, s), d) {
      MultipleMod(v, Pow10(k));
    }
  }

  lemma MultipleMod(v: int, p: int)
    requires p > 0
    ensures (v * p) % p == 0
  {
    var q, r := (v * p) / p, (v * p) % p;
    assert (v - q) * p == r;
    ScaleEquality(v - q, 1, p);
    ScaleEquality(-1, v - q, p);
  }

  /** Whether `q` is `n / d` rounded to an integer, half-way cases to the even neighbour. */
  predicate HalfEvenQuotient(n: int, d: int, q: int) {
    var e := n - q * d;
    -Abs(d) <= 2 * e <= Abs(d) && (2 * e == Abs(d) || 2 * e == -Abs(d) ==> q % 2 == 0)
  }

  /** Integer division rounded to the nearest integer, ties to the even one. */
  function RoundHalfEven(n: int, d: int): (q: int)
    requires d != 0
    ensures HalfEvenQuotient(n, d, q)
    decreases if d < 0 then 1 else 0
  {
    if d < 0 then
      var q := RoundHalfEven(-n, -d);
      HalfEvenNegated(n, d, q);
      q
    else
      var q, r := n / d, n % d;
      HalfEvenOfRemainder(n, d, q, r);
      if 2 * r < d then q
      else if 2 * r > d then q + 1
      else if q % 2 == 0 then q
      else q + 1
  }

  /** Negating numerator and denominator keeps the half-even quotient. */
  lemma HalfEvenNegated(n: int, d: int, q: int)
    requires HalfEvenQuotient(-n, -d, q)
    ensures HalfEvenQuotient(n, d, q)
  {
    assert -n - q * -d == -(n - q * d);
  }

  /** With remainder `r` below `d`, the half-even quotient is `q` or `q + 1` by comparing `2r` with `d`. */
  lemma HalfEvenOfRemainder(n: int, d: int, q: int, r: int)
    requires d > 0 && n == q * d + r && 0 <= r < d
    ensures 2 * r < d ==> HalfEvenQuotient(n, d, q)
    ensures 2 * r > d ==> HalfEvenQuotient(n, d, q + 1)
    ensures 2 * r == d ==> HalfEvenQuotient(n, d, if q % 2 == 0 then q else q + 1)
  {
    assert n - q * d == r;
    assert n - (q + 1) * d == r - d by {
      assert (q + 1) * d == q * d + d;
    }
  }

  /** There is only one half-even quotient: `RoundHalfEven` is that function. */
  lemma HalfEvenQuotientUnique(n: int, d: int, q1: int, q2: int)
    requires d != 0
    requires HalfEvenQuotient(n, d, q1) && HalfEvenQuotient(n, d, q2)
    ensures q1 == q2
  {
    var k := q2 - q1;
    assert (n - q1 * d) - (n - q2 * d) == k * d;
    MulAbs(k, d);
    SmallFactor(Abs(k), Abs(d));
  }

  lemma MulAbs(x: int, y: int)
    ensures Abs(x * y) == Abs(x) * Abs(y)
  {
  }

  lemma SmallFactor(k: int, d: int)
    requires k >= 0 && d > 0 && k * d <= d
    ensures k <= 1
  {
    ScaleEquality(1, k, d);
  }

  /** Scaling numerator and denominator by the same positive factor keeps the rounded quotient. */
  lemma HalfEvenQuotientScaled(n: int, d: int, q: int, f: int)
    requires f > 0 && HalfEvenQuotient(n, d, q)
    ensures HalfEvenQuotient(n * f, d * f, q)
  {
    var e, a := n - q * d, Abs(d);
    ErrorScaled(e, a, q, f);
    assert n * f - q * (d * f) == e * f;
    MulAbs(d, f);
  }

  /** The rounding error bound of a half-even quotient survives scaling error and divisor by `f`. */
  lemma ErrorScaled(e: int, a: int, q: int, f: int)
    requires f > 0
    requires -a <= 2 * e <= a && (2 * e == a || 2 * e == -a ==> q % 2 == 0)
    ensures -(a * f) <= 2 * (e * f) <= a * f && (2 * (e * f) == a * f || 2 * (e * f) == -(a * f) ==> q % 2 == 0)
  {
    assert 2 * (e * f) == (2 * e) * f;
    assert (-a) * f == -(a * f);
    ScaleEquality(2 * e, a, f);
    ScaleEquality(-a, 2 * e, f);
  }

  /** Two ways of splitting the same power of ten give the same product. */
  lemma {:induction false} ShiftMul(u: int, a: nat, b: nat, c: nat, g: nat)
    requires a + b == c + g
    ensures (u * Pow10(a)) * Pow10(b) == (u * Pow10(c)) * Pow10(g)
  {
    Pow10Add(a, b);
    Pow10Add(c, g);
    var pa, pb, pc, pg := Pow10(a), Pow10(b), Pow10(c), Pow10(g);
    assert pa * pb == pc * pg;
    MulAssociative(u, pa, pb);
    MulAssociative(u, pc, pg);
  }

  lemma MulAssociative(x: int, y: int, z: int)
    ensures (x * y) * z == x * (y * z)
  {
  }

  function Positive(x: int): nat {
    if x > 0 then x else 0
  }

  /**
   * `a.divide(b, scale, ROUND_HALF_EVEN)`: the quotient rounded to `scale`
   * fraction digits, or `ArithmeticException` when `b` is zero.  Counted at a
   * common scale `t`, the result is `Units(a, t) × 10^scale / Units(b, t)`
   * rounded half-even.
   */
  function DivideToScale(a: Decimal, b: Decimal, scale: int): (r: Result<Decimal, Failure>)
    ensures r.Err? <==> IsZero(b)
    ensures r.Ok? ==> r.value.scale == scale
    ensures r.Ok? ==>
      var t := Max(a.scale, b.scale);
      HalfEvenQuotient(Units(a, t) * Pow10(Positive(scale)), Units(b, t) * Pow10(Positive(-scale)), r.value.unscaled)
  {
    if b.unscaled == 0 then
      Err(Arithmetic(if a.unscaled == 0 then "Division undefined" else "Division by zero"))
    else
      var e := scale + b.scale - a.scale;
      var n, d := a.unscaled * Pow10(Positive(e)), b.unscaled * Pow10(Positive(-e));
      var q := RoundHalfEven(n, d);
      DivisionScaling(a, b, scale, q);
      Ok(Decimal(q, scale))
  }

  lemma DivisionScaling(a: Decimal, b: Decimal, scale: int, q: int)
    requires b.unscaled != 0
    requires
      var e := scale + b.scale - a.scale;
      HalfEvenQuotient(a.unscaled * Pow10(Positive(e)), b.unscaled * Pow10(Positive(-e)), q)
    ensures
      var t := Max(a.scale, b.scale);
      HalfEvenQuotient(Units(a, t) * Pow10(Positive(scale)), Units(b, t) * Pow10(Positive(-scale)), q)
  {
    var e := scale + b.scale - a.scale;
    var t := Max(a.scale, b.scale);
    var g: nat := t - a.scale + Positive(scale) - Positive(e);
    assert t - b.scale + Positive(-scale) == Positive(-e) + g;
    ShiftMul(a.unscaled, t - a.scale, Positive(scale), Positive(e), g);
    ShiftMul(b.unscaled, t - b.scale, Positive(-scale), Positive(-e), g);
    HalfEvenQuotientScaled(a.unscaled * Pow10(Positive(e)), b.unscaled * Pow10(Positive(-e)), q, Pow10(g));
  }

  /** A division that comes out exactly is not rounded: the quotient itself is returned. */
  lemma ExactDivision(a: Decimal, b: Decimal, q: Decimal)
    requires !IsZero(b) && q.scale >= 0
    requires SameValue(a, Multiply(q, b))
    ensures DivideToScale(a, b, q.scale) == Ok(q)
  {
    var t := Max(a.scale, b.scale);
    var n, d := Units(a, t) * Pow10(q.scale), Units(b, t);
    ExactNumerator(a, b, q, t);
    assert HalfEvenQuotient(n, d, q.unscaled);
    var r := DivideToScale(a, b, q.scale);
    assert Positive(q.scale) == q.scale && Positive(-q.scale) == 0;
    assert HalfEvenQuotient(n, d * Pow10(0), r.value.unscaled);
    HalfEvenQuotientUnique(n, d, q.unscaled, r.value.unscaled);
  }

  /** The scaled dividend of an exact division is the quotient's digits times the divisor. */
  lemma ExactNumerator(a: Decimal, b: Decimal, q: Decimal, t: int)
    requires q.scale >= 0 && t == Max(a.scale, b.scale)
    requires SameValue(a, Multiply(q, b))
    ensures Units(a, t) * Pow10(q.scale) == q.unscaled * Units(b, t)
  {
    var m := Multiply(q, b);
    SameValueAt(a, m, t + q.scale);
    UnitsShift(a, t, t + q.scale);
    MultipliedUnits(q, b, t);
  }

  lemma MultipliedUnits(q: Decimal, b: Decimal, t: int)
    requires b.scale <= t
    ensures Units(Multiply(q, b), q.scale + t) == q.unscaled * Units(b, t)
  {
    assert Units(q, q.scale) == q.unscaled;
  }

  /** `d` divided by 10^k, exactly: the same digits with the point moved `k` places left. */
  function Scaled(d: Decimal, k: int): Decimal {
    Decimal(d.unscaled, d.scale + k)
  }

  /** Moving the point of two numbers alike keeps them equal or unequal. */
  lemma ScaledSameValue(a: Decimal, b: Decimal, k: int)
    ensures SameValue(Scaled(a, k), Scaled(b, k)) <==> SameValue(a, b)
  {
    var s := Max(a.scale, b.scale);
    assert Units(Scaled(a, k), s + k) == Units(a, s);
    assert Units(Scaled(b, k), s + k) == Units(b, s);
  }

  /**
   * `BigDecimal.movePointLeft(n)`: the value divided by 10^n, with the scale
   * raised by `n` but never left below zero.
   */
  function MovePointLeft(d: Decimal, n: int): (r: Decimal)
    ensures r.scale == Max(d.scale + n, 0)
    ensures SameValue(r, Scaled(d, n))
  {
    var moved := Scaled(d, n);
    if moved.scale < 0 then Decimal(Units(moved, 0), 0) else moved
  }

  /** `d` written at the finer scale `s`, with the same value. */
  function Rescaled(d: Decimal, s: int): (r: Decimal)
    requires d.scale <= s
    ensures r.scale == s && SameValue(r, d)
  {
    Decimal(Units(d, s), s)
  }

  /** Multiplying equal numbers by the same factor gives equal products. */
  lemma MultiplySameValue(a: Decimal, a2: Decimal, b: Decimal)
    requires SameValue(a, a2)
    ensures SameValue(Multiply(a, b), Multiply(a2, b))
  {
    var s := Max(a.scale, a2.scale);
    var l, r := Multiply(a, b), Multiply(a2, b);
    assert Units(l, s + b.scale) == Units(a, s) * Units(b, b.scale);
    assert Units(r, s + b.scale) == Units(a2, s) * Units(b, b.scale);
    SameValueAt(l, r, s + b.scale);
  }

  lemma MultiplyCommutative(a: Decimal, b: Decimal)
    ensures Multiply(a, b) == Multiply(b, a)
  {
  }

  /** Adding equal numbers to the same number gives equal sums. */
  lemma AddSameValue(a: Decimal, b: Decimal, b2: Decimal)
    requires SameValue(b, b2)
    ensures SameValue(Add(a, b), Add(a, b2))
  {
    var t := Max(Max(a.scale, b.scale), b2.scale);
    SameValueAt(b, b2, t);
    SameValueAt(Add(a, b), Add(a, b2), t);
  }

  /** Subtracting equal numbers from the same number gives equal differences. */
  lemma SubtractSameValue(a: Decimal, b: Decimal, b2: Decimal)
    requires SameValue(b, b2)
    ensures SameValue(Subtract(a, b), Subtract(a, b2))
  {
    var t := Max(Max(a.scale, b.scale), b2.scale);
    SameValueAt(b, b2, t);
    SameValueAt(Subtract(a, b), Subtract(a, b2), t);
  }

  /** `DivideToScale` is exactly the half-even quotient: any half-even quotient is its answer. */
  lemma DivideToScaleIs(a: Decimal, b: Decimal, scale: int, q: int)
    requires !IsZero(b)
    requires
      var t := Max(a.scale, b.scale);
      HalfEvenQuotient(Units(a, t) * Pow10(Positive(scale)), Units(b, t) * Pow10(Positive(-scale)), q)
    ensures DivideToScale(a, b, scale) == Ok(Decimal(q, scale))
  {
    var t := Max(a.scale, b.scale);
    var r := DivideToScale(a, b, scale);
    var d := Units(b, t) * Pow10(Positive(-scale));
    assert d != 0 by {
      ScaleEquality(b.unscaled, 0, Pow10(t - b.scale));
      ScaleEquality(Units(b, t), 0, Pow10(Positive(-scale)));
    }
    HalfEvenQuotientUnique(Units(a, t) * Pow10(Positive(scale)), d, q, r.value.unscaled);
  }
}
