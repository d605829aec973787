/** Binary floating-point numbers, the decimals that round to them, and the common scale of the digit loop. */
module RoundingInterval {
  import opened Arith

  /** base^e for any integer e. */
  function Power(base: nat, e: int): (r: real)
    requires base > 0
    ensures r > 0.0
  {
    if e >= 0 then Pow(base, e) as real else 1.0 / (Pow(base, -e) as real)
  }

  lemma PowerOfNat(base: nat, e: nat)
    requires base > 0
    ensures Power(base, e) == Pow(base, e) as real
  {
  }

  lemma PowerStep(base: nat, e: int)
    requires base > 0
    ensures Power(base, e + 1) == base as real * Power(base, e)
  {
    if e >= 0 {
      RealOfProduct(base, Pow(base, e));
    } else {
      InverseStep(base, -e - 1, Pow(base, -e - 1) as real, Pow(base, -e) as real);
    }
  }

  lemma RealOfProduct(a: nat, b: nat)
    ensures (a * b) as real == a as real * b as real
  {
  }

  lemma InverseStep(base: nat, n: nat, x: real, y: real)
    requires base > 0 && x == Pow(base, n) as real && y == Pow(base, n + 1) as real
    ensures 1.0 / x == base as real * (1.0 / y)
  {
    RealOfProduct(base, Pow(base, n));
    var b := base as real;
    assert x > 0.0 && y == b * x;
    hide *;
    InverseCore(b, x, y);
  }

  lemma InverseCore(b: real, x: real, y: real)
    requires b > 0.0 && x > 0.0 && y == b * x
    ensures y > 0.0 && 1.0 / x == b * (1.0 / y)
  {
    assert b * (1.0 / y) * x == 1.0;
  }

  lemma {:induction false} PowerAdd(base: nat, e: int, n: nat)
    requires base > 0
    ensures Power(base, e + n) == Power(base, e) * Power(base, n)
  {
    hide Power;
    if n == 0 {
      PowerOfNat(base, 0);
      assert Pow(base, 0) == 1;
    } else {
      PowerAdd(base, e, n - 1);
      PowerStep(base, e + n - 1);
      PowerStep(base, n - 1);
      RealSwap(base as real, Power(base, e), Power(base, n - 1));
    }
  }

  lemma RealSwap(a: real, b: real, c: real)
    ensures a * (b * c) == b * (a * c)
  {
  }

  // ---------------------------------------------------------------- the rounding interval

  /** A finite positive binary number m * 2^exp with a precision of p bits. */
  datatype Float = Float(m: nat, exp: int, p: nat)

  ghost predicate Finite(f: Float) { f.p > 1 && 0 < f.m < Pow2(f.p) }

  /** A power of two: mantissa field zero under a nonzero exponent field. */
  predicate PowerOfTwo(f: Float)
    requires f.p > 1
  {
    f.m == Pow2(f.p - 1)
  }

  ghost function Exact(f: Float): real { f.m as real * Power(2, f.exp) }

  /** Half the distance to the next number up, and to the next number down. */
  ghost function HighGap(f: Float): real { Power(2, f.exp - 1) }

  ghost function LowGap(f: Float): real
    requires f.p > 1
  {
    Power(2, if PowerOfTwo(f) then f.exp - 2 else f.exp - 1)
  }

  /** A bound of the interval: included exactly for an even mantissa. */
  ghost predicate Bound(even: bool, a: real, b: real) { if even then a <= b else a < b }

  ghost predicate RoundsTo(f: Float, y: real)
    requires f.p > 1
  {
    Bound(f.m % 2 == 0, Exact(f) - LowGap(f), y) && Bound(f.m % 2 == 0, y, Exact(f) + HighGap(f))
  }

  /** The numbers next to f in its binary format. */
  ghost function Above(f: Float): real { (f.m + 1) as real * Power(2, f.exp) }

  ghost function Under(f: Float): real
    requires Finite(f)
  {
    if PowerOfTwo(f) then (2 * f.m - 1) as real * Power(2, f.exp - 1) else (f.m - 1) as real * Power(2, f.exp)
  }

  function Gap(a: real, b: real): real { if a <= b then b - a else a - b }

  /** y is nearer to f than to g, or as near and f's mantissa is even. */
  ghost predicate Prefers(f: Float, y: real, g: real) {
    Gap(y, Exact(f)) < Gap(y, g) || (Gap(y, Exact(f)) == Gap(y, g) && f.m % 2 == 0)
  }

  lemma Units(f: Float)
    ensures Power(2, f.exp) == 2.0 * HighGap(f) && HighGap(f) == 2.0 * Power(2, f.exp - 2)
  {
    PowerStep(2, f.exp - 1);
    PowerStep(2, f.exp - 2);
  }

  lemma UnitCore(m: nat, u: real, h: real)
    requires m > 0 && u == 2.0 * h
    ensures (m + 1) as real * u == m as real * u + 2.0 * h && (m - 1) as real * u == m as real * u - 2.0 * h
    ensures (2 * m - 1) as real * h == m as real * u - h
  {
    DoubledUnit(m as real, h);
  }

  lemma DoubledUnit(m: real, h: real)
    ensures m * (2.0 * h) == 2.0 * (m * h) && (2.0 * m) * h == 2.0 * (m * h)
  {
  }

  /** Each gap is half the way to the neighbour. */
  lemma Neighbours(f: Float)
    requires Finite(f)
    ensures Above(f) == Exact(f) + 2.0 * HighGap(f) && Under(f) == Exact(f) - 2.0 * LowGap(f)
    ensures PowerOfTwo(f) ==> (f.m - 1) as real * Power(2, f.exp) == Exact(f) - 4.0 * LowGap(f)
  {
    hide Power, Pow2;
    Units(f);
    UnitCore(f.m, Power(2, f.exp), Power(2, f.exp - 1));
  }

  /** The interval is the one of roundTiesToEven: exactly the reals that prefer f to both of its neighbours. */
  lemma IntervalIsNearest(f: Float, y: real)
    requires Finite(f)
    ensures Under(f) < Exact(f) < Above(f)
    ensures RoundsTo(f, y) <==> Prefers(f, y, Under(f)) && Prefers(f, y, Above(f))
  {
    Neighbours(f);
    hide Exact, Above, Under, LowGap, HighGap;
  }

  /** With the mantissa field zero and the lowest exponent the neighbour below is a whole unit away; the interval used
    * is then the inner part of the true one. */
  lemma LowestNormalInside(f: Float, y: real)
    requires Finite(f) && PowerOfTwo(f) && RoundsTo(f, y)
    ensures Prefers(f, y, (f.m - 1) as real * Power(2, f.exp)) && Prefers(f, y, Above(f))
  {
    Neighbours(f);
    hide Exact, Above, Under, LowGap, HighGap, Power;
  }
}
