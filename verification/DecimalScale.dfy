/** The exact integers the digit loop starts from, and what they say about the real number. */
module DecimalScale {
  import opened Arith
  import opened Limbs
  import opened RoundingInterval
  import opened DigitLoop

  /** What the power-of-ten estimate has to satisfy: 10^(k-1) < 2^(exp+p-1) <= 10^k. */
  ghost predicate Estimate(f: Float, k: int) { Brackets(f.exp + f.p - 1, k) }

  ghost predicate Brackets(n: int, k: int) { Power(10, k - 1) < Power(2, n) <= Power(10, k) }

  /** Every power of two lies in one interval of powers of ten: the estimate asked for exists. */
  lemma {:induction false} BracketExists(n: int) returns (k: int)
    ensures Brackets(n, k)
    decreases if n < 0 then -n else n
  {
    if n == 0 {
      k := 0;
      assert Power(10, -1) == 1.0 / 10.0 && Power(2, 0) == 1.0 && Power(10, 0) == 1.0 by {
        assert Pow(10, 0) == 1 && Pow(10, 1) == 10 && Pow(2, 0) == 1;
      }
    } else if n > 0 {
      k := BracketExists(n - 1);
      BracketSteps(n - 1, k);
      k := if Power(2, n) <= Power(10, k) then k else k + 1;
    } else {
      k := BracketExists(n + 1);
      BracketSteps(n, k - 1);
      k := if Power(10, k - 1) < Power(2, n) then k else k - 1;
    }
  }

  lemma BracketSteps(n: int, k: int)
    ensures Power(2, n + 1) == 2.0 * Power(2, n) && Power(10, k + 1) == 10.0 * Power(10, k)
    ensures Power(10, k) == 10.0 * Power(10, k - 1)
  {
    PowerStep(2, n);
    PowerStep(10, k);
    PowerStep(10, k - 1);
  }

  lemma BracketUnique(n: int, k: int, l: int)
    requires Brackets(n, k) && Brackets(n, l)
    ensures k == l
  {
    hide Power;
    if k < l { TensRise(k, l - 1); } else if l < k { TensRise(l, k - 1); }
  }

  lemma {:induction false} TensRise(i: int, j: int)
    requires i <= j
    ensures Power(10, i) <= Power(10, j)
    decreases j - i
  {
    if i < j {
      hide Power;
      TensRise(i, j - 1);
      PowerStep(10, j - 1);
      assert Power(10, j - 1) > 0.0;
    }
  }

  ghost function Decimal(j: nat, e: int): real { j as real * Power(10, e) }

  /** A product kept as a term. */
  ghost function By(a: real, b: real): real { a * b }

  function Extra(f: Float): nat
    requires f.p > 1
  {
    if PowerOfTwo(f) then 1 else 0
  }

  /** Powers of ten and of two that every term is multiplied by to become an integer. */
  function Tens(f: Float, k: int): nat { if f.exp < 0 && k < 0 then -k else 0 }

  function Twos(f: Float): nat
    requires f.p > 1
  {
    1 + Extra(f) + (if f.exp < 0 then -f.exp else 0)
  }

  function Scale(f: Float, k: int): Scaled
    requires f.p > 1 && (f.exp >= 0 ==> k >= 0)
  {
    var tens, low := Pow(10, Tens(f, k)), Pow2(f.exp + Twos(f) - 1 - Extra(f));
    Scaled(
      Times(Times(f.m, tens), Pow2(f.exp + Twos(f))),
      Times(Pow(10, k + Tens(f, k)), Pow2(Twos(f))),
      Times(tens, low),
      Times(Times(tens, low), Pow2(Extra(f))),
      f.m % 2 == 0)
  }

  ghost function Common(f: Float, k: int): (c: real)
    requires f.p > 1
    ensures c > 0.0
  {
    PositiveProduct(Power(10, Tens(f, k)), Power(2, Twos(f)));
    By(Power(10, Tens(f, k)), Power(2, Twos(f)))
  }

  lemma PositiveProduct(a: real, b: real)
    requires a > 0.0 && b > 0.0
    ensures By(a, b) > 0.0
  {
  }

  lemma TimesReal(a: nat, b: nat)
    ensures Times(a, b) as real == By(a as real, b as real)
  {
  }

  lemma PowerBy(base: nat, e: int, n: nat)
    requires base > 0
    ensures Power(base, e + n) == By(Power(base, e), Power(base, n))
  {
    PowerAdd(base, e, n);
  }

  lemma ValuesBy(f: Float, j: nat, e: int)
    ensures Exact(f) == By(f.m as real, Power(2, f.exp)) && Decimal(j, e) == By(j as real, Power(10, e))
  {
  }

  /** All four terms carry the same factor. */
  ghost predicate Matches(f: Float, k: int, s: Scaled, c: real)
    requires f.p > 1
  {
    && c > 0.0 && s.x as real == By(Exact(f), c) && s.den as real == By(Power(10, k), c)
    && s.low as real == By(LowGap(f), c) && s.high as real == By(HighGap(f), c) && s.even == (f.m % 2 == 0)
  }

  lemma ScaleMatches(f: Float, k: int)
    requires f.p > 1 && (f.exp >= 0 ==> k >= 0)
    ensures Matches(f, k, Scale(f, k), Common(f, k))
  {
    ScaledValue(f, k);
    ScaledTen(f, k);
    ScaledGaps(f, k);
  }

  lemma ScaledValue(f: Float, k: int)
    requires f.p > 1 && (f.exp >= 0 ==> k >= 0)
    ensures Scale(f, k).x as real == By(Exact(f), Common(f, k))
  {
    hide Power, Pow, Pow2, Times, By, Exact;
    var a, b := Tens(f, k), Twos(f);
    PowerOfNat(10, a);
    PowerOfNat(2, f.exp + b);
    PowTwo(f.exp + b);
    PowerBy(2, f.exp, b);
    TimesReal(f.m, Pow(10, a));
    TimesReal(Times(f.m, Pow(10, a)), Pow2(f.exp + b));
    ValuesBy(f, 0, 0);
    FourFactors(f.m as real, Power(10, a), Power(2, f.exp), Power(2, b));
  }

  lemma PowTwo(e: nat)
    ensures Pow2(e) == Pow(2, e)
  {
  }

  lemma FourFactors(m: real, a: real, e: real, b: real)
    ensures By(By(m, a), By(e, b)) == By(By(m, e), By(a, b))
  {
  }

  lemma ScaledTen(f: Float, k: int)
    requires f.p > 1 && (f.exp >= 0 ==> k >= 0)
    ensures Scale(f, k).den as real == By(Power(10, k), Common(f, k))
  {
    hide Power, Pow, Pow2, Times, By, Exact;
    var a, b := Tens(f, k), Twos(f);
    PowerOfNat(10, k + a);
    PowerOfNat(2, b);
    PowTwo(b);
    PowerBy(10, k, a);
    TimesReal(Pow(10, k + a), Pow2(b));
    ThreeFactors(Power(10, k), Power(10, a), Power(2, b));
  }

  lemma ThreeFactors(a: real, b: real, c: real)
    ensures By(By(a, b), c) == By(a, By(b, c))
  {
  }

  lemma ScaledGaps(f: Float, k: int)
    requires f.p > 1 && (f.exp >= 0 ==> k >= 0)
    ensures Scale(f, k).low as real == By(LowGap(f), Common(f, k)) && Scale(f, k).high as real == By(HighGap(f), Common(f, k))
  {
    hide Power, Pow, Pow2, Times, By, Exact;
    var a, b, x := Tens(f, k), Twos(f), Extra(f);
    var l := f.exp - 1 - x;
    PowerOfNat(10, a);
    PowerOfNat(2, l + b);
    PowTwo(l + b);
    PowerOfNat(2, x);
    PowTwo(x);
    PowerBy(2, l, b);
    PowerBy(2, l, x);
    TimesReal(Pow(10, a), Pow2(l + b));
    TimesReal(Times(Pow(10, a), Pow2(l + b)), Pow2(x));
    GapFactors(Power(10, a), Power(2, l), Power(2, b), Power(2, x));
  }

  lemma GapFactors(a: real, l: real, b: real, x: real)
    ensures By(a, By(l, b)) == By(l, By(a, b)) && By(By(a, By(l, b)), x) == By(By(l, x), By(a, b))
  {
  }

  // ---------------------------------------------------------------- the interval in integers

  ghost function Unit(f: Float, k: int, t: nat): (u: real)
    requires f.p > 1
    ensures u > 0.0
  {
    PositiveProduct(Pow(10, t) as real, Common(f, k));
    By(Pow(10, t) as real, Common(f, k))
  }

  lemma TermScaled(f: Float, k: int, t: nat, n: nat, r: real)
    requires f.p > 1 && n as real == By(r, Common(f, k))
    ensures Times(Pow(10, t), n) as real == By(r, Unit(f, k, t))
  {
    hide Power, Pow, Times, Common, By;
    TimesReal(Pow(10, t), n);
    BySwap(Pow(10, t) as real, r, Common(f, k));
  }

  lemma BySwap(a: real, b: real, c: real)
    ensures By(a, By(b, c)) == By(b, By(a, c))
  {
  }

  lemma DecimalScaled(f: Float, k: int, t: nat, j: nat)
    requires f.p > 1 && (f.exp >= 0 ==> k >= 0)
    ensures Times(j, Scale(f, k).den) as real == By(Decimal(j, k - t), Unit(f, k, t))
  {
    ScaledTen(f, k);
    hide Power, Pow, Times, Common, By, Scale, Decimal;
    PowerOfNat(10, t);
    PowerBy(10, k - t, t);
    TimesReal(j, Scale(f, k).den);
    ValuesBy(f, j, k - t);
    DecimalFactors(j as real, Power(10, k - t), Power(10, t), Common(f, k));
  }

  lemma DecimalFactors(j: real, e: real, t: real, c: real)
    ensures By(j, By(By(e, t), c)) == By(By(j, e), By(t, c))
  {
  }

  lemma RealScale(a: real, b: real, u: real)
    requires u > 0.0
    ensures a <= b <==> By(a, u) <= By(b, u)
    ensures a < b <==> By(a, u) < By(b, u)
  {
  }

  lemma RealSum(a: real, b: real, u: real)
    ensures By(a, u) + By(b, u) == By(a + b, u) && By(a, u) - By(b, u) == By(a - b, u)
  {
  }

  lemma InsideCore(tx: nat, jd: nat, tl: nat, th: nat, x: real, y: real, l: real, h: real, u: real)
    requires u > 0.0 && tx as real == By(x, u) && jd as real == By(y, u) && tl as real == By(l, u) && th as real == By(h, u)
    ensures tx <= jd + tl <==> x - l <= y
    ensures tx < jd + tl <==> x - l < y
    ensures jd <= tx + th <==> y <= x + h
    ensures jd < tx + th <==> y < x + h
  {
    hide By;
    RealSum(y, l, u);
    RealSum(x, h, u);
    RealScale(x, y + l, u);
    RealScale(y, x + h, u);
  }

  /** Being inside the scaled interval is rounding to f. */
  lemma InsideIsRounding(f: Float, k: int, t: nat, j: nat)
    requires f.p > 1 && (f.exp >= 0 ==> k >= 0)
    ensures Inside(Scale(f, k), Pow(10, t), j) <==> RoundsTo(f, Decimal(j, k - t))
  {
    ScaleMatches(f, k);
    hide Power, Pow, Times, Common, Unit, By, Decimal, Scale, LowGap, HighGap, Exact;
    var s, u, y, T := Scale(f, k), Unit(f, k, t), Decimal(j, k - t), Pow(10, t);
    TermScaled(f, k, t, s.x, Exact(f));
    TermScaled(f, k, t, s.low, LowGap(f));
    TermScaled(f, k, t, s.high, HighGap(f));
    DecimalScaled(f, k, t, j);
    InsideCore(Times(T, s.x), Times(j, s.den), Times(T, s.low), Times(T, s.high), Exact(f), y, LowGap(f), HighGap(f), u);
  }

  lemma GapCore(a: nat, b: nat, x: real, y: real, u: real)
    requires u > 0.0 && a as real == By(x, u) && b as real == By(y, u)
    ensures a <= b <==> x <= y
    ensures (a - b) as real == By(x - y, u) && (b - a) as real == By(y - x, u)
  {
    hide By;
    RealSum(x, y, u);
    RealSum(y, x, u);
    RealScale(x, y, u);
  }

  lemma DistanceIsGap(f: Float, k: int, t: nat, j: nat)
    requires f.p > 1 && (f.exp >= 0 ==> k >= 0)
    ensures Distance(Scale(f, k), Pow(10, t), j) as real == By(Gap(Decimal(j, k - t), Exact(f)), Unit(f, k, t))
  {
    ScaleMatches(f, k);
    hide Power, Pow, Times, Common, Unit, By, Decimal, Scale, Exact;
    var s, u, y := Scale(f, k), Unit(f, k, t), Decimal(j, k - t);
    TermScaled(f, k, t, s.x, Exact(f));
    DecimalScaled(f, k, t, j);
    GapCore(Times(j, s.den), Times(Pow(10, t), s.x), y, Exact(f), u);
  }

  // ---------------------------------------------------------------- what the estimate gives

  lemma ByMono(a: real, b: real, c: real)
    requires a <= b && c > 0.0
    ensures By(a, c) <= By(b, c) && By(c, a) <= By(c, b)
  {
  }

  lemma SmallPower(n: int)
    requires n > 0
    ensures Power(10, -n) < 1.0
  {
    PowMono(10, 1, n);
    assert Pow(10, 0) == 1 && Pow(10, 1) == 10;
    hide Pow;
    var x := Pow(10, n) as real;
    assert x >= 10.0 && Power(10, -n) == 1.0 / x;
    hide Power;
    Inverted(x);
  }

  lemma Inverted(x: real)
    requires x > 1.0
    ensures 1.0 / x < 1.0
  {
  }

  /** An integer needs a nonnegative power of ten. */
  lemma EstimateSign(f: Float, k: int)
    requires Finite(f) && Estimate(f, k)
    ensures f.exp >= 0 ==> k >= 0
  {
    if f.exp >= 0 && k < 0 {
      PowerOfNat(2, f.exp + f.p - 1);
      hide Power;
      SmallPower(-k);
    }
  }

  lemma Largest(m: nat, P: nat, h: real)
    requires m < P && h > 0.0
    ensures By(m as real, 2.0 * h) + h < By(P as real, 2.0 * h)
  {
    RealScale((m + 1) as real, P as real, 2.0 * h);
    assert By((m + 1) as real, 2.0 * h) == By(m as real, 2.0 * h) + 2.0 * h;
  }

  /** Even the upper end of the interval is below twice the estimate. */
  lemma UpperEnd(f: Float, k: int)
    requires Finite(f) && Estimate(f, k)
    ensures Exact(f) + HighGap(f) < 2.0 * Power(10, k)
  {
    var h := HighGap(f);
    hide Power, By, Pow2, Exact;
    Units(f);
    ValuesBy(f, 0, 0);
    Largest(f.m, Pow2(f.p), h);
    PowTwo(f.p);
    PowerOfNat(2, f.p);
    PowerBy(2, f.exp, f.p);
    PowerStep(2, f.exp + f.p - 1);
    BySwap2(Power(2, f.exp), Power(2, f.p));
  }

  lemma BySwap2(a: real, b: real)
    ensures By(a, b) == By(b, a)
  {
  }

  lemma GapsBelow(f: Float)
    requires Finite(f)
    ensures 0.0 < LowGap(f) <= HighGap(f) < Exact(f) && 2.0 * (LowGap(f) + HighGap(f)) >= 3.0 * HighGap(f)
  {
    hide Power, Pow2;
    Units(f);
    RealScale(1.0, f.m as real, Power(2, f.exp));
    assert By(1.0, Power(2, f.exp)) == Power(2, f.exp);
  }

  /** The scaled value starts below twice the denominator, with its gaps below it. */
  lemma EstimateRoom(f: Float, k: int)
    requires Finite(f) && Estimate(f, k)
    ensures f.exp >= 0 ==> k >= 0
    ensures Proper(Scale(f, k)) && Scale(f, k).x + Scale(f, k).high < 2 * Scale(f, k).den
  {
    EstimateSign(f, k);
    ScaleMatches(f, k);
    UpperEnd(f, k);
    GapsBelow(f);
    var s, c := Scale(f, k), Common(f, k);
    hide *;
    RoomCore(s, c, Exact(f), Power(10, k), LowGap(f), HighGap(f));
  }

  lemma RoomCore(s: Scaled, c: real, x: real, d: real, l: real, h: real)
    requires c > 0.0 && s.x as real == By(x, c) && s.den as real == By(d, c) && s.low as real == By(l, c) && s.high as real == By(h, c)
    requires 0.0 < l < x && 0.0 < h && x + h < 2.0 * d
    ensures Proper(s) && s.x + s.high < 2 * s.den
  {
    var n := By(0.0, c);
    assert n == 0.0;
    assert By(2.0 * d, c) == 2.0 * By(d, c);
    hide By;
    RealScale(0.0, d, c);
    RealScale(0.0, l, c);
    RealScale(0.0, h, c);
    RealScale(l, x, c);
    RealSum(x, h, c);
    RealScale(x + h, 2.0 * d, c);
  }

  /** The loop goes on at unit 10^-t only while 10^t is small against the precision. */
  lemma FewDigits(f: Float, k: int, t: nat)
    requires Finite(f) && Estimate(f, k) && (f.exp >= 0 ==> k >= 0)
    requires Times(Pow(10, t), Scale(f, k).low) + Times(Pow(10, t), Scale(f, k).high) <= Scale(f, k).den
    ensures 3 * Pow(10, t) < 20 * Pow2(f.p)
  {
    ScaleMatches(f, k);
    GapsBelow(f);
    TenBelow(f, k);
    var s, T, c, l, h, P := Scale(f, k), Pow(10, t), Common(f, k), LowGap(f), HighGap(f), Pow2(f.p) as real;
    hide *;
    TimesReal(T, s.low);
    TimesReal(T, s.high);
    FewCore(T as real, s.low as real, s.high as real, s.den as real, c, l, h, Power(10, k), P);
  }

  lemma TenBelow(f: Float, k: int)
    requires Finite(f) && Estimate(f, k)
    ensures Power(10, k) < 10.0 * By(Pow2(f.p) as real, HighGap(f))
  {
    hide Power, By, Pow2;
    PowerStep(10, k - 1);
    PowTwo(f.p);
    PowerOfNat(2, f.p);
    PowerBy(2, f.exp - 1, f.p);
    BySwap2(Power(2, f.exp - 1), Power(2, f.p));
  }

  lemma FewCore(T: real, low: real, high: real, den: real, c: real, l: real, h: real, d: real, P: real)
    requires c > 0.0 && T > 0.0 && h > 0.0 && low == By(l, c) && high == By(h, c) && den == By(d, c)
    requires By(T, low) + By(T, high) <= den && d < 10.0 * By(P, h) && 2.0 * (l + h) >= 3.0 * h
    ensures 3.0 * T < 20.0 * P
  {
    Spread(T, l, h, c);
    hide By;
    RealScale(By(T, l + h), d, c);
    ByMono(1.5 * h, l + h, T);
    FewEnd(T, h, P);
    RealScale(3.0 * T, 20.0 * P, h);
  }

  lemma Spread(T: real, l: real, h: real, c: real)
    ensures By(T, By(l, c)) + By(T, By(h, c)) == By(By(T, l + h), c)
  {
    RealSum(l, h, c);
    hide By;
    assert By(T, By(l, c)) + By(T, By(h, c)) == By(T, By(l, c) + By(h, c)) by { RightSum(T, By(l, c), By(h, c)); }
    ThreeFactors(T, l + h, c);
  }

  lemma RightSum(T: real, a: real, b: real)
    ensures By(T, a) + By(T, b) == By(T, a + b)
  {
  }

  lemma FewEnd(T: real, h: real, P: real)
    ensures By(3.0 * T, h) == 2.0 * By(T, 1.5 * h) && By(20.0 * P, h) == 20.0 * By(P, h)
  {
  }
}
