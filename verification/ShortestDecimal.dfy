/** bigint_convert of mina/mina/detail/to_ascii_decimal_f.hpp: the shortest decimal of a binary number. */
module ShortestDecimal {
  import opened Arith
  import opened Limbs
  import opened Bigint
  import opened RoundingInterval
  import opened DigitLoop
  import opened DecimalScale
  import opened Bcd

  /** The precisions and the number of buffer words of each. */
  predicate Format(p: nat, words: nat) { (p == 24 && words == 2) || (p == 53 && words == 3) || (p == 113 && words == 5) }

  function MostDigits(p: nat): nat { if p == 24 then 10 else if p == 53 then 18 else 36 }

  /** Decimals with a last place above 10^e. */
  ghost predicate Shorter(f: Float, e: int, j: nat, e': int)
    requires f.p > 1
  {
    e' > e && RoundsTo(f, Decimal(j, e'))
  }

  ghost predicate SamePlaces(f: Float, e: int, j: nat)
    requires f.p > 1
  {
    RoundsTo(f, Decimal(j, e))
  }

  /** V * 10^e rounds to f, no decimal of fewer places does, no other one of as many places is closer to f, and if another
    * one is as close, V is the even one. */
  ghost predicate ShortestClosest(f: Float, V: nat, e: int)
    requires f.p > 1
  {
    && RoundsTo(f, Decimal(V, e))
    && (forall j: nat, e': int {:trigger Shorter(f, e, j, e')} :: !Shorter(f, e, j, e'))
    && (forall j: nat {:trigger SamePlaces(f, e, j)} ::
          SamePlaces(f, e, j) ==> Gap(Decimal(V, e), Exact(f)) <= Gap(Decimal(j, e), Exact(f)))
    && (forall j: nat {:trigger SamePlaces(f, e, j)} ::
          SamePlaces(f, e, j) && j != V && Gap(Decimal(j, e), Exact(f)) == Gap(Decimal(V, e), Exact(f)) ==> V % 2 == 0)
  }

  /** A decimal of a higher place is a multiple of ten at the lower one. */
  lemma {:induction false} LowerPlace(j: nat, e: int, n: nat) returns (g: nat)
    requires n > 0
    ensures Decimal(j, e + n) == Decimal(10 * g, e) && (j > 0 ==> g > 0)
  {
    g := Times(j, Pow(10, n - 1));
    if j > 0 { PositiveTimes(j, Pow(10, n - 1)); }
    hide Power, Times;
    PowerBy(10, e, n);
    PowerOfNat(10, n);
    ValuesBy(Float(0, 0, 0), j, e + n);
    ValuesBy(Float(0, 0, 0), 10 * g, e);
    assert Pow(10, n) == 10 * Pow(10, n - 1);
    TimesReal(j, Pow(10, n - 1));
    hide Pow, Decimal;
    PlaceFactors(j as real, Power(10, e), Pow(10, n - 1) as real);
  }

  lemma PlaceFactors(j: real, e: real, t: real)
    ensures By(j, By(e, 10.0 * t)) == By(10.0 * By(j, t), e)
  {
  }

  lemma NothingIsOutside(f: Float, e: int)
    requires Finite(f)
    ensures !RoundsTo(f, Decimal(0, e))
  {
    GapsBelow(f);
    assert Decimal(0, e) == 0.0;
    hide Decimal, Exact, HighGap, LowGap;
  }

  /** What the integer loop stops with is the shortest and closest decimal. */
  lemma BestIsShortest(f: Float, k: int, t: nat, V: nat)
    requires Finite(f) && (f.exp >= 0 ==> k >= 0) && Best(Scale(f, k), Pow(10, t), V)
    ensures ShortestClosest(f, V, k - t)
  {
    var s, T, e := Scale(f, k), Pow(10, t), k - t;
    InsideIsRounding(f, k, t, V);
    forall j: nat, e': int ensures !Shorter(f, e, j, e') { NoShorter(f, k, t, V, j, e'); }
    forall j: nat | SamePlaces(f, e, j) ensures Gap(Decimal(V, e), Exact(f)) <= Gap(Decimal(j, e), Exact(f)) {
      NoCloser(f, k, t, V, j);
    }
    forall j: nat | SamePlaces(f, e, j) && j != V && Gap(Decimal(j, e), Exact(f)) == Gap(Decimal(V, e), Exact(f)) ensures V % 2 == 0 {
      TieIsEven(f, k, t, V, j);
    }
  }

  lemma TieIsEven(f: Float, k: int, t: nat, V: nat, j: nat)
    requires Finite(f) && (f.exp >= 0 ==> k >= 0) && Best(Scale(f, k), Pow(10, t), V) && SamePlaces(f, k - t, j) && j != V
    requires Gap(Decimal(j, k - t), Exact(f)) == Gap(Decimal(V, k - t), Exact(f))
    ensures V % 2 == 0
  {
    hide Decimal, RoundsTo, Scale, Inside, Unit, Gap, Exact, By, Distance;
    InsideIsRounding(f, k, t, j);
    DistanceIsGap(f, k, t, V);
    DistanceIsGap(f, k, t, j);
  }

  lemma NoShorter(f: Float, k: int, t: nat, V: nat, j: nat, e': int)
    requires Finite(f) && (f.exp >= 0 ==> k >= 0) && Best(Scale(f, k), Pow(10, t), V)
    ensures !Shorter(f, k - t, j, e')
  {
    hide Decimal, RoundsTo, Scale, Inside, Closest;
    if e' > k - t {
      if j == 0 {
        NothingIsOutside(f, e');
      } else {
        var g := LowerPlace(j, k - t, e' - (k - t));
        InsideIsRounding(f, k, t, 10 * g);
        assert !TensInside(Scale(f, k), Pow(10, t), g);
      }
    }
  }

  lemma NoCloser(f: Float, k: int, t: nat, V: nat, j: nat)
    requires Finite(f) && (f.exp >= 0 ==> k >= 0) && Best(Scale(f, k), Pow(10, t), V) && SamePlaces(f, k - t, j)
    ensures Gap(Decimal(V, k - t), Exact(f)) <= Gap(Decimal(j, k - t), Exact(f))
  {
    hide Decimal, RoundsTo, Scale, Inside, Unit, Gap, Exact;
    InsideIsRounding(f, k, t, j);
    DistanceIsGap(f, k, t, V);
    DistanceIsGap(f, k, t, j);
    assert Distance(Scale(f, k), Pow(10, t), V) <= Distance(Scale(f, k), Pow(10, t), j);
    RealScale(Gap(Decimal(j, k - t), Exact(f)), Gap(Decimal(V, k - t), Exact(f)), Unit(f, k, t));
  }

  lemma DecimalOrder(i: nat, j: nat, e: int)
    requires i <= j
    ensures Decimal(i, e) <= Decimal(j, e)
  {
    ByMono(i as real, j as real, Power(10, e));
  }

  lemma DecimalPlaces(j: nat, e: int, n: nat)
    ensures Decimal(Times(j, Pow(10, n)), e) == Decimal(j, e + n)
  {
    hide Power, Times;
    ValuesBy(Float(0, 0, 0), j, e + n);
    ValuesBy(Float(0, 0, 0), Times(j, Pow(10, n)), e);
    hide Decimal, Pow;
    PowerBy(10, e, n);
    PowerOfNat(10, n);
    TimesReal(j, Pow(10, n));
    PlaceShift(j as real, Power(10, e), Pow(10, n) as real);
  }

  lemma PlaceShift(j: real, e: real, t: real)
    ensures By(By(j, t), e) == By(j, By(e, t))
  {
  }

  /** There is only one such decimal. */
  lemma OnlyOne(f: Float, V: nat, e: int, W: nat, e': int)
    requires Finite(f) && ShortestClosest(f, V, e) && ShortestClosest(f, W, e')
    ensures V == W && e == e'
  {
    assert !Shorter(f, e, W, e') && !Shorter(f, e', V, e);
    hide Decimal, Exact, RoundsTo, Gap;
    assert e == e' && SamePlaces(f, e, V) && SamePlaces(f, e, W);
    if V < W {
      Between(f, V, W, e);
    } else if W < V {
      Between(f, W, V, e);
    }
  }

  /** Between two decimals that are as close lies a closer one, unless they are next to each other. */
  lemma Between(f: Float, V: nat, W: nat, e: int)
    requires V < W && f.p > 1 && RoundsTo(f, Decimal(V, e)) && RoundsTo(f, Decimal(W, e))
    ensures SamePlaces(f, e, V + 1)
    ensures V + 1 < W && Gap(Decimal(V, e), Exact(f)) == Gap(Decimal(W, e), Exact(f)) ==>
      Gap(Decimal(V + 1, e), Exact(f)) < Gap(Decimal(V, e), Exact(f))
  {
    Rises(V, V + 1, e);
    if V + 1 < W { Rises(V + 1, W, e); }
    hide Decimal, Exact, LowGap, HighGap;
  }

  lemma Rises(i: nat, j: nat, e: int)
    requires i < j
    ensures Decimal(i, e) < Decimal(j, e)
  {
    RealScale(i as real, j as real, Power(10, e));
  }

  /** Every decimal that rounds to f has at least as many digits as the one found. */
  lemma FewestDigits(f: Float, V: nat, e: int, n: nat, j: nat, e': int)
    requires Finite(f) && ShortestClosest(f, V, e) && n > 0 && V >= Pow(10, n - 1) && RoundsTo(f, Decimal(j, e'))
    ensures j >= Pow(10, n - 1)
  {
    assert !Shorter(f, e, j, e') && !Shorter(f, e, 1, e + n - 1);
    NothingIsOutside(f, e');
    assert RoundsTo(f, Decimal(V, e)) && Pow(10, 0) == 1;
    hide Decimal, ShortestClosest, Exact, LowGap, HighGap, Pow, Times;
    if j < Pow(10, n - 1) {
      var u := Pow(10, n - 1);
      TimesSwap(u, 1);
      OneTime(u);
      DecimalPlaces(1, e, n - 1);
      DecimalOrder(u, V, e);
      DecimalRises(j, e', e - e');
      DecimalOrder(j, u, e);
    }
  }

  lemma DecimalRises(j: nat, e: int, n: int)
    ensures n >= 0 ==> Decimal(j, e) <= Decimal(j, e + n)
  {
    if n >= 0 {
      DecimalPlaces(j, e, n);
      TimesFacts(Pow(10, n), j);
      TimesSwap(Pow(10, n), j);
      DecimalOrder(j, Times(j, Pow(10, n)), e);
    }
  }

  // ---------------------------------------------------------------- the conversion

  lemma FirstTerms(f: Float, k: int)
    requires f.p > 1 && (f.exp >= 0 ==> k >= 0)
    ensures var s, x := Scale(f, k), Extra(f);
      && s.high == Times(s.low, Pow2(x)) && s.even == (f.m % 2 == 0)
      && (f.exp >= 0 || k >= 0 ==>
            s.den == Times(Pow(10, k), Pow2(Twos(f))) && s.x == Times(f.m, Pow2(f.exp + Twos(f)))
            && s.low == Times(1, Pow2(if f.exp >= 0 then f.exp else 0)))
      && (f.exp < 0 && k < 0 ==>
            s.den == Times(1, Pow2(Twos(f))) && s.low == Pow(10, -k)
            && s.x == Times(Times(Times(f.m, Pow2(0)), Pow(10, -k)), Pow2(1 + x)))
  {
    assert Pow(10, 0) == 1 && Pow2(0) == 1;
    hide Pow, Pow2;
    TimesOne(f.m);
    TimesOne(Pow(10, if f.exp < 0 && k < 0 then -k else 0));
    hide Times;
  }

  lemma TimesOne(a: nat)
    ensures Times(a, 1) == a
  {
  }

  lemma PowTen(e: nat)
    ensures Pow(10, e) > 0
  {
  }

  /** The first two ways the terms are set up: 10^k on the denominator's side. */
  method TermsAbove(f: Float, k: nat, extra: nat, num: Num, denom: Num, bdLow: Num)
    requires f.m > 0 && num.limbs == [] && bdLow.limbs == [] && num != denom && num != bdLow && denom != bdLow
    modifies num, denom, bdLow
    ensures num.Valid() && denom.Valid() && bdLow.Valid()
    ensures var b := 1 + extra + (if f.exp < 0 then -f.exp else 0);
      && num.Val() == Times(f.m, Pow2(f.exp + b)) && denom.Val() == Times(Pow(10, k), Pow2(b))
      && bdLow.Val() == Times(1, Pow2(if f.exp >= 0 then f.exp else 0))
  {
    PowTen(k);
    hide Pow, Pow2, Times, Value, Normal;
    denom.AssignPow10(k);
    if f.exp >= 0 {
      num.AssignScalar(f.m, f.exp + 1 + extra);
      denom.ShiftLeft(1 + extra);
      bdLow.AssignScalar(1, f.exp);
    } else {
      num.AssignScalar(f.m, 1 + extra);
      denom.ShiftLeft(-f.exp + 1 + extra);
      bdLow.AssignScalar(1, 0);
    }
  }

  /** The third way: 10^-k on the numerator's side. */
  method TermsBelow(f: Float, k: int, extra: nat, num: Num, denom: Num, bdLow: Num)
    requires f.m > 0 && f.exp < 0 && k < 0 && num.limbs == [] && denom.limbs == []
    requires num != denom && num != bdLow && denom != bdLow
    modifies num, denom, bdLow
    ensures num.Valid() && denom.Valid() && bdLow.Valid()
    ensures num.Val() == Times(Times(Times(f.m, Pow2(0)), Pow(10, -k)), Pow2(1 + extra))
    ensures denom.Val() == Times(1, Pow2(1 + extra - f.exp)) && bdLow.Val() == Pow(10, -k)
  {
    PositiveNumerator(f.m, -k);
    hide Pow, Pow2, Times, Value, Normal;
    num.AssignScalar(f.m, 0);
    denom.AssignScalar(1, -f.exp + 1 + extra);
    bdLow.AssignPow10(-k);
    num.Multiply(bdLow.limbs);
    num.ShiftLeft(1 + extra);
  }

  lemma PositiveNumerator(m: nat, n: nat)
    requires m > 0
    ensures Times(Times(m, Pow2(0)), Pow(10, n)) > 0
  {
    hide Pow2, Times;
    PositiveTimes(m, Pow2(0));
    PositiveTimes(Times(m, Pow2(0)), Pow(10, n));
  }

  /** One more bit for a power of two. */
  method ExtraShift(f: Float) returns (extra: nat)
    requires f.p > 1
    ensures extra == Extra(f) <= 1
  {
    extra := if f.m == Pow2(f.p - 1) then 1 else 0;
  }

  /** The three ways together. */
  method Terms(f: Float, k: int, extra: nat) returns (num: Num, denom: Num, bdLow: Num)
    requires Finite(f) && (f.exp >= 0 ==> k >= 0) && Proper(Scale(f, k)) && extra == Extra(f)
    ensures fresh(num) && fresh(denom) && fresh(bdLow) && num != denom && num != bdLow && denom != bdLow
    ensures num.Valid() && denom.Valid() && bdLow.Valid()
    ensures var s := Scale(f, k); num.Val() == s.x && denom.Val() == s.den && bdLow.Val() == s.low
  {
    FirstTerms(f, k);
    hide Pow, Pow2, Times, Scale, Value, Normal, Finite;
    num := new Num();
    denom := new Num();
    bdLow := new Num();
    if f.exp >= 0 || k >= 0 {
      TermsAbove(f, k, extra, num, denom, bdLow);
    } else {
      TermsBelow(f, k, extra, num, denom, bdLow);
    }
  }

  lemma HighTerm(f: Float, k: int)
    requires f.p > 1 && (f.exp >= 0 ==> k >= 0)
    ensures var s, x := Scale(f, k), Extra(f); s.high == if x > 0 then Times(s.low, Pow2(x)) else s.low
  {
    FirstTerms(f, k);
    LowUnshifted(f, k);
  }

  /** All four terms, the upper distance from the lower one. */
  method SetUp(f: Float, k: int) returns (num: Num, denom: Num, bdLow: Num, bdHigh: Num)
    requires Finite(f) && (f.exp >= 0 ==> k >= 0) && Proper(Scale(f, k))
    ensures fresh(num) && fresh(denom) && fresh(bdLow) && fresh(bdHigh)
    ensures num != denom && num != bdLow && num != bdHigh && denom != bdLow && denom != bdHigh && bdLow != bdHigh
    ensures num.Valid() && denom.Valid() && bdLow.Valid() && bdHigh.Valid()
    ensures var s := Scale(f, k); num.Val() == s.x && denom.Val() == s.den && bdLow.Val() == s.low && bdHigh.Val() == s.high
  {
    hide Pow, Pow2, Times, Scale, Value, Normal;
    HighTerm(f, k);
    var extra := ExtraShift(f);
    num, denom, bdLow := Terms(f, k, extra);
    bdHigh := Widened(bdLow, extra);
  }

  /** A copy, shifted when there is something to shift by. */
  method Widened(bdLow: Num, extra: nat) returns (bdHigh: Num)
    requires bdLow.Valid()
    ensures fresh(bdHigh) && (bdLow.Val() > 0 ==> bdHigh.Valid())
    ensures bdHigh.Val() == if extra > 0 then Times(bdLow.Val(), Pow2(extra)) else bdLow.Val()
  {
    hide Pow2, Times, Value, Normal;
    bdHigh := new Num();
    bdHigh.limbs := bdLow.limbs;
    if extra > 0 {
      bdHigh.ShiftLeft(extra);
    }
  }

  lemma LowUnshifted(f: Float, k: int)
    requires f.p > 1 && (f.exp >= 0 ==> k >= 0)
    ensures Times(Scale(f, k).low, Pow2(0)) == Scale(f, k).low
  {
    assert Pow2(0) == 1;
    hide Scale;
    TimesOne(Scale(f, k).low);
  }

  /** Multiplying every term by ten; equal distances are multiplied once and copied. */
  method TenFold(num: Num, bdLow: Num, bdHigh: Num)
    requires num != bdLow && num != bdHigh && bdLow != bdHigh && num.Valid() && bdLow.Valid() && bdHigh.Valid()
    modifies num, bdLow, bdHigh
    ensures num.Valid() && bdLow.Valid() && bdHigh.Valid()
    ensures num.Val() == 10 * old(num.Val()) && bdLow.Val() == 10 * old(bdLow.Val()) && bdHigh.Val() == 10 * old(bdHigh.Val())
  {
    BaseFacts();
    hide Value, Normal;
    num.MultiplyScalar(10);
    if bdHigh.limbs == bdLow.limbs {
      bdLow.MultiplyScalar(10);
      bdHigh.limbs := bdLow.limbs;
    } else {
      bdLow.MultiplyScalar(10);
      bdHigh.MultiplyScalar(10);
    }
  }

  /** The place is above the last one the precision can need. */
  lemma Capacity(p: nat, words: nat, dp: nat)
    requires Format(p, words) && (dp > 0 ==> 3 * Pow(10, dp - 1) < 20 * Pow2(p))
    ensures dp < 8 * words && dp <= (if p == 24 then 9 else if p == 53 then 17 else 35)
  {
    var top := if p == 24 then 9 else if p == 53 then 17 else 35;
    Limits();
    PowTwo(p);
    hide Pow2, Pow;
    if dp > top { PowMono(10, top, dp - 1); }
  }

  lemma Limits()
    ensures 3 * Pow(10, 9) >= 20 * Pow(2, 24) && 3 * Pow(10, 17) >= 20 * Pow(2, 53) && 3 * Pow(10, 35) >= 20 * Pow(2, 113)
  {
    TwoPowers();
    TenPowers();
    hide Pow;
  }

  lemma Squared(b: nat, e: nat, v: nat)
    requires Pow(b, e) == v
    ensures Pow(b, 2 * e) == v * v && Pow(b, 2 * e + 1) == b * (v * v)
  {
    PowAdd(b, e, e);
  }

  lemma TwoPowers()
    ensures Pow(2, 24) == 16_777_216 && Pow(2, 53) == 9_007_199_254_740_992
    ensures Pow(2, 113) == 10_384_593_717_069_655_257_060_992_658_440_192
  {
    assert Pow(2, 3) == 8 && Pow(2, 7) == 128;
    hide Pow;
    Squared(2, 3, 8);
    Squared(2, 6, 64);
    Squared(2, 12, 4096);
    Squared(2, 13, 8192);
    Squared(2, 26, 67_108_864);
    Squared(2, 7, 128);
    Squared(2, 14, 16_384);
    Squared(2, 28, 268_435_456);
    Squared(2, 56, 72_057_594_037_927_936);
  }

  lemma TenPowers()
    ensures Pow(10, 9) == 1_000_000_000 && Pow(10, 17) == 100_000_000_000_000_000
    ensures Pow(10, 35) == 100_000_000_000_000_000_000_000_000_000_000_000
  {
    assert Pow(10, 4) == 10_000;
    hide Pow;
    Squared(10, 4, 10_000);
    Squared(10, 8, 100_000_000);
    Squared(10, 17, 100_000_000_000_000_000);
  }

  // ---------------------------------------------------------------- the digit loop

  lemma SignTests(a: nat, b: nat)
    ensures Sign(a - b) > 0 <==> a > b
    ensures Sign(a - b) >= 0 <==> a >= b
    ensures Sign(a - b) <= 0 <==> a <= b
    ensures Sign(a - b) < 0 <==> a < b
    ensures Sign(a - b) == 0 <==> a == b
  {
  }

  /** Whether the upper end of the interval reaches the next unit. */
  method ReachesUp(odd: bool, num: seq<Limb>, bdHigh: seq<Limb>, denom: seq<Limb>) returns (b: bool)
    requires Normal(num) && Normal(bdHigh) && Normal(denom)
    ensures b == Bounded(!odd, Value(denom), Value(num) + Value(bdHigh))
  {
    var test := CompareSum(num, bdHigh, denom);
    hide Sign, Value, Normal;
    SignTests(Value(num) + Value(bdHigh), Value(denom));
    b := if odd then test > 0 else test >= 0;
  }

  /** The two exit tests as the bits of a number. */
  method BoundTests(odd: bool, num: seq<Limb>, bdLow: seq<Limb>, bdHigh: seq<Limb>, denom: seq<Limb>) returns (test: nat)
    requires Normal(num) && Normal(bdLow) && Normal(bdHigh) && Normal(denom)
    ensures test == (if Bounded(!odd, Value(num), Value(bdLow)) then 1 else 0)
      + (if Bounded(!odd, Value(denom), Value(num) + Value(bdHigh)) then 2 else 0)
  {
    var low := Compare(num, bdLow);
    hide Sign, Value, Normal;
    SignTests(Value(num), Value(bdLow));
    var high := ReachesUp(odd, num, bdHigh, denom);
    test := if odd then (if low < 0 then 1 else 0) else (if low <= 0 then 1 else 0);
    test := test + if high then 2 else 0;
  }

  /** The last digit, by the test that ended the loop. */
  method LastDigit(test: nat, digit: nat, num: seq<Limb>, denom: seq<Limb>) returns (last: nat)
    requires 1 <= test <= 3 && Normal(num) && Normal(denom)
    ensures digit <= last <= digit + 1
    ensures test == 1 ==> last == digit
    ensures test == 2 ==> last == digit + 1
    ensures test == 3 ==> if last == digit then 2 * Value(num) <= Value(denom) else 2 * Value(num) >= Value(denom)
    ensures test == 3 && 2 * Value(num) == Value(denom) ==> last % 2 == 0
  {
    hide Sign, Value, Normal;
    last := if test == 2 then digit + 1 else digit;
    if test == 3 {
      var half := CompareSum(num, num, denom);
      SignTests(Value(num) + Value(num), Value(denom));
      if half > 0 || (half == 0 && digit % 2 == 1) { last := digit + 1; }
    }
  }

  lemma QuotientFits(n: nat, den: nat)
    requires n < 10 * den
    ensures n < Times(BASE, den)
  {
    BaseFacts();
    MulMono(10, BASE, den);
  }

  /** The state before a digit, in terms of the number being printed. */
  ghost predicate AtDigit(f: Float, k: int, t: nat, digits: seq<nat>, exponent: int, n: nat, den: nat, low: nat, high: nat)
    requires f.p > 1 && (f.exp >= 0 ==> k >= 0)
  {
    && den == Scale(f, k).den && Head(Scale(f, k), Pow(10, t), DigitsValue(digits), n, low, high)
    && exponent - |digits| - 1 == k - t && |digits| <= t && DecimalDigits(digits)
    && (|digits| > 0 ==> 3 * Pow(10, |digits| - 1) < 20 * Pow2(f.p))
  }

  /** Whether 10^q is at or below the upper end of the interval. */
  ghost predicate Reaches(f: Float, q: int) { Bound(f.m % 2 == 0, Power(10, q), Exact(f) + HighGap(f)) }

  /** The power of ten above the first digit. */
  ghost function FirstExponent(f: Float, k: int): int { if Reaches(f, k) then k + 1 else k }

  /** The first test of the conversion compares the upper end of the interval with 10^k. */
  lemma ReachesScaled(f: Float, k: int)
    requires f.p > 1 && (f.exp >= 0 ==> k >= 0)
    ensures HighTest(Scale(f, k), Scale(f, k).x, Scale(f, k).high) <==> Reaches(f, k)
  {
    ScaleMatches(f, k);
    var s, c := Scale(f, k), Common(f, k);
    hide Power, By, Scale, Exact, HighGap, Common;
    RealSum(Exact(f), HighGap(f), c);
    RealScale(Power(10, k), Exact(f) + HighGap(f), c);
    RealScale(Exact(f) + HighGap(f), Power(10, k), c);
  }

  lemma OneTen(q: int)
    ensures Decimal(1, q) == Power(10, q)
  {
  }

  /** A decimal with no shorter one beside it is at least any power of ten the interval reaches. */
  lemma AtLeast(f: Float, V: nat, e: int, q: int)
    requires Finite(f) && ShortestClosest(f, V, e) && Reaches(f, q) && e <= q
    ensures V >= Pow(10, q - e)
  {
    var u := Pow(10, q - e);
    assert !Shorter(f, e, 1, q) && RoundsTo(f, Decimal(V, e));
    OneTen(q);
    OneTime(u);
    DecimalPlaces(1, e, q - e);
    hide Decimal, ShortestClosest, Exact, LowGap, HighGap, Power, Times;
    if V < u {
      DecimalOrder(V, u, e);
      NothingIsOutside(f, e);
    }
  }

  lemma AtFirst(f: Float, k: int, inRange: bool)
    requires Finite(f) && Estimate(f, k) && (f.exp >= 0 ==> k >= 0)
    requires var s := Scale(f, k); Proper(s) && s.x + s.high < 2 * s.den && inRange == HighTest(s, s.x, s.high)
    ensures var s := Scale(f, k);
      if inRange then AtDigit(f, k, 0, [], k + 1, s.x, s.den, s.low, s.high)
      else AtDigit(f, k, 1, [], k, 10 * s.x, s.den, 10 * s.low, 10 * s.high)
  {
    assert Pow(10, 0) == 1 && Pow(10, 1) == 10;
    hide Scale, Pow, Pow2, Head, HighTest;
    if inRange { FirstUnit(Scale(f, k)); } else { FirstTenth(Scale(f, k)); }
  }

  lemma DigitGoesOn(f: Float, k: int, t: nat, digits: seq<nat>, exponent: int, n: nat, den: nat, low: nat, high: nat,
                    digit: nat, rest: nat)
    requires Finite(f) && Estimate(f, k) && (f.exp >= 0 ==> k >= 0) && Proper(Scale(f, k))
    requires AtDigit(f, k, t, digits, exponent, n, den, low, high) && n == Times(digit, den) + rest && rest < den
    requires !LowTest(Scale(f, k), rest, low) && !HighTest(Scale(f, k), rest, high)
    ensures digit <= 9 && AtDigit(f, k, t + 1, digits + [digit], exponent, 10 * rest, den, 10 * low, 10 * high)
  {
    var s, T, F := Scale(f, k), Pow(10, t), DigitsValue(digits);
    TakeDigit(s, T, F, n, low, high, digit, rest);
    GoOn(s, T, 10 * F + digit, rest, low, high);
    PushDigit(digits, digit);
    assert low == Times(T, s.low) && high == Times(T, s.high);
    FewDigits(f, k, t);
    PowMono(10, |digits|, t);
    assert Pow(10, t + 1) == 10 * T;
    hide Pow, Pow2, Scale, Head, LowTest, HighTest, Estimate;
  }

  lemma DigitStops(f: Float, k: int, t: nat, digits: seq<nat>, exponent: int, n: nat, den: nat, low: nat, high: nat,
                   digit: nat, rest: nat, last: nat)
    requires Finite(f) && Estimate(f, k) && (f.exp >= 0 ==> k >= 0) && Proper(Scale(f, k))
    requires AtDigit(f, k, t, digits, exponent, n, den, low, high) && n == Times(digit, den) + rest && rest < den
    requires digit <= last <= digit + 1
    requires last == digit ==> LowTest(Scale(f, k), rest, low) && (HighTest(Scale(f, k), rest, high) ==> 2 * rest <= den)
    requires last == digit + 1 ==> HighTest(Scale(f, k), rest, high) && (LowTest(Scale(f, k), rest, low) ==> 2 * rest >= den)
    requires LowTest(Scale(f, k), rest, low) && HighTest(Scale(f, k), rest, high) && 2 * rest == den ==> last % 2 == 0
    ensures last <= 9 && DecimalDigits(digits + [last])
    ensures ShortestClosest(f, DigitsValue(digits + [last]), exponent - |digits| - 1)
  {
    hide Scale, Pow, Pow2, Head, LowTest, HighTest, Best, ShortestClosest, Estimate, Times, DigitsValue, Proper;
    Stop(Scale(f, k), Pow(10, t), DigitsValue(digits), n, low, high, digit, rest, last);
    PushDigit(digits, last);
    BestIsShortest(f, k, t, DigitsValue(digits + [last]));
  }

  lemma LoopFacts(f: Float, k: int, t: nat, digits: seq<nat>, exponent: int, n: nat, den: nat, low: nat, high: nat)
    requires f.p > 1 && (f.exp >= 0 ==> k >= 0) && AtDigit(f, k, t, digits, exponent, n, den, low, high)
    ensures n < Times(BASE, den) && den == Scale(f, k).den && DecimalDigits(digits)
  {
    hide Scale, Times;
    QuotientFits(n, den);
  }

  /** One turn of the loop: the next digit, and whether it is the last. */
  method OneDigit(f: Float, ghost k: int, ghost t: nat, ghost digits: seq<nat>, ghost exponent: int,
                  num: Num, denom: Num, bdLow: Num, bdHigh: Num) returns (stop: bool, d: nat)
    requires Finite(f) && Estimate(f, k) && (f.exp >= 0 ==> k >= 0) && Proper(Scale(f, k))
    requires num != denom && num != bdLow && num != bdHigh && denom != bdLow && denom != bdHigh && bdLow != bdHigh
    requires num.Valid() && denom.Valid() && bdLow.Valid() && bdHigh.Valid()
    requires AtDigit(f, k, t, digits, exponent, num.Val(), denom.Val(), bdLow.Val(), bdHigh.Val())
    modifies num, bdLow, bdHigh
    ensures d <= 9
    ensures !stop ==> num.Valid() && bdLow.Valid() && bdHigh.Valid()
    ensures !stop ==> AtDigit(f, k, t + 1, digits + [d], exponent, num.Val(), denom.Val(), bdLow.Val(), bdHigh.Val())
    ensures stop ==> DecimalDigits(digits + [d]) && ShortestClosest(f, DigitsValue(digits + [d]), exponent - |digits| - 1)
  {
    ghost var s, n, den, low, high := Scale(f, k), num.Val(), denom.Val(), bdLow.Val(), bdHigh.Val();
    assert s.even == (f.m % 2 == 0) && den > 0;
    hide Scale, AtDigit, Value, Normal, Times, Proper, ShortestClosest, Estimate, Finite, DigitsValue, DecimalDigits;
    LoopFacts(f, k, t, digits, exponent, n, den, low, high);
    var digit := num.DivideNear(denom.limbs);
    ghost var rest := num.Val();
    var test := BoundTests(f.m % 2 == 1, num.limbs, bdLow.limbs, bdHigh.limbs, denom.limbs);
    if test == 0 {
      DigitGoesOn(f, k, t, digits, exponent, n, den, low, high, digit, rest);
      TenFold(num, bdLow, bdHigh);
      return false, digit;
    }
    var last := LastDigit(test, digit, num.limbs, denom.limbs);
    DigitStops(f, k, t, digits, exponent, n, den, low, high, digit, rest, last);
    return true, last;
  }

  lemma RoomForDigit(f: Float, k: int, words: nat, t: nat, digits: seq<nat>, exponent: int, n: nat, den: nat, low: nat, high: nat)
    requires f.p > 1 && (f.exp >= 0 ==> k >= 0) && Format(f.p, words) && AtDigit(f, k, t, digits, exponent, n, den, low, high)
    ensures |digits| < 8 * words && |digits| < MostDigits(f.p)
  {
    hide Scale, Head, Pow, Pow2;
    Capacity(f.p, words, |digits|);
  }

  /** The terms at the first digit: at the estimate's unit when the interval reaches it, else one place lower. */
  method FirstPlace(f: Float, k: int) returns (exponent: int, ghost t: nat, num: Num, denom: Num, bdLow: Num, bdHigh: Num)
    requires Finite(f) && Estimate(f, k)
    ensures (f.exp >= 0 ==> k >= 0) && f.p > 1 && Proper(Scale(f, k))
    ensures fresh(num) && fresh(denom) && fresh(bdLow) && fresh(bdHigh)
    ensures num != denom && num != bdLow && num != bdHigh && denom != bdLow && denom != bdHigh && bdLow != bdHigh
    ensures num.Valid() && denom.Valid() && bdLow.Valid() && bdHigh.Valid()
    ensures AtDigit(f, k, t, [], exponent, num.Val(), denom.Val(), bdLow.Val(), bdHigh.Val()) && exponent == FirstExponent(f, k)
  {
    EstimateRoom(f, k);
    ReachesScaled(f, k);
    num, denom, bdLow, bdHigh := SetUp(f, k);
    AtFirst(f, k, HighTest(Scale(f, k), Scale(f, k).x, Scale(f, k).high));
    assert Scale(f, k).even == !(f.m % 2 == 1) && f.p > 1;
    hide Scale, AtDigit, Value, Normal, Proper, Estimate, Finite, Reaches;
    var inRange := ReachesUp(f.m % 2 == 1, num.limbs, bdHigh.limbs, denom.limbs);
    if inRange {
      exponent, t := k + 1, 0;
    } else {
      exponent, t := k, 1;
      TenFold(num, bdLow, bdHigh);
    }
  }

  /** The digits and exponent handed to the text writer. */
  method BigintConvert(f: Float, k: int, words: nat) returns (bv: seq<nat>, length: nat, e10: int)
    requires Finite(f) && Format(f.p, words) && Estimate(f, k)
    ensures |bv| == words && 0 < length <= 8 * words && length <= MostDigits(f.p) && e10 + length == FirstExponent(f, k)
    ensures DecimalDigits(Digits(bv, length)) && ShortestClosest(f, DigitsValue(Digits(bv, length)), e10)
    ensures f.m >= Pow2(f.p - 1) ==> Digits(bv, length)[0] != 0
  {
    hide *;
    ghost var t: nat;
    var exponent, num, denom, bdLow, bdHigh;
    exponent, t, num, denom, bdLow, bdHigh := FirstPlace(f, k);
    var buffer := new Buffer(words);
    ghost var digits: seq<nat> := [];
    var stop := false;
    while !stop
      invariant fresh(num) && fresh(bdLow) && fresh(bdHigh) && fresh(buffer) && fresh(buffer.bv)
      invariant buffer.Holds(digits) && buffer.bv.Length == words
      invariant !stop ==> num.Valid() && denom.Valid() && bdLow.Valid() && bdHigh.Valid()
      invariant !stop ==> AtDigit(f, k, t, digits, exponent, num.Val(), denom.Val(), bdLow.Val(), bdHigh.Val())
      invariant stop ==> 0 < |digits| <= 8 * words && |digits| <= MostDigits(f.p)
      invariant stop ==> DecimalDigits(digits) && ShortestClosest(f, DigitsValue(digits), exponent - |digits|)
      decreases 8 * words - |digits| + (if stop then 0 else 1)
    {
      RoomForDigit(f, k, words, t, digits, exponent, num.Val(), denom.Val(), bdLow.Val(), bdHigh.Val());
      var d: nat;
      stop, d := OneDigit(f, k, t, digits, exponent, num, denom, bdLow, bdHigh);
      buffer.Push(d, digits);
      digits, t := digits + [d], t + 1;
    }
    buffer.HoldsDigits(digits);
    bv, length := buffer.bv[..], buffer.dp;
    e10 := exponent - length;
    NoLeadingZero(f, k, digits, e10);
  }

  /** The digits of a normal number start with one that is not zero. */
  lemma NoLeadingZero(f: Float, k: int, digits: seq<nat>, e: int)
    requires Finite(f) && Estimate(f, k) && |digits| > 0 && DecimalDigits(digits)
    requires ShortestClosest(f, DigitsValue(digits), e) && e + |digits| == FirstExponent(f, k)
    ensures f.m >= Pow2(f.p - 1) ==> digits[0] != 0
  {
    if f.m >= Pow2(f.p - 1) {
      var q := FirstExponent(f, k) - 1;
      NormalReaches(f, k);
      hide Reaches, ShortestClosest, Estimate, Finite, FirstExponent;
      AtLeast(f, DigitsValue(digits), e, q);
      FirstDigitCounts(digits);
    }
  }

  /** A normal number is above the power of ten below the estimate. */
  lemma NormalReaches(f: Float, k: int)
    requires Finite(f) && Estimate(f, k) && f.m >= Pow2(f.p - 1)
    ensures Reaches(f, k - 1)
  {
    hide Power;
    PowTwo(f.p - 1);
    PowerOfNat(2, f.p - 1);
    PowerBy(2, f.exp, f.p - 1);
    BySwap2(Power(2, f.exp), Power(2, f.p - 1));
    ValuesBy(f, 0, 0);
    hide Pow2;
    ByMono(Pow2(f.p - 1) as real, f.m as real, Power(2, f.exp));
    GapsBelow(f);
  }

  lemma FirstDigitCounts(digits: seq<nat>)
    requires |digits| > 0 && DecimalDigits(digits) && DigitsValue(digits) >= Pow(10, |digits| - 1)
    ensures digits[0] != 0
  {
    if digits[0] == 0 { ZeroFirst(digits); }
  }

  lemma {:induction false} ZeroFirst(digits: seq<nat>)
    requires |digits| > 0 && DecimalDigits(digits) && digits[0] == 0
    ensures DigitsValue(digits) < Pow(10, |digits| - 1)
  {
    var n := |digits| - 1;
    if n == 0 {
      assert digits[..0] == [] && Pow(10, 0) == 1;
    } else {
      ZeroFirst(digits[..n]);
      assert Pow(10, n) == 10 * Pow(10, n - 1);
    }
  }
}
