/** The integer invariant of the digit loop of mina/mina/detail/to_ascii_decimal_f.hpp. */
module DigitLoop {
  import opened Arith
  import opened Limbs

  /** A positive value x / den with the allowed distances low / den and high / den to either side. */
  datatype Scaled = Scaled(x: nat, den: nat, low: nat, high: nat, even: bool)

  ghost predicate Proper(s: Scaled) { s.den > 0 && 0 < s.low < s.x && s.high > 0 }

  /** A bound of the interval: included exactly for an even mantissa. */
  predicate Bounded(even: bool, a: nat, b: nat) { if even then a <= b else a < b }

  /** j / T lies in the interval. */
  ghost predicate Inside(s: Scaled, T: nat, j: nat) {
    && Bounded(s.even, Times(T, s.x), Times(j, s.den) + Times(T, s.low))
    && Bounded(s.even, Times(j, s.den), Times(T, s.x) + Times(T, s.high))
  }

  /** Ten units are outside on either side of the value: no shorter decimal is inside. */
  ghost predicate NoneShorter(s: Scaled, T: nat, F: nat) {
    !Inside(s, T, 10 * (F + 1)) && (F > 0 ==> !Inside(s, T, 10 * F))
  }

  /** Before a digit at unit 1/T: F are the digits so far, n the remainder, low and high the scaled distances. */
  ghost predicate Head(s: Scaled, T: nat, F: nat, n: nat, low: nat, high: nat) {
    && T > 0 && n < 10 * s.den && Times(T, s.x) == Times(10 * F, s.den) + n
    && low == Times(T, s.low) && high == Times(T, s.high) && NoneShorter(s, T, F)
  }

  /** The digit has been taken: F includes it. */
  ghost predicate Taken(s: Scaled, T: nat, F: nat, n: nat, low: nat, high: nat) {
    && T > 0 && n < s.den && Times(T, s.x) == Times(F, s.den) + n
    && low == Times(T, s.low) && high == Times(T, s.high)
  }

  /** The two exits of the loop. */
  predicate LowTest(s: Scaled, n: nat, low: nat) { Bounded(s.even, n, low) }

  predicate HighTest(s: Scaled, n: nat, high: nat) { Bounded(s.even, s.den, n + high) }

  /** The next digit is below ten. */
  lemma TakeDigit(s: Scaled, T: nat, F: nat, n: nat, low: nat, high: nat, digit: nat, rest: nat)
    requires Head(s, T, F, n, low, high) && n == Times(digit, s.den) + rest && rest < s.den
    ensures digit <= 9 && Taken(s, T, 10 * F + digit, rest, low, high)
  {
    MulAdd(10 * F, digit, s.den);
    if digit > 9 { MulMono(10, digit, s.den); }
  }

  /** The tests say whether the decimals next to the value are inside. */
  lemma TestsDecide(s: Scaled, T: nat, F: nat, n: nat, low: nat, high: nat)
    requires Proper(s) && Taken(s, T, F, n, low, high)
    ensures LowTest(s, n, low) <==> Inside(s, T, F)
    ensures HighTest(s, n, high) <==> Inside(s, T, F + 1)
  {
    MulAdd(F, 1, s.den);
    MulMono(1, T, s.low);
    MulMono(1, T, s.high);
    hide Times;
    TimesAdd(F, 1, s.den);
    OneTime(s.den);
    PositiveTimes(T, s.low);
    PositiveTimes(T, s.high);
  }

  lemma TimesAdd(a: nat, b: nat, c: nat)
    ensures Times(a + b, c) == Times(a, c) + Times(b, c)
  {
    MulAdd(a, b, c);
  }

  lemma OneTime(a: nat)
    ensures Times(1, a) == a
  {
  }

  lemma PositiveTimes(a: nat, b: nat)
    requires a > 0 && b > 0
    ensures Times(a, b) > 0
  {
    MulMono2(1, a, 1, b);
  }

  lemma TimesMono(a: nat, b: nat, c: nat)
    requires a <= b
    ensures Times(a, c) <= Times(b, c)
  {
    MulMono(a, b, c);
  }

  lemma TenTimes(a: nat, b: nat)
    ensures Times(10 * a, b) == 10 * Times(a, b)
  {
    MulAssoc(10, a, b);
  }

  /** Ten units at 1/(10T) are one unit at 1/T. */
  lemma SameDecimal(s: Scaled, T: nat, j: nat)
    ensures Inside(s, 10 * T, 10 * j) <==> Inside(s, T, j)
  {
    hide Times;
    TenTimes(T, s.x);
    TenTimes(T, s.low);
    TenTimes(T, s.high);
    TenTimes(j, s.den);
  }

  /** Neither test met: the loop goes on, one place lower. */
  lemma GoOn(s: Scaled, T: nat, F: nat, n: nat, low: nat, high: nat)
    requires Proper(s) && Taken(s, T, F, n, low, high) && !LowTest(s, n, low) && !HighTest(s, n, high)
    ensures Head(s, 10 * T, F, 10 * n, 10 * low, 10 * high) && low + high <= s.den
  {
    TestsDecide(s, T, F, n, low, high);
    SameDecimal(s, T, F);
    SameDecimal(s, T, F + 1);
    hide Times, Inside;
    TenTimes(T, s.x);
    TenTimes(T, s.low);
    TenTimes(T, s.high);
    TenTimes(F, s.den);
  }

  /** The first digit stands at the unit of the estimate, or one place below it. */
  lemma FirstUnit(s: Scaled)
    requires Proper(s) && s.x + s.high < 2 * s.den && HighTest(s, s.x, s.high)
    ensures Head(s, 1, 0, s.x, s.low, s.high)
  {
  }

  lemma FirstTenth(s: Scaled)
    requires Proper(s) && !HighTest(s, s.x, s.high)
    ensures Head(s, 10, 0, 10 * s.x, 10 * s.low, 10 * s.high)
  {
  }

  // ---------------------------------------------------------------- what the loop stops with

  lemma LowerFails(s: Scaled, T: nat, a: nat, j: nat)
    requires Proper(s) && T > 0 && Times(a, s.den) <= Times(T, s.x) && !Inside(s, T, a) && j <= a
    ensures !Inside(s, T, j)
  {
    hide Times;
    TimesMono(j, a, s.den);
    PositiveTimes(T, s.high);
  }

  lemma UpperFails(s: Scaled, T: nat, b: nat, j: nat)
    requires Proper(s) && T > 0 && Times(b, s.den) >= Times(T, s.x) && !Inside(s, T, b) && j >= b
    ensures !Inside(s, T, j)
  {
    hide Times;
    TimesMono(b, j, s.den);
    PositiveTimes(T, s.low);
  }

  ghost predicate TensInside(s: Scaled, T: nat, j: nat) { Inside(s, T, 10 * j) }

  ghost function Distance(s: Scaled, T: nat, j: nat): nat {
    if Times(j, s.den) <= Times(T, s.x) then Times(T, s.x) - Times(j, s.den) else Times(j, s.den) - Times(T, s.x)
  }

  ghost predicate Closest(s: Scaled, T: nat, V: nat) {
    forall j: nat {:trigger Inside(s, T, j)} :: Inside(s, T, j) ==> Distance(s, T, V) <= Distance(s, T, j)
  }

  /** Another decimal as close is the odd one of the two. */
  ghost predicate EvenOnTie(s: Scaled, T: nat, V: nat) {
    forall j: nat {:trigger Inside(s, T, j)} :: Inside(s, T, j) && j != V && Distance(s, T, j) == Distance(s, T, V) ==> V % 2 == 0
  }

  /** V / T is inside, no decimal of fewer places is, none of as many places is closer, and of two as close it is the even. */
  ghost predicate Best(s: Scaled, T: nat, V: nat) {
    && V > 0 && Inside(s, T, V) && Closest(s, T, V) && EvenOnTie(s, T, V)
    && (forall j: nat {:trigger TensInside(s, T, j)} :: j > 0 ==> !TensInside(s, T, j))
  }

  lemma NoTens(s: Scaled, T: nat, F: nat, n: nat, low: nat, high: nat, j: nat)
    requires Proper(s) && Head(s, T, F, n, low, high) && j > 0
    ensures !TensInside(s, T, j)
  {
    hide Times, Inside;
    if j <= F {
      LowerFails(s, T, 10 * F, 10 * j);
    } else {
      TimesAdd(10 * F, 10, s.den);
      TenTimes(1, s.den);
      OneTime(s.den);
      UpperFails(s, T, 10 * (F + 1), 10 * j);
    }
  }

  lemma NearestOfTwo(s: Scaled, T: nat, F: nat, n: nat, low: nat, high: nat, V: nat)
    requires Proper(s) && Taken(s, T, F, n, low, high) && Inside(s, T, V) && F <= V <= F + 1
    requires V == F ==> !Inside(s, T, F + 1) || 2 * n <= s.den
    requires V == F + 1 ==> !Inside(s, T, F) || 2 * n >= s.den
    ensures Closest(s, T, V)
  {
    hide Times, Inside;
    TimesAdd(F, 1, s.den);
    OneTime(s.den);
    forall j: nat | Inside(s, T, j) ensures Distance(s, T, V) <= Distance(s, T, j) {
      if j <= F {
        TimesMono(j, F, s.den);
        if !Inside(s, T, F) { LowerFails(s, T, F, j); }
      } else {
        TimesMono(F + 1, j, s.den);
        if !Inside(s, T, F + 1) { UpperFails(s, T, F + 1, j); }
      }
    }
  }

  /** A tie is between the two neighbours, halfway between them. */
  lemma TieOfTwo(s: Scaled, T: nat, F: nat, n: nat, low: nat, high: nat, V: nat)
    requires Proper(s) && Taken(s, T, F, n, low, high) && Inside(s, T, V) && F <= V <= F + 1
    requires V == F + 1 ==> !Inside(s, T, F) || 2 * n >= s.den
    requires Inside(s, T, F) && Inside(s, T, F + 1) && 2 * n == s.den ==> V % 2 == 0
    ensures EvenOnTie(s, T, V)
  {
    hide Times, Inside;
    TimesAdd(F, 1, s.den);
    OneTime(s.den);
    forall j: nat | Inside(s, T, j) && j != V && Distance(s, T, j) == Distance(s, T, V) ensures V % 2 == 0 {
      if j < F {
        TimesBelow(j, F, s.den);
        if !Inside(s, T, F) { LowerFails(s, T, F, j); }
      } else if j > F + 1 {
        TimesBelow(F + 1, j, s.den);
      }
    }
  }

  lemma TimesBelow(a: nat, b: nat, c: nat)
    requires a < b
    ensures Times(a, c) + c <= Times(b, c)
  {
    hide Times;
    TimesAdd(a, 1, c);
    OneTime(c);
    TimesMono(a + 1, b, c);
  }

  /** One of the tests met: the digit, possibly raised by one, ends the best decimal; it is still a digit. */
  lemma Stop(s: Scaled, T: nat, F: nat, n: nat, low: nat, high: nat, digit: nat, rest: nat, last: nat)
    requires Proper(s) && Head(s, T, F, n, low, high) && n == Times(digit, s.den) + rest && rest < s.den
    requires digit <= last <= digit + 1
    requires last == digit ==> LowTest(s, rest, low) && (HighTest(s, rest, high) ==> 2 * rest <= s.den)
    requires last == digit + 1 ==> HighTest(s, rest, high) && (LowTest(s, rest, low) ==> 2 * rest >= s.den)
    requires LowTest(s, rest, low) && HighTest(s, rest, high) && 2 * rest == s.den ==> last % 2 == 0
    ensures last <= 9 && Best(s, T, 10 * F + last)
  {
    hide Times, Inside, Closest, EvenOnTie, Head, Taken, LowTest, HighTest, Proper, TensInside;
    HeadUnit(s, T, F, n, low, high);
    TakeDigit(s, T, F, n, low, high, digit, rest);
    var G, V := 10 * F + digit, 10 * F + last;
    TestsDecide(s, T, G, rest, low, high);
    NearestOfTwo(s, T, G, rest, low, high, V);
    Parity(F, last);
    TieOfTwo(s, T, G, rest, low, high, V);
    forall j: nat | j > 0 ensures !TensInside(s, T, j) { NoTens(s, T, F, n, low, high, j); }
    NothingInside(s, T);
  }

  lemma Parity(F: nat, last: nat)
    ensures (10 * F + last) % 2 == last % 2
  {
    assert 10 * F + last == 2 * (5 * F) + last;
  }

  lemma HeadUnit(s: Scaled, T: nat, F: nat, n: nat, low: nat, high: nat)
    requires Head(s, T, F, n, low, high)
    ensures T > 0 && !Inside(s, T, 10 * (F + 1))
  {
  }

  lemma NothingInside(s: Scaled, T: nat)
    requires Proper(s) && T > 0
    ensures !Inside(s, T, 0)
  {
    NotBelow(s, T);
    assert Times(0, s.den) == 0;
  }

  lemma NotBelow(s: Scaled, T: nat)
    requires Proper(s) && T > 0
    ensures !LowTest(s, Times(T, s.x), Times(T, s.low))
  {
    MulLess(s.low, s.x, T);
  }
}
