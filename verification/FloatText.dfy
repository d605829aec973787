/** Packed digits and an exponent as text, bcd_to_ascii_f of mina/mina/detail/to_ascii_decimal_f.hpp. */
module FloatText {
  import opened Arith
  import opened Limbs
  import opened Bcd
  import opened DecimalPrinter
  import opened RoundingInterval
  import opened DecimalScale
  import opened ShortestDecimal

  // ---------------------------------------------------------------- what a text denotes

  datatype Exponent = NoExponent | Exponent(negative: bool, digits: string)

  /** whole [ '.' fraction ] [ 'e' sign digits ] */
  datatype Parts = Parts(whole: string, dot: bool, fraction: string, exponent: Exponent)

  function Written(p: Parts): string {
    p.whole + (if p.dot then "." else "") + p.fraction
    + match p.exponent
      case NoExponent => ""
      case Exponent(negative, digits) => "e" + (if negative then "-" else "+") + digits
  }

  ghost predicate Proper(p: Parts) {
    && AllDigits(p.whole + p.fraction) && |p.whole + p.fraction| > 0 && (p.dot || p.fraction == "")
    && (p.exponent.Exponent? ==> AllDigits(p.exponent.digits) && p.exponent.digits != "")
  }

  ghost function ExponentValue(e: Exponent): int
    requires e.Exponent? ==> AllDigits(e.digits)
  {
    match e
    case NoExponent => 0
    case Exponent(negative, digits) => if negative then 0 - (TextValue(digits) as int) else TextValue(digits)
  }

  /** The real number a text denotes. */
  ghost function Denoted(p: Parts): real
    requires Proper(p)
  {
    Decimal(TextValue(p.whole + p.fraction), ExponentValue(p.exponent) - |p.fraction|)
  }

  /** A text with a reading as a number. */
  ghost predicate Denotes(t: string, y: real) {
    exists p: Parts :: t == Written(p) && Proper(p) && Denoted(p) == y
  }

  predicate NoDigitFirst(x: string) { x == "" || !IsDigit(x[0]) }

  function LeadingDigits(t: string): nat {
    if t == "" || !IsDigit(t[0]) then 0 else 1 + LeadingDigits(t[1..])
  }

  lemma {:induction false} LeadingDigitsOf(a: string, x: string)
    requires AllDigits(a) && NoDigitFirst(x)
    ensures LeadingDigits(a + x) == |a|
  {
    if a == "" {
      assert a + x == x;
    } else {
      assert (a + x)[1..] == a[1..] + x;
      LeadingDigitsOf(a[1..], x);
    }
  }

  lemma DigitsEnd(a: string, x: string, b: string, y: string)
    requires AllDigits(a) && AllDigits(b) && NoDigitFirst(x) && NoDigitFirst(y) && a + x == b + y
    ensures a == b && x == y
  {
    LeadingDigitsOf(a, x);
    LeadingDigitsOf(b, y);
    assert a == (a + x)[..|a|] && b == (b + y)[..|a|] && x == (a + x)[|a|..] && y == (b + y)[|a|..];
  }

  function ExponentText(e: Exponent): string {
    match e
    case NoExponent => ""
    case Exponent(negative, digits) => "e" + ((if negative then "-" else "+") + digits)
  }

  lemma OneExponent(d: Exponent, e: Exponent)
    requires ExponentText(d) == ExponentText(e)
    ensures d == e
  {
    if d.Exponent? && e.Exponent? {
      assert ExponentText(d)[1] == (if d.negative then '-' else '+') && ExponentText(e)[1] == (if e.negative then '-' else '+');
      assert ExponentText(d)[2..] == d.digits && ExponentText(e)[2..] == e.digits;
    }
  }

  /** What follows the digits before the dot. */
  function AfterWhole(p: Parts): string {
    (if p.dot then "." else "") + (p.fraction + ExponentText(p.exponent))
  }

  lemma WrittenInTwo(p: Parts)
    ensures Written(p) == p.whole + AfterWhole(p)
  {
  }

  /** A text is read in one way only, so it denotes one number. */
  lemma OneReading(p: Parts, q: Parts)
    requires Proper(p) && Proper(q) && Written(p) == Written(q)
    ensures p == q
  {
    WrittenInTwo(p);
    WrittenInTwo(q);
    WholeAndFraction(p);
    WholeAndFraction(q);
    hide Written, Proper;
    DigitsEnd(p.whole, AfterWhole(p), q.whole, AfterWhole(q));
    var x, y := p.fraction + ExponentText(p.exponent), q.fraction + ExponentText(q.exponent);
    if p.dot {
      assert AfterWhole(q)[0] == '.';
      assert AfterWhole(p)[1..] == x && AfterWhole(q)[1..] == y;
    } else {
      assert AfterWhole(p) == x && !q.dot && AfterWhole(q) == y;
    }
    DigitsEnd(p.fraction, ExponentText(p.exponent), q.fraction, ExponentText(q.exponent));
    OneExponent(p.exponent, q.exponent);
  }

  lemma WholeAndFraction(p: Parts)
    requires Proper(p)
    ensures AllDigits(p.whole) && AllDigits(p.fraction) && (p.dot || p.fraction == "") && NoDigitFirst(AfterWhole(p))
  {
    var d := p.whole + p.fraction;
    forall i | 0 <= i < |p.whole| ensures IsDigit(p.whole[i]) { assert d[i] == p.whole[i]; }
    forall i | 0 <= i < |p.fraction| ensures IsDigit(p.fraction[i]) { assert d[|p.whole| + i] == p.fraction[i]; }
  }

  // ---------------------------------------------------------------- runs of digits

  function TextOf(d: seq<nat>): (t: string)
    requires DecimalDigits(d)
    ensures |t| == |d| && AllDigits(t)
  {
    seq(|d|, i requires 0 <= i < |d| => DigitChar(d[i]))
  }

  lemma TextOfValue(d: seq<nat>)
    requires DecimalDigits(d)
    ensures TextValue(TextOf(d)) == DigitsValue(d)
  {
    assert Digits10(TextOf(d)) == d;
  }

  function Zeros(n: nat): (d: seq<nat>)
    ensures |d| == n && DecimalDigits(d)
  {
    seq(n, _ => 0)
  }

  lemma {:induction false} ZerosFirst(n: nat, d: seq<nat>)
    ensures DigitsValue(Zeros(n) + d) == DigitsValue(d)
  {
    var all := Zeros(n) + d;
    if d != [] {
      assert all[..|all| - 1] == Zeros(n) + d[..|d| - 1];
      ZerosFirst(n, d[..|d| - 1]);
    } else if n > 0 {
      assert all[..|all| - 1] == Zeros(n - 1) + d;
      ZerosFirst(n - 1, d);
    }
  }

  lemma {:induction false} ZerosLast(d: seq<nat>, n: nat)
    ensures DigitsValue(d + Zeros(n)) == Times(DigitsValue(d), Pow(10, n))
  {
    if n == 0 {
      assert d + Zeros(0) == d;
      TimesFacts(1, DigitsValue(d));
    } else {
      assert (d + Zeros(n))[..|d| + n - 1] == d + Zeros(n - 1);
      ZerosLast(d, n - 1);
      MulAssoc(DigitsValue(d), 10, Pow(10, n - 1));
      MulAssoc(10, DigitsValue(d), Pow(10, n - 1));
    }
  }

  /** The digits of the buffer from place `from` up to place `to`. */
  method EmitRun(t: string, bv: seq<nat>, length: nat, from: nat, to: nat) returns (u: string)
    requires length <= 8 * |bv| && DecimalDigits(Digits(bv, length)) && from <= to <= length
    ensures u == t + TextOf(Digits(bv, length)[from..to])
  {
    u := t;
    ghost var d := Digits(bv, length);
    var c := from;
    while c < to
      invariant from <= c <= to && u == t + TextOf(d[from..c])
    {
      assert d[from..c + 1] == d[from..c] + [d[c]];
      assert TextOf(d[from..c + 1]) == TextOf(d[from..c]) + [DigitChar(d[c])];
      u := u + [DigitChar(Nibble(bv[c / 8], c % 8))];
      c := c + 1;
    }
  }

  method EmitZeros(t: string, n: nat) returns (u: string)
    ensures u == t + TextOf(Zeros(n))
  {
    u := t;
    var c := 0;
    while c < n
      invariant 0 <= c <= n && u == t + TextOf(Zeros(c))
    {
      assert TextOf(Zeros(c + 1)) == TextOf(Zeros(c)) + ['0'];
      u := u + ['0'];
      c := c + 1;
    }
  }

  const NEGATIVE_CUTOFF: int := -6
  const POSITIVE_CUTOFF: int := 21

  // ---------------------------------------------------------------- where the digits stand

  /** The digits d with the decimal point behind the first `dot` of them: without exponent from 0.00000ddd up to
      21 places before the point, and otherwise one digit before the point and a decimal exponent. */
  ghost predicate Laid(p: Parts, d: seq<nat>, dot: int)
    requires DecimalDigits(d) && |d| > 0
  {
    if -6 <= dot < 21 then
      && p.exponent.NoExponent? && p.dot
      && p.whole == (
        if dot < 0 then "0" else if dot < |d| then TextOf(d[..dot]) else TextOf(d) + TextOf(Zeros(dot - |d|)))
      && p.fraction == (
        if dot < 0 then TextOf(Zeros(-dot)) + TextOf(d) else if dot < |d| then TextOf(d[dot..]) else "0")
    else
      && p.exponent.Exponent? && Canonical(p.exponent.digits) && ExponentValue(p.exponent) == dot - 1
      && p.whole == TextOf(d[..1]) && p.fraction == TextOf(d[1..]) && (p.dot <==> |d| > 1)
  }

  /** The text t read as p: it denotes the digits d at exponent exp and they stand where they should. */
  ghost predicate LaidOut(t: string, p: Parts, d: seq<nat>, exp: int) {
    && DecimalDigits(d) && |d| > 0 && t == Written(p) && Proper(p)
    && Denoted(p) == Decimal(DigitsValue(d), exp) && Laid(p, d, |d| + exp)
  }

  // ---------------------------------------------------------------- the four layouts

  lemma TextJoin(a: seq<nat>, b: seq<nat>)
    requires DecimalDigits(a) && DecimalDigits(b)
    ensures DecimalDigits(a + b) && TextOf(a) + TextOf(b) == TextOf(a + b)
  {
  }

  lemma ZeroText(n: nat)
    ensures TextOf(Zeros(1)) == "0" && Zeros(1) + Zeros(n) == Zeros(n + 1) && Zeros(n) + Zeros(1) == Zeros(n + 1)
  {
  }

  lemma OnlyDigits(t: string)
    requires Canonical(t)
    ensures AllDigits(t) && t != ""
  {
  }

  /** A text whose digits are known. */
  lemma DigitsDenote(p: Parts, d: seq<nat>)
    requires DecimalDigits(d) && |d| > 0 && p.whole + p.fraction == TextOf(d) && (p.dot || p.fraction == "")
    requires p.exponent.Exponent? ==> Canonical(p.exponent.digits)
    ensures Proper(p) && Denoted(p) == Decimal(DigitsValue(d), ExponentValue(p.exponent) - |p.fraction|)
  {
    hide Decimal, DigitsValue, TextOf, Canonical;
    TextOfValue(d);
    if p.exponent.Exponent? { OnlyDigits(p.exponent.digits); }
  }

  /** 0.000ddd */
  lemma LeadingZeros(d: seq<nat>, exp: int, z: nat)
    requires DecimalDigits(d) && |d| > 0 && z == -(|d| + exp)
    ensures var p := Parts("0", true, TextOf(Zeros(z)) + TextOf(d), NoExponent);
      Proper(p) && Denoted(p) == Decimal(DigitsValue(d), exp) && (0 < z <= 6 ==> Laid(p, d, |d| + exp))
  {
    hide Decimal, DigitsValue, TextOf, Proper, Denoted, Zeros;
    ZeroText(z);
    TextJoin(Zeros(1), Zeros(z));
    TextJoin(Zeros(z + 1), d);
    ZerosFirst(z + 1, d);
    DigitsDenote(Parts("0", true, TextOf(Zeros(z)) + TextOf(d), NoExponent), Zeros(z + 1) + d);
  }

  /** ddd.ddd */
  lemma DotInside(d: seq<nat>, exp: int, dot: nat)
    requires DecimalDigits(d) && |d| > 0 && dot == |d| + exp < |d|
    ensures var p := Parts(TextOf(d[..dot]), true, TextOf(d[dot..]), NoExponent);
      Proper(p) && Denoted(p) == Decimal(DigitsValue(d), exp) && (dot < 21 ==> Laid(p, d, dot))
  {
    hide Decimal, DigitsValue, TextOf, Proper, Denoted;
    assert d[..dot] + d[dot..] == d;
    TextJoin(d[..dot], d[dot..]);
    DigitsDenote(Parts(TextOf(d[..dot]), true, TextOf(d[dot..]), NoExponent), d);
  }

  lemma TrailingText(d: seq<nat>, exp: nat)
    requires DecimalDigits(d)
    ensures DecimalDigits(Zeros(exp)) && DecimalDigits(d + Zeros(exp + 1))
    ensures TextOf(d) + TextOf(Zeros(exp)) + "0" == TextOf(d + Zeros(exp + 1))
  {
    hide TextOf, Zeros;
    ZeroText(exp);
    TextJoin(d, Zeros(exp));
    TextJoin(d + Zeros(exp), Zeros(1));
    assert d + Zeros(exp) + Zeros(1) == d + (Zeros(exp) + Zeros(1));
  }

  lemma TrailingLaid(d: seq<nat>, exp: nat)
    requires DecimalDigits(d) && |d| > 0 && |d| + exp < 21
    ensures Laid(Parts(TextOf(d) + TextOf(Zeros(exp)), true, "0", NoExponent), d, |d| + exp)
  {
    hide TextOf, Zeros, DecimalDigits;
    assert |d| + exp - |d| == exp;
  }

  /** ddd000.0 */
  lemma TrailingZeros(d: seq<nat>, exp: int)
    requires DecimalDigits(d) && |d| > 0 && exp >= 0
    ensures var p := Parts(TextOf(d) + TextOf(Zeros(exp)), true, "0", NoExponent);
      Proper(p) && Denoted(p) == Decimal(DigitsValue(d), exp) && (|d| + exp < 21 ==> Laid(p, d, |d| + exp))
  {
    hide Decimal, DigitsValue, TextOf, Proper, Denoted, Zeros, DecimalDigits, Laid;
    TrailingText(d, exp);
    ZerosLast(d, exp + 1);
    DecimalPlaces(DigitsValue(d), -1, exp + 1);
    DigitsDenote(Parts(TextOf(d) + TextOf(Zeros(exp)), true, "0", NoExponent), d + Zeros(exp + 1));
    if |d| + exp < 21 { TrailingLaid(d, exp); }
  }

  /** d.ddde+nn */
  lemma Scientific(d: seq<nat>, exp: int, e: Exponent)
    requires DecimalDigits(d) && |d| > 0 && e.Exponent? && Canonical(e.digits) && ExponentValue(e) == exp + |d| - 1
    ensures var p := Parts(TextOf(d[..1]), |d| > 1, TextOf(d[1..]), e);
      Proper(p) && Denoted(p) == Decimal(DigitsValue(d), exp) && (!(-6 <= |d| + exp < 21) ==> Laid(p, d, |d| + exp))
  {
    hide Decimal, DigitsValue, TextOf, Proper, Denoted;
    assert d[..1] + d[1..] == d;
    TextJoin(d[..1], d[1..]);
    DigitsDenote(Parts(TextOf(d[..1]), |d| > 1, TextOf(d[1..]), e), d);
  }

  /** The text denotes the digits at their exponent. */
  method BcdToAsciiF(bv: seq<nat>, length: nat, exp: int) returns (t: string, ghost p: Parts)
    requires 0 < length <= 8 * |bv| && length < 100 && DecimalDigits(Digits(bv, length))
    requires -0x4000_0000 <= exp <= 0x4000_0000
    ensures LaidOut(t, p, Digits(bv, length), exp)
  {
    hide LaidOut, Digits, DecimalDigits;
    var dotPos := length + exp;
    if NEGATIVE_CUTOFF <= dotPos < POSITIVE_CUTOFF {
      t, p := Positional(bv, length, exp);
    } else {
      t, p := WriteScientific(bv, length, exp);
    }
  }

  lemma Spells(d: seq<nat>, t: string)
    requires |t| == |d| && forall i :: 0 <= i < |d| ==> d[i] <= 9 && t[i] == "0123456789"[d[i]]
    ensures DecimalDigits(d) && TextOf(d) == t
  {
  }

  lemma KnownExponent(e: Exponent, d: seq<nat>, t: string)
    requires e.Exponent? && Canonical(e.digits) && (ExponentValue(e) == DigitsValue(d) || -ExponentValue(e) == DigitsValue(d))
    requires d != [] && d[0] > 0 && |t| == |d| && forall i :: 0 <= i < |d| ==> d[i] <= 9 && t[i] == "0123456789"[d[i]]
    ensures e.digits == t && e.negative == (ExponentValue(e) < 0)
  {
    Spells(d, t);
    TextOfValue(d);
    LeadingDigit(d);
    CanonicalUnique(e.digits, t);
  }

  lemma LaidText(t: string, p: Parts, d: seq<nat>, exp: int)
    requires LaidOut(t, p, d, exp) && -6 <= |d| + exp < 21
    ensures var dot := |d| + exp;
      t == if dot < 0 then "0." + (TextOf(Zeros(-dot)) + TextOf(d))
           else if dot < |d| then TextOf(d[..dot]) + "." + TextOf(d[dot..])
           else TextOf(d) + TextOf(Zeros(exp)) + ".0"
  {
    hide TextOf, Zeros, Denoted, Proper, DigitsValue, Decimal, DecimalDigits;
  }

  /** Some texts with the point behind the digits, letter by letter. */
  lemma KnownTrailing(t: string, p: Parts)
    ensures LaidOut(t, p, [1, 2, 5], 17) ==> t == "12500000000000000000.0"
    ensures LaidOut(t, p, [1, 2, 5], 0) ==> t == "125.0"
  {
    hide TextOf, Denoted, Proper, DigitsValue, Decimal, DecimalDigits, LaidOut;
    var d := [1, 2, 5];
    Spells(d, "125");
    if LaidOut(t, p, d, 17) { Spells(Zeros(17), "00000000000000000"); LaidText(t, p, d, 17); }
    if LaidOut(t, p, d, 0) { Spells(Zeros(0), ""); LaidText(t, p, d, 0); }
  }

  /** Some with the point among the digits. */
  lemma KnownInside(t: string, p: Parts)
    ensures LaidOut(t, p, [1, 2, 5], -2) ==> t == "1.25"
  {
    hide TextOf, Denoted, Proper, DigitsValue, Decimal, DecimalDigits, LaidOut, Zeros;
    var d := [1, 2, 5];
    if LaidOut(t, p, d, -2) { Spells(d[..1], "1"); Spells(d[1..], "25"); LaidText(t, p, d, -2); }
  }

  lemma KnownFirst(t: string, p: Parts)
    ensures LaidOut(t, p, [1, 2, 5], -3) ==> t == ".125"
  {
    hide TextOf, Denoted, Proper, DigitsValue, Decimal, DecimalDigits, LaidOut, Zeros;
    var d := [1, 2, 5];
    if LaidOut(t, p, d, -3) { Spells(d[..0], ""); Spells(d[0..], "125"); LaidText(t, p, d, -3); }
  }

  /** One with the point before them. */
  lemma KnownLeading(t: string, p: Parts)
    ensures LaidOut(t, p, [1, 2, 5], -9) ==> t == "0.000000125"
  {
    hide TextOf, Denoted, Proper, DigitsValue, Decimal, DecimalDigits, LaidOut;
    if LaidOut(t, p, [1, 2, 5], -9) { Spells([1, 2, 5], "125"); Spells(Zeros(6), "000000"); LaidText(t, p, [1, 2, 5], -9); }
  }

  lemma SmallValues(x: nat, y: nat)
    ensures DigitsValue([x]) == x && DigitsValue([x, y]) == 10 * x + y
  {
    assert [x, y][..1] == [x] && [x][..0] == [];
  }

  /** Two with exponent. */
  lemma KnownScientific(t: string, p: Parts)
    ensures LaidOut(t, p, [1, 2, 5], -10) ==> t == "1.25e-8"
    ensures LaidOut(t, p, [7], 21) ==> t == "7e+21"
  {
    hide TextOf, Zeros, Denoted, Proper, Decimal, ExponentValue, Canonical, Digits, DigitsValue;
    var d, o := [1, 2, 5], [7];
    if LaidOut(t, p, d, -10) {
      Spells(d[..1], "1");
      Spells(d[1..], "25");
      SmallValues(8, 0);
      KnownExponent(p.exponent, [8], "8");
    }
    if LaidOut(t, p, o, 21) {
      Spells(o[..1], "7");
      Spells(o[1..], "");
      SmallValues(2, 1);
      KnownExponent(p.exponent, [2, 1], "21");
    }
  }

  /** d.ddde+nn */
  method WriteScientific(bv: seq<nat>, length: nat, exp: int) returns (t: string, ghost p: Parts)
    requires 0 < length <= 8 * |bv| && length < 100 && DecimalDigits(Digits(bv, length))
    requires -0x4000_0000 <= exp <= 0x4000_0000 && !(-6 <= length + exp < 21)
    ensures LaidOut(t, p, Digits(bv, length), exp)
  {
    hide Written, Denoted, Proper, TextOf, Digits, DigitsValue, Decimal, Denotes, Canonical, TextValue;
    ghost var d := Digits(bv, length);
    assert d[0..1] == d[..1] && d[1..length] == d[1..];
    t := EmitRun("", bv, length, 0, 1);
    if 1 < length { t := t + "."; }
    t := EmitRun(t, bv, length, 1, length);
    t := t + "e";
    var negative, x := false, exp;
    if exp >= 0 {
      x := exp + (length - 1);
    } else if length + exp > 0 {
      x := length + exp - 1;
    } else {
      negative := true;
      x := -exp - (length - 1);
    }
    t := t + if negative then "-" else "+";
    var digits := PrintU32(x);
    t := t + digits;
    ghost var e := Exponent(negative, digits);
    ExponentIs(negative, digits, x);
    Scientific(d, exp, e);
    Concatenated(TextOf(d[..1]), 1 < length, TextOf(d[1..]), negative, digits);
    p := Parts(TextOf(d[..1]), 1 < length, TextOf(d[1..]), e);
  }

  lemma ExponentIs(negative: bool, digits: string, x: nat)
    requires Canonical(digits) && TextValue(digits) == x
    ensures AllDigits(digits) && ExponentValue(Exponent(negative, digits)) == if negative then 0 - (x as int) else x
  {
  }

  lemma Concatenated(a: string, dot: bool, b: string, negative: bool, digits: string)
    ensures (("" + a + (if dot then "." else "")) + b + "e") + (if negative then "-" else "+") + digits
      == Written(Parts(a, dot, b, Exponent(negative, digits)))
  {
  }

  lemma PositionalText(a: string, b: string)
    ensures "0." + a + b == Written(Parts("0", true, a + b, NoExponent))
    ensures "" + a + "." + b == Written(Parts(a, true, b, NoExponent))
    ensures "" + a + b + ".0" == Written(Parts(a + b, true, "0", NoExponent))
  {
    assert "0." == "0" + "." && ".0" == "." + "0";
  }

  /** 0.000ddd */
  method WriteLeading(bv: seq<nat>, length: nat, exp: int, zeros: nat) returns (t: string, ghost p: Parts)
    requires 0 < length <= 8 * |bv| && DecimalDigits(Digits(bv, length)) && 0 < zeros == -(length + exp) <= 6
    ensures LaidOut(t, p, Digits(bv, length), exp)
  {
    hide Written, Denoted, Proper, TextOf, Zeros, Digits, DigitsValue, Decimal, Denotes;
    ghost var d := Digits(bv, length);
    assert d[0..length] == d;
    p := Parts("0", true, TextOf(Zeros(zeros)) + TextOf(d), NoExponent);
    LeadingZeros(d, exp, zeros);
    PositionalText(TextOf(Zeros(zeros)), TextOf(d));
    t := EmitZeros("0.", zeros);
    t := EmitRun(t, bv, length, 0, length);
  }

  /** ddd.ddd */
  method WriteInside(bv: seq<nat>, length: nat, exp: int, dotPos: nat) returns (t: string, ghost p: Parts)
    requires 0 < length <= 8 * |bv| && DecimalDigits(Digits(bv, length)) && dotPos == length + exp < length && dotPos < 21
    ensures LaidOut(t, p, Digits(bv, length), exp)
  {
    hide Written, Denoted, Proper, TextOf, Zeros, Digits, DigitsValue, Decimal, Denotes;
    ghost var d := Digits(bv, length);
    assert d[0..dotPos] == d[..dotPos] && d[dotPos..length] == d[dotPos..];
    p := Parts(TextOf(d[..dotPos]), true, TextOf(d[dotPos..]), NoExponent);
    DotInside(d, exp, dotPos);
    PositionalText(TextOf(d[..dotPos]), TextOf(d[dotPos..]));
    t := EmitRun("", bv, length, 0, dotPos);
    t := t + ".";
    t := EmitRun(t, bv, length, dotPos, length);
  }

  /** ddd000.0 */
  method WriteTrailing(bv: seq<nat>, length: nat, exp: int, dotPos: nat) returns (t: string, ghost p: Parts)
    requires 0 < length <= 8 * |bv| && DecimalDigits(Digits(bv, length)) && length <= dotPos == length + exp < 21
    ensures LaidOut(t, p, Digits(bv, length), exp)
  {
    hide Written, Denoted, Proper, TextOf, Zeros, Digits, DigitsValue, Decimal, Denotes;
    ghost var d := Digits(bv, length);
    assert d[0..length] == d;
    p := Parts(TextOf(d) + TextOf(Zeros(exp)), true, "0", NoExponent);
    TrailingZeros(d, exp);
    PositionalText(TextOf(d), TextOf(Zeros(exp)));
    t := EmitRun("", bv, length, 0, length);
    t := EmitZeros(t, dotPos - length);
    t := t + ".0";
  }

  method Positional(bv: seq<nat>, length: nat, exp: int) returns (t: string, ghost p: Parts)
    requires 0 < length <= 8 * |bv| && DecimalDigits(Digits(bv, length))
    requires -6 <= length + exp < 21
    ensures LaidOut(t, p, Digits(bv, length), exp)
  {
    hide *;
    var dotPos := length + exp;
    if dotPos < 0 {
      t, p := WriteLeading(bv, length, exp, -dotPos);
    } else if dotPos < length {
      t, p := WriteInside(bv, length, exp, dotPos);
    } else {
      t, p := WriteTrailing(bv, length, exp, dotPos);
    }
  }

  /** The text of a shortest decimal that rounds to f and is, among those of the same places, a closest one. */
  ghost predicate ShortestText(f: Float, t: string)
    requires f.p > 1
  {
    exists d: seq<nat>, e: int, p: Parts {:trigger LaidOut(t, p, d, e)} ::
      LaidOut(t, p, d, e) && ShortestClosest(f, DigitsValue(d), e)
  }

  /** The text of a finite positive number denotes a number that rounds to it, shortest and closest. */
  method PrintShortest(f: Float, k: int, words: nat) returns (t: string, ghost d: seq<nat>, ghost p: Parts)
    requires Finite(f) && Format(f.p, words) && Estimate(f, k) && -0x2000_0000 <= k <= 0x2000_0000
    ensures ShortestText(f, t)
    ensures LaidOut(t, p, d, FirstExponent(f, k) - |d|) && ShortestClosest(f, DigitsValue(d), FirstExponent(f, k) - |d|)
    ensures f.m >= Pow2(f.p - 1) ==> d[0] != 0
  {
    hide LaidOut, ShortestClosest, Finite, Estimate, Reaches;
    var bv, length, e10 := BigintConvert(f, k, words);
    d := Digits(bv, length);
    t, p := BcdToAsciiF(bv, length, e10);
    assert LaidOut(t, p, d, e10);
  }

  /** Whatever number is read from such a text rounds back to f. */
  lemma TextRoundsBack(f: Float, t: string, y: real)
    requires f.p > 1 && ShortestText(f, t) && Denotes(t, y)
    ensures RoundsTo(f, y)
  {
    hide Written, Proper, Denoted, Decimal, Laid;
    var d: seq<nat>, e: int, p: Parts :| LaidOut(t, p, d, e) && ShortestClosest(f, DigitsValue(d), e);
    var q: Parts :| t == Written(q) && Proper(q) && Denoted(q) == y;
    OneReading(p, q);
  }
}
