/** Saturating integer parsers, mina/mina/detail/from_ascii_numeric_i.hpp. */
module IntegerParser {
  import opened Arith
  import opened Bcd
  import opened DecimalPrinter

  datatype Radix = Eight | Ten | Sixteen {
    function Base(): nat { match this case Eight => 8 case Ten => 10 case Sixteen => 16 }
  }

  function ToUpper(c: char): char { if 'a' <= c <= 'z' then (c as int - 32) as char else c }

  predicate InRadix(r: Radix, c: char) {
    match r
    case Eight => '0' <= c <= '7'
    case Ten => '0' <= c <= '9'
    case Sixteen => '0' <= c <= '9' || 'A' <= ToUpper(c) <= 'F'
  }

  /** The digit's value: letters are moved down next to the decimal digits. */
  function DigitIn(r: Radix, c: char): (d: nat)
    requires InRadix(r, c)
    ensures d < r.Base()
  {
    var d := ToUpper(c) as int - '0' as int;
    if d > 9 then d - 7 else d
  }

  // ---------------------------------------------------------------- what a run of digits means

  /** The end of the run of digits from `first` on. */
  function RunEnd(r: Radix, s: string, first: nat): (e: nat)
    requires first <= |s|
    ensures first <= e <= |s| && (forall i :: first <= i < e ==> InRadix(r, s[i])) && (e < |s| ==> !InRadix(r, s[e]))
    decreases |s| - first
  {
    if first < |s| && InRadix(r, s[first]) then RunEnd(r, s, first + 1) else first
  }

  lemma {:induction false} RunEndsAt(r: Radix, s: string, first: nat, e: nat)
    requires first <= e <= |s| && (forall i :: first <= i < e ==> InRadix(r, s[i])) && (e < |s| ==> !InRadix(r, s[e]))
    ensures RunEnd(r, s, first) == e
    decreases e - first
  {
    if first < e { RunEndsAt(r, s, first + 1, e); }
  }

  /** The number a run of digits denotes, however large. */
  function RunValue(r: Radix, s: string, first: nat, e: nat): nat
    requires first <= e <= |s| && forall i :: first <= i < e ==> InRadix(r, s[i])
    decreases e
  {
    if first == e then 0 else r.Base() * RunValue(r, s, first, e - 1) + DigitIn(r, s[e - 1])
  }

  lemma {:induction false} LongerIsLarger(r: Radix, s: string, first: nat, i: nat, e: nat)
    requires first <= i <= e <= |s| && forall j :: first <= j < e ==> InRadix(r, s[j])
    ensures RunValue(r, s, first, i) <= RunValue(r, s, first, e)
    decreases e
  {
    if i < e {
      LongerIsLarger(r, s, first, i, e - 1);
      var v := RunValue(r, s, first, e - 1);
      assert RunValue(r, s, first, e) == r.Base() * v + DigitIn(r, s[e - 1]);
      hide RunValue, InRadix, DigitIn;
      MulMono(1, r.Base(), v);
    }
  }

  /** A digit appended below. */
  function Append(v: int, base: nat, d: nat): int { v * base + d }

  function AppendDown(v: int, base: nat, d: nat): int { v * base - d }

  lemma NextDigit(r: Radix, s: string, first: nat, next: nat, e: nat)
    requires first <= next < e <= |s| && forall j :: first <= j < e ==> InRadix(r, s[j])
    ensures RunValue(r, s, first, next + 1) == Append(RunValue(r, s, first, next), r.Base(), DigitIn(r, s[next]))
    ensures RunValue(r, s, first, next + 1) <= RunValue(r, s, first, e)
    ensures AppendDown(0 - RunValue(r, s, first, next), r.Base(), DigitIn(r, s[next])) == 0 - RunValue(r, s, first, next + 1)
  {
    LongerIsLarger(r, s, first, next + 1, e);
  }

  lemma FirstDigit(r: Radix, s: string, first: nat)
    requires first < |s| && InRadix(r, s[first])
    ensures RunValue(r, s, first, first + 1) == DigitIn(r, s[first]) <= 15
  {
    assert RunValue(r, s, first, first) == 0;
  }

  function Min(a: int, b: int): int { if a <= b then a else b }

  /** The digit loop of the unsigned parsers: the value, or the largest one when it does not fit; all digits are consumed. */
  method ParseRun(r: Radix, s: string, first: nat, vMax: nat) returns (v: nat, next: nat)
    requires first < |s| && InRadix(r, s[first]) && vMax >= 15
    ensures next == RunEnd(r, s, first) && v == Min(RunValue(r, s, first, next), vMax)
  {
    var e := RunEnd(r, s, first);
    v := DigitIn(r, s[first]);
    next := first + 1;
    FirstDigit(r, s, first);
    hide RunValue, DigitIn, Append, InRadix;
    while next < |s| && InRadix(r, s[next])
      invariant first < next <= e && v == RunValue(r, s, first, next) <= vMax
    {
      var d := DigitIn(r, s[next]);
      NextDigit(r, s, first, next, e);
      var fits := FitsNext(r.Base(), v, d, vMax);
      if !fits {
        v := vMax;
        break;
      }
      v := Append(v, r.Base(), d);
      next := next + 1;
    }
    while next < |s| && InRadix(r, s[next])
      invariant first < next <= e && v == Min(RunValue(r, s, first, e), vMax)
    {
      next := next + 1;
    }
  }

  /** The two overflow tests before a digit is taken in. */
  method FitsNext(base: nat, v: nat, d: nat, vMax: nat) returns (fits: bool)
    requires base > 0
    ensures fits <==> Append(v, base, d) <= vMax
  {
    DivBounds(vMax, base);
    if vMax / base < v {
      MulMono(vMax / base + 1, v, base);
      return false;
    }
    MulMono(v, vMax / base, base);
    var next := v * base;
    return vMax - d >= next;
  }

  /** Division rounding toward zero. */
  function TruncDiv(a: int, b: nat): int
    requires b > 0
  {
    if a >= 0 then a / b else -(-a / b)
  }

  /** The digit loop of the negative parsers, counting down to the smallest value. */
  method ParseRunNeg(r: Radix, s: string, first: nat, vMin: int) returns (v: int, next: nat)
    requires first < |s| && InRadix(r, s[first]) && vMin <= -15
    ensures next == RunEnd(r, s, first) && v == -Min(RunValue(r, s, first, next), -vMin)
  {
    var e := RunEnd(r, s, first);
    v := 0 - DigitIn(r, s[first]);
    next := first + 1;
    FirstDigit(r, s, first);
    hide RunValue, DigitIn, AppendDown, InRadix, TruncDiv;
    while next < |s| && InRadix(r, s[next])
      invariant first < next <= e && v == 0 - RunValue(r, s, first, next) >= vMin
    {
      var d := DigitIn(r, s[next]);
      NextDigit(r, s, first, next, e);
      var fits := FitsNextNeg(r.Base(), v, d, vMin);
      if !fits {
        v := vMin;
        break;
      }
      v := AppendDown(v, r.Base(), d);
      next := next + 1;
    }
    while next < |s| && InRadix(r, s[next])
      invariant first < next <= e && v == -Min(RunValue(r, s, first, e), -vMin)
    {
      next := next + 1;
    }
  }

  lemma TruncDivOf(a: int, b: nat)
    requires a <= 0 && b > 0
    ensures TruncDiv(a, b) == -(-a / b)
  {
  }

  method FitsNextNeg(base: nat, v: int, d: nat, vMin: int) returns (fits: bool)
    requires base > 0 && v <= 0 && vMin <= 0
    ensures fits <==> AppendDown(v, base, d) >= vMin
  {
    DivBounds(-vMin, base);
    hide TruncDiv;
    TruncDivOf(vMin, base);
    if TruncDiv(vMin, base) > v {
      MulMono(-vMin / base + 1, -v, base);
      return false;
    }
    MulMono(-v, -vMin / base, base);
    var next := v * base;
    return vMin + d <= next;
  }

  // ---------------------------------------------------------------- the parsers

  datatype Literal = NoLiteral | Literal(radix: Radix, start: nat, end: nat)

  /** What stands at `first`: a decimal run, or after a zero a hexadecimal run behind an x, an octal run of at least one
    * digit, or nothing more. A zero followed by anything else is no literal. */
  function LiteralAt(s: string, first: nat): (l: Literal)
    requires first <= |s|
    ensures l.Literal? ==> first <= l.start <= l.end <= |s| && forall i :: l.start <= i < l.end ==> InRadix(l.radix, s[i])
  {
    if first == |s| then NoLiteral
    else if s[first] != '0' then
      if InRadix(Ten, s[first]) then Literal(Ten, first, RunEnd(Ten, s, first)) else NoLiteral
    else if first + 1 == |s| then Literal(Ten, first, first)
    else if ToUpper(s[first + 1]) == 'X' then
      if first + 2 < |s| && InRadix(Sixteen, s[first + 2]) then Literal(Sixteen, first + 2, RunEnd(Sixteen, s, first + 2)) else NoLiteral
    else if InRadix(Eight, s[first + 1]) then Literal(Eight, first + 1, RunEnd(Eight, s, first + 1))
    else NoLiteral
  }

  function LiteralValue(s: string, first: nat): nat
    requires first <= |s| && LiteralAt(s, first).Literal?
  {
    var l := LiteralAt(s, first);
    RunValue(l.radix, s, l.start, l.end)
  }

  /** The value, or the largest one, of a literal; a lone zero is accepted but not consumed. */
  method ParseU(s: string, first: nat, vMax: nat) returns (ok: bool, v: nat, next: nat)
    requires first <= |s| && vMax >= 15
    ensures ok == LiteralAt(s, first).Literal?
    ensures ok ==> v == Min(LiteralValue(s, first), vMax) && next == LiteralAt(s, first).end
    ensures !ok ==> next == first
  {
    ok, v, next := false, 0, first;
    if first == |s| { return; }
    if s[first] != '0' {
      if !InRadix(Ten, s[first]) { return; }
      v, next := ParseRun(Ten, s, first, vMax);
      return true, v, next;
    }
    if first + 1 == |s| { return true, 0, first; }
    var c := s[first + 1];
    if c == 'b' || c == 'B' {
      if first + 2 == |s| { return; }
      var d := s[first + 2];
      if d != '0' || d != '1' { return; }
      assert false;
    } else if c == 'x' || c == 'X' {
      if first + 2 == |s| || !InRadix(Sixteen, s[first + 2]) { return; }
      v, next := ParseRun(Sixteen, s, first + 2, vMax);
      return true, v, next;
    } else if '0' <= c <= '7' {
      v, next := ParseRun(Eight, s, first + 1, vMax);
      return true, v, next;
    }
  }

  method ParseNeg(s: string, first: nat, vMin: int) returns (ok: bool, v: int, next: nat)
    requires first <= |s| && vMin <= -15
    ensures ok == LiteralAt(s, first).Literal?
    ensures ok ==> v == -Min(LiteralValue(s, first), -vMin) && next == LiteralAt(s, first).end
    ensures !ok ==> next == first
  {
    ok, v, next := false, 0, first;
    if first == |s| { return; }
    if s[first] != '0' {
      if !InRadix(Ten, s[first]) { return; }
      v, next := ParseRunNeg(Ten, s, first, vMin);
      return true, v, next;
    }
    if first + 1 == |s| { return true, 0, first; }
    var c := s[first + 1];
    if c == 'b' || c == 'B' {
      if first + 2 == |s| { return; }
      var d := s[first + 2];
      if d != '0' || d != '1' { return; }
      assert false;
    } else if c == 'x' || c == 'X' {
      if first + 2 == |s| || !InRadix(Sixteen, s[first + 2]) { return; }
      v, next := ParseRunNeg(Sixteen, s, first + 2, vMin);
      return true, v, next;
    } else if '0' <= c <= '7' {
      v, next := ParseRunNeg(Eight, s, first + 1, vMin);
      return true, v, next;
    }
  }

  function Clamp(x: int, lo: int, hi: int): int { if x < lo then lo else if x > hi then hi else x }

  /** Where a literal starts after an optional sign. */
  function AfterSign(s: string, first: nat): (a: nat)
    requires first <= |s|
    ensures first <= a <= |s|
  {
    if first < |s| && (s[first] == '-' || s[first] == '+') then first + 1 else first
  }

  /** A signed literal: its value cut off at both ends of the type; nothing is consumed when there is none. */
  method ParseS(s: string, first: nat, vMin: int, vMax: nat) returns (ok: bool, v: int, next: nat)
    requires first <= |s| && vMax >= 15 && vMin <= -15
    ensures ok == LiteralAt(s, AfterSign(s, first)).Literal?
    ensures ok ==> next == LiteralAt(s, AfterSign(s, first)).end
    ensures ok ==> var n := LiteralValue(s, AfterSign(s, first)); v == Clamp(if s[first] == '-' then 0 - n else n, vMin, vMax)
    ensures !ok ==> next == first
  {
    ok, v, next := false, 0, first;
    if first == |s| { return; }
    var sign := s[first] == '-';
    var at := if sign || s[first] == '+' then first + 1 else first;
    if sign {
      ok, v, next := ParseNeg(s, at, vMin);
    } else {
      ok, v, next := ParseU(s, at, vMax);
    }
    if !ok { next := first; }
  }

  // ---------------------------------------------------------------- reading back what was printed

  lemma {:induction false} RunIsText(t: string, e: nat)
    requires AllDigits(t) && e <= |t|
    ensures (forall i :: 0 <= i < e ==> InRadix(Ten, t[i])) && RunValue(Ten, t, 0, e) == DigitsValue(Digits10(t)[..e])
  {
    if e > 0 {
      RunIsText(t, e - 1);
      var d := Digits10(t);
      assert d[..e][..e - 1] == d[..e - 1];
    }
  }

  /** A printed number is read back as it was, and nothing else is in its text; a lone zero is left in place. */
  lemma PrintedIsRead(t: string)
    requires Canonical(t)
    ensures LiteralAt(t, 0).Literal? && LiteralValue(t, 0) == TextValue(t)
    ensures LiteralAt(t, 0).end == if t == "0" then 0 else |t|
  {
    RunIsText(t, |t|);
    assert Digits10(t)[..|t|] == Digits10(t);
    if t[0] != '0' {
      RunEndsAt(Ten, t, 0, |t|);
    } else {
      assert Digits10(t) == [0] && DigitsValue([0]) == 0;
    }
  }

  lemma ZeroIsAlone(t: string)
    requires Canonical(t)
    ensures TextValue(t) == 0 <==> t == "0"
  {
    assert Digits10("0") == [0] && DigitsValue([0]) == 0;
    if TextValue(t) == 0 { CanonicalUnique(t, "0"); }
  }

  method PrintThenParse(v: nat, bits: nat) returns (t: string, ok: bool, w: nat, next: nat)
    requires bits in {8, 16, 32, 64, 128} && v < Pow(2, bits)
    ensures t == Spelled(v, "0123456789") && ok && w == v && next == if v == 0 then 0 else |t|
  {
    TwoPowers();
    var vMax := Pow(2, bits) - 1;
    hide Pow, Canonical, TextValue;
    if bits == 8 { t := PrintU8(v); }
    else if bits == 16 { t := PrintU16(v); }
    else if bits == 32 { t := PrintU32(v); }
    else if bits == 64 { t := PrintU64(v); }
    else { t := PrintU128(v); }
    PrintedIsRead(t);
    ZeroIsAlone(t);
    CanonicalIsSpelled(t);
    ok, w, next := ParseU(t, 0, vMax);
  }

  lemma TwoPowers()
    ensures Pow(2, 8) == 0x100 && Pow(2, 16) == 0x1_0000 && Pow(2, 32) == 0x1_0000_0000
    ensures Pow(2, 64) == 0x1_0000_0000_0000_0000 && Pow(2, 128) == 0x1_0000_0000_0000_0000_0000_0000_0000_0000
  {
    assert Pow(2, 8) == 0x100;
    hide Pow;
    PowAdd(2, 8, 8);
    PowAdd(2, 16, 16);
    PowAdd(2, 32, 32);
    PowAdd(2, 64, 64);
  }
}
