/** Integers to decimal text by multiplication and shifting, mina/mina/detail/to_ascii_decimal_u.hpp. */
module DecimalPrinter {
  import opened Arith
  import opened Limbs
  import opened Bcd

  // ---------------------------------------------------------------- decimal text

  predicate IsDigit(c: char) { '0' <= c <= '9' }

  function DigitOf(c: char): int { c as int - '0' as int }

  function DigitChar(d: nat): (c: char)
    requires d <= 9
    ensures IsDigit(c) && DigitOf(c) == d && c == "0123456789"[d]
  {
    ('0' as int + d) as char
  }

  predicate AllDigits(t: string) { forall i :: 0 <= i < |t| ==> IsDigit(t[i]) }

  function Digits10(t: string): (d: seq<nat>)
    requires AllDigits(t)
    ensures |d| == |t|
  {
    seq(|t|, i requires 0 <= i < |t| => DigitOf(t[i]))
  }

  /** The number a text of digits denotes. */
  function TextValue(t: string): nat
    requires AllDigits(t)
  {
    DigitsValue(Digits10(t))
  }

  /** No leading zero, but for the zero itself. */
  predicate Canonical(t: string) { |t| > 0 && AllDigits(t) && (|t| > 1 ==> t[0] != '0') }

  lemma {:induction false} LeadingDigit(d: seq<nat>)
    requires DecimalDigits(d) && |d| > 0
    ensures DigitsValue(d) < Pow(10, |d|) && (d[0] > 0 ==> DigitsValue(d) >= Pow(10, |d| - 1))
  {
    var init := d[..|d| - 1];
    if init == [] {
      assert Pow(10, 0) == 1;
    } else {
      LeadingDigit(init);
    }
  }

  lemma {:induction false} SameDigits(d: seq<nat>, e: seq<nat>)
    requires DecimalDigits(d) && DecimalDigits(e) && |d| == |e| && DigitsValue(d) == DigitsValue(e)
    ensures d == e
  {
    if d != [] {
      var n := |d| - 1;
      SameDigits(d[..n], e[..n]);
      assert d == d[..n] + [d[n]] && e == e[..n] + [e[n]];
    }
  }

  /** A number has one canonical text. */
  lemma CanonicalUnique(s: string, t: string)
    requires Canonical(s) && Canonical(t) && TextValue(s) == TextValue(t)
    ensures s == t
  {
    var d, e := Digits10(s), Digits10(t);
    LeadingDigit(d);
    LeadingDigit(e);
    if |d| < |e| { PowMono(10, |d|, |e| - 1); } else if |e| < |d| { PowMono(10, |e|, |d| - 1); }
    assert |d| == |e|;
    SameDigits(d, e);
    forall i | 0 <= i < |s| ensures s[i] == t[i] { assert d[i] == e[i]; }
  }

  /** The numeral of n with the digits of an alphabet, as many as its base. */
  function Spelled(n: nat, alphabet: string): (t: string)
    requires |alphabet| > 1
    ensures |t| > 0
    decreases n
  {
    if n < |alphabet| then [alphabet[n]]
    else Spelled(Upper(n, |alphabet|), alphabet) + [alphabet[Last(n, |alphabet|)]]
  }

  lemma {:induction false} SpelledIsCanonical(n: nat)
    ensures var t := Spelled(n, "0123456789"); Canonical(t) && TextValue(t) == n && (n > 0 ==> t[0] != '0')
  {
    hide Upper, Last;
    var t := Spelled(n, "0123456789");
    if n < 10 {
      assert Digits10(t) == [n] && DigitsValue([n]) == n;
    } else {
      var u, d := Spelled(Upper(n, 10), "0123456789"), Last(n, 10);
      UpperLast(n, 10);
      SpelledIsCanonical(Upper(n, 10));
      assert t == u + [DigitChar(d)];
      assert Digits10(t) == Digits10(u) + [d];
      PushDigit(Digits10(u), d);
    }
  }

  /** A canonical text is the numeral of its number. */
  lemma CanonicalIsSpelled(t: string)
    requires Canonical(t)
    ensures t == Spelled(TextValue(t), "0123456789")
  {
    SpelledIsCanonical(TextValue(t));
    CanonicalUnique(t, Spelled(TextValue(t), "0123456789"));
  }

  // ---------------------------------------------------------------- decimal digits of a number

  /** The last k decimal digits of x. */
  function Dec(x: nat, k: nat): (d: seq<nat>)
    ensures |d| == k
  {
    if k == 0 then [] else Dec(x / 10, k - 1) + [x % 10]
  }

  lemma {:induction false} DecValue(x: nat, k: nat)
    requires x < Pow(10, k)
    ensures DecimalDigits(Dec(x, k)) && DigitsValue(Dec(x, k)) == x
  {
    if k > 0 {
      DecValue(x / 10, k - 1);
      assert Dec(x, k)[..k - 1] == Dec(x / 10, k - 1);
    }
  }

  lemma {:induction false} DecDigits(x: nat, k: nat)
    ensures DecimalDigits(Dec(x, k))
  {
    if k > 0 { DecDigits(x / 10, k - 1); }
  }

  /** Higher digits do not show in the lower ones. */
  lemma {:induction false} DecLow(x: nat, y: nat, k: nat)
    ensures Dec(x + y * Pow(10, k), k) == Dec(x, k)
  {
    if k > 0 {
      var P := Pow(10, k - 1);
      MulAssoc(y, 10, P);
      MulSwap(y, 10, P);
      TenShift(x, y * P);
      DecLow(x / 10, y, k - 1);
    }
  }

  lemma TenShift(x: nat, z: nat)
    ensures (x + z * 10) / 10 == x / 10 + z && (x + z * 10) % 10 == x % 10
  {
  }

  /** Digits of a number in two parts. */
  lemma {:induction false} DecSplit(x: nat, a: nat, b: nat)
    ensures Dec(x, a + b) == Dec(x / Pow(10, b), a) + Dec(x, b)
  {
    if b == 0 {
      assert Pow(10, 0) == 1;
    } else {
      DecSplit(x / 10, a, b - 1);
      DivDiv(x, 10, Pow(10, b - 1));
    }
  }

  lemma {:induction false} NumeralJoin(c: seq<nat>, d: seq<nat>)
    ensures Numeral(c + d) == Times(Numeral(c), Pow2(4 * |d|)) + Numeral(d)
  {
    if d == [] {
      assert c + d == c;
      TimesFacts(1, Numeral(c));
    } else {
      var n := |d| - 1;
      assert (c + d)[..|c + d| - 1] == c + d[..n];
      NumeralJoin(c, d[..n]);
      Sixteen(4 * n);
      SixteenTimes(Numeral(c), Pow2(4 * n));
    }
  }

  lemma {:induction false} NumeralBelow(d: seq<nat>)
    requires Nibbles(d)
    ensures Numeral(d) < Pow2(4 * |d|)
  {
    if d != [] {
      NumeralBelow(d[..|d| - 1]);
      Sixteen(4 * (|d| - 1));
    }
  }

  // ---------------------------------------------------------------- division by multiplication

  /** M / S stands in for 1 / d while the excess of M * d over S stays below what a remainder leaves. */
  lemma MagicQuotient(n: nat, d: nat, M: nat, S: nat, e: nat)
    requires d > 0 && M * d == S + e && S > 0 && n / d * e + (d - 1) * M < S
    ensures n * M / S == n / d
  {
    var q, r := n / d, n % d;
    DivBounds(n, d);
    MulEq(n, q * d + r, M);
    MulAdd(q * d, r, M);
    MulSwap(q, d, M);
    MulAssoc(q, M, d);
    MulAddTo(q, S, e);
    MulMono(r, d - 1, M);
    MulMono2(0, q, 0, e);
    MulMono2(0, r, 0, M);
    DivUnique(n * M, S, q, q * e + r * M);
  }

  lemma MulAddTo(q: nat, S: nat, e: nat)
    ensures q * (S + e) == q * S + q * e
  {
  }

  function Hundreds(n: nat): nat { n / 100 }

  function Rest100(n: nat): (r: nat)
    ensures r < 100
  {
    n % 100
  }

  /** 0x29 >> 12 divides bytes by 100. */
  function Magic8(n: nat): nat { n * 0x29 / 0x1000 }

  /** 0x47af, with the 17th bit of the multiplier added separately, then >> 7, divides 16-bit numbers by 100. */
  function Magic16(n: nat): nat { (n * 0x47af / 0x1_0000 % 0x1_0000 + n) / 0x80 % 0x1_0000 }

  /** 0x51eb851f >> 37 divides 32-bit numbers by 100. */
  function Magic32(n: nat): nat { n * 0x51eb851f / 0x20_0000_0000 }

  lemma Hundredth8(n: nat)
    requires n < 0x100
    ensures Magic8(n) == Hundreds(n) <= n && n - Magic8(n) * 100 == Rest100(n)
  {
    MagicQuotient(n, 100, 0x29, 0x1000, 4);
  }

  lemma Hundredth16(n: nat)
    requires n < 0x1_0000
    ensures Magic16(n) == Hundreds(n) <= n && n - Magic16(n) * 100 == Rest100(n)
  {
    MagicQuotient(n, 100, 0x1_47af, 0x80_0000, 92);
    AddedBit(n, n * 0x47af / 0x1_0000);
    SmallWord(n, n * 0x47af / 0x1_0000);
  }

  lemma AddedBit(n: nat, h: nat)
    requires h == n * 0x47af / 0x1_0000
    ensures (h + n) / 0x80 == n * 0x1_47af / 0x80_0000
  {
    DivBounds(n * 0x47af, 0x1_0000);
    DivUnique(n * 0x1_47af, 0x1_0000, h + n, n * 0x47af % 0x1_0000);
    DivDiv(n * 0x1_47af, 0x1_0000, 0x80);
  }

  lemma SmallWord(n: nat, h: nat)
    requires n < 0x1_0000 && h == n * 0x47af / 0x1_0000
    ensures h % 0x1_0000 == h && (h + n) / 0x80 % 0x1_0000 == (h + n) / 0x80
  {
  }

  lemma Hundredth32(n: nat)
    requires n < 0x1_0000_0000
    ensures Magic32(n) == Hundreds(n) <= n && n - Magic32(n) * 100 == Rest100(n)
  {
    MagicQuotient(n, 100, 0x51eb851f, 0x20_0000_0000, 28);
  }

  const TEN_8: nat := 100_000_000

  /** 0xabcc77118461cefd >> 90 divides by 10^8 everything below 2^64; the product fits 128 bits. */
  function MagicTen8(n: nat): nat { n * 0xabcc77118461cefd / 0x400_0000_0000_0000_0000_0000 }

  lemma TenMillionth(n: nat)
    requires n < 0x1_0000_0000_0000_0000
    ensures MagicTen8(n) == n / TEN_8 && n - MagicTen8(n) * TEN_8 == n % TEN_8 < TEN_8
    ensures n * 0xabcc77118461cefd < 0x1_0000_0000_0000_0000_0000_0000_0000_0000
  {
    MagicQuotient(n, TEN_8, 0xabcc77118461cefd, 0x400_0000_0000_0000_0000_0000, 875776);
  }

  // ---------------------------------------------------------------- digits into words

  /** The table of two-digit codes. */
  function DigitPair(x: nat): nat
    requires x < 100
  {
    x / 10 * 16 + x % 10
  }

  lemma TwoDigits(y: nat)
    ensures Dec(y, 2) == [y / 10 % 10, y % 10]
  {
    assert Dec(y / 10, 1) == [] + [y / 10 % 10];
  }

  lemma NumeralOfTwo(a: nat, b: nat)
    ensures Numeral([a, b]) == a * 16 + b
  {
    assert [a, b][..1] == [a] && [a][..0] == [];
    assert Numeral([a]) == a;
  }

  lemma PairNumeral(y: nat)
    ensures Numeral(Dec(y, 2)) == DigitPair(Rest100(y))
  {
    TwoDigits(y);
    PairParts(y);
    hide Dec, Rest100, Numeral;
    NumeralOfTwo(y / 10 % 10, y % 10);
  }

  lemma PairParts(y: nat)
    ensures Rest100(y) / 10 == y / 10 % 10 && Rest100(y) % 10 == y % 10
  {
    var q, r := y / 100, y % 100;
    assert y == 100 * q + r && r < 100;
    DivUnique(y, 10, 10 * q + r / 10, r % 10);
    DivUnique(10 * q + r / 10, 10, q, r / 10);
  }

  /** x without its last k digits. */
  function Above(x: nat, k: nat): nat { x / Pow(10, k) }

  /** Two more digits above those already in the word. */
  lemma PairStep(x: nat, k: nat, s: nat, y: nat, pair: nat, word: nat, z: nat)
    requires word == Numeral(Dec(x, k)) && y == Above(x, k) && s == 4 * k
    requires pair == DigitPair(Rest100(y)) && z == Times(pair, Pow2(s))
    ensures BitOr(z, word) == Numeral(Dec(x, k + 2)) && Hundreds(y) == Above(x, k + 2)
  {
    hide Pow2, BitOr, Times, Dec, Numeral, DigitPair;
    DecSplit(x, 2, k);
    assert 2 + k == k + 2;
    NumeralJoin(Dec(y, 2), Dec(x, k));
    PairNumeral(y);
    DecDigits(x, k);
    NumeralBelow(Dec(x, k));
    OrDisjoint(pair, s, word, z);
    assert Pow(10, k + 2) == 100 * Pow(10, k);
    hide Pow;
    DivDiv(x, Pow(10, k), 100);
  }

  lemma NoDigits(x: nat)
    ensures Numeral(Dec(x, 0)) == 0 && Above(x, 0) == x
  {
  }

  /** Ors the code of two digits into the word. */
  method TakePair(ghost v: nat, ghost k: nat, s: nat, two: nat, word: nat, ghost xv: nat) returns (rv: nat)
    requires word == Numeral(Dec(v, k)) && xv == Above(v, k) && s == 4 * k && two == Rest100(xv)
    ensures rv == Numeral(Dec(v, k + 2)) && Hundreds(xv) == Above(v, k + 2)
  {
    hide *;
    var pair := DigitPair(two);
    var z := Times(pair, Pow2(s));
    PairStep(v, k, s, xv, pair, word, z);
    rv := BitOr(z, word);
  }

  lemma AboveSmall(v: nat)
    ensures v < 0x1_0000 ==> Above(v, 4) < 10
    ensures v < 0x1_0000_0000 ==> Above(v, 8) < 100
  {
    assert Pow(10, 4) == 10_000;
    assert Pow(10, 8) == 100_000_000;
  }

  lemma SmallRest(x: nat)
    requires x < 100
    ensures Rest100(x) == x && (x < 10 ==> DigitPair(x) == x)
  {
  }

  /** to_bcd for 16 bits: two pairs, then what is left. */
  method ToBcd16(v: nat) returns (rv: nat)
    requires v < 0x1_0000
    ensures rv == Numeral(Dec(v, 6))
  {
    NoDigits(v);
    AboveSmall(v);
    hide *;
    var xv, s: nat := v, 0;
    rv := 0;
    ghost var k: nat := 0;
    while s < 16
      invariant s == 4 * k && k in {0, 2, 4} && rv == Numeral(Dec(v, k)) && xv == Above(v, k) <= v
    {
      Hundredth16(xv);
      var acc := Magic16(xv);
      rv := TakePair(v, k, s, xv - acc * 100, rv, xv);
      xv := acc;
      s, k := s + 8, k + 2;
    }
    SmallRest(xv);
    rv := TakePair(v, 4, 16, xv, rv, xv);
  }

  /** to_bcd for 32 bits: the upper two digits and the lower eight. */
  method ToBcd32(v: nat) returns (hi: nat, lo: nat)
    requires v < 0x1_0000_0000
    ensures lo == Numeral(Dec(v, 8)) && hi == Numeral(Dec(Above(v, 8), 2))
  {
    NoDigits(v);
    AboveSmall(v);
    hide *;
    var xv, s: nat := v, 0;
    lo := 0;
    ghost var k: nat := 0;
    while s < 32
      invariant s == 4 * k && k in {0, 2, 4, 6, 8} && lo == Numeral(Dec(v, k)) && xv == Above(v, k) <= v
    {
      Hundredth32(xv);
      var acc := Magic32(xv);
      lo := TakePair(v, k, s, xv - acc * 100, lo, xv);
      xv := acc;
      s, k := s + 8, k + 2;
    }
    SmallRest(xv);
    PairNumeral(xv);
    hi := DigitPair(xv);
  }

  // ---------------------------------------------------------------- words into text

  /** The text so far denotes the first k digits and does not start with a zero. */
  ghost predicate Emitted(t: string, d: seq<nat>, k: nat) {
    && k <= |d| && AllDigits(t) && TextValue(t) == DigitsValue(d[..k]) && (t != "" ==> t[0] != '0')
  }

  lemma EmitDigit(t: string, d: seq<nat>, k: nat, c: char)
    requires Emitted(t, d, k) && k < |d| && d[k] <= 9 && (t != "" || d[k] > 0) && c == DigitChar(d[k])
    ensures Emitted(t + [c], d, k + 1)
  {
    var u := t + [c];
    assert d[..k + 1][..k] == d[..k];
    assert Digits10(u)[..|t|] == Digits10(t) && Digits10(u)[|t|] == d[k];
  }

  lemma SkipZeros(d: seq<nat>, k: nat, n: nat)
    requires Emitted("", d, k) && k + n <= |d| && forall i :: k <= i < k + n ==> d[i] == 0
    ensures Emitted("", d, k + n)
    decreases n
  {
    if n > 0 {
      assert d[..k + 1][..k] == d[..k];
      SkipZeros(d, k + 1, n - 1);
    }
  }

  lemma {:induction false} ZeroNumeral(c: seq<nat>)
    requires Numeral(c) == 0
    ensures forall i :: 0 <= i < |c| ==> c[i] == 0
  {
    if c != [] { ZeroNumeral(c[..|c| - 1]); }
  }

  lemma {:induction false} ZerosNumeral(c: seq<nat>)
    requires forall i :: 0 <= i < |c| ==> c[i] == 0
    ensures Numeral(c) == 0
  {
    if c != [] { ZerosNumeral(c[..|c| - 1]); }
  }

  lemma OrThree(f: nat)
    ensures BitOr(f, 3) == f - f % 4 + 3
  {
    assert BitOr(f / 2, 1) == f / 2 - f / 2 % 2 + 1;
  }

  /** Nibbles above the highest set bit are zero. */
  lemma NibblesAbove(c: seq<nat>, w: nat, f: nat, q: nat)
    requires Nibbles(c) && |c| == 8 && w == Numeral(c) < Pow2(f + 1) && q == f / 4 <= 7
    ensures forall j :: 0 <= j < 7 - q ==> c[j] == 0
  {
    hide Numeral, Pow2;
    var j := 7 - q;
    Pow2Mono(f + 1, 4 * (8 - j));
    var low := NumeralTake(c, j);
    TopZero(w, Numeral(c[..j]), Pow2(4 * (8 - j)), low);
    ZeroNumeral(c[..j]);
    forall i | 0 <= i < j ensures c[i] == 0 { assert c[..j][i] == 0; }
  }

  /** The nibble of the highest set bit is not zero. */
  lemma NibbleAt(c: seq<nat>, w: nat, f: nat, q: nat)
    requires Nibbles(c) && |c| == 8 && w == Numeral(c) && Pow2(f) <= w < Pow2(f + 1) && q == f / 4 <= 7
    ensures c[7 - q] != 0
  {
    hide Numeral, Pow2;
    NibblesAbove(c, w, f, q);
    var j := 7 - q;
    Pow2Mono(4 * q, f);
    var low := NumeralTake(c, j + 1);
    TopNonzero(w, Numeral(c[..j + 1]), Pow2(4 * (7 - j)), low);
    if c[j] == 0 { ZerosNumeral(c[..j + 1]); }
  }

  /** The highest set bit tells the first nonzero nibble. */
  lemma FirstNibble(c: seq<nat>, f: nat, q: nat)
    requires Nibbles(c) && |c| == 8 && Numeral(c) != 0 && f == BitLen(Numeral(c)) - 1 && q == f / 4
    ensures q <= 7 && (forall j :: 0 <= j < 7 - q ==> c[j] == 0) && c[7 - q] != 0
  {
    hide BitLen, Numeral, Pow2, Nibbles;
    var w, j := Numeral(c), 7 - q;
    BitLenBounds(w);
    NumeralBelow(c);
    PowLess(f, 32);
    NibblesAbove(c, w, f, q);
    NibbleAt(c, w, f, q);
  }

  lemma Pow2Mono(m: nat, n: nat)
    requires m <= n
    ensures Pow2(m) <= Pow2(n)
  {
    PowMono(2, m, n);
  }

  lemma TopZero(w: nat, head: nat, P: nat, low: nat)
    requires w == Times(head, P) + low && w < P
    ensures head == 0
  {
    if head > 0 { MulMono(1, head, P); }
  }

  lemma TopNonzero(w: nat, head: nat, P: nat, low: nat)
    requires w == Times(head, P) + low && low < P <= w
    ensures head > 0
  {
  }

  lemma WordNibble(c: seq<nat>, j: nat)
    requires Nibbles(c) && |c| == 8 && j < 8
    ensures Nibble(Numeral(c), j) == c[j]
  {
    ReadsBack(c, j);
    TimesFacts(1, Numeral(c));
  }

  ghost predicate WordsHold(v: seq<nat>, d: seq<nat>) {
    && |d| == 8 * |v| && DecimalDigits(d)
    && forall i {:trigger v[i]} :: 0 <= i < |v| ==> v[i] == Numeral(d[8 * i..8 * i + 8])
  }

  /** One word, from nibble `from` on. */
  method EmitWord(t: string, w: nat, from: nat, ghost d: seq<nat>, ghost k: nat) returns (u: string)
    requires k + 8 <= |d| && DecimalDigits(d) && w == Numeral(d[k..k + 8]) && from < 8
    requires Emitted(t, d, k + from) && (t != "" || d[k + from] > 0)
    ensures Emitted(u, d, k + 8) && u != ""
  {
    u := t;
    ghost var c := d[k..k + 8];
    assert Nibbles(c);
    hide Emitted, Numeral, Nibble;
    var j := from;
    while j < 8
      invariant from <= j <= 8 && Emitted(u, d, k + j) && (u != "" || (j == from && d[k + from] > 0))
    {
      WordNibble(c, j);
      assert c[j] == d[k + j];
      EmitDigit(u, d, k + j, DigitChar(Nibble(w, j)));
      u := u + [DigitChar(Nibble(w, j))];
      j := j + 1;
    }
  }

  lemma WholeDigits(t: string, d: seq<nat>)
    requires Emitted(t, d, |d|)
    ensures t != "" ==> Canonical(t) && TextValue(t) == DigitsValue(d)
    ensures t == "" ==> Canonical("0") && TextValue("0") == DigitsValue(d) == 0
  {
    assert d[..|d|] == d;
    assert Digits10("0") == [0] && DigitsValue([0]) == 0;
  }

  /** The text of packed digits without leading zeros. */
  method BcdToAsciiU(v: seq<nat>, ghost d: seq<nat>) returns (t: string)
    requires WordsHold(v, d)
    ensures Canonical(t) && TextValue(t) == DigitsValue(d)
  {
    var i := 0;
    t := "";
    assert d[..0] == [];
    while i < |v|
      invariant 0 <= i <= |v| && Emitted(t, d, 8 * i)
    {
      t := NextWord(t, v[i], d, 8 * i);
      i := i + 1;
    }
    WholeDigits(t, d);
    if t == "" {
      t := "0";
    }
  }

  /** A word after leading zeros starts at its first nonzero nibble, any other at its first. */
  method NextWord(t: string, w: nat, ghost d: seq<nat>, ghost k: nat) returns (u: string)
    requires k + 8 <= |d| && DecimalDigits(d) && w == Numeral(d[k..k + 8]) && Emitted(t, d, k)
    ensures Emitted(u, d, k + 8)
  {
    ghost var c := d[k..k + 8];
    assert Nibbles(c);
    hide Emitted, Numeral, BitLen;
    if t != "" {
      u := EmitWord(t, w, 0, d, k);
    } else if w != 0 {
      var from := FirstDigitOf(w, c);
      forall i | k <= i < k + from ensures d[i] == 0 { assert c[i - k] == 0; }
      assert c[from] == d[k + from];
      SkipZeros(d, k, from);
      u := EmitWord(t, w, from, d, k);
    } else {
      ZeroNumeral(c);
      forall i | k <= i < k + 8 ensures d[i] == 0 { assert c[i - k] == 0; }
      SkipZeros(d, k, 8);
      u := t;
    }
  }

  /** The place of the first nonzero nibble, from the highest set bit. */
  method FirstDigitOf(w: nat, ghost c: seq<nat>) returns (from: nat)
    requires Nibbles(c) && |c| == 8 && w == Numeral(c) && w != 0
    ensures from <= 7 && (forall j :: 0 <= j < from ==> c[j] == 0) && c[from] != 0
  {
    hide Numeral, BitLen;
    var f := BitLen(w) - 1;
    LenPositive(w);
    OrThree(f);
    var shift := BitOr(f, 3) - 3;
    FirstNibble(c, f, f / 4);
    from := 7 - shift / 4;
  }

  lemma LenPositive(w: nat)
    requires w > 0
    ensures BitLen(w) > 0
  {
  }

  // ---------------------------------------------------------------- the printers

  lemma {:induction false} DecZero(k: nat)
    ensures forall i :: 0 <= i < k ==> Dec(0, k)[i] == 0
  {
    if k > 0 { DecZero(k - 1); }
  }

  /** Places above the number hold zeros. */
  lemma Padded(x: nat, k: nat, m: nat)
    requires x < Pow(10, k) && k <= m
    ensures Numeral(Dec(x, m)) == Numeral(Dec(x, k))
  {
    DecSplit(x, m - k, k);
    DecZero(m - k);
    hide Dec, Numeral, Pow;
    DivUnique(x, Pow(10, k), 0, x);
    ZerosNumeral(Dec(0, m - k));
    NumeralJoin(Dec(0, m - k), Dec(x, k));
    TimesZero(Pow2(4 * k));
  }

  lemma TimesZero(a: nat)
    ensures Times(0, a) == 0
  {
  }

  lemma EightDigits(x: nat)
    requires x < 0x1_0000_0000
    ensures Pow(10, 8) == TEN_8
    ensures x < 0x100 ==> x < Pow(10, 4)
    ensures x < 0x1_0000 ==> x < Pow(10, 6)
    ensures Above(x, 8) < Pow(10, 2) && x < Pow(10, 16)
  {
    AboveSmall(x);
    assert Pow(10, 4) == 10_000;
    assert Pow(10, 8) == 100_000_000;
    PowMono(10, 8, 16);
    assert Pow(10, 6) == 1_000_000 && Pow(10, 2) == 100;
    PowAdd(10, 8, 8);
  }

  lemma OneWordHolds(x: nat, k: nat, w: nat)
    requires x < Pow(10, k) && k <= 8 && w == Numeral(Dec(x, k))
    ensures WordsHold([w], Dec(x, 8)) && DigitsValue(Dec(x, 8)) == x
  {
    Padded(x, k, 8);
    PowMono(10, k, 8);
    DecValue(x, 8);
    assert Dec(x, 8)[0..8] == Dec(x, 8);
    hide Dec, Numeral, Pow;
  }

  method PrintU8(v: nat) returns (t: string)
    requires v < 0x100
    ensures Canonical(t) && TextValue(t) == v
  {
    Hundredth8(v);
    NoDigits(v);
    EightDigits(v);
    hide *;
    var q := Magic8(v);
    var w := TakePair(v, 0, 0, v - q * 100, 0, v);
    SmallHundreds(v);
    SmallRest(q);
    w := TakePair(v, 2, 8, q, w, q);
    OneWordHolds(v, 4, w);
    t := BcdToAsciiU([w], Dec(v, 8));
  }

  lemma SmallHundreds(v: nat)
    requires v < 0x100
    ensures Hundreds(v) < 10
  {
  }

  method PrintU16(v: nat) returns (t: string)
    requires v < 0x1_0000
    ensures Canonical(t) && TextValue(t) == v
  {
    EightDigits(v);
    hide *;
    var w := ToBcd16(v);
    OneWordHolds(v, 6, w);
    t := BcdToAsciiU([w], Dec(v, 8));
  }

  /** A word put above words that hold the lower digits. */
  lemma WordAbove(w: nat, v: seq<nat>, c: seq<nat>, d: seq<nat>)
    requires WordsHold(v, d) && |c| == 8 && DecimalDigits(c) && w == Numeral(c)
    ensures WordsHold([w] + v, c + d)
  {
    hide Numeral;
    var u, e := [w] + v, c + d;
    forall i | 0 <= i < |u| ensures u[i] == Numeral(e[8 * i..8 * i + 8]) {
      if i == 0 {
        assert e[0..8] == c;
      } else {
        assert e[8 * i..8 * i + 8] == d[8 * (i - 1)..8 * (i - 1) + 8];
      }
    }
  }

  method PrintU32(v: nat) returns (t: string)
    requires v < 0x1_0000_0000
    ensures Canonical(t) && TextValue(t) == v
  {
    EightDigits(v);
    hide Dec, Numeral, Pow, Above, Canonical, TextValue, WordsHold;
    var hi, lo := ToBcd32(v);
    ghost var x := Above(v, 8);
    Padded(x, 2, 8);
    DecSplit(v, 8, 8);
    AboveIs(v, 8);
    DecDigits(x, 8);
    DecDigits(v, 8);
    WordAlone(lo, Dec(v, 8));
    WordAbove(hi, [lo], Dec(x, 8), Dec(v, 8));
    DecValue(v, 16);
    t := BcdToAsciiU([hi] + [lo], Dec(v, 16));
  }

  lemma AboveIs(x: nat, k: nat)
    ensures Above(x, k) == x / Pow(10, k)
  {
  }

  lemma WordAlone(w: nat, c: seq<nat>)
    requires |c| == 8 && DecimalDigits(c) && w == Numeral(c)
    ensures WordsHold([w], c)
  {
    assert c[0..8] == c;
  }

  // ---------------------------------------------------------------- wide integers, eight digits at a time

  /** The number with these coefficients of powers of 10^8, lowest first. */
  function Sum8(xy: seq<nat>): nat {
    if xy == [] then 0 else Sum8(xy[..|xy| - 1]) + Times(xy[|xy| - 1], Pow(10, 8 * (|xy| - 1)))
  }

  /** After some coefficients: the words hold the low digits of their sum, the carry is the rest of it. */
  ghost predicate Carried8(xy: seq<nat>, words: seq<nat>, c: nat) {
    && |words| == |xy| && WordsHold(words, Dec(Sum8(xy), 8 * |xy|)) && c == Above(Sum8(xy), 8 * |xy|)
  }

  lemma NextCoefficient(xy: seq<nat>, words: seq<nat>, c: nat, x: nat, acc: nat, w: nat, q: nat)
    requires Carried8(xy, words, c) && acc == x + c && w == Numeral(Dec(acc % TEN_8, 8)) && q == acc / TEN_8
    ensures Carried8(xy + [x], [w] + words, q)
  {
    var s, k := Sum8(xy), 8 * |xy|;
    SumNext(xy, x);
    hide Sum8, Pow, WordsHold, Numeral, Dec, Above, Times;
    LowDigits(s, k, x, c, Sum8(xy + [x]));
    LowEight(acc);
    DecDigits(acc, 8);
    WordAbove(w, words, Dec(acc, 8), Dec(s, k));
  }

  lemma SumNext(xy: seq<nat>, x: nat)
    ensures Sum8(xy + [x]) == Sum8(xy) + Times(x, Pow(10, 8 * |xy|))
  {
    hide Pow, Times;
    var all := xy + [x];
    assert all[..|xy|] == xy && all[|xy|] == x;
  }

  lemma LowEight(x: nat)
    ensures Dec(x % TEN_8, 8) == Dec(x, 8)
  {
    assert Pow(10, 8) == TEN_8;
    hide Pow, Dec;
    DivBounds(x, TEN_8);
    DecLow(x % TEN_8, x / TEN_8, 8);
  }

  /** Adding x at place k to a number with carry c there leaves the digits below and puts x + c above. */
  lemma LowDigits(s: nat, k: nat, x: nat, c: nat, s': nat)
    requires c == Above(s, k) && s' == s + Times(x, Pow(10, k))
    ensures Dec(s', 8 + k) == Dec(x + c, 8) + Dec(s, k) && Above(s', 8 + k) == (x + c) / TEN_8
  {
    var P := Pow(10, k);
    TenPowers();
    hide Pow, Dec;
    TimesIs(x, P);
    DivBounds(s, P);
    MulAdd(c, x, P);
    DivUnique(s', P, x + c, s % P);
    DecLow(s, x, k);
    DecSplit(s', 8, k);
    PowAdd(10, k, 8);
    DivDiv(s', P, TEN_8);
  }

  lemma Words8First()
    ensures Carried8([], [], 0)
  {
  }

  /** The last carry is the top word, and the words hold the sum. */
  lemma Carried8Ends(xy: seq<nat>, words: seq<nat>, c: nat, w: nat)
    requires Carried8(xy, words, c) && c < TEN_8 && w == Numeral(Dec(c, 8))
    ensures WordsHold([w] + words, Dec(Sum8(xy), 8 * |xy| + 8)) && DigitsValue(Dec(Sum8(xy), 8 * |xy| + 8)) == Sum8(xy)
  {
    var s, k := Sum8(xy), 8 * |xy|;
    TenPowers();
    hide Sum8, WordsHold, Numeral, Dec, DigitsValue, Pow, Above;
    AboveIs(s, k);
    var P := Pow(10, k);
    BelowNext(s, P, c, TEN_8);
    PowAdd(10, 8, k);
    EndDigits(s, k, c);
    DecDigits(c, 8);
    WordAbove(w, words, Dec(c, 8), Dec(s, k));
  }

  lemma EndDigits(s: nat, k: nat, c: nat)
    requires c == Above(s, k) && s < Pow(10, 8 + k)
    ensures Dec(s, k + 8) == Dec(c, 8) + Dec(s, k) && DigitsValue(Dec(s, k + 8)) == s
  {
    DecSplit(s, 8, k);
    hide Dec, DigitsValue, Pow;
    DecValue(s, 8 + k);
  }

  lemma BelowNext(s: nat, P: nat, c: nat, d: nat)
    requires P > 0 && c == s / P && c < d
    ensures s < d * P
  {
    DivBounds(s, P);
    MulMono(c + 1, d, P);
  }

  /** The digit loop of the 64- and 128-bit printers. */
  method PrintCoefficients(xy: seq<nat>) returns (t: string)
    requires forall i :: 0 <= i < |xy| ==> xy[i] < 0x1000_0000_0000_0000
    requires Above(Sum8(xy), 8 * |xy|) < TEN_8
    ensures Canonical(t) && TextValue(t) == Sum8(xy)
  {
    var c: nat, words: seq<nat>, i: nat := 0, [], 0;
    Words8First();
    hide *;
    while i < |xy|
      invariant 0 <= i <= |xy| && Carried8(xy[..i], words, c) && c < 0x1000_0000_0000_0000
    {
      var acc := xy[i] + c;
      TenMillionth(acc);
      var q := MagicTen8(acc);
      ghost var before := words;
      var hi, lo := ToBcd32(acc - q * TEN_8);
      NextCoefficient(xy[..i], before, c, xy[i], acc, lo, q);
      assert xy[..i] + [xy[i]] == xy[..i + 1];
      words := [lo] + words;
      c := q;
      i := i + 1;
    }
    assert xy[..i] == xy;
    CarryIs(xy, words, c);
    var hi, lo := ToBcd32(c);
    Carried8Ends(xy, words, c, lo);
    t := BcdToAsciiU([lo] + words, Dec(Sum8(xy), 8 * |xy| + 8));
  }

  lemma CarryIs(xy: seq<nat>, words: seq<nat>, c: nat)
    requires Carried8(xy, words, c)
    ensures c == Above(Sum8(xy), 8 * |xy|)
  {
  }

  const TWO_32: nat := 0x1_0000_0000

  lemma TenPowers()
    ensures Pow(10, 8) == TEN_8 && Pow(10, 16) == TEN_8 * TEN_8 && Pow(10, 24) == TEN_8 * TEN_8 * TEN_8
    ensures Pow(10, 32) == TEN_8 * TEN_8 * TEN_8 * TEN_8
  {
    assert Pow(10, 8) == TEN_8;
    hide Pow;
    PowAdd(10, 8, 8);
    PowAdd(10, 16, 8);
    PowAdd(10, 24, 8);
  }

  lemma SumOfTwo(a: nat, b: nat)
    ensures Sum8([a, b]) == a + b * TEN_8
  {
    TenPowers();
    assert Pow(10, 0) == 1;
    assert [a, b][..1] == [a] && [a][..0] == [];
    assert Sum8([a]) == Sum8([]) + Times(a, Pow(10, 0));
    hide Pow;
  }

  lemma SumOfFour(a: nat, b: nat, c: nat, d: nat)
    ensures Sum8([a, b, c, d]) == a + b * TEN_8 + c * (TEN_8 * TEN_8) + d * (TEN_8 * TEN_8 * TEN_8)
  {
    TenPowers();
    SumOfTwo(a, b);
    var x, y := [a, b, c], [a, b, c, d];
    assert x[..2] == [a, b] && y[..3] == x;
    assert Sum8(x) == Sum8([a, b]) + Times(c, Pow(10, 16));
    assert Sum8(y) == Sum8(x) + Times(d, Pow(10, 24));
    hide Pow, Sum8;
    TimesIs(c, Pow(10, 16));
    TimesIs(d, Pow(10, 24));
  }

  /** A power of two fully in its halves: 2^32 = 42 * 10^8 + 94967296. */
  lemma Coefficients64(x0: nat, x1: nat)
    requires x0 < TWO_32 && x1 < TWO_32
    ensures x1 * 94967296 + x0 < 0x1000_0000_0000_0000 && x1 * 42 < 0x1000_0000_0000_0000
    ensures x1 * 94967296 + x0 + x1 * 42 * TEN_8 == x1 * TWO_32 + x0
  {
  }

  method PrintU64(v: nat) returns (t: string)
    requires v < 0x1_0000_0000_0000_0000
    ensures Canonical(t) && TextValue(t) == v
  {
    var x0, x1 := v % TWO_32, v / TWO_32;
    Coefficients64(x0, x1);
    var a, b := x1 * 94967296 + x0, x1 * 42;
    SumOfTwo(a, b);
    TenPowers();
    assert v == x1 * TWO_32 + x0;
    LowTop(v, Pow(10, 16), TEN_8);
    AboveIs(v, 16);
    hide Pow, Sum8, Above, Canonical, TextValue;
    t := PrintCoefficients([a, b]);
  }

  lemma LowTop(v: nat, P: nat, d: nat)
    requires P > 0 && v < d * P
    ensures v / P < d
  {
    DivBounds(v, P);
    MulCancel(v / P, d, P);
  }

  lemma Coefficients128(x0: nat, x1: nat, x2: nat, x3: nat)
    requires x0 < TWO_32 && x1 < TWO_32 && x2 < TWO_32 && x3 < TWO_32
    ensures var a, b, c, d := x3 * 43950336 + x2 * 9551616 + x1 * 94967296 + x0,
        x3 * 43375935 + x2 * 67440737 + x1 * 42, x3 * 16251426 + x2 * 1844, x3 * 79228;
      && a < 0x1000_0000_0000_0000 && b < 0x1000_0000_0000_0000 && c < 0x1000_0000_0000_0000 && d < 0x1000_0000_0000_0000
      && a + b * TEN_8 + c * (TEN_8 * TEN_8) + d * (TEN_8 * TEN_8 * TEN_8)
         == x0 + x1 * TWO_32 + x2 * 0x1_0000_0000_0000_0000 + x3 * 0x1_0000_0000_0000_0000_0000_0000
  {
  }

  lemma FourWords(v: nat)
    requires v < 0x1_0000_0000_0000_0000_0000_0000_0000_0000
    ensures v / 0x1_0000_0000_0000_0000_0000_0000 < TWO_32
    ensures v == v % TWO_32 + v / TWO_32 % TWO_32 * TWO_32 + v / 0x1_0000_0000_0000_0000 % TWO_32 * 0x1_0000_0000_0000_0000
      + v / 0x1_0000_0000_0000_0000_0000_0000 * 0x1_0000_0000_0000_0000_0000_0000
  {
    DivDiv(v, TWO_32, TWO_32);
    DivDiv(v, 0x1_0000_0000_0000_0000, TWO_32);
    var a := v / TWO_32;
    var b := a / TWO_32;
    assert v == a * TWO_32 + v % TWO_32 && a == b * TWO_32 + a % TWO_32;
    assert b == b / TWO_32 * TWO_32 + b % TWO_32;
  }

  method PrintU128(v: nat) returns (t: string)
    requires v < 0x1_0000_0000_0000_0000_0000_0000_0000_0000
    ensures Canonical(t) && TextValue(t) == v
  {
    var x0, x1 := v % TWO_32, v / TWO_32 % TWO_32;
    var x2, x3 := v / 0x1_0000_0000_0000_0000 % TWO_32, v / 0x1_0000_0000_0000_0000_0000_0000;
    FourWords(v);
    Coefficients128(x0, x1, x2, x3);
    var a := x3 * 43950336 + x2 * 9551616 + x1 * 94967296 + x0;
    var b := x3 * 43375935 + x2 * 67440737 + x1 * 42;
    var c, d := x3 * 16251426 + x2 * 1844, x3 * 79228;
    SumOfFour(a, b, c, d);
    TenPowers();
    LowTop(v, Pow(10, 32), TEN_8);
    AboveIs(v, 32);
    hide Pow, Sum8, Above, Canonical, TextValue;
    t := PrintCoefficients([a, b, c, d]);
  }
}
