/** Numbers spelled in C's notations, and what the parsers of IntegerParser make of them. */
module SpelledLiterals {
  import opened Arith
  import opened DecimalPrinter
  import opened IntegerParser

  // ---------------------------------------------------------------- notations

  /** A number behind 0x or 0X, behind 0, or as it is; with zeros in front behind a prefix, letters small or capital. */
  datatype Notation = Plain | Octal(zeros: nat) | Hex(capitalX: bool, zeros: nat, capitals: bool)

  function ZeroRun(z: nat): (t: string)
    ensures |t| == z
  {
    seq(z, _ => '0')
  }

  function Alphabet(k: Notation): (a: string)
    ensures |a| >= 8
  {
    match k
    case Plain => "0123456789"
    case Octal(_) => "01234567"
    case Hex(_, _, capitals) => if capitals then "0123456789ABCDEF" else "0123456789abcdef"
  }

  function Prefix(k: Notation): string {
    match k
    case Plain => ""
    case Octal(z) => "0" + ZeroRun(z)
    case Hex(capitalX, z, _) => (if capitalX then "0X" else "0x") + ZeroRun(z)
  }

  function Text(k: Notation, n: nat): string { Prefix(k) + Spelled(n, Alphabet(k)) }

  /** A decimal number does not start with zero. */
  predicate Possible(k: Notation, n: nat) { k.Plain? ==> n > 0 }

  /** What follows cannot be taken for more digits. */
  predicate Ends(k: Notation, rest: string) {
    rest == "" || rest[0] !in (match k case Plain => "0123456789" case Octal(_) => "01234567" case Hex(_, _, _) => "0123456789abcdefABCDEF")
  }

  function RadixOf(k: Notation): Radix {
    match k case Plain => Ten case Octal(_) => Eight case Hex(_, _, _) => Sixteen
  }

  // ---------------------------------------------------------------- the parsers' digits are these

  lemma DigitsAre(c: char)
    ensures InRadix(Eight, c) <==> c in "01234567"
    ensures InRadix(Ten, c) <==> c in "0123456789"
    ensures InRadix(Sixteen, c) <==> c in "0123456789abcdefABCDEF"
  {
  }

  lemma AlphabetIs(k: Notation, d: nat)
    requires d < |Alphabet(k)|
    ensures |Alphabet(k)| == RadixOf(k).Base()
    ensures InRadix(RadixOf(k), Alphabet(k)[d]) && DigitIn(RadixOf(k), Alphabet(k)[d]) == d
  {
  }

  /** Which texts are accepted at all. */
  lemma AcceptedIff(s: string, first: nat)
    requires first <= |s|
    ensures LiteralAt(s, first).Literal? <==>
      && first < |s|
      && (|| s[first] in "123456789"
          || (s[first] == '0' && (|| first + 1 == |s|
                                  || s[first + 1] in "01234567"
                                  || (s[first + 1] in "xX" && first + 2 < |s| && s[first + 2] in "0123456789abcdefABCDEF"))))
  {
    hide InRadix, RunEnd;
    if first < |s| { DigitsAre(s[first]); }
    if first + 1 < |s| { DigitsAre(s[first + 1]); }
    if first + 2 < |s| { DigitsAre(s[first + 2]); }
  }

  // ---------------------------------------------------------------- what is spelled is read

  /** A spelled number behind zeros is a run of digits with its value. */
  lemma {:induction false} SpelledRun(k: Notation, n: nat, s: string, first: nat, at: nat)
    requires first <= at && at + |Spelled(n, Alphabet(k))| <= |s|
    requires s[at..at + |Spelled(n, Alphabet(k))|] == Spelled(n, Alphabet(k))
    requires forall i :: first <= i < at ==> s[i] == '0'
    ensures var e, r := at + |Spelled(n, Alphabet(k))|, RadixOf(k);
      (forall i :: first <= i < e ==> InRadix(r, s[i])) && RunValue(r, s, first, e) == n
    decreases n
  {
    hide Upper, Last, Alphabet, InRadix, DigitIn;
    var a, r := Alphabet(k), RadixOf(k);
    var t := Spelled(n, a);
    var b, e := |a|, at + |t|;
    assert s[e - 1] == t[|t| - 1];
    if n < b {
      AlphabetIs(k, n);
      ZeroesAreNothing(r, s, first, at);
    } else {
      var u := Spelled(Upper(n, b), a);
      AlphabetIs(k, Last(n, b));
      UpperLast(n, b);
      assert s[at..at + |u|] == t[..|u|];
      SpelledRun(k, Upper(n, b), s, first, at);
    }
  }

  lemma {:induction false} ZeroesAreNothing(r: Radix, s: string, first: nat, e: nat)
    requires first <= e <= |s| && forall i :: first <= i < e ==> s[i] == '0'
    ensures (forall i :: first <= i < e ==> InRadix(r, s[i])) && RunValue(r, s, first, e) == 0
    decreases e
  {
    if first < e { ZeroesAreNothing(r, s, first, e - 1); }
  }

  function Start(k: Notation, first: nat): nat {
    match k case Plain => first case Octal(_) => first + 1 case Hex(_, _, _) => first + 2
  }

  lemma PartsThere(k: Notation, n: nat, s: string, first: nat, e: nat)
    requires first + |Text(k, n)| == e <= |s| && s[first..e] == Text(k, n)
    ensures Start(k, first) <= first + |Prefix(k)| <= e && first + |Prefix(k)| + |Spelled(n, Alphabet(k))| == e
    ensures s[first + |Prefix(k)|..e] == Spelled(n, Alphabet(k))
    ensures forall i :: Start(k, first) <= i < first + |Prefix(k)| ==> s[i] == '0'
  {
    hide Alphabet, Spelled;
    var at, t := first + |Prefix(k)|, Text(k, n);
    assert s[at..e] == t[|Prefix(k)|..];
    forall i | Start(k, first) <= i < at ensures s[i] == '0' { assert s[i] == t[i - first]; }
  }

  lemma RunThere(k: Notation, n: nat, s: string, first: nat, e: nat)
    requires first + |Text(k, n)| == e <= |s| && s[first..e] == Text(k, n)
    requires e < |s| ==> !InRadix(RadixOf(k), s[e])
    ensures Start(k, first) < e && InRadix(RadixOf(k), s[Start(k, first)])
    ensures RunEnd(RadixOf(k), s, Start(k, first)) == e && RunValue(RadixOf(k), s, Start(k, first), e) == n
  {
    hide InRadix, RunValue, RunEnd, Alphabet, Spelled, Text, Prefix;
    PartsThere(k, n, s, first, e);
    SpelledRun(k, n, s, Start(k, first), first + |Prefix(k)|);
    RunEndsAt(RadixOf(k), s, Start(k, first), e);
  }

  lemma LiteralThere(k: Notation, n: nat, s: string, first: nat, e: nat)
    requires Possible(k, n) && first + |Text(k, n)| == e <= |s| && s[first..e] == Text(k, n)
    requires e < |s| ==> !InRadix(RadixOf(k), s[e])
    ensures LiteralAt(s, first) == Literal(RadixOf(k), Start(k, first), e) && LiteralValue(s, first) == n
  {
    hide InRadix, RunValue, RunEnd, Alphabet, Spelled, Text;
    RunThere(k, n, s, first, e);
    FirstCharacters(k, n, s, first);
    if k.Octal? { NoMark(s[first + 1]); }
  }

  /** The text of a number, wherever it stands, is the literal there; it ends where the text ends. */
  lemma SpelledIsLiteral(k: Notation, n: nat, before: string, rest: string)
    requires Possible(k, n) && Ends(k, rest)
    ensures var s := before + Text(k, n) + rest;
      && LiteralAt(s, |before|).Literal? && LiteralValue(s, |before|) == n
      && LiteralAt(s, |before|).end == |before| + |Text(k, n)|
  {
    hide Text, InRadix, LiteralAt, LiteralValue;
    var s, e := before + Text(k, n) + rest, |before| + |Text(k, n)|;
    assert s[|before|..e] == Text(k, n);
    if rest != "" {
      assert s[e] == rest[0];
      DigitsAre(rest[0]);
    }
    LiteralThere(k, n, s, |before|, e);
  }

  lemma NoMark(c: char)
    requires InRadix(Eight, c)
    ensures ToUpper(c) != 'X'
  {
  }

  lemma FirstCharacters(k: Notation, n: nat, s: string, first: nat)
    requires Possible(k, n) && first + |Text(k, n)| <= |s| && s[first..first + |Text(k, n)|] == Text(k, n)
    ensures k.Plain? ==> s[first] != '0'
    ensures k.Octal? ==> s[first] == '0'
    ensures k.Hex? ==> s[first] == '0' && s[first + 1] in "xX"
  {
    hide Spelled;
    var t := Text(k, n);
    assert s[first] == t[0];
    match k {
      case Plain => SpelledIsCanonical(n);
      case Octal(_) =>
      case Hex(_, _, _) => assert s[first + 1] == t[1];
    }
  }

  /** The unsigned parser reads the number, cut off at the largest value, and consumes its text and no more. */
  method ReadSpelled(k: Notation, n: nat, before: string, rest: string, vMax: nat) returns (ok: bool, v: nat, next: nat)
    requires Possible(k, n) && Ends(k, rest) && vMax >= 15
    ensures ok && v == (if n <= vMax then n else vMax) && next == |before| + |Text(k, n)|
  {
    hide LiteralAt, LiteralValue, Text;
    SpelledIsLiteral(k, n, before, rest);
    ok, v, next := ParseU(before + Text(k, n) + rest, |before|, vMax);
  }

  /** The negative parser, cut off at the smallest value. */
  method ReadSpelledDown(k: Notation, n: nat, before: string, rest: string, vMin: int) returns (ok: bool, v: int, next: nat)
    requires Possible(k, n) && Ends(k, rest) && vMin <= -15
    ensures ok && v == (if 0 - n >= vMin then 0 - n else vMin) && next == |before| + |Text(k, n)|
  {
    hide LiteralAt, LiteralValue, Text;
    SpelledIsLiteral(k, n, before, rest);
    ok, v, next := ParseNeg(before + Text(k, n) + rest, |before|, vMin);
  }

  /** The signed parser, with or without a sign. */
  method ReadSpelledSigned(sign: string, k: Notation, n: nat, before: string, rest: string, vMin: int, vMax: nat)
    returns (ok: bool, v: int, next: nat)
    requires sign in ["", "+", "-"] && Possible(k, n) && Ends(k, rest) && vMax >= 15 && vMin <= -15
    ensures ok && next == |before| + |sign| + |Text(k, n)|
    ensures v == if sign == "-" then (if 0 - n >= vMin then 0 - n else vMin) else (if n <= vMax then n else vMax)
  {
    hide LiteralAt, LiteralValue, Text, AfterSign;
    SpelledIsLiteral(k, n, before + sign, rest);
    SignIs(sign, k, n, before, rest);
    ok, v, next := ParseS(before + sign + Text(k, n) + rest, |before|, vMin, vMax);
  }

  lemma SignIs(sign: string, k: Notation, n: nat, before: string, rest: string)
    requires sign in ["", "+", "-"] && Possible(k, n)
    ensures var s := before + sign + Text(k, n) + rest;
      |before| < |s| && AfterSign(s, |before|) == |before| + |sign| && (s[|before|] == '-' <==> sign == "-")
  {
    var s := before + sign + Text(k, n) + rest;
    var first := |before| + |sign|;
    assert s[first..first + |Text(k, n)|] == Text(k, n);
    NoSign(k, n);
    if sign == "" { assert s[|before|] == Text(k, n)[0]; } else { assert s[|before|] == sign[0]; }
  }

  lemma NoSign(k: Notation, n: nat)
    ensures Text(k, n) != "" && Text(k, n)[0] in "0123456789"
  {
    hide Spelled;
    if k.Plain? {
      SpelledIsCanonical(n);
      assert Text(k, n) == Spelled(n, "0123456789");
      DigitsAre(Text(k, n)[0]);
    }
  }
}
