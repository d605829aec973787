/** Decimal digits packed as nibbles into 32-bit words, most significant first. */
module Bcd {
  import opened Arith
  import opened Limbs

  /** The value of decimal digits, most significant first. */
  function DigitsValue(d: seq<nat>): nat {
    if d == [] then 0 else 10 * DigitsValue(d[..|d| - 1]) + d[|d| - 1]
  }

  predicate DecimalDigits(d: seq<nat>) { forall i :: 0 <= i < |d| ==> d[i] <= 9 }

  lemma PushDigit(d: seq<nat>, x: nat)
    requires DecimalDigits(d) && x <= 9
    ensures DecimalDigits(d + [x]) && DigitsValue(d + [x]) == 10 * DigitsValue(d) + x
  {
    assert (d + [x])[..|d|] == d;
  }

  /** The base-16 numeral of a run of nibbles. */
  function Numeral(c: seq<nat>): nat {
    if c == [] then 0 else 16 * Numeral(c[..|c| - 1]) + c[|c| - 1]
  }

  predicate Nibbles(c: seq<nat>) { forall i :: 0 <= i < |c| ==> c[i] < 16 }

  /** A word with its first nibbles filled. */
  function Packed(c: seq<nat>): nat
    requires |c| <= 8
  {
    Times(Numeral(c), Pow2(4 * (8 - |c|)))
  }

  /** The nibbles in the i-th word. */
  function Chunk(digits: seq<nat>, i: nat): (c: seq<nat>)
    ensures |c| <= 8
  {
    if |digits| <= 8 * i then [] else if |digits| <= 8 * i + 8 then digits[8 * i..] else digits[8 * i..8 * i + 8]
  }

  function Nibble(w: nat, j: nat): nat
    requires j < 8
  {
    Shr(w, (7 - j) * 4) % 16
  }

  function Digits(bv: seq<nat>, length: nat): (d: seq<nat>)
    requires length <= 8 * |bv|
    ensures |d| == length
  {
    seq(length, i requires 0 <= i < length => Nibble(bv[i / 8], i % 8))
  }

  /** The numeral of the first m nibbles, shifted, with the others below it. */
  lemma {:induction false} NumeralTake(c: seq<nat>, m: nat) returns (low: nat)
    requires Nibbles(c) && m <= |c|
    ensures low < Pow2(4 * (|c| - m)) && Numeral(c) == Times(Numeral(c[..m]), Pow2(4 * (|c| - m))) + low
  {
    var n := |c|;
    if m == n {
      assert c[..m] == c;
      low := 0;
    } else {
      var d := c[..n - 1];
      assert d[..m] == c[..m] && Numeral(c) == 16 * Numeral(d) + c[n - 1];
      var e := 4 * (n - 1 - m);
      hide Numeral, Pow2, Times;
      var l := NumeralTake(d, m);
      Sixteen(e);
      SixteenTimes(Numeral(c[..m]), Pow2(e));
      low := 16 * l + c[n - 1];
    }
  }

  lemma Sixteen(e: nat)
    ensures Pow2(e + 4) == 16 * Pow2(e)
  {
    PowAdd(2, 4, e);
  }

  lemma SixteenTimes(a: nat, b: nat)
    ensures Times(a, 16 * b) == 16 * Times(a, b)
  {
    MulAssoc(a, 16, b);
    MulAssoc(16, a, b);
  }

  lemma LastNibble(c: seq<nat>, j: nat)
    requires Nibbles(c) && j < |c|
    ensures Numeral(c[..j + 1]) % 16 == c[j]
  {
    assert c[..j + 1][..j] == c[..j];
    assert Numeral(c[..j + 1]) == 16 * Numeral(c[..j]) + c[j];
    hide Numeral;
  }

  /** A packed nibble is read back. */
  lemma ReadsBack(c: seq<nat>, j: nat)
    requires Nibbles(c) && j < |c| <= 8
    ensures Nibble(Packed(c), j) == c[j]
  {
    var n, m := |c|, j + 1;
    hide Numeral, Nibbles, Pow2, Times;
    var low := NumeralTake(c, m);
    LastNibble(c, j);
    PowTwoAdd(4 * (n - m), 4 * (8 - n));
    ReadCore(Numeral(c), Numeral(c[..m]), Pow2(4 * (n - m)), Pow2(4 * (8 - n)), Pow2((7 - j) * 4), low, Packed(c));
  }

  lemma PowTwoAdd(a: nat, b: nat)
    ensures Pow2(a + b) == Pow2(a) * Pow2(b)
  {
    PowAdd(2, a, b);
  }

  lemma ReadCore(v: nat, head: nat, A: nat, B: nat, C: nat, low: nat, w: nat)
    requires A > 0 && B > 0 && C == A * B && low < A && v == Times(head, A) + low && w == Times(v, B)
    ensures C > 0 && w / C == head
  {
    MulMono2(1, A, 1, B);
    MulEq(v, head * A + low, B);
    MulAdd(head * A, low, B);
    MulAssoc(head, A, B);
    MulLess(low, A, B);
    MulMono2(0, low, 0, B);
    DivUnique(w, C, head, low * B);
  }

  /** One more nibble in a word is or-ed in below the ones already there. */
  lemma OneMoreNibble(c: seq<nat>, d: nat, y: nat)
    requires |c| < 8 && d < 16 && y == Times(d, Pow2((7 - |c|) * 4))
    ensures BitOr(Packed(c), y) == Packed(c + [d])
  {
    var n := |c|;
    assert (c + [d])[..n] == c;
    hide Pow2, Times, BitOr;
    Sixteen(4 * (7 - n));
    SixteenTimes(Numeral(c), Pow2(4 * (7 - n)));
    NibbleFits(d, Pow2(4 * (7 - n)));
    OrDisjoint(Numeral(c), 4 * (8 - n), y, Packed(c));
    NibbleJoins(Numeral(c), d, Pow2(4 * (7 - n)));
  }

  lemma NibbleFits(d: nat, P: nat)
    requires d < 16 && P > 0
    ensures Times(d, P) < 16 * P
  {
    MulLess(d, 16, P);
  }

  lemma NibbleJoins(v: nat, d: nat, P: nat)
    ensures Times(16 * v + d, P) == 16 * Times(v, P) + Times(d, P)
  {
    MulAdd(16 * v, d, P);
    MulAssoc(16, v, P);
  }

  /** The digit buffer and its fill position. */
  class Buffer {
    const bv: array<nat>
    var dp: nat

    ghost predicate Holds(digits: seq<nat>)
      reads this, bv
    {
      && dp == |digits| <= 8 * bv.Length && Nibbles(digits)
      && forall i :: 0 <= i < bv.Length ==> bv[i] == Packed(Chunk(digits, i))
    }

    constructor (limbs: nat)
      ensures fresh(bv) && bv.Length == limbs && Holds([]) && dp == 0
    {
      bv := new nat[limbs](_ => 0);
      dp := 0;
      new;
      forall i | 0 <= i < limbs ensures bv[i] == Packed(Chunk([], i)) {
        assert Chunk([], i) == [];
        assert Numeral([]) == 0;
      }
    }

    method Push(digit: nat, ghost digits: seq<nat>)
      requires Holds(digits) && digit < 16 && |digits| < 8 * bv.Length
      modifies this, bv
      ensures Holds(digits + [digit]) && dp == |digits| + 1
    {
      var w, j := dp / 8, dp % 8;
      ghost var more := digits + [digit];
      ChunkPushed(digits, digit, w, j);
      var y := Times(digit, Pow2((7 - j) * 4));
      OneMoreNibble(Chunk(digits, w), digit, y);
      forall i | 0 <= i < bv.Length && i != w ensures Chunk(more, i) == Chunk(digits, i) { ChunkKept(digits, digit, w, i); }
      hide Packed, Chunk, BitOr, Times, Pow2;
      bv[w] := BitOr(bv[w], y);
      dp := dp + 1;
    }

    /** What was pushed is what a reader of the words finds. */
    lemma HoldsDigits(digits: seq<nat>)
      requires Holds(digits)
      ensures dp == |digits| <= 8 * bv.Length && Digits(bv[..], dp) == digits
    {
      forall i | 0 <= i < dp ensures Nibble(bv[i / 8], i % 8) == digits[i] {
        var c := Chunk(digits, i / 8);
        assert i % 8 < |c| && c[i % 8] == digits[i] && Nibbles(c);
        ReadsBack(c, i % 8);
      }
    }
  }

  lemma ChunkPushed(digits: seq<nat>, d: nat, w: nat, j: nat)
    requires |digits| == 8 * w + j && j < 8
    ensures |Chunk(digits, w)| == j && Chunk(digits + [d], w) == Chunk(digits, w) + [d]
  {
  }

  lemma ChunkKept(digits: seq<nat>, d: nat, w: nat, i: nat)
    requires w == |digits| / 8 && i != w
    ensures Chunk(digits + [d], i) == Chunk(digits, i)
  {
  }
}
