/** Little-endian limb vectors and the naturals they stand for. */
module Limbs {
  import opened Arith

  /** The two limb widths of mina/mina/detail/bigint.hpp. */
  type LimbWidth = w: nat | w == 32 || w == 64 witness 64

  const LIMB_BITS: LimbWidth
  const LIMB_DIGITS_10: nat := if LIMB_BITS == 64 then 19 else 9
  const BASE: nat := Pow2(LIMB_BITS)

  type Limb = x: nat | x < BASE witness 0

  lemma BaseFacts()
    ensures BASE == Pow2(LIMB_BITS) && BASE >= 0x1_0000_0000
  {
    PowMono(2, 32, LIMB_BITS);
    Pow32();
  }

  lemma TenFits()
    ensures (LIMB_BITS == 64 ==> BASE == 0x1_0000_0000_0000_0000) && (LIMB_BITS == 32 ==> BASE == 0x1_0000_0000)
  {
    Pow32();
    PowAdd(2, 32, 32);
  }

  lemma Pow32()
    ensures Pow2(32) == 0x1_0000_0000
  {
    assert Pow(2, 8) == 256;
    PowAdd(2, 8, 8);
    PowAdd(2, 16, 16);
  }

  function Value(v: seq<nat>): nat {
    if v == [] then 0 else v[0] + BASE * Value(v[1..])
  }

  function Place(i: nat): (r: nat)
    ensures r > 0
  {
    BaseFacts();
    Pow(BASE, i)
  }

  lemma PlaceNext(i: nat)
    ensures Place(i + 1) == BASE * Place(i) && Place(0) == 1
  {
  }

  lemma {:induction false} ValueJoin(a: seq<nat>, b: seq<nat>)
    ensures Value(a + b) == Value(a) + Place(|a|) * Value(b)
  {
    if a == [] {
      assert a + b == b;
    } else {
      ValueJoin(a[1..], b);
      assert (a + b)[1..] == a[1..] + b;
      PlaceNext(|a| - 1);
      JoinCore(BASE, Value(a[1..]), Place(|a| - 1), Value(b));
    }
  }

  lemma JoinCore(B: nat, x: nat, p: nat, y: nat)
    ensures B * (x + p * y) == B * x + (B * p) * y
  {
    MulAssoc(B, p, y);
  }

  lemma ValueSingle(x: nat)
    ensures Value([x]) == x
  {
    assert Value([x][1..]) == 0;
  }

  /** A vector one limb longer. */
  lemma ValuePush(a: seq<nat>, x: nat)
    ensures Value(a + [x]) == Value(a) + Place(|a|) * x
  {
    ValueJoin(a, [x]);
    ValueSingle(x);
  }

  lemma ValueTake(v: seq<nat>, i: nat)
    requires i < |v|
    ensures Value(v[..i + 1]) == Value(v[..i]) + Place(i) * v[i]
  {
    assert v[..i + 1] == v[..i] + [v[i]];
    ValuePush(v[..i], v[i]);
  }

  lemma ValueSplit(v: seq<nat>, i: nat)
    requires i <= |v|
    ensures Value(v) == Value(v[..i]) + Place(i) * Value(v[i..])
  {
    assert v == v[..i] + v[i..];
    ValueJoin(v[..i], v[i..]);
  }

  lemma {:induction false} ValueBound(v: seq<Limb>)
    ensures Value(v) < Place(|v|)
  {
    if v != [] {
      ValueBound(v[1..]);
      PlaceNext(|v| - 1);
      BoundCore(BASE, v[0], Value(v[1..]), Place(|v| - 1));
    }
  }

  lemma BoundCore(B: nat, x: nat, y: nat, P: nat)
    requires x < B && y < P
    ensures x + B * y < B * P
  {
    MulMono(y + 1, P, B);
  }

  lemma {:induction false} ValueZeros(n: nat)
    ensures Value(seq(n, _ => 0)) == 0
  {
    if n > 0 {
      assert seq(n, _ => 0)[1..] == seq(n - 1, _ => 0);
      ValueZeros(n - 1);
    }
  }

  /** Highest limb nonzero, or the single limb 0. */
  predicate Normal(v: seq<Limb>) { |v| > 0 && (|v| == 1 || v[|v| - 1] != 0) }

  lemma NormalFromTop(v: seq<Limb>)
    requires |v| > 0 && Value(v) >= Place(|v| - 1)
    ensures Normal(v)
  {
    var n := |v| - 1;
    ValueTake(v, n);
    assert v[..|v|] == v;
    ValueBound(v[..n]);
  }

  lemma TopFromNormal(v: seq<Limb>)
    requires Normal(v) && Value(v) > 0
    ensures Value(v) >= Place(|v| - 1) && v[|v| - 1] != 0
  {
    var n := |v| - 1;
    ValueTake(v, n);
    assert v[..|v|] == v;
    assert n == 0 ==> Value(v[..0]) == 0 && Place(0) == 1;
    hide Value, Place;
    if v[n] != 0 { MulMono(1, v[n], Place(n)); }
  }

  /** Number of bits. */
  function BitLen(x: nat): nat { if x == 0 then 0 else 1 + BitLen(x / 2) }

  lemma {:induction false} BitLenBounds(x: nat)
    ensures x < Pow2(BitLen(x)) && (x > 0 ==> BitLen(x) > 0 && Pow2(BitLen(x) - 1) <= x)
  {
    if x > 1 {
      BitLenBounds(x / 2);
    }
  }

  lemma BitLenUnique(x: nat, n: nat)
    requires Pow2(n) <= x < Pow2(n + 1)
    ensures BitLen(x) == n + 1
  {
    BitLenBounds(x);
    if BitLen(x) <= n {
      PowMono(2, BitLen(x), n);
    } else {
      PowMono(2, n + 1, BitLen(x));
      if BitLen(x) > n + 1 { PowMono(2, n + 1, BitLen(x) - 1); }
    }
  }

  lemma BitLenMono(x: nat, y: nat)
    requires x <= y
    ensures BitLen(x) <= BitLen(y)
  {
    BitLenBounds(x);
    BitLenBounds(y);
    if x > 0 { PowLess(BitLen(x) - 1, BitLen(y)); }
  }

  lemma PowLess(m: nat, n: nat)
    requires Pow2(m) < Pow2(n)
    ensures m < n
  {
    if m >= n { PowMono(2, n, m); }
  }

  lemma {:induction false} PlaceIsPower(i: nat)
    ensures Place(i) == Pow2(i * LIMB_BITS)
  {
    if i > 0 {
      PlaceIsPower(i - 1);
      MulAdd(i - 1, 1, LIMB_BITS);
      PowAdd(2, LIMB_BITS, (i - 1) * LIMB_BITS);
      PlaceNext(i - 1);
    }
  }

  /** The bit size computed from the number of limbs and the leading zeros of the last one. */
  function BitSize(v: seq<Limb>): int
    requires |v| > 0
  {
    |v| * LIMB_BITS - (if v[|v| - 1] != 0 then LIMB_BITS - BitLen(v[|v| - 1]) else LIMB_BITS)
  }

  lemma NoBits()
    ensures BitLen(0) == 0 && Value([]) == 0 && Place(0) == 1
  {
  }

  lemma BitSizeIsBitLen(v: seq<Limb>)
    requires Normal(v)
    ensures BitSize(v) == BitLen(Value(v))
  {
    hide Value, Place, Pow2, BitLen;
    var n := |v| - 1;
    var top := v[n];
    ValueTake(v, n);
    assert v[..|v|] == v;
    ValueBound(v[..n]);
    if top == 0 {
      assert v[..0] == [];
      NoBits();
    } else {
      PlaceIsPower(n);
      TopBits(Value(v[..n]), top, n * LIMB_BITS);
      MulAdd(n, 1, LIMB_BITS);
    }
  }

  lemma TopBits(low: nat, top: nat, e: nat)
    requires low < Pow2(e) && top > 0
    ensures BitLen(low + Pow2(e) * top) == BitLen(top) + e
  {
    var k := BitLen(top) - 1;
    BitLenBounds(top);
    PowAdd(2, k, e);
    PowAdd(2, k + 1, e);
    TopBitsCore(low, Pow2(e), top, Pow2(k), Pow2(k + 1));
    BitLenUnique(low + Pow2(e) * top, k + e);
  }

  lemma TopBitsCore(low: nat, P: nat, top: nat, a: nat, b: nat)
    requires low < P && a <= top < b
    ensures a * P <= low + P * top < b * P
  {
    MulMono(a, top, P);
    MulMono(top + 1, b, P);
    MulAdd(top, 1, P);
  }

  // ---------------------------------------------------------------- double-width accumulators

  /** Low and high limb of an accumulator. */
  function Lo(acc: nat): Limb
  {
    BaseFacts();
    acc % BASE
  }

  function Hi(acc: nat): nat
  {
    BaseFacts();
    acc / BASE
  }

  lemma HiLo(acc: nat)
    ensures acc == Hi(acc) * BASE + Lo(acc)
  {
    BaseFacts();
    DivBounds(acc, BASE);
  }

  lemma HiBound(acc: nat, B: nat)
    requires acc < B * BASE
    ensures Hi(acc) < B
  {
    HiLo(acc);
    BaseFacts();
    MulCancel(Hi(acc), B, BASE);
  }

  lemma SquareCore(x: nat, y: nat, B: nat)
    requires x < B && y < B
    ensures 0 <= x * y && x * y + 2 * (B - 1) < B * B
  {
    MulMono2(0, x, 0, y);
    MulMono2(x, B - 1, y, B - 1);
    MulAdd(B, -1, B - 1);
    MulAdd(B, -1, B);
  }

  /** A product of two limbs with two more limbs added: it fits two limbs. */
  function Mac(x: Limb, y: Limb, c: Limb, m: Limb): (r: nat)
    ensures r == Times(x, y) + c + m && Hi(r) < BASE
  {
    SquareCore(x, y, BASE);
    HiBound(x * y + c + m, BASE);
    x * y + c + m
  }

  function Times(a: nat, b: nat): nat {
    MulMono2(0, a, 0, b);
    a * b
  }

  lemma TimesFacts(a: nat, b: nat)
    ensures Times(a, b) == b * a && (a > 0 ==> Times(a, b) >= b)
  {
    if a > 0 { MulMono(1, a, b); }
  }

  lemma TimesIs(a: nat, b: nat)
    ensures Times(a, b) == a * b
  {
  }

  lemma TimesSwap(a: nat, b: nat)
    ensures Times(a, b) == Times(b, a)
  {
  }

  /** `done` with a carry of `c` above it stands for `total`. */
  ghost predicate Carried(done: seq<Limb>, c: nat, total: nat) {
    Value(done) + Place(|done|) * c == total
  }

  lemma CarryCore(B: nat, P: nat, done: nat, c: nat, x: nat, hi: nat, lo: nat, total: nat)
    requires done + P * c == total && x + c == hi * B + lo
    ensures done + P * lo + (B * P) * hi == total + P * x
  {
    MulEq(x + c, hi * B + lo, P);
    MulAdd(x, c, P);
    MulAdd(hi * B, lo, P);
    MulSwap(hi, B, P);
    MulAssoc(B, P, hi);
  }

  /** Folding `x` and the carry into the next limb. */
  lemma CarryStep(done: seq<Limb>, c: nat, x: nat, acc: nat, total: nat, next: nat)
    requires Carried(done, c, total) && acc == x + c && next == total + Place(|done|) * x
    ensures Carried(done + [Lo(acc)], Hi(acc), next)
  {
    ValuePush(done, Lo(acc));
    PlaceNext(|done|);
    HiLo(acc);
    CarryCore(BASE, Place(|done|), Value(done), c, x, Hi(acc), Lo(acc), total);
  }

  lemma CarryEnds(done: seq<Limb>, c: Limb, total: nat)
    requires Carried(done, c, total)
    ensures Value(done + [c]) == total && (c == 0 ==> Value(done) == total)
  {
    ValuePush(done, c);
  }

  lemma ScaledTake(v: seq<Limb>, i: nat, r: nat)
    requires i < |v|
    ensures Times(r, Value(v[..i + 1])) == Times(r, Value(v[..i])) + Place(i) * Times(r, v[i])
  {
    ValueTake(v, i);
    hide *;
    ScaledCore(r, Value(v[..i]), Place(i), v[i], Value(v[..i + 1]));
  }

  lemma ScaledCore(r: nat, a: nat, P: nat, x: nat, b: nat)
    requires b == a + P * x
    ensures Times(r, b) == Times(r, a) + P * Times(r, x)
  {
    JoinCore(r, a, P, x);
    MulSwap(r, P, x);
    MulSwap(r, x, P);
  }

  lemma TopOfLong(v: seq<Limb>)
    requires Normal(v) && |v| > 1
    ensures Value(v) >= Place(|v| - 1)
  {
    var n := |v| - 1;
    ValueTake(v, n);
    assert v[..|v|] == v;
    MulMono(1, v[n], Place(n));
  }

  /** Growing a normal vector by a positive factor leaves it normal. */
  lemma ScaledNormal(v: seq<Limb>, w: seq<Limb>)
    requires Normal(v) && |w| >= |v| && Value(w) >= Value(v) && (|w| > |v| ==> w[|w| - 1] != 0)
    ensures Normal(w)
  {
    if |v| > 1 && |w| == |v| {
      TopOfLong(v);
      NormalFromTop(w);
    }
  }

  /** One limb of a product by `r`: the accumulator's low half is stored, its high half carried. */
  lemma ScalarStep(v: seq<Limb>, i: nat, done: seq<Limb>, c: nat, r: nat, acc: nat)
    requires i < |v| && |done| == i && Carried(done, c, Times(r, Value(v[..i]))) && acc == Times(r, v[i]) + c
    ensures Carried(done + [Lo(acc)], Hi(acc), Times(r, Value(v[..i + 1])))
  {
    ScaledTake(v, i, r);
    var x := Times(r, v[i]);
    hide *;
    CarryStep(done, c, x, acc, Times(r, Value(v[..i])), Times(r, Value(v[..i + 1])));
  }

  // ---------------------------------------------------------------- shifts

  /** Bitwise or. */
  function BitOr(x: nat, y: nat): nat {
    if x == 0 then y else if y == 0 then x
    else 2 * BitOr(x / 2, y / 2) + (if x % 2 == 1 || y % 2 == 1 then 1 else 0)
  }

  /** Or-ing values without common bits adds them. */
  lemma {:induction false} OrDisjoint(x: nat, s: nat, y: nat, z: nat)
    requires y < Pow2(s) && z == Times(x, Pow2(s))
    ensures BitOr(z, y) == z + y
  {
    if z != 0 && y != 0 {
      assert Pow2(s) == 2 * Pow2(s - 1);
      TimesTwice(x, Pow2(s - 1));
      OrDisjoint(x, s - 1, y / 2, z / 2);
    }
  }

  lemma TimesTwice(x: nat, y: nat)
    ensures Times(x, 2 * y) == 2 * Times(x, y)
  {
    MulAssoc(x, 2, y);
    MulAssoc(2, x, y);
  }

  /** Shifting right, and the bits that fall off. */
  function Shr(x: nat, n: nat): nat { x / Pow2(n) }

  function LowBits(x: nat, n: nat): nat { x % Pow2(n) }

  lemma ShrLow(x: nat, n: nat)
    ensures x == Shr(x, n) * Pow2(n) + LowBits(x, n) && LowBits(x, n) < Pow2(n)
  {
    var q, r := Shr(x, n), LowBits(x, n);
    DivBounds(x, Pow2(n));
  }

  lemma HalvesOfBase(s: nat)
    requires s < LIMB_BITS
    ensures Pow2(LIMB_BITS - s) * Pow2(s) == BASE
  {
    PowAdd(2, LIMB_BITS - s, s);
  }

  lemma HiLoUnique(acc: nat, q: nat, r: nat)
    requires acc == q * BASE + r && r < BASE
    ensures Hi(acc) == q && Lo(acc) == r
  {
    BaseFacts();
    DivUnique(acc, BASE, q, r);
  }

  /** What a left shift by `s` bits keeps in the limb, and what it moves into the next one. */
  lemma ShiftParts(x: nat, s: nat, c: nat, acc: nat)
    requires s < LIMB_BITS && c < Pow2(s) && acc == Times(x, Pow2(s)) + c
    ensures Hi(acc) == Shr(x, LIMB_BITS - s)
    ensures Lo(acc) == BitOr(Lo(Times(x, Pow2(s))), c)
    ensures Lo(Times(x, Pow2(s))) == Times(LowBits(x, LIMB_BITS - s), Pow2(s))
  {
    hide *;
    var K, S := Pow2(LIMB_BITS - s), Pow2(s);
    var q, r := Shr(x, LIMB_BITS - s), LowBits(x, LIMB_BITS - s);
    HalvesOfBase(s);
    ShrLow(x, LIMB_BITS - s);
    ShiftCore(x, K, S, q, r, BASE);
    var z := Times(r, S);
    OrDisjoint(r, s, c, z);
    HiLoUnique(acc, q, z + c);
    HiLoUnique(Times(x, S), q, z);
  }

  lemma ShiftCore(x: nat, K: nat, S: nat, q: nat, r: nat, B: nat)
    requires S > 0 && x == q * K + r && r < K && K * S == B
    ensures Times(x, S) == q * B + Times(r, S) && Times(r, S) + S <= B
  {
    MulEq(x, q * K + r, S);
    MulAdd(q * K, r, S);
    MulAssoc(q, K, S);
    MulMono(r + 1, K, S);
    MulAdd(r, 1, S);
  }

  lemma ShiftedOut(x: Limb, s: nat)
    requires s < LIMB_BITS
    ensures Shr(x, LIMB_BITS - s) < Pow2(s) && Shr(x, LIMB_BITS - s) < BASE
  {
    hide *;
    HalvesOfBase(s);
    ShrLow(x, LIMB_BITS - s);
    BaseIsPow(s);
    OutCore(x, Shr(x, LIMB_BITS - s), Pow2(LIMB_BITS - s), Pow2(s), LowBits(x, LIMB_BITS - s));
  }

  lemma BaseIsPow(s: nat)
    requires s < LIMB_BITS
    ensures Pow2(s) <= BASE
  {
    PowMono(2, s, LIMB_BITS);
  }

  lemma OutCore(x: nat, q: nat, K: nat, S: nat, r: nat)
    requires x == q * K + r && x < K * S && K > 0
    ensures q < S
  {
    MulCancel(q, S, K);
  }

  lemma ZerosBelow(s: nat, w: seq<Limb>, z: seq<Limb>)
    requires z == seq(s, _ => 0)
    ensures Value(z + w) == Times(Place(s), Value(w))
  {
    ValueJoin(z, w);
    ValueZeros(s);
  }

  /** Whole limbs and remaining bits of a shift. */
  lemma ShiftSplit(order: nat, s: nat, b: nat, x: nat)
    requires order == s * LIMB_BITS + b
    ensures Times(Place(s), Times(Pow2(b), x)) == Times(x, Pow2(order))
  {
    PlaceIsPower(s);
    PowAdd(2, s * LIMB_BITS, b);
    MulAssoc(Place(s), Pow2(b), x);
    hide Pow2, Place;
    TimesSwap(x, Pow2(order));
  }

  /** The first stored limb of a shifted scalar, and what is left for the next ones. */
  lemma FirstLimb(value: nat, off: nat, acc: nat)
    requires off < LIMB_BITS && acc == Times(value, Pow2(off))
    ensures var x := Lo(Times(Lo(value), Pow2(off)));
      && Shr(x, off) <= value
      && Shr(value - Shr(x, off), LIMB_BITS - off) == Hi(acc)
      && Carried([x], Hi(acc), acc)
      && (value > 0 ==> Hi(acc) > 0 || x != 0)
  {
    var K, S := Pow2(LIMB_BITS - off), Pow2(off);
    var q, r := Shr(value, LIMB_BITS - off), LowBits(value, LIMB_BITS - off);
    ShiftParts(value, off, 0, acc);
    ShrLow(value, LIMB_BITS - off);
    Truncated(value, S);
    ShrTimes(r, off, Times(r, S));
    ShrTimes(q, LIMB_BITS - off, Times(q, K));
    assert value == Times(q, K) + r;
    TimesFacts(S, value);
    TimesSwap(S, value);
    HiLo(acc);
    NextLimb([], acc, acc);
    assert [] + [Lo(acc)] == [Lo(acc)];
  }

  /** Cutting the factor to one limb does not change the low limb of the product. */
  lemma Truncated(v: nat, S: nat)
    ensures Lo(Times(Lo(v), S)) == Lo(Times(v, S))
  {
    var t := Times(Lo(v), S);
    hide *;
    HiLo(v);
    HiLo(t);
    TruncatedCore(v, Hi(v), BASE, Lo(v), S, Hi(t), Lo(t));
    HiLoUnique(Times(v, S), Hi(v) * S + Hi(t), Lo(t));
  }

  lemma TruncatedCore(v: nat, h: nat, B: nat, l: nat, S: nat, g: nat, k: nat)
    requires v == h * B + l && Times(l, S) == g * B + k
    ensures h * S >= 0 && Times(v, S) == (h * S + g) * B + k
  {
    MulMono2(0, h, 0, S);
    MulEq(v, h * B + l, S);
    MulAdd(h * B, l, S);
    MulSwap(h, B, S);
    MulAdd(h * S, g, B);
  }

  lemma ShrTimes(x: nat, n: nat, y: nat)
    requires y == Times(x, Pow2(n))
    ensures Shr(y, n) == x
  {
    DivUnique(y, Pow2(n), x, 0);
  }

  lemma NextLimb(w: seq<Limb>, rest: nat, acc: nat)
    requires Carried(w, rest, acc)
    ensures Carried(w + [Lo(rest)], Hi(rest), acc) && (rest > 0 ==> Hi(rest) > 0 || Lo(rest) != 0) && (rest > 0 ==> Hi(rest) < rest)
  {
    hide Carried, Lo, Hi;
    CarryStep(w, rest, 0, rest, acc, acc);
    HiLo(rest);
    BaseFacts();
    HalfCore(Hi(rest), BASE, Lo(rest), rest);
  }

  lemma HalfCore(h: nat, B: nat, l: nat, r: nat)
    requires r == h * B + l && B > 1
    ensures r > 0 ==> h < r
  {
    if h > 0 { MulMono(2, B, h); }
  }
}
