/** The multi-limb arithmetic of mina/mina/detail/bigint.hpp, in place on vectors of limbs. */
module Bigint {
  import opened Arith
  import opened Limbs

  function Sign(x: int): int { if x > 0 then 1 else if x < 0 then -1 else 0 }

  lemma WholeShift(v: seq<Limb>, whole: nat, zeros: seq<Limb>, w: seq<Limb>)
    requires Normal(v) && zeros == seq(whole, _ => 0) && w == zeros + v
    ensures Value(w) == Times(Place(whole), Value(v)) && (Value(v) > 0 ==> Normal(w))
  {
    ZerosBelow(whole, v, zeros);
    if Value(v) > 0 { TopFromNormal(v); }
  }

  lemma ShiftEnds(v: seq<Limb>, whole: nat, shift: nat, order: nat, zeros: seq<Limb>, w: seq<Limb>, c: Limb, all: seq<Limb>)
    requires Normal(v) && zeros == seq(whole, _ => 0) && |w| == |v| && order == whole * LIMB_BITS + shift
    requires Carried(w, c, Times(Pow2(shift), Value(v))) && all == if c != 0 then zeros + w + [c] else zeros + w
    ensures Value(all) == Times(Value(v), Pow2(order)) && (Value(v) > 0 ==> Normal(all))
  {
    hide Carried, Times, Pow2, Place, Value;
    var x := if c != 0 then w + [c] else w;
    assert all == zeros + x;
    CarryEnds(w, c, Times(Pow2(shift), Value(v)));
    ZerosBelow(whole, x, zeros);
    ShiftSplit(order, whole, shift, Value(v));
    if Value(v) > 0 {
      TimesFacts(Pow2(shift), Value(v));
      ScaledNormal(v, x);
      WholeShift(x, whole, zeros, all);
    }
  }

  lemma Stored(zeros: seq<Limb>, w: seq<Limb>, v: seq<Limb>, i: nat, x: Limb)
    requires |w| == i < |v|
    ensures (zeros + w + v[i..])[|zeros| + i := x] == zeros + (w + [x]) + v[i + 1..]
  {
  }

  /** The table of mina/mina/detail/bigint.hpp. */
  const SMALL_POWER_10: seq<nat> := [
    1, 10, 100, 1000, 10000, 100000, 1000000, 10000000, 100000000,
    1000000000, 10000000000, 100000000000, 1000000000000, 10000000000000,
    100000000000000, 1000000000000000, 10000000000000000,
    100000000000000000, 1000000000000000000, 10000000000000000000]

  lemma {:induction false} SmallPowers(k: nat)
    requires k <= LIMB_DIGITS_10
    ensures |SMALL_POWER_10| == 20 && SMALL_POWER_10[k] == Pow(10, k) && 0 < SMALL_POWER_10[k] < BASE
  {
    TableStep(k);
    if k > 0 { SmallPowers(k - 1); }
    TenFits();
  }

  lemma TableStep(k: nat)
    requires k < 20
    ensures |SMALL_POWER_10| == 20 && SMALL_POWER_10[0] == 1 && (k > 0 ==> SMALL_POWER_10[k] == 10 * SMALL_POWER_10[k - 1])
    ensures SMALL_POWER_10[k] <= 0x1_0000_0000_0000_0000 && (k <= 9 ==> SMALL_POWER_10[k] < 0x1_0000_0000)
  {
  }

  lemma OneTurn(turns: nat, d: nat)
    requires Times(turns, d) > 0
    ensures turns > 0 && Times(turns, d) == d + Times(turns - 1, d)
  {
    MulAdd(turns - 1, 1, d);
  }

  lemma ScalarEnds(value: nat, order: nat, whole: nat, off: nat, zeros: seq<Limb>, w: seq<Limb>, acc: nat)
    requires zeros == seq(whole, _ => 0) && order == whole * LIMB_BITS + off && acc == Times(value, Pow2(off))
    requires |w| > 0 && Carried(w, 0, acc) && (value > 0 ==> w[|w| - 1] != 0)
    ensures Value(zeros + w) == Times(value, Pow2(order)) && (value > 0 ==> Normal(zeros + w))
  {
    hide Carried, Times, Pow2, Place, Value;
    CarryEnds(w, 0, acc);
    ZerosBelow(whole, w, zeros);
    ShiftSplit(order, whole, off, value);
    TimesSwap(value, Pow2(off));
  }

  lemma RowEnds(l: seq<Limb>, r: seq<Limb>, j: nat, before: nat, after: nat)
    requires j < |r| && before == Times(Value(l), Value(r[..j]))
    requires after == before + Times(Place(j), Times(r[j], Value(l)))
    ensures after == Times(Value(l), Value(r[..j + 1]))
  {
    ScaledTake(r, j, Value(l));
    TimesSwap(Value(l), r[j]);
    TimesIs(Place(j), Times(r[j], Value(l)));
  }

  /** `i` limbs of the row from place `j` on are in `done`, with a carry of `c`. */
  ghost predicate RowDone(l: seq<Limb>, d: Limb, before: seq<Limb>, j: nat, i: nat, done: seq<Limb>, c: nat)
    requires i <= |l| && j + i <= |before|
  {
    |done| == j + i && Carried(done, c, Value(before[..j + i]) + Times(Place(j), Times(d, Value(l[..i]))))
  }

  lemma RowStart(l: seq<Limb>, d: Limb, before: seq<Limb>, j: nat)
    requires j <= |before|
    ensures RowDone(l, d, before, j, 0, before[..j], 0)
  {
    assert l[..0] == [];
    hide Place;
  }

  lemma RowStep(l: seq<Limb>, d: Limb, before: seq<Limb>, j: nat, i: nat, done: seq<Limb>, c: Limb, acc: nat)
    requires i < |l| && j + i < |before| && RowDone(l, d, before, j, i, done, c)
    requires acc == Times(d, l[i]) + before[j + i] + c
    ensures RowDone(l, d, before, j, i + 1, done + [Lo(acc)], Hi(acc))
  {
    var total: nat := Value(before[..j + i]) + Times(Place(j), Times(d, Value(l[..i])));
    var next: nat := Value(before[..j + i + 1]) + Times(Place(j), Times(d, Value(l[..i + 1])));
    var x: nat := Times(d, l[i]) + before[j + i];
    hide Value, Place, Times, Carried, Hi, Lo;
    ValueTake(before, j + i);
    ScaledTake(l, i, d);
    PlaceAdds(j, i);
    RowCore(Place(j), Place(i), Place(j + i), Times(d, Value(l[..i])), Times(d, l[i]), before[j + i], Times(d, Value(l[..i + 1])));
    CarryStep(done, c, x, acc, total, next);
  }

  lemma RowEnd(l: seq<Limb>, d: Limb, before: seq<Limb>, j: nat, i: nat, done: seq<Limb>, c: Limb)
    requires i == |l| && j + i <= |before| && RowDone(l, d, before, j, i, done, c)
    ensures Value(done + [c]) == Value(before[..j + i]) + Times(Place(j), Times(d, Value(l)))
  {
    assert l[..i] == l;
    hide Value, Place, Times, Carried;
    CarryEnds(done, c, Value(before[..j + i]) + Times(Place(j), Times(d, Value(l))));
  }

  lemma RowCore(P: nat, Q: nat, R: nat, t: nat, x: nat, b: nat, t': nat)
    requires R == P * Q && t' == t + Q * x
    ensures Times(P, t') + R * b == Times(P, t) + R * (x + b)
  {
    MulAssoc(P, Q, x);
  }

  lemma PlaceAdds(i: nat, j: nat)
    ensures Place(i + j) == Place(i) * Place(j)
  {
    PowAdd(BASE, i, j);
  }

  // ---------------------------------------------------------------- comparison

  /** A longer bit string is a larger number. */
  lemma SizesOrder(l: seq<Limb>, r: seq<Limb>)
    requires Normal(l) && Normal(r)
    ensures BitSize(l) > BitSize(r) ==> Value(l) > Value(r)
  {
    hide *;
    BitSizeIsBitLen(l);
    BitSizeIsBitLen(r);
    if Value(l) <= Value(r) { BitLenMono(Value(l), Value(r)); }
  }

  lemma LimbBits(x: Limb)
    ensures BitLen(x) <= LIMB_BITS && (x > 0 ==> BitLen(x) > 0)
  {
    BitLenBounds(x);
    assert BitLen(0) == 0;
    hide BitLen, Pow2;
    if x > 0 { PowLess(BitLen(x) - 1, LIMB_BITS); }
  }

  lemma Lengths(a: seq<Limb>, b: seq<Limb>, k: nat)
    requires Normal(a) && Normal(b) && BitSize(a) <= BitSize(b) + k && k <= 1
    ensures |a| <= |b| + k
  {
    LimbBits(a[|a| - 1]);
    LimbBits(b[|b| - 1]);
    if |a| > |b| + k {
      hide BitLen;
      MulMono(|b| + k + 1, |a|, LIMB_BITS);
      MulAdd(|b|, k + 1, LIMB_BITS);
    }
  }

  lemma SignStep(P: nat, d: nat, e: nat, x: nat, y: nat, s: int)
    requires d < P && e < P && s == Sign(d - e)
    ensures Sign(d + P * x - (e + P * y)) == if x > y then 1 else if x < y then -1 else s
  {
    if x > y { MulMono(y + 1, x, P); } else { MulMono(x, y, P); if x < y { MulMono(x + 1, y, P); } }
  }

  /** A verdict on the low limbs extended by one limb. */
  lemma VerdictStep(sum: seq<Limb>, r: seq<Limb>, p: nat, x: Limb, s: int)
    requires |sum| == p < |r| && s == Sign(Value(sum) - Value(r[..p]))
    ensures Sign(Value(sum + [x]) - Value(r[..p + 1])) == if x > r[p] then 1 else if x < r[p] then -1 else s
  {
    hide Value, Place, Sign;
    ValuePush(sum, x);
    ValueTake(r, p);
    ValueBound(sum);
    ValueBound(r[..p]);
    SignStep(Place(p), Value(sum), Value(r[..p]), x, r[p], s);
  }

  lemma HighestDifference(l: seq<Limb>, r: seq<Limb>, i: nat)
    requires i < |l| == |r| && l[i + 1..] == r[i + 1..] && l[i] != r[i]
    ensures Sign(Value(l) - Value(r)) == if l[i] > r[i] then 1 else -1
  {
    hide Value, Place, Sign;
    VerdictStep(l[..i], r, i, l[i], Sign(Value(l[..i]) - Value(r[..i])));
    assert l[..i] + [l[i]] == l[..i + 1];
    ValueSplit(l, i + 1);
    ValueSplit(r, i + 1);
  }

  /** After `p` limbs: the low limbs of the sum, its carry, and how they compare to r so far. */
  ghost predicate Verdict(small: seq<Limb>, large: seq<Limb>, r: seq<Limb>, p: nat, sum: seq<Limb>, c: Limb, s: int) {
    && |sum| == p <= |large| <= |r| && |small| <= |large| && c <= 1
    && Carried(sum, c, Value(if p <= |small| then small[..p] else small) + Value(large[..p]))
    && s == Sign(Value(sum) - Value(r[..p]))
  }

  lemma VerdictAtFirst(small: seq<Limb>, large: seq<Limb>, r: seq<Limb>)
    requires |small| <= |large| <= |r|
    ensures Verdict(small, large, r, 0, [], 0, 0)
  {
  }

  /** One turn of either limb loop; `d` is the limb of the shorter summand, or nothing. */
  lemma VerdictNext(small: seq<Limb>, large: seq<Limb>, r: seq<Limb>, p: nat, sum: seq<Limb>, c: Limb, s: int, d: Limb, acc: nat)
    requires Verdict(small, large, r, p, sum, c, s) && p < |large|
    requires d == (if p < |small| then small[p] else 0) && acc == d + large[p] + c
    ensures Hi(acc) <= 1
    ensures Verdict(small, large, r, p + 1, sum + [Lo(acc)], Hi(acc), if Lo(acc) > r[p] then 1 else if Lo(acc) < r[p] then -1 else s)
  {
    var a, a' := if p <= |small| then small[..p] else small, if p + 1 <= |small| then small[..p + 1] else small;
    if p < |small| { ValueTake(small, p); } else { assert p == |small| ==> small[..p] == small; }
    assert Value(a') == Value(a) + Place(p) * d;
    hide Value, Place, Carried, Hi, Lo, Sign;
    ValueTake(large, p);
    BaseFacts();
    HiBound(acc, 2);
    var x: nat, y: nat := d, large[p];
    MulAddRight(Place(p), x, y);
    CarryStep(sum, c, x + y, acc, Value(a) + Value(large[..p]), Value(a') + Value(large[..p + 1]));
    VerdictStep(sum, r, p, Lo(acc), s);
  }

  lemma MulAddRight(P: nat, x: nat, y: nat)
    ensures P * (x + y) == P * x + P * y
  {
  }

  /** The carry out of one limb and a carry, as the second loop tests it. */
  lemma CarryTest(x: Limb, c: Limb)
    requires c <= 1
    ensures Hi(x + c) == (if x == BASE - 1 && c != 0 then 1 else 0)
  {
    hide *;
    BaseFacts();
    if x == BASE - 1 && c != 0 { HiLoUnique(x + c, 1, 0); } else { HiLoUnique(x + c, 0, x + c); }
  }

  /** What the limb above the longer summand decides. */
  lemma LastVerdict(small: seq<Limb>, large: seq<Limb>, r: seq<Limb>, p: nat, sum: seq<Limb>, c: Limb, s: int)
    requires Verdict(small, large, r, p, sum, c, s) && p == |large| <= |r| <= p + 1 && (|r| > p ==> r[p] != 0)
    ensures Sign(Value(small) + Value(large) - Value(r)) == if p < |r| then (if r[p] > c then -1 else s) else if c != 0 then 1 else s
  {
    hide Value, Place, Carried, Sign;
    TotalSoFar(small, large, r, p, sum, c, s);
    ghost var y: Limb := if p < |r| then r[p] else 0;
    TopLimb(r, p, y);
    ValueBound(sum);
    ValueBound(r[..p]);
    SignPlaced(Place(p), Value(sum), Value(r[..p]), c, y, s, Value(small) + Value(large), Value(r));
  }

  lemma TopLimb(r: seq<Limb>, p: nat, y: Limb)
    requires p <= |r| <= p + 1 && y == if p < |r| then r[p] else 0
    ensures Value(r) == Value(r[..p]) + Place(p) * y
  {
    hide Place;
    assert r[..|r|] == r;
    if p < |r| { ValueTake(r, p); }
  }

  lemma SignPlaced(P: nat, d: nat, e: nat, x: nat, y: nat, s: int, t: nat, u: nat)
    requires d < P && e < P && s == Sign(d - e) && t == d + P * x && u == e + P * y
    ensures Sign(t - u) == if x > y then 1 else if x < y then -1 else s
  {
    SignStep(P, d, e, x, y, s);
  }

  lemma TotalSoFar(small: seq<Limb>, large: seq<Limb>, r: seq<Limb>, p: nat, sum: seq<Limb>, c: Limb, s: int)
    requires Verdict(small, large, r, p, sum, c, s) && p == |large|
    ensures Value(small) + Value(large) == Value(sum) + Place(p) * c
  {
    assert large[..p] == large && (p <= |small| ==> small[..p] == small);
    hide Value, Place;
  }

  lemma SumTooSmall(small: seq<Limb>, large: seq<Limb>, r: seq<Limb>)
    requires Normal(small) && Normal(large) && Normal(r) && BitSize(small) <= BitSize(large) && BitSize(r) > BitSize(large) + 1
    ensures Value(small) + Value(large) < Value(r)
  {
    BitSizeIsBitLen(small);
    BitSizeIsBitLen(large);
    BitSizeIsBitLen(r);
    hide *;
    BitsTooFew(Value(small), Value(large), Value(r));
  }

  lemma BitsTooFew(x: nat, y: nat, z: nat)
    requires BitLen(x) <= BitLen(y) && BitLen(z) > BitLen(y) + 1
    ensures x + y < z
  {
    BitLenBounds(x);
    BitLenBounds(y);
    BitLenBounds(z);
    assert z > 0;
    hide BitLen;
    var n := BitLen(y);
    PowMono(2, BitLen(x), n);
    PowMono(2, n + 1, BitLen(z) - 1);
    assert Pow2(n + 1) == 2 * Pow2(n);
  }

  // ---------------------------------------------------------------- subtraction

  /** The low limbs `done` of l minus x, with `owed` still to be taken from the limb above. */
  ghost predicate Owed(l: seq<Limb>, done: seq<Limb>, x: nat, owed: nat) {
    |done| <= |l| && Value(done) + x == Value(l[..|done|]) + Place(|done|) * owed
  }

  lemma OweStep(l: seq<Limb>, done: seq<Limb>, x: nat, owed: nat, d: Limb, e: nat, owed': nat, x': nat)
    requires |done| < |l| && Owed(l, done, x, owed) && x' == x + Place(|done|) * e
    requires d + e + owed == l[|done|] + BASE * owed'
    ensures Owed(l, done + [d], x', owed')
  {
    var p := |done|;
    ValueTake(l, p);
    ValuePush(done, d);
    PlaceNext(p);
    OweCore(BASE, Place(p), d, e, owed, l[p], owed');
  }

  lemma OweCore(B: nat, P: nat, d: nat, e: nat, o: nat, l: nat, o': nat)
    requires d + e + o == l + B * o'
    ensures P * d + P * e + P * o == P * l + (B * P) * o'
  {
    MulEq(d + e + o, l + B * o', P);
    MulAdd(d + e, o, P);
    MulAdd(d, e, P);
    MulAdd(l, B * o', P);
    MulSwap(B, o', P);
  }

  /** One limb of r * 2^shift and what goes into the next. */
  method ScaledLimb(d: Limb, shift: nat, sc: Limb) returns (x: Limb, next: Limb)
    requires shift < LIMB_BITS && sc < Pow2(shift)
    ensures Times(d, Pow2(shift)) + sc == next * BASE + x && next < Pow2(shift)
  {
    ghost var acc := Times(d, Pow2(shift)) + sc;
    ShiftParts(d, shift, sc, acc);
    ShiftedOut(d, shift);
    HiLo(acc);
    if shift == 0 {
      assert sc == 0 && Pow2(0) == 1;
      hide *;
      TimesIs(d, 1);
      return d, 0;
    }
    hide *;
    x := BitOr(Lo(Times(d, Pow2(shift))), sc);
    next := Shr(d, LIMB_BITS - shift);
  }

  lemma OwedAtFirst(l: seq<Limb>, r: seq<Limb>, whole: nat, shift: nat)
    requires whole <= |l|
    ensures Owed(l, l[..whole + 0], Times(Place(whole), Times(Pow2(shift), Value(r[..0]))), 0) && 0 < Pow2(shift)
  {
    hide Place;
  }

  lemma BorrowStep(l: seq<Limb>, r: seq<Limb>, whole: nat, shift: nat, i: nat, done: seq<Limb>,
                   b: Limb, sc: Limb, xr: Limb, next: Limb, acc: int)
    requires i < |r| && whole + i < |l| && |done| == whole + i && b <= 1
    requires Owed(l, done, Times(Place(whole), Times(Pow2(shift), Value(r[..i]))), b + sc)
    requires Times(r[i], Pow2(shift)) + sc == next * BASE + xr && acc == BASE + l[whole + i] - xr - b
    ensures acc >= 0 && Hi(acc) <= 1
    ensures Owed(l, done + [Lo(acc)], Times(Place(whole), Times(Pow2(shift), Value(r[..i + 1]))), 1 - Hi(acc) + next)
  {
    hide *;
    BaseFacts();
    HiBound(acc, 2);
    HiLo(acc);
    var S := Pow2(shift);
    ScaledTake(r, i, S);
    PlaceAdds(whole, i);
    TimesSwap(S, r[i]);
    PlacedCore(Place(whole), Place(i), Place(whole + i), Times(S, Value(r[..i])), Times(S, r[i]), Times(S, Value(r[..i + 1])));
    OweStep(l, done, Times(Place(whole), Times(S, Value(r[..i]))), b + sc, Lo(acc), Times(r[i], S), 1 - Hi(acc) + next,
      Times(Place(whole), Times(S, Value(r[..i + 1]))));
  }

  lemma PlacedCore(P: nat, Q: nat, R: nat, t: nat, x: nat, t': nat)
    requires R == P * Q && t' == t + Q * x
    ensures Times(P, t') == Times(P, t) + R * x
  {
    MulAssoc(P, Q, x);
  }

  lemma LastBorrow(l: seq<Limb>, done: seq<Limb>, x: nat, sc: Limb, b: Limb, acc: int, shift: nat)
    requires |done| < |l| && Owed(l, done, x, b + sc) && b <= 1 && sc < Pow2(shift) && shift < LIMB_BITS
    requires acc == BASE + l[|done|] - sc - b
    ensures acc >= 0 && Hi(acc) <= 1 && Owed(l, done + [Lo(acc)], x, 1 - Hi(acc))
  {
    hide *;
    BaseIsPow(shift);
    BaseFacts();
    HiBound(acc, 2);
    HiLo(acc);
    OweStep(l, done, x, b + sc, Lo(acc), 0, 1 - Hi(acc), x);
  }

  lemma SubtractedAll(l: seq<Limb>, now: seq<Limb>, r: seq<Limb>, whole: nat, shift: nat, order: nat, sc: Limb, b: Limb)
    requires order == whole * LIMB_BITS + shift && whole + |r| <= |l| == |now|
    requires Owed(l, now[..whole + |r|], Times(Place(whole), Times(Pow2(shift), Value(r))), b + sc)
    ensures Owed(l, now[..whole + |r|], Times(Value(r), Pow2(order)), b + sc)
  {
    ShiftSplit(order, whole, shift, Value(r));
  }

  /** What is subtracted starts and ends inside the number it is subtracted from. */
  lemma FitsBelow(l: seq<Limb>, r: seq<Limb>, whole: nat, shift: nat, order: nat)
    requires Normal(r) && Value(r) > 0 && order == whole * LIMB_BITS + shift && Times(Value(r), Pow2(order)) <= Value(l)
    ensures whole + |r| <= |l|
  {
    TopFromNormal(r);
    ValueBound(l);
    ShiftSplit(order, whole, shift, Value(r));
    PlaceAdds(whole, |r| - 1);
    hide *;
    FitsCore(Place(whole), Place(|r| - 1), Pow2(shift), Value(r), Value(l));
    PlaceOrder(whole + |r| - 1, |l|);
  }

  lemma FitsCore(P: nat, Q: nat, S: nat, v: nat, l: nat)
    requires Q <= v && S > 0 && Times(P, Times(S, v)) <= l
    ensures P * Q <= l
  {
    MulMono(1, S, v);
    MulMono(Q, S * v, P);
  }

  lemma PlaceOrder(i: nat, j: nat)
    requires Place(i) < Place(j)
    ensures i < j
  {
    if i >= j { PowMono(BASE, j, i); }
  }

  lemma NothingOwed(l: seq<Limb>, now: seq<Limb>, p: nat, x: nat, owed: nat)
    requires p <= |l| == |now| && now[p..] == l[p..] && Owed(l, now[..p], x, owed) && x <= Value(l)
    requires p == |l| || owed == 0
    ensures owed == 0 && Value(now) == Value(l) - x
  {
    ValueSplit(l, p);
    ValueSplit(now, p);
    ValueBound(now[..p]);
    assert p == |l| ==> l[..p] == l && now[..p] == now;
    hide Value, Place;
    NothingCore(Place(p), owed, Value(now[..p]), x, Value(l[..p]), Value(now), Value(l));
  }

  lemma NothingCore(P: nat, owed: nat, a: nat, x: nat, b: nat, now: nat, l: nat)
    requires a < P && a + x == b + P * owed && now - a == l - b && (owed == 0 || (b == l && x <= l))
    ensures owed == 0 && now == l - x
  {
    if owed > 0 { MulMono(1, owed, P); }
  }

  // ---------------------------------------------------------------- division

  lemma OrderFits(num: seq<Limb>, denom: seq<Limb>, order: int, q: Limb, n: nat)
    requires Normal(num) && Normal(denom) && Value(denom) > 0 && order == BitSize(num) - BitSize(denom) > 1
    requires n == Times(q, Value(denom)) + Value(num) < Times(BASE, Value(denom))
    ensures 0 < Times(Value(denom), Pow2(order - 1)) <= Value(num) && q + Pow2(order - 1) < BASE
    ensures Times(q + Pow2(order - 1), Value(denom)) == Times(q, Value(denom)) + Times(Value(denom), Pow2(order - 1))
  {
    BitSizeIsBitLen(num);
    BitSizeIsBitLen(denom);
    BitLenBounds(Value(num));
    BitLenBounds(Value(denom));
    assert Value(num) > 0;
    var d, k, e := Value(denom), order - 1, BitLen(Value(denom));
    PowAdd(2, e, k);
    OrderCore(d, Pow2(e), Pow2(k), Value(num), q, n, BASE);
  }

  lemma OrderCore(d: nat, E: nat, K: nat, num: nat, q: nat, n: nat, B: nat)
    requires 0 < d < E && K > 0 && E * K <= num && n == Times(q, d) + num < Times(B, d)
    ensures 0 < Times(d, K) <= num && q + K < B && Times(q + K, d) == Times(q, d) + Times(d, K)
  {
    MulMono(d, E, K);
    MulMono(1, d, K);
    MulAdd(q, K, d);
    MulCancel(q + K, B, d);
  }

  lemma OneMore(num: nat, d: nat, q: Limb, n: nat)
    requires n == Times(q, d) + num < Times(BASE, d) && Sign(num - d) >= 0 && d > 0
    ensures 0 < Times(d, Pow2(0)) == d <= num && q + 1 < BASE && Times(q + 1, d) == Times(q, d) + d
  {
    MulAdd(q, 1, d);
    MulCancel(q + 1, BASE, d);
  }

  lemma SignFacts(x: int)
    ensures Sign(x) >= 0 <==> x >= 0
  {
  }

  class Num {
    var limbs: seq<Limb>

    function Val(): nat
      reads this
    {
      Value(limbs)
    }

    ghost predicate Valid()
      reads this
    {
      Normal(limbs)
    }

    constructor ()
      ensures limbs == []
    {
      limbs := [];
    }

    /** Drops the zero limbs at the top; zero keeps one limb. */
    method Strip()
      modifies this
      ensures Valid() && Val() == old(Val())
    {
      while |limbs| > 0 && limbs[|limbs| - 1] == 0
        invariant Value(limbs) == old(Value(limbs))
        decreases |limbs|
      {
        var n := |limbs| - 1;
        ValueTake(limbs, n);
        assert limbs[..n + 1] == limbs;
        limbs := limbs[..n];
      }
      if |limbs| == 0 {
        limbs := [0];
        ValueSingle(0);
      }
    }

    /** Multiplies by one limb in place. */
    method MultiplyScalar(r: Limb)
      requires Valid()
      modifies this
      ensures Val() == old(Val()) * r && (r > 0 ==> Valid())
    {
      ghost var v := limbs;
      assert Carried([], 0, Times(r, Value(v[..0])));
      hide Value, Carried, Lo, Hi, Normal, Times, Mac;
      var c: Limb, i := 0, 0;
      while i < |limbs|
        invariant 0 <= i <= |limbs| == |v| && limbs[i..] == v[i..]
        invariant Carried(limbs[..i], c, Times(r, Value(v[..i])))
      {
        assert limbs[i] == v[i];
        ghost var done := limbs[..i];
        var acc := Mac(r, limbs[i], c, 0);
        ScalarStep(v, i, done, c, r, acc);
        limbs := limbs[i := Lo(acc)];
        assert limbs[..i + 1] == done + [Lo(acc)];
        c := Hi(acc);
        i := i + 1;
      }
      assert limbs[..i] == limbs && v[..i] == v;
      CarryEnds(limbs, c, Times(r, Value(v)));
      TimesFacts(r, Value(v));
      if c != 0 {
        limbs := limbs + [c];
      }
      if r > 0 { ScaledNormal(v, limbs); }
    }

    /** Shifts left by `order` bits in place: whole limbs first, then bits with a carry. */
    method ShiftLeft(order: nat)
      requires Valid()
      modifies this
      ensures Val() == Times(old(Val()), Pow2(order)) && (old(Val()) > 0 ==> Valid())
    {
      ghost var v := limbs;
      var whole, shift := order / LIMB_BITS, order % LIMB_BITS;
      DivBounds(order, LIMB_BITS);
      var zeros := seq(whole, _ => 0);
      limbs := zeros + limbs;
      ShiftSplit(order, whole, shift, Value(v));
      if shift == 0 {
        WholeShift(v, whole, zeros, limbs);
        return;
      }
      hide Value, Normal, Times, Pow2;
      ghost var w, c := ShiftBits(whole, shift, zeros, v);
      ShiftEnds(v, whole, shift, order, zeros, w, c, limbs);
    }

    /** The carrying loop: every limb from `from` on moves up by `shift` bits. */
    method ShiftBits(from: nat, shift: nat, ghost zeros: seq<Limb>, ghost v: seq<Limb>)
      returns (ghost w: seq<Limb>, ghost last: Limb)
      requires 0 < shift < LIMB_BITS && |zeros| == from && limbs == zeros + v
      modifies this
      ensures |w| == |v| && Carried(w, last, Times(Pow2(shift), Value(v)))
      ensures limbs == if last != 0 then zeros + w + [last] else zeros + w
    {
      w := [];
      assert Carried([], 0, Times(Pow2(shift), Value(v[..0])));
      hide *;
      var c: Limb, i := 0, 0;
      while from + i < |limbs|
        invariant |w| == i <= |v| && limbs == zeros + w + v[i..]
        invariant c < Pow2(shift) && Carried(w, c, Times(Pow2(shift), Value(v[..i])))
      {
        var d := limbs[from + i];
        assert d == v[i];
        ghost var acc := Times(d, Pow2(shift)) + c;
        ShiftParts(d, shift, c, acc);
        ShiftedOut(d, shift);
        TimesSwap(d, Pow2(shift));
        ScalarStep(v, i, w, c, Pow2(shift), acc);
        var x: Limb := BitOr(Lo(Times(d, Pow2(shift))), c);
        c := Shr(d, LIMB_BITS - shift);
        Stored(zeros, w, v, i, x);
        limbs := limbs[from + i := x];
        w := w + [x];
        i := i + 1;
      }
      assert v[..i] == v;
      last := c;
      if c != 0 {
        limbs := limbs + [c];
      }
    }

    /** Sets an empty vector to value * 2^order. */
    method AssignScalar(value: nat, order: nat)
      requires limbs == []
      modifies this
      ensures Val() == Times(value, Pow2(order)) && (value > 0 ==> Valid())
    {
      ghost var whole: nat := 0;
      var off := order;
      while off >= LIMB_BITS
        invariant 0 <= off && order == whole * LIMB_BITS + off && limbs == seq(whole, _ => 0)
        decreases off
      {
        limbs := limbs + [0];
        whole, off := whole + 1, off - LIMB_BITS;
      }
      ghost var zeros := limbs;
      ghost var acc := Times(value, Pow2(off));
      FirstLimb(value, off, acc);
      hide *;
      var x := Lo(Times(Lo(value), Pow2(off)));
      var rest := Shr(value - Shr(x, off), LIMB_BITS - off);
      limbs := limbs + [x];
      ghost var w := [x];
      while rest > 0
        invariant limbs == zeros + w && |w| > 0 && Carried(w, rest, acc)
        invariant value > 0 ==> rest > 0 || w[|w| - 1] != 0
        decreases rest
      {
        NextLimb(w, rest, acc);
        limbs := limbs + [Lo(rest)];
        w := w + [Lo(rest)];
        rest := Hi(rest);
      }
      ScalarEnds(value, order, whole, off, zeros, w, acc);
    }

    /** 10^order, from the table of small powers and repeated multiplication by the largest of them. */
    method AssignPow10(order: nat)
      modifies this
      ensures Valid() && Val() == Pow(10, order)
    {
      ghost var turns: nat := order / LIMB_DIGITS_10;
      var k := order % LIMB_DIGITS_10;
      DivBounds(order, LIMB_DIGITS_10);
      SmallPowers(k);
      SmallPowers(LIMB_DIGITS_10);
      var big: Limb := SMALL_POWER_10[LIMB_DIGITS_10];
      limbs := [SMALL_POWER_10[k]];
      ValueSingle(limbs[0]);
      assert Valid();
      var left := order - k;
      TimesIs(turns, LIMB_DIGITS_10);
      hide *;
      while left > 0
        invariant left == Times(turns, LIMB_DIGITS_10) && left <= order
        invariant Valid() && Val() == Pow(10, order - left)
        decreases left
      {
        OneTurn(turns, LIMB_DIGITS_10);
        PowAdd(10, order - left, LIMB_DIGITS_10);
        MultiplyScalar(big);
        left := left - LIMB_DIGITS_10;
        turns := turns - 1;
      }
    }

    /** Schoolbook product, row by row into a fresh vector, then stripped. */
    method Multiply(r: seq<Limb>)
      requires |limbs| > 0
      modifies this
      ensures Valid() && Val() == Times(old(Val()), Value(r))
    {
      ghost var l := limbs;
      var m: seq<Limb> := seq(|limbs| + |r|, _ => 0);
      assert m[..|l|] == seq(|l|, _ => 0);
      ValueZeros(|l|);
      assert Value(m[..|l|]) == Times(Value(l), Value(r[..0]));
      hide *;
      var j := 0;
      while j < |r|
        invariant 0 <= j <= |r| && |m| == |l| + |r| && limbs == l
        invariant Value(m[..j + |l|]) == Times(Value(l), Value(r[..j]))
      {
        var row := AddRow(limbs, r[j], m, j);
        RowEnds(l, r, j, Value(m[..j + |l|]), Value(row[..j + 1 + |l|]));
        m := row;
        j := j + 1;
      }
      assert m[..j + |l|] == m && r[..j] == r;
      limbs := m;
      Strip();
    }

    /** One row: `d` times `l`, added from place `j` on. */
    static method AddRow(l: seq<Limb>, d: Limb, before: seq<Limb>, j: nat) returns (m: seq<Limb>)
      requires j + |l| < |before|
      ensures |m| == |before|
      ensures Value(m[..j + |l| + 1]) == Value(before[..j + |l|]) + Times(Place(j), Times(d, Value(l)))
    {
      m := before;
      var i, c: Limb := 0, 0;
      RowStart(l, d, before, j);
      hide *;
      while i < |l|
        invariant 0 <= i <= |l| && |m| == |before| && m[j + i..] == before[j + i..]
        invariant RowDone(l, d, before, j, i, m[..j + i], c)
      {
        ghost var done := m[..j + i];
        assert m[j + i] == before[j + i];
        var acc := Mac(d, l[i], m[j + i], c);
        RowStep(l, d, before, j, i, done, c, acc);
        m := m[j + i := Lo(acc)];
        assert m[..j + i + 1] == done + [Lo(acc)];
        c := Hi(acc);
        i := i + 1;
      }
      ghost var done := m[..j + i];
      RowEnd(l, d, before, j, i, done, c);
      m := m[j + i := c];
      assert m[..j + i + 1] == done + [c];
    }

    /** Subtracts r * 2^order in place. */
    method SubtractScaled(r: seq<Limb>, order: nat)
      requires Valid() && Normal(r) && Value(r) > 0 && Times(Value(r), Pow2(order)) <= Val()
      modifies this
      ensures Valid() && Val() == old(Val()) - Times(Value(r), Pow2(order))
    {
      ghost var l := limbs;
      var whole, shift := order / LIMB_BITS, order % LIMB_BITS;
      DivBounds(order, LIMB_BITS);
      ghost var x := Times(Value(r), Pow2(order));
      FitsBelow(l, r, whole, shift, order);
      hide Value, Times, Owed, Normal, Pow2;
      var b, sc := SubtractLimbs(r, whole, shift);
      SubtractedAll(l, limbs, r, whole, shift, order, sc, b);
      Settle(whole + |r|, sc, b, l, x, shift);
      Strip();
    }

    /** Takes what is still owed from the limbs from `from` on. */
    method Settle(from: nat, sc: Limb, borrow: Limb, ghost l: seq<Limb>, ghost x: nat, ghost shift: nat)
      requires from <= |limbs| == |l| && limbs[from..] == l[from..] && borrow <= 1 && shift < LIMB_BITS && sc < Pow2(shift)
      requires Owed(l, limbs[..from], x, borrow + sc) && x <= Value(l)
      modifies this
      ensures Value(limbs) == Value(l) - x
    {
      var p: nat, b: Limb, rest: Limb := from, borrow, sc;
      hide *;
      BaseFacts();
      if (rest != 0 || b != 0) && p < |limbs| {
        var acc := BASE + limbs[p] - rest - b;
        assert limbs[p] == l[p];
        ghost var done := limbs[..p];
        LastBorrow(l, done, x, rest, b, acc, shift);
        limbs := limbs[p := Lo(acc)];
        assert limbs[..p + 1] == done + [Lo(acc)];
        b, rest := 1 - Hi(acc), 0;
        p := p + 1;
      }
      while b != 0 && p < |limbs|
        invariant 0 <= p <= |limbs| == |l| && limbs[p..] == l[p..] && b <= 1 && (rest != 0 ==> p == |l|)
        invariant Owed(l, limbs[..p], x, b + rest)
      {
        assert limbs[p] == l[p];
        ghost var done := limbs[..p];
        var d: Limb := BASE - 1;
        if limbs[p] != 0 {
          d, b := limbs[p] - b, 0;
        }
        OweStep(l, done, x, 1, d, 0, b, x);
        limbs := limbs[p := d];
        assert limbs[..p + 1] == done + [d];
        p := p + 1;
      }
      NothingOwed(l, limbs, p, x, b + rest);
    }

    /** The subtracting loop: one limb of r, shifted, against one limb of this number. */
    method SubtractLimbs(r: seq<Limb>, whole: nat, shift: nat) returns (b: Limb, sc: Limb)
      requires shift < LIMB_BITS && whole + |r| <= |limbs|
      modifies this
      ensures |limbs| == old(|limbs|) && limbs[whole + |r|..] == old(limbs)[whole + |r|..] && b <= 1 && sc < Pow2(shift)
      ensures Owed(old(limbs), limbs[..whole + |r|], Times(Place(whole), Times(Pow2(shift), Value(r))), b + sc)
    {
      ghost var l := limbs;
      b, sc := 0, 0;
      var i := 0;
      OwedAtFirst(l, r, whole, shift);
      hide *;
      while i < |r|
        invariant 0 <= i <= |r| && |limbs| == |l| && limbs[whole + i..] == l[whole + i..] && b <= 1 && sc < Pow2(shift)
        invariant Owed(l, limbs[..whole + i], Times(Place(whole), Times(Pow2(shift), Value(r[..i]))), b + sc)
      {
        var xr, next := ScaledLimb(r[i], shift, sc);
        assert limbs[whole + i] == l[whole + i];
        var acc := BASE + limbs[whole + i] - xr - b;
        ghost var done := limbs[..whole + i];
        BorrowStep(l, r, whole, shift, i, done, b, sc, xr, next, acc);
        limbs := limbs[whole + i := Lo(acc)];
        assert limbs[..whole + i + 1] == done + [Lo(acc)];
        b, sc := 1 - Hi(acc), next;
        i := i + 1;
      }
      assert r[..i] == r;
    }

    /** The quotient, when it fits one limb, leaving the remainder: first by shifted subtractions, then one by one. */
    method DivideNear(denom: seq<Limb>) returns (q: Limb)
      requires Valid() && Normal(denom) && Value(denom) > 0 && Val() < Times(BASE, Value(denom))
      modifies this
      ensures Valid() && old(Val()) == Times(q, Value(denom)) + Val() && Val() < Value(denom)
    {
      var size, denomSize := BitSize(limbs), BitSize(denom);
      SizesOrder(denom, limbs);
      q := 0;
      assert Times(0, Value(denom)) == 0;
      hide *;
      if size < denomSize { return; }
      ghost var n := Val();
      while size > denomSize + 1
        invariant Valid() && size == BitSize(limbs) && n == Times(q, Value(denom)) + Val()
        decreases Val()
      {
        var order := size - denomSize;
        OrderFits(limbs, denom, order, q, n);
        SubtractScaled(denom, order - 1);
        q := q + Pow2(order - 1);
        size := BitSize(limbs);
      }
      var s := Compare(limbs, denom);
      while s >= 0
        invariant Valid() && s == Sign(Val() - Value(denom)) && n == Times(q, Value(denom)) + Val()
        decreases Val()
      {
        OneMore(Val(), Value(denom), q, n);
        SubtractScaled(denom, 0);
        q := q + 1;
        s := Compare(limbs, denom);
      }
      SignFacts(Val() - Value(denom));
    }
  }

  // ---------------------------------------------------------------- comparison

  lemma SizesDecide(l: seq<Limb>, r: seq<Limb>)
    requires Normal(l) && Normal(r)
    ensures BitSize(l) > BitSize(r) ==> Sign(Value(l) - Value(r)) == 1
    ensures BitSize(l) < BitSize(r) ==> Sign(Value(l) - Value(r)) == -1
  {
    hide Value, BitSize, Normal;
    SizesOrder(l, r);
    SizesOrder(r, l);
  }

  lemma SignZero()
    ensures Sign(0) == 0
  {
  }

  /** The sign of l - r: bit sizes first, then the highest differing limb. */
  method Compare(l: seq<Limb>, r: seq<Limb>) returns (s: int)
    requires Normal(l) && Normal(r)
    ensures s == Sign(Value(l) - Value(r))
  {
    hide Value, BitSize, Sign;
    var lSize, rSize := BitSize(l), BitSize(r);
    SizesDecide(l, r);
    if lSize > rSize { return 1; }
    if rSize > lSize { return -1; }
    Lengths(l, r, 0);
    Lengths(r, l, 0);
    var i := |l|;
    while i > 0 && l[i - 1] == r[i - 1]
      invariant 0 <= i <= |l| && l[i..] == r[i..]
    {
      i := i - 1;
      assert l[i..] == [l[i]] + l[i + 1..] && r[i..] == [r[i]] + r[i + 1..];
    }
    if i == 0 {
      assert l[0..] == l && r[0..] == r;
      SignZero();
      return 0;
    }
    HighestDifference(l, r, i - 1);
    return if l[i - 1] > r[i - 1] then 1 else -1;
  }

  /** The sign of l0 + l1 - r without building the sum. */
  method CompareSum(l0: seq<Limb>, l1: seq<Limb>, r: seq<Limb>) returns (s: int)
    requires Normal(l0) && Normal(l1) && Normal(r)
    ensures s == Sign(Value(l0) + Value(l1) - Value(r))
  {
    var size0, size1, rSize := BitSize(l0), BitSize(l1), BitSize(r);
    var lSize := if size0 >= size1 then size0 else size1;
    var small := if size0 <= size1 then l0 else l1;
    var large := if size0 <= size1 then l1 else l0;
    SizesOrder(large, r);
    if lSize > rSize { return 1; }
    if rSize > lSize + 1 {
      SumTooSmall(small, large, r);
      return -1;
    }
    Lengths(small, large, 0);
    Lengths(large, r, 0);
    Lengths(r, large, 1);
    s := CompareLimbs(small, large, r);
  }

  /** The limb loops of the comparison: carry and verdict from the lowest limb up. */
  method CompareLimbs(small: seq<Limb>, large: seq<Limb>, r: seq<Limb>) returns (s: int)
    requires 0 < |small| <= |large| <= |r| <= |large| + 1 && (|r| > |large| ==> r[|r| - 1] != 0)
    ensures s == Sign(Value(small) + Value(large) - Value(r))
  {
    var c: Limb, p := 0, 0;
    s := 0;
    ghost var sum: seq<Limb> := [];
    VerdictAtFirst(small, large, r);
    hide *;
    while p < |small|
      invariant 0 <= p <= |small| && Verdict(small, large, r, p, sum, c, s)
    {
      var d: nat, e: nat := small[p], large[p];
      var acc := d + e + c;
      VerdictNext(small, large, r, p, sum, c, s, d, acc);
      sum := sum + [Lo(acc)];
      s := if Lo(acc) > r[p] then 1 else if Lo(acc) < r[p] then -1 else s;
      c := Hi(acc);
      p := p + 1;
    }
    while p < |large|
      invariant |small| <= p <= |large| && c <= 1 && Verdict(small, large, r, p, sum, c, s)
    {
      var e: nat := large[p];
      var x := Lo(e + c);
      VerdictNext(small, large, r, p, sum, c, s, 0, e + c);
      CarryTest(e, c);
      sum := sum + [x];
      s := if x > r[p] then 1 else if x < r[p] then -1 else s;
      c := if e == BASE - 1 && c != 0 then 1 else 0;
      p := p + 1;
    }
    LastVerdict(small, large, r, p, sum, c, s);
    if p < |r| {
      if r[p] > c { s := -1; }
    } else if c != 0 {
      s := 1;
    }
  }
}
