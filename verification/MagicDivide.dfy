/** generate_mul of holam/aux/magic_div.cpp: division by a constant as multiply, add and shift.
    All machine values are W-bit words that wrap around. */
module MagicDivide {
  import opened Arith

  function Wrap(W: nat, x: int): nat { x % Pow2(W) }

  /** `m / 2^p` divides like `1/d` for every dividend below `2^W`. */
  ghost predicate Divides(W: nat, d: nat, m: nat, p: nat)
    requires d > 0
  {
    forall n: nat {:trigger n / d} :: n < Pow2(W) ==> m * n / Pow2(p) == n / d
  }

  // ---------------------------------------------------------------- the criterion of Hacker's Delight, section 10-9

  /** The largest dividend that leaves remainder `d - 1`. */
  function LastFull(W: nat, d: nat): int
    requires d > 0
  {
    Pow2(W) - 1 - Pow2(W) % d
  }

  lemma LastFullFacts(W: nat, d: nat)
    requires 0 < d < Pow2(W)
    ensures d - 1 <= LastFull(W, d) < Pow2(W)
    ensures LastFull(W, d) == Pow2(W) / d * d - 1
    ensures Pow2(W) - d <= LastFull(W, d)
  {
    DivBounds(Pow2(W), d);
    if Pow2(W) / d < 1 { MulMono(Pow2(W) / d, 0, d); } else { MulMono(1, Pow2(W) / d, d); }
  }

  /** Multiplier `m` exceeds `2^p / d` by `delta / d`; if `delta` stays below `2^p / nc`, rounding never shows. */
  lemma SmallExcess(W: nat, d: nat, m: nat, p: nat, delta: nat, nc: nat)
    requires 0 < d < Pow2(W) && m * d == Pow2(p) + delta && delta < d
    requires LastFull(W, d) <= nc && nc * delta < Pow2(p)
    ensures Divides(W, d, m, p)
  {
    forall n: nat {:trigger n / d} | n < Pow2(W) ensures m * n / Pow2(p) == n / d {
      SmallExcessAt(W, d, m, p, delta, nc, n);
    }
  }

  lemma SmallExcessAt(W: nat, d: nat, m: nat, p: nat, delta: nat, nc: nat, n: nat)
    requires 0 < d < Pow2(W) && m * d == Pow2(p) + delta && delta < d
    requires LastFull(W, d) <= nc && nc * delta < Pow2(p) && n < Pow2(W)
    ensures m * n / Pow2(p) == n / d
  {
    hide *;
    var P := Pow2(p);
    Pow2Positive(p);
    ExcessBelow(W, d, P, delta, nc, n);
    ScaledUp(m, n, d, P, delta);
    Squeeze(m * n, P, d, n, delta * n);
  }

  lemma Pow2Positive(e: nat)
    ensures Pow2(e) > 0
  {
  }

  lemma ScaledUp(m: nat, n: nat, d: nat, P: nat, delta: nat)
    requires m * d == P + delta
    ensures m * n * d == P * n + delta * n
  {
    MulSwap(m, n, d);
    MulAdd(P, delta, n);
  }

  /** A quotient pinned between two multiples of `P` by its product with `d`. */
  lemma Squeeze(x: nat, P: nat, d: nat, n: nat, excess: nat)
    requires P > 0 && d > 0 && x * d == P * n + excess && excess < P * (d - n % d)
    ensures x / P == n / d
  {
    var a, b := n / d, n % d;
    DivBounds(n, d);
    assert P * n == (a * P) * d + P * b by { Expand(P, a, d, b); }
    assert P * (d - b) == P * d - P * b;
    assert (a * P + P) * d == (a * P) * d + P * d;
    MulCancel(x, a * P + P, d);
    assert P * b >= 0;
    if x < a * P { MulLess(x, a * P, d); }
    DivUnique(x, P, a, x - a * P);
  }

  lemma Expand(P: nat, a: nat, d: nat, b: nat)
    ensures P * (a * d + b) == (a * P) * d + P * b
  {
    assert P * (a * d) == (a * P) * d;
  }

  lemma ExcessBelow(W: nat, d: nat, P: nat, delta: nat, nc: nat, n: nat)
    requires 0 < d < Pow2(W) && delta < d && P > 0
    requires LastFull(W, d) <= nc && nc * delta < P && n < Pow2(W)
    ensures delta * n < P * (d - n % d)
  {
    hide *;
    var full := LastFull(W, d);
    LastFullFacts(W, d);
    MulMono(full, nc, delta);
    if n <= full {
      FullBlock(full, d, P, delta, n);
    } else {
      BlockStart(W, d, n, full);
      LastBlock(full, d, P, delta, n, n % d);
    }
  }

  lemma FullBlock(full: int, d: nat, P: nat, delta: nat, n: nat)
    requires d > 0 && n <= full && full * delta < P
    ensures delta * n < P * (d - n % d)
  {
    DivBounds(n, d);
    var r := n % d;
    MulMono(n, full, delta);
    MulMono(1, d - r, P);
  }

  /** Beyond the last full block, n counts on from it. */
  lemma BlockStart(W: nat, d: nat, n: nat, full: int)
    requires 0 < d < Pow2(W) && full == LastFull(W, d) < n < Pow2(W)
    ensures n % d <= d - 2 && n == full + (n % d + 1) && n % d + 1 <= full
  {
    LastFullFacts(W, d);
    DivBounds(Pow2(W), d);
    var k := Pow2(W) / d;
    assert n - k * d < d;
    DivUnique(n, d, k, n - k * d);
  }

  lemma LastBlock(full: int, d: nat, P: nat, delta: nat, n: nat, b: nat)
    requires n == full + (b + 1) && b <= d - 2 && b + 1 <= full && full * delta < P
    ensures delta * n < P * (d - b)
  {
    MulAdd(full, b + 1, delta);
    MulMono(b + 1, full, delta);
    MulMono(2, d - b, P);
  }

  // ---------------------------------------------------------------- the doubling loop

  /** The two quotient and remainder pairs the loop stands for, before wrapping. */
  ghost predicate Quotients(nc: nat, d: nat, p: nat, Q1: nat, r1: nat, Q2: nat, r2: nat) {
    && Pow2(p) == Q1 * nc + r1 && r1 < nc
    && Pow2(p) - 1 == Q2 * d + r2 && r2 < d
  }

  lemma Doubled(nc: nat, d: nat, p: nat, Q1: nat, r1: nat, Q2: nat, r2: nat)
    requires Quotients(nc, d, p, Q1, r1, Q2, r2)
    ensures var c1, c2 := (if r1 >= nc - r1 then 1 else 0), (if r2 + 1 >= d - r2 then 1 else 0);
      && 0 <= 2 * r1 - c1 * nc && 0 <= 2 * r2 + 1 - c2 * d
      && Quotients(nc, d, p + 1, 2 * Q1 + c1, 2 * r1 - c1 * nc, 2 * Q2 + c2, 2 * r2 + 1 - c2 * d)
  {
    var c1, c2 := (if r1 >= nc - r1 then 1 else 0), (if r2 + 1 >= d - r2 then 1 else 0);
    assert Pow2(p + 1) == 2 * Pow2(p);
    Regroup(Q1, nc, r1, c1, Pow2(p));
    Regroup(Q2, d, r2, c2, Pow2(p) - 1);
    assert c1 * nc == if c1 == 1 then nc else 0;
    assert c2 * d == if c2 == 1 then d else 0;
  }

  lemma Regroup(Q: int, n: int, r: int, c: int, x: int)
    requires x == Q * n + r
    ensures 2 * x == (2 * Q + c) * n + (2 * r - c * n)
  {
    assert (2 * Q + c) * n == 2 * (Q * n) + c * n;
  }

  lemma WrapDouble(W: nat, Q: nat, c: nat)
    ensures Wrap(W, 2 * Wrap(W, Q) + c) == Wrap(W, 2 * Q + c)
  {
    var B := Pow2(W);
    var k, r := Q / B, Q % B;
    assert 2 * Q + c == (2 * r + c) + (2 * k) * B;
    SameWrap(2 * r + c, 2 * k, B);
  }

  lemma SameWrap(x: nat, k: nat, B: nat)
    requires B > 0
    ensures (x + k * B) % B == x % B
  {
    var q, r := x / B, x % B;
    assert x + k * B == (q + k) * B + r;
    DivUnique(x + k * B, B, q + k, r);
  }

  lemma WrapId(W: nat, x: nat)
    requires x < Pow2(W)
    ensures Wrap(W, x) == x
  {
    DivUnique(x, Pow2(W), 0, x);
  }

  /** The overflow test on the wrapped quotient is exact. */
  lemma AdjExact(W: nat, Q2: nat, adj: bool, c: nat)
    requires W >= 1 && c <= 1 && (adj <==> Q2 + 1 >= Pow2(W))
    ensures var half := Pow2(W - 1);
      (adj || Wrap(W, Q2) >= half - c) <==> 2 * Q2 + c + 1 >= Pow2(W)
  {
    assert Pow2(W) == 2 * Pow2(W - 1);
    if Q2 < Pow2(W) { WrapId(W, Q2); }
  }

  /** The loop guard, read on the quotient before wrapping, means that the excess is still too large. */
  lemma GuardFails(W: nat, nc: nat, p: nat, Q1: nat, r1: nat, delta: nat)
    requires Pow2(p) == Q1 * nc + r1 && r1 < nc
    requires !(Wrap(W, Q1) < delta || (Wrap(W, Q1) == delta && r1 == 0))
    ensures nc * delta < Pow2(p)
  {
    var q1 := Wrap(W, Q1);
    WrapBelow(W, Q1);
    hide Wrap, Pow2;
    ExcessBelowPower(Pow2(p), nc, Q1, r1, delta, q1);
  }

  lemma WrapBelow(W: nat, x: nat)
    ensures Wrap(W, x) <= x
  {
    if x < Pow2(W) { WrapId(W, x); }
  }

  lemma ExcessBelowPower(P: nat, nc: nat, Q1: nat, r1: nat, delta: nat, q1: nat)
    requires P == Q1 * nc + r1 && r1 < nc && q1 <= Q1 && (q1 > delta || (q1 == delta && r1 != 0))
    ensures nc * delta < P
  {
    if Q1 > delta {
      MulLess(delta, Q1, nc);
    }
  }

  lemma TopPower(W: nat, nc: nat, delta: nat)
    requires nc < Pow2(W) && delta < Pow2(W)
    ensures nc * delta < Pow2(2 * W)
  {
    PowAdd(2, W, W);
    MulMono2(nc, Pow2(W), delta, Pow2(W));
    if delta > 0 { MulLess(nc, Pow2(W), delta); MulMono(delta, Pow2(W), Pow2(W)); }
  }

  // ---------------------------------------------------------------- how far the loop runs

  /** `l` is the number of bits of `d - 1`. */
  ghost predicate BitsOf(d: nat, l: nat) { d <= Pow2(l) && (l == 0 || Pow2(l - 1) < d) }

  lemma {:induction false} BitsExist(W: nat, d: nat) returns (l: nat)
    requires 0 < d < Pow2(W)
    ensures BitsOf(d, l) && l <= W && (l < W ==> d <= Pow2(W - 1))
    decreases W
  {
    if W == 0 || Pow2(W - 1) < d {
      l := W;
    } else if d == Pow2(W - 1) {
      l := W - 1;
      PowerBits(l);
    } else {
      l := BitsExist(W - 1, d);
    }
  }

  lemma PowerBits(l: nat)
    ensures BitsOf(Pow2(l), l)
  {
  }

  /** The bound the loop compares with: exact in wide words, the largest word in promoted ones. */
  function Bound(W: nat, d: nat, promoted: bool): int
    requires d > 0
  {
    if promoted then Pow2(W) - 1 else LastFull(W, d)
  }

  lemma BoundFacts(W: nat, d: nat, promoted: bool)
    requires 0 < d < Pow2(W) && W >= 1
    ensures LastFull(W, d) <= Bound(W, d, promoted) < Pow2(W) && 0 < Bound(W, d, promoted)
    ensures W >= 2 && d <= Pow2(W - 1) ==> Pow2(W - 1) < Bound(W, d, promoted)
  {
    LastFullFacts(W, d);
    assert Pow2(W) == 2 * Pow2(W - 1) && (W >= 2 ==> Pow2(W - 1) == 2 * Pow2(W - 2));
    if d == Pow2(W - 1) { DivUnique(Pow2(W), d, 2, 0); }
    if d == 1 { DivUnique(Pow2(W), 1, Pow2(W), 0); }
  }

  lemma NoWrap(B: nat, H: nat, L: nat, nc: nat, Q1: nat, r1: nat)
    requires B == 2 * H && L <= H < nc && B > 0 && B * L == Q1 * nc + r1
    ensures Q1 < B
  {
    if Q1 >= B {
      MulMono(B, Q1, nc);
      MulLess(L, nc, B);
    }
  }

  lemma BeyondExcess(B: nat, L: nat, nc: nat, Q1: nat, r1: nat, delta: nat)
    requires nc < B && delta < L && B * L == Q1 * nc + r1 && r1 < nc
    ensures !(Q1 < delta || (Q1 == delta && r1 == 0))
  {
    MulMono2(delta, L - 1, nc, B);
    assert (L - 1) * B == B * L - B;
    if Q1 < delta {
      MulMono(Q1 + 1, delta, nc);
    }
  }

  /** For a divisor of at most `2^(W-1)` the guard is false by `p == W + l`: nothing has wrapped, and
      `2^p` exceeds any bound times any excess. */
  lemma StopsInTime(W: nat, d: nat, nc: nat, l: nat, p: nat, Q1: nat, r1: nat, Q2: nat, r2: nat)
    requires W >= 1 && 0 < d < Pow2(W) && BitsOf(d, l) && l < W && p == W + l
    requires Pow2(W - 1) < nc < Pow2(W) && Quotients(nc, d, p, Q1, r1, Q2, r2)
    ensures Wrap(W, Q1) == Q1 && !(Q1 < d - 1 - r2 || (Q1 == d - 1 - r2 && r1 == 0))
  {
    PowAdd(2, W, l);
    PowMono(2, l, W - 1);
    NoWrap(Pow2(W), Pow2(W - 1), Pow2(l), nc, Q1, r1);
    WrapId(W, Q1);
    BeyondExcess(Pow2(W), Pow2(l), nc, Q1, r1, d - 1 - r2);
  }

  lemma FitsCore(B: nat, H: nat, d: nat, Q2: nat)
    requires 0 < B && H <= B && H < d && Q2 * d < B * (2 * H)
    ensures Q2 + 1 < 2 * B
  {
    if Q2 + 1 >= 2 * B {
      MulMono2(2 * B - 1, Q2, H + 1, d);
    }
  }

  lemma MultiplierFits(W: nat, d: nat, l: nat, p: nat, Q2: nat)
    requires 0 < d < Pow2(W) && BitsOf(d, l) && l <= W && p <= W + l && Q2 * d < Pow2(p)
    ensures Q2 + 1 < 2 * Pow2(W)
  {
    PowMono(2, p, W + l);
    PowAdd(2, W, l);
    if l == 0 {
      assert d == 1;
    } else {
      PowMono(2, l - 1, W);
      assert Pow2(l) == 2 * Pow2(l - 1);
      FitsCore(Pow2(W), Pow2(l - 1), d, Q2);
    }
  }

  // ---------------------------------------------------------------- using the multiplier

  /** The multiply, shift, add, shift of gen_mul_64. */
  function Apply(W: nat, M: nat, s: nat, adj: bool, n: nat): int {
    (M * n / Pow2(W) + (if adj then n else 0)) / Pow2(s)
  }

  lemma ApplyDivides(W: nat, d: nat, M: nat, s: nat, adj: bool, m: nat)
    requires 0 < d && m == M + (if adj then Pow2(W) else 0) && Divides(W, d, m, W + s)
    ensures forall n: nat {:trigger Apply(W, M, s, adj, n)} :: n < Pow2(W) ==> Apply(W, M, s, adj, n) == n / d
  {
    forall n: nat {:trigger Apply(W, M, s, adj, n)} | n < Pow2(W) ensures Apply(W, M, s, adj, n) == n / d {
      assert m * n / Pow2(W + s) == n / d;
      ApplyIsOneShift(W, M, s, adj, m, n);
    }
  }

  /** The four operations are one division of the full product. */
  lemma ApplyIsOneShift(W: nat, M: nat, s: nat, adj: bool, m: nat, n: nat)
    requires m == M + (if adj then Pow2(W) else 0)
    ensures Apply(W, M, s, adj, n) == m * n / Pow2(W + s)
  {
    Pow2Add(W, s);
    hide Pow2;
    FullProduct(M, n, adj, Pow2(W), m);
    TwoShifts(M * n, if adj then n else 0, m * n, Pow2(W), Pow2(s), Pow2(W + s));
  }

  lemma Pow2Add(m: nat, n: nat)
    ensures Pow2(m + n) == Pow2(m) * Pow2(n)
  {
    PowAdd(2, m, n);
  }

  lemma FullProduct(M: nat, n: nat, adj: bool, B: nat, m: nat)
    requires m == M + (if adj then B else 0)
    ensures m * n == M * n + (if adj then n else 0) * B && 0 <= M * n <= m * n
  {
    MulAdd(M, m - M, n);
    MulMono2(0, M, 0, n);
    MulMono2(0, m - M, 0, n);
  }

  lemma TwoShifts(x: nat, k: nat, h: nat, B: nat, S: nat, both: nat)
    requires B > 0 && S > 0 && h == x + k * B && both == B * S
    ensures both > 0 && (x / B + k) / S == h / both
  {
    HighPart(x, k, B);
    DivDiv(h, B, S);
  }

  lemma HighPart(x: nat, k: nat, B: nat)
    requires B > 0
    ensures (x + k * B) / B == x / B + k
  {
    DivBounds(x, B);
    MulAdd(x / B, k, B);
    DivUnique(x + k * B, B, x / B + k, x % B);
  }

  // ---------------------------------------------------------------- the generator

  lemma Negated(W: nat, d: nat)
    requires 0 < d < Pow2(W)
    ensures (Pow2(W) - d) % d == Pow2(W) % d
  {
    SameWrap(Pow2(W) - d, 1, d);
  }

  /** Line 28: the largest word less `-d` modulo `d`. */
  method InitialBound(W: nat, d: nat, promoted: bool) returns (nc: nat)
    requires W >= 1 && 0 < d < Pow2(W)
    ensures nc == Bound(W, d, promoted) && LastFull(W, d) <= nc < Pow2(W) && 0 < nc
    ensures W >= 2 && d <= Pow2(W - 1) ==> Pow2(W - 1) < nc
  {
    BoundFacts(W, d, promoted);
    Negated(W, d);
    nc := Pow2(W) - 1;
    if !promoted {
      nc := nc - (Pow2(W) - d) % d;
    }
  }

  lemma Start(W: nat, d: nat, nc: nat, h: nat, g: nat, q1: nat, q2: nat)
    requires W >= 1 && d > 0 && nc > 0 && h == Pow2(W - 1) && g == h - 1 && q1 == h / nc && q2 == g / d
    ensures 0 <= h - q1 * nc < nc && 0 <= g - q2 * d < d
    ensures Quotients(nc, d, W - 1, q1, h - q1 * nc, q2, g - q2 * d)
    ensures q1 == Wrap(W, q1) && q2 == Wrap(W, q2) && q2 + 1 < Pow2(W)
  {
    DivBounds(h, nc);
    DivBounds(g, d);
    assert Pow2(W) == 2 * h;
    if q1 > h { MulMono2(h + 1, q1, 1, nc); }
    if q2 > g { MulMono2(g + 1, q2, 1, d); }
    WrapId(W, q1);
    WrapId(W, q2);
  }

  /** Doubled remainders stay below their divisors, so wrapping does not change them. */
  lemma RemaindersFit(W: nat, nc: nat, d: nat, p: nat, Q1: nat, r1: nat, Q2: nat, r2: nat)
    requires Quotients(nc, d, p, Q1, r1, Q2, r2) && nc < Pow2(W) && d < Pow2(W)
    ensures if r1 >= nc - r1 then Wrap(W, 2 * r1 - nc) == 2 * r1 - nc else Wrap(W, 2 * r1) == 2 * r1
    ensures if r2 + 1 >= d - r2 then Wrap(W, 2 * r2 + 1 - d) == 2 * r2 + 1 - d else Wrap(W, 2 * r2 + 1) == 2 * r2 + 1
    ensures r1 < nc && r2 < d
  {
    if r1 >= nc - r1 { WrapId(W, 2 * r1 - nc); } else { WrapId(W, 2 * r1); }
    if r2 + 1 >= d - r2 { WrapId(W, 2 * r2 + 1 - d); } else { WrapId(W, 2 * r2 + 1); }
  }

  /** One turn of the loop, in wrapped words. */
  lemma LoopStep(W: nat, nc: nat, d: nat, p: nat, Q1: nat, r1: nat, Q2: nat, r2: nat, adj: bool)
    requires W >= 1 && Quotients(nc, d, p, Q1, r1, Q2, r2) && nc < Pow2(W) && d < Pow2(W) && (adj <==> Q2 + 1 >= Pow2(W))
    ensures var c1, c2 := (if r1 >= nc - r1 then 1 else 0), (if r2 + 1 >= d - r2 then 1 else 0);
      && Wrap(W, 2 * Wrap(W, Q1) + c1) == Wrap(W, 2 * Q1 + c1) && Wrap(W, 2 * Wrap(W, Q2) + c2) == Wrap(W, 2 * Q2 + c2)
      && ((adj || Wrap(W, Q2) >= Pow2(W - 1) - c2) <==> 2 * Q2 + c2 + 1 >= Pow2(W))
      && var r1' := if c1 == 1 then Wrap(W, 2 * r1 - nc) else Wrap(W, 2 * r1);
         var r2' := if c2 == 1 then Wrap(W, 2 * r2 + 1 - d) else Wrap(W, 2 * r2 + 1);
         Quotients(nc, d, p + 1, 2 * Q1 + c1, r1', 2 * Q2 + c2, r2') && r1' < nc && r2' < d
  {
    Doubled(nc, d, p, Q1, r1, Q2, r2);
    RemaindersFit(W, nc, d, p, Q1, r1, Q2, r2);
    var c1, c2 := (if r1 >= nc - r1 then 1 else 0), (if r2 + 1 >= d - r2 then 1 else 0);
    assert c1 * nc == (if c1 == 1 then nc else 0) && c2 * d == (if c2 == 1 then d else 0);
    WrapDouble(W, Q1, c1);
    WrapDouble(W, Q2, c2);
    AdjExact(W, Q2, adj, c2);
    var r1' := if c1 == 1 then Wrap(W, 2 * r1 - nc) else Wrap(W, 2 * r1);
    var r2' := if c2 == 1 then Wrap(W, 2 * r2 + 1 - d) else Wrap(W, 2 * r2 + 1);
    assert Quotients(nc, d, p + 1, 2 * Q1 + c1, r1', 2 * Q2 + c2, r2');
  }

  /** What the quotients give once the guard is false or the last power is reached. */
  lemma Finish(W: nat, d: nat, nc: nat, l: nat, p: nat, Q1: nat, r1: nat, Q2: nat, r2: nat, adj: bool)
    requires W >= 1 && 0 < d < Pow2(W) && BitsOf(d, l) && l <= W && W <= p <= W + l && p <= 2 * W
    requires LastFull(W, d) <= nc < Pow2(W) && Quotients(nc, d, p, Q1, r1, Q2, r2) && (adj <==> Q2 + 1 >= Pow2(W))
    requires p == 2 * W || !(Wrap(W, Q1) < d - 1 - r2 || (Wrap(W, Q1) == d - 1 - r2 && r1 == 0))
    ensures var M, s := Wrap(W, Wrap(W, Q2) + 1), p - W;
      && (forall n: nat {:trigger Apply(W, M, s, adj, n)} :: n < Pow2(W) ==> Apply(W, M, s, adj, n) == n / d)
      && RoundedUp(W, d, M, s, adj)
  {
    var delta := d - 1 - r2;
    if p == 2 * W { TopPower(W, nc, delta); } else { GuardFails(W, nc, p, Q1, r1, delta); }
    MulAdd(Q2, 1, d);
    hide Divides, BitsOf, Pow2, Wrap, Apply, LastFull;
    SmallExcess(W, d, Q2 + 1, p, delta, nc);
    MultiplierFits(W, d, l, p, Q2);
    LastIncrement(W, Q2, adj);
    ApplyDivides(W, d, Wrap(W, Wrap(W, Q2) + 1), p - W, adj, Q2 + 1);
  }

  lemma LastIncrement(W: nat, Q2: nat, adj: bool)
    requires Q2 + 1 < 2 * Pow2(W) && (adj <==> Q2 + 1 >= Pow2(W))
    ensures Wrap(W, Wrap(W, Q2) + 1) + (if adj then Pow2(W) else 0) == Q2 + 1
  {
    var B := Pow2(W);
    if Q2 < B { WrapId(W, Q2); } else { DivUnique(Q2, B, 1, Q2 - B); }
    var x := Wrap(W, Q2) + 1;
    if x < B { WrapId(W, x); } else { DivUnique(x, B, 1, 0); }
  }

  method InitialQuotients(W: nat, nc: nat, d: nat, base80: nat, base7f: int) returns (q1: nat, r1: nat, q2: nat, r2: nat)
    requires W >= 1 && 0 < d < Pow2(W) && 0 < nc && base80 == Pow2(W - 1) && base7f == base80 - 1
    ensures Quotients(nc, d, W - 1, q1, r1, q2, r2)
    ensures r1 < nc && r2 < d && q1 == Wrap(W, q1) && q2 == Wrap(W, q2) && q2 + 1 < Pow2(W)
  {
    q1, q2 := base80 / nc, base7f / d;
    Start(W, d, nc, base80, base7f, q1, q2);
    hide Quotients, Wrap, Pow2;
    r1, r2 := base80 - q1 * nc, base7f - q2 * d;
  }

  /** The multiplier, its top bit held by `adj`, is `2^(W+s) / d` rounded up. */
  ghost predicate RoundedUp(W: nat, d: nat, M: nat, s: nat, adj: bool) {
    var m := M + (if adj then Pow2(W) else 0);
    M < Pow2(W) && 0 <= m * d - Pow2(W + s) < d
  }

  /** Lines 39-59: doubles both quotients and records a multiplier that needs one more bit. */
  method Turn(W: nat, nc: nat, d: nat, q1: nat, r1: nat, q2: nat, r2: nat, adj: bool, ghost p: nat, ghost Q1: nat, ghost Q2: nat)
    returns (q1': nat, r1': nat, q2': nat, r2': nat, adj': bool, ghost Q1': nat, ghost Q2': nat)
    requires W >= 1 && nc < Pow2(W) && d < Pow2(W)
    requires Quotients(nc, d, p, Q1, r1, Q2, r2) && q1 == Wrap(W, Q1) && q2 == Wrap(W, Q2) && (adj <==> Q2 + 1 >= Pow2(W))
    ensures Quotients(nc, d, p + 1, Q1', r1', Q2', r2') && q1' == Wrap(W, Q1') && q2' == Wrap(W, Q2')
    ensures adj' <==> Q2' + 1 >= Pow2(W)
  {
    var base80 := Pow2(W - 1);
    var base7f := base80 - 1;
    LoopStep(W, nc, d, p, Q1, r1, Q2, r2, adj);
    hide Quotients, Wrap, Pow2;
    Q1', Q2' := 2 * Q1 + (if r1 >= nc - r1 then 1 else 0), 2 * Q2 + (if r2 + 1 >= d - r2 then 1 else 0);
    adj' := adj;
    if r1 >= nc - r1 {
      q1', r1' := Wrap(W, 2 * q1 + 1), Wrap(W, 2 * r1 - nc);
    } else {
      q1', r1' := Wrap(W, 2 * q1), Wrap(W, 2 * r1);
    }
    if r2 + 1 >= d - r2 {
      if q2 >= base7f { adj' := true; }
      q2', r2' := Wrap(W, 2 * q2 + 1), Wrap(W, 2 * r2 + 1 - d);
    } else {
      if q2 >= base80 { adj' := true; }
      q2', r2' := Wrap(W, 2 * q2), Wrap(W, 2 * r2 + 1);
    }
  }

  /** In words of one bit the first quotient wraps to zero at once, and the loop runs on to the last power. */
  lemma OneBitGoesOn(Q1: nat, r1: nat, Q2: nat, r2: nat)
    requires Quotients(1, 1, 1, Q1, r1, Q2, r2)
    ensures Wrap(1, Q1) == 0 && r1 == 0 && r2 == 0
  {
    assert Pow2(1) == 2;
  }

  lemma OneBitFails(Q1: nat, r1: nat, Q2: nat, r2: nat, adj: bool)
    requires Quotients(1, 1, 2, Q1, r1, Q2, r2) && (adj <==> Q2 + 1 >= Pow2(1))
    ensures Apply(1, Wrap(1, Wrap(1, Q2) + 1), 1, adj, 1) != 1 / 1 && 1 < Pow2(1)
  {
    assert Pow2(1) == 2 && Pow2(2) == 4;
    assert Q2 == 3;
  }

  lemma OneBit(W: nat, d: nat, nc: nat)
    requires 0 < d < Pow2(W) && 0 < nc < Pow2(W)
    ensures W == 1 ==> d == 1 && nc == 1
  {
    assert Pow2(1) == 2;
  }

  // ---------------------------------------------------------------- the least shift

  /** How much `2^p / d` rounded up, times `d`, exceeds `2^p`. */
  function Excess(d: nat, p: nat): (e: nat)
    requires d > 0
    ensures e < d
  {
    DivBounds(Pow2(p) - 1, d);
    d - 1 - (Pow2(p) - 1) % d
  }

  /** No multiplier at all divides with a shorter shift. */
  ghost predicate LeastShift(W: nat, d: nat, s: nat)
    requires d > 0
  {
    forall p: nat, m: nat {:trigger Divides(W, d, m, p)} :: W <= p < W + s ==> !Divides(W, d, m, p)
  }

  ghost predicate TooSmall(d: nat, nc: int, p: nat)
    requires d > 0
  {
    nc * Excess(d, p) >= Pow2(p)
  }

  ghost predicate AllTooSmall(d: nat, nc: int, from: nat, to: nat)
    requires d > 0
  {
    forall p: nat {:trigger TooSmall(d, nc, p)} :: from <= p < to ==> TooSmall(d, nc, p)
  }

  lemma ExcessIs(nc: nat, d: nat, p: nat, Q1: nat, r1: nat, Q2: nat, r2: nat)
    requires d > 0 && Quotients(nc, d, p, Q1, r1, Q2, r2)
    ensures Excess(d, p) == d - 1 - r2
  {
    DivUnique(Pow2(p) - 1, d, Q2, r2);
  }

  lemma AtOwn(W: nat, d: nat, m: nat, p: nat)
    requires 0 < d < Pow2(W) && Divides(W, d, m, p) && Pow2(p) > 0
    ensures m * d / Pow2(p) == 1
  {
    hide Pow2;
    DivUnique(d, d, 1, 0);
    assert m * d / Pow2(p) == d / d;
  }

  lemma AtLast(W: nat, d: nat, m: nat, p: nat, n: nat, k: nat)
    requires 0 < d && Divides(W, d, m, p) && Pow2(p) > 0 && n < Pow2(W) && n == k * d - 1
    ensures k >= 1 && m * n / Pow2(p) == k - 1
  {
    hide Pow2;
    DivUnique(n, d, k - 1, d - 1);
    assert m * n / Pow2(p) == n / d;
  }

  lemma QuotientBounds(x: int, P: nat, q: int)
    requires P > 0 && x / P == q
    ensures q * P <= x < (q + 1) * P
  {
    DivBounds(x, P);
  }

  /** A multiplier that divides exceeds `2^p / d`, and so little that the last full dividend does not notice. */
  lemma Necessary(W: nat, d: nat, m: nat, p: nat)
    requires 0 < d < Pow2(W) && Divides(W, d, m, p)
    ensures m * d >= Pow2(p) && LastFull(W, d) * (m * d - Pow2(p)) < Pow2(p)
  {
    hide Pow2, LastFull, Divides;
    var P, n, k := Pow2(p), LastFull(W, d), Pow2(W) / d;
    Pow2Positive(p);
    LastFullFacts(W, d);
    AtOwn(W, d, m, p);
    AtLast(W, d, m, p, n, k);
    QuotientBounds(m * d, P, 1);
    QuotientBounds(m * n, P, k - 1);
    NoticedLast(m, d, n, k, P);
  }

  lemma NoticedLast(m: nat, d: nat, n: nat, k: nat, P: nat)
    requires d > 0 && n + 1 == k * d && m * n < k * P && m * d >= P
    ensures n * (m * d - P) < P
  {
    MulLess(m * n, k * P, d);
    assert m * n * d == n * (m * d) && k * P * d == (n + 1) * P;
    assert n * (m * d - P) == n * (m * d) - n * P;
  }

  lemma MoreExcess(n: nat, e: nat, x: nat)
    requires e <= x
    ensures n * e <= n * x
  {
    MulMono(e, x, n);
  }

  lemma TooEarly(W: nat, d: nat, m: nat, p: nat)
    requires 0 < d < Pow2(W) && TooSmall(d, LastFull(W, d), p)
    ensures !Divides(W, d, m, p)
  {
    hide LastFull, Divides, Pow2, Excess;
    if Divides(W, d, m, p) {
      Necessary(W, d, m, p);
      LastFullFacts(W, d);
      LeastExcess(d, m, p);
      MoreExcess(LastFull(W, d), Excess(d, p), m * d - Pow2(p));
    }
  }

  lemma LeastExcess(d: nat, m: nat, p: nat)
    requires d > 0 && m * d >= Pow2(p)
    ensures m * d - Pow2(p) >= Excess(d, p)
  {
    var q := (Pow2(p) - 1) / d;
    DivBounds(Pow2(p) - 1, d);
    if m <= q { MulMono(m, q, d); } else { MulMono(q + 1, m, d); }
  }

  /** The only divisor for which the first quotient wraps before the last power, which makes the loop run on. */
  predicate Overrun(W: nat, d: nat, promoted: bool)
    requires W >= 1
  {
    !promoted && d == Pow2(W - 1) + 1
  }

  lemma GuardHolds(W: nat, d: nat, promoted: bool, nc: nat, p: nat, Q1: nat, r1: nat, Q2: nat, r2: nat)
    requires W >= 2 && 0 < d < Pow2(W) && nc == Bound(W, d, promoted) && W <= p < 2 * W
    requires Quotients(nc, d, p, Q1, r1, Q2, r2)
    requires var delta := d - 1 - r2; Wrap(W, Q1) < delta || (Wrap(W, Q1) == delta && r1 == 0)
    ensures TooSmall(d, nc, p) || (p == 2 * W - 1 && Overrun(W, d, promoted))
  {
    if Q1 < Pow2(W) {
      ExcessIs(nc, d, p, Q1, r1, Q2, r2);
      WrapId(W, Q1);
      StillTooMuch(Pow2(p), nc, Q1, r1, d - 1 - r2);
    } else {
      QuotientWraps(W, d, promoted, nc, p, Q1, r1);
    }
  }

  lemma StillTooMuch(P: nat, nc: nat, Q1: nat, r1: nat, delta: nat)
    requires P == Q1 * nc + r1 && r1 < nc && (Q1 < delta || (Q1 == delta && r1 == 0))
    ensures nc * delta >= P
  {
    if Q1 < delta { MulMono(Q1 + 1, delta, nc); }
  }

  lemma QuotientWraps(W: nat, d: nat, promoted: bool, nc: nat, p: nat, Q1: nat, r1: nat)
    requires W >= 2 && 0 < d < Pow2(W) && nc == Bound(W, d, promoted) && W <= p < 2 * W
    requires Pow2(p) == Q1 * nc + r1 && Q1 >= Pow2(W)
    ensures p == 2 * W - 1 && Overrun(W, d, promoted)
  {
    BoundFacts(W, d, promoted);
    LastFullFacts(W, d);
    PowAdd(2, W, W - 1);
    PowMono(2, p, 2 * W - 1);
    if p < 2 * W - 1 { PowMono(2, p, 2 * W - 2); PowAdd(2, W, W - 2); }
    var B, H := Pow2(W), Pow2(W - 1);
    assert B == 2 * H && H == 2 * Pow2(W - 2);
    if d > H { DivUnique(B, d, 1, B - d); }
    hide Pow2, LastFull;
    MulMono(B, Q1, nc);
    WideQuotient(B, H, nc, Pow2(p));
  }

  lemma WideQuotient(B: nat, H: nat, nc: nat, P: nat)
    requires B == 2 * H && H > 0 && B * nc <= P
    ensures P <= B * H ==> nc <= H
    ensures nc >= H ==> P >= B * H
  {
    if nc > H { MulMono(H + 1, nc, B); }
    if nc >= H { MulMono(H, nc, B); }
  }

  /** For that divisor the guard holds up to the last power. */
  lemma OverrunGoesOn(W: nat, d: nat, nc: nat, p: nat, Q1: nat, r1: nat, Q2: nat, r2: nat)
    requires W >= 2 && d == Pow2(W - 1) + 1 && nc == Bound(W, d, false) && W <= p < 2 * W
    requires Quotients(nc, d, p, Q1, r1, Q2, r2)
    ensures var delta := d - 1 - r2; Wrap(W, Q1) < delta || (Wrap(W, Q1) == delta && r1 == 0)
  {
    var B, H, K := Pow2(W), Pow2(W - 1), Pow2(p - W + 1);
    PowAdd(2, p - W + 1, W - 1);
    assert B == 2 * H && H == 2 * Pow2(W - 2) && Pow2(W - 2) > 0;
    DivUnique(B, d, 1, B - d);
    Pow2Positive(p - W + 1);
    if p < 2 * W - 1 { PowMono(2, p - W + 1, W - 1); }
    hide Pow2;
    assert nc == H && Pow2(p) == K * H;
    OverrunQuotients(H, d, K, Q1, r1, Q2, r2, B);
    if K <= H { WrapId(W, Q1); } else { SameWrap(0, 1, B); }
  }

  lemma OverrunQuotients(H: nat, d: nat, K: nat, Q1: nat, r1: nat, Q2: nat, r2: nat, B: nat)
    requires H >= 2 && d == H + 1 && 0 < K && B == 2 * H && (K <= H || K == B)
    requires K * H == Q1 * H + r1 && r1 < H && K * H - 1 == Q2 * d + r2 && r2 < d
    ensures Q1 == K && r1 == 0 && r2 == if K <= H then d - K - 1 else 1
  {
    DivUnique(K * H, H, K, 0);
    DivUnique(K * H, H, Q1, r1);
    assert K * d == K * H + K;
    if K <= H {
      assert K * H - 1 == (K - 1) * d + (d - K - 1);
      DivUnique(K * H - 1, d, K - 1, d - K - 1);
    } else {
      assert K * H - 1 == (K - 2) * d + 1;
      DivUnique(K * H - 1, d, K - 2, 1);
    }
    DivUnique(K * H - 1, d, Q2, r2);
  }

  /** A shift by one bit less would have done. */
  lemma OverrunCouldStop(W: nat, d: nat)
    requires W >= 2 && d == Pow2(W - 1) + 1 && d < Pow2(W)
    ensures !LeastShift(W, d, W)
  {
    var B, H, p := Pow2(W), Pow2(W - 1), 2 * W - 1;
    PowAdd(2, W, W - 1);
    assert B == 2 * H && H == 2 * Pow2(W - 2) && Pow2(W - 2) > 0;
    DivUnique(B, d, 1, B - d);
    hide Pow2, Divides;
    assert LastFull(W, d) == H;
    OverrunProduct(H, d, B, Pow2(p));
    SmallExcess(W, d, B - 1, p, d - 2, H);
    assert Divides(W, d, B - 1, p) && W <= p < W + W;
  }

  lemma OverrunProduct(H: nat, d: nat, B: nat, P: nat)
    requires H >= 2 && d == H + 1 && B == 2 * H && P == B * H
    ensures (B - 1) * d == P + (d - 2) && H * (d - 2) < P
  {
    assert (B - 1) * d == B * H + B - d;
    MulLess(d - 2, B, H);
  }

  lemma NoneShorter(W: nat, d: nat, s: nat)
    requires 0 < d < Pow2(W) && AllTooSmall(d, LastFull(W, d), W, W + s)
    ensures LeastShift(W, d, s)
  {
    hide TooSmall, Divides, Pow2, LastFull;
    forall p: nat, m: nat {:trigger Divides(W, d, m, p)} | W <= p < W + s ensures !Divides(W, d, m, p) {
      assert TooSmall(d, LastFull(W, d), p);
      TooEarly(W, d, m, p);
    }
  }

  /** The loop had a reason to run on at every power so far. */
  ghost predicate RunOn(W: nat, d: nat, promoted: bool, nc: nat, p: nat)
    requires W >= 1 && d > 0
  {
    AllTooSmall(d, nc, W, if Overrun(W, d, promoted) && p > 2 * W - 1 then 2 * W - 1 else p)
  }

  lemma NothingYet(W: nat, d: nat, promoted: bool, nc: nat)
    requires W >= 1 && d > 0
    ensures RunOn(W, d, promoted, nc, W)
  {
  }

  lemma OneMoreRun(W: nat, d: nat, promoted: bool, nc: nat, p: nat)
    requires W >= 1 && d > 0 && p < 2 * W && RunOn(W, d, promoted, nc, p)
    requires TooSmall(d, nc, p) || (p == 2 * W - 1 && Overrun(W, d, promoted))
    ensures RunOn(W, d, promoted, nc, p + 1)
  {
    hide TooSmall, Overrun, Excess;
  }

  lemma OverrunRuns(W: nat, d: nat, promoted: bool, nc: nat, p: nat, Q1: nat, r1: nat, Q2: nat, r2: nat)
    requires W >= 2 && 0 < d < Pow2(W) && nc == Bound(W, d, promoted) && W <= p < 2 * W && Overrun(W, d, promoted)
    requires Quotients(nc, d, p, Q1, r1, Q2, r2)
    ensures var delta := d - 1 - r2; Wrap(W, Q1) < delta || (Wrap(W, Q1) == delta && r1 == 0)
  {
    OverrunGoesOn(W, d, nc, p, Q1, r1, Q2, r2);
  }

  /** What the powers the loop ran over say about the shift it ended with. */
  lemma ShortestShift(W: nat, d: nat, promoted: bool, nc: nat, p: nat)
    requires W >= 2 && 0 < d < Pow2(W) && nc == Bound(W, d, promoted) && W <= p <= 2 * W && RunOn(W, d, promoted, nc, p)
    requires Overrun(W, d, promoted) ==> p == 2 * W
    ensures !promoted ==> (LeastShift(W, d, p - W) <==> d != Pow2(W - 1) + 1)
    ensures promoted ==> AllTooSmall(d, Pow2(W) - 1, W, p)
  {
    hide TooSmall, LeastShift, Excess, LastFull;
    if !promoted {
      if Overrun(W, d, promoted) {
        OverrunCouldStop(W, d);
      } else {
        NoneShorter(W, d, p - W);
      }
    }
  }

  /** Multiplier, shift and add flag for the divisor `d` in words of `W` bits; `promoted` tells that the
      words are narrower than int, so that line 28 leaves the bound at its largest value. Right exactly from two bits on. */
  method GenerateMul(W: nat, d: nat, promoted: bool) returns (M: nat, s: nat, adj: bool)
    requires W >= 1 && 0 < d < Pow2(W)
    ensures s <= W
    ensures (forall n: nat {:trigger Apply(W, M, s, adj, n)} :: n < Pow2(W) ==> Apply(W, M, s, adj, n) == n / d) <==> W >= 2
    ensures W >= 2 ==> RoundedUp(W, d, M, s, adj)
    ensures W >= 2 && !promoted ==> (LeastShift(W, d, s) <==> d != Pow2(W - 1) + 1)
    ensures W >= 2 && promoted ==> AllTooSmall(d, Pow2(W) - 1, W, W + s)
  {
    hide Quotients, Divides, BitsOf, LastFull, Bound, Wrap, Pow2, Apply, RoundedUp, AllTooSmall, TooSmall, LeastShift, Overrun, Excess;
    var p := W - 1;
    var nc := InitialBound(W, d, promoted);
    OneBit(W, d, nc);
    var q1, r1, q2, r2 := InitialQuotients(W, nc, d, Pow2(W - 1), Pow2(W - 1) - 1);
    adj := false;
    ghost var l := BitsExist(W, d);
    ghost var Q1: nat, Q2: nat := q1, q2;
    NothingYet(W, d, promoted, nc);
    while true
      invariant W - 1 <= p < 2 * W && (W >= 2 ==> p < W + l)
      invariant Quotients(nc, d, p, Q1, r1, Q2, r2) && q1 == Wrap(W, Q1) && q2 == Wrap(W, Q2)
      invariant adj <==> Q2 + 1 >= Pow2(W)
      invariant W >= 2 ==> RunOn(W, d, promoted, nc, p + 1)
      decreases 2 * W - p
    {
      q1, r1, q2, r2, adj, Q1, Q2 := Turn(W, nc, d, q1, r1, q2, r2, adj, p, Q1, Q2);
      p := p + 1;
      var delta := d - 1 - r2;
      if W == 1 && p == 1 { OneBitGoesOn(Q1, r1, Q2, r2); }
      if !(p < 2 * W && (q1 < delta || (q1 == delta && r1 == 0))) { break; }
      if W >= 2 {
        if l < W && p == W + l { StopsInTime(W, d, nc, l, p, Q1, r1, Q2, r2); }
        GuardHolds(W, d, promoted, nc, p, Q1, r1, Q2, r2);
        OneMoreRun(W, d, promoted, nc, p);
      }
    }
    if W >= 2 {
      if Overrun(W, d, promoted) && p < 2 * W { OverrunRuns(W, d, promoted, nc, p, Q1, r1, Q2, r2); }
      ShortestShift(W, d, promoted, nc, p);
      Finish(W, d, nc, l, p, Q1, r1, Q2, r2, adj);
    } else {
      OneBitFails(Q1, r1, Q2, r2, adj);
    }
    M, s := Wrap(W, q2 + 1), p - W;
  }
}
