/** Powers and the division facts the arithmetic modules rest on. */
module Arith {

  function Pow(b: nat, e: nat): (r: nat)
    ensures b > 0 ==> r > 0
  {
    if e == 0 then 1 else b * Pow(b, e - 1)
  }

  function Pow2(e: nat): (r: nat)
    ensures r > 0
  {
    Pow(2, e)
  }

  lemma {:induction false} PowAdd(b: nat, m: nat, n: nat)
    ensures Pow(b, m + n) == Pow(b, m) * Pow(b, n)
  {
    if m > 0 {
      PowAdd(b, m - 1, n);
      MulAssoc(b, Pow(b, m - 1), Pow(b, n));
    }
  }

  lemma MulAssoc(a: int, b: int, c: int)
    ensures a * (b * c) == (a * b) * c
  {
  }

  lemma {:induction false} PowMono(b: nat, m: nat, n: nat)
    requires b > 0 && m <= n
    ensures Pow(b, m) <= Pow(b, n)
  {
    if m < n {
      PowMono(b, m, n - 1);
      assert Pow(b, n - 1) <= b * Pow(b, n - 1);
    }
  }

  lemma MulMono(a: int, b: int, c: int)
    requires a <= b && 0 <= c
    ensures a * c <= b * c
  {
  }

  lemma MulMono2(a: int, b: int, c: int, d: int)
    requires 0 <= a <= b && 0 <= c <= d
    ensures a * c <= b * d
  {
  }

  lemma MulLess(a: int, b: int, c: int)
    requires a < b && 0 < c
    ensures a * c < b * c
  {
  }

  lemma MulSwap(a: int, b: int, c: int)
    ensures a * b * c == (a * c) * b
  {
    MulAssoc(a, b, c);
    MulAssoc(a, c, b);
  }

  lemma MulEq(a: int, b: int, c: int)
    requires a == b
    ensures a * c == b * c
  {
  }

  lemma MulAdd(a: int, b: int, c: int)
    ensures (a + b) * c == a * c + b * c
  {
  }

  lemma MulCancel(a: int, b: int, c: int)
    requires a * c < b * c && 0 < c
    ensures a < b
  {
    if a >= b { MulMono(b, a, c); }
  }

  lemma DivUnique(n: int, d: int, q: int, r: int)
    requires d > 0 && n == q * d + r && 0 <= r < d
    ensures n / d == q && n % d == r
  {
    var q', r' := n / d, n % d;
    assert n == d * q' + r';
    assert (q - q') * d == r' - r;
    if q > q' { MulMono(1, q - q', d); } else if q < q' { MulMono(q - q', -1, d); }
  }

  lemma DivBounds(n: int, d: int)
    requires d > 0
    ensures n / d * d <= n < (n / d + 1) * d && n == n / d * d + n % d && 0 <= n % d < d
  {
  }

  /** A number without its last digit in base b, and that digit. */
  function Upper(n: nat, b: nat): (q: nat)
    requires b > 1
    ensures n > 0 ==> q < n
  {
    DivBounds(n, b);
    MulMono(2, b, n / b);
    n / b
  }

  function Last(n: nat, b: nat): (r: nat)
    requires b > 1
    ensures r < b
  {
    DivBounds(n, b);
    n % b
  }

  lemma UpperLast(n: nat, b: nat)
    requires b > 1
    ensures n == b * Upper(n, b) + Last(n, b)
  {
    DivBounds(n, b);
  }

  /** Shifting right in two steps is shifting right once. */
  lemma DivDiv(n: nat, a: nat, b: nat)
    requires a > 0 && b > 0
    ensures a * b > 0 && n / a / b == n / (a * b)
  {
    var q, r := n / a, n % a;
    var q', r' := q / b, q % b;
    assert n == q * a + r && q == q' * b + r';
    assert n == q' * (a * b) + (r' * a + r) by {
      assert q * a == (q' * b + r') * a == q' * b * a + r' * a;
      assert q' * b * a == q' * (a * b);
    }
    MulMono(r', b - 1, a);
    assert (b - 1) * a == a * b - a;
    assert a * b > 0 by { MulMono2(1, a, 1, b); }
    DivUnique(n, a * b, q', r' * a + r);
  }
}
