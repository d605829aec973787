/** The acceptance test of the fast digit generator, round_weed of mina/mina/detail/to_ascii_decimal_f.hpp. */
module RoundWeed {

  /** Unsigned subtraction in a type of 2^w = size values. */
  function Minus(a: nat, b: nat, size: nat): (r: nat)
    requires a < size && b < size
    ensures r < size && (r + b == a || r + b == a + size)
  {
    if a >= b then a - b else a - b + size
  }

  /** Unsigned addition in the same type. */
  function Plus(a: nat, b: nat, size: nat): (r: nat)
    requires a < size && b < size
    ensures r < size && (r == a + b || r + size == a + b)
  {
    if a + b < size then a + b else a + b - size
  }

  /** The last test, with its shifts and its difference in the unsigned type. */
  predicate AboveMargins(remainder: nat, unsafeRange: nat, scale: nat, size: nat)
    requires unsafeRange < size
  {
    2 * scale % size <= remainder && remainder <= Minus(unsafeRange, 4 * scale % size, size)
  }

  /** What the last test means while 4 * scale fits the type: the upper margin is looked at only if there is one. */
  lemma Margins(remainder: nat, unsafeRange: nat, scale: nat, size: nat)
    requires remainder <= unsafeRange < size && 4 * scale < size
    ensures AboveMargins(remainder, unsafeRange, scale, size) <==>
      2 * scale <= remainder && (4 * scale <= unsafeRange ==> remainder <= unsafeRange - 4 * scale)
  {
    Unwrapped(2 * scale, size);
    Unwrapped(4 * scale, size);
  }

  lemma Unwrapped(x: nat, size: nat)
    requires x < size
    ensures x % size == x
  {
  }

  /** An accepted remainder lies between both margins exactly when the range is as wide as the upper one. */
  lemma BetweenIff(remainder: nat, unsafeRange: nat, scale: nat, size: nat)
    requires remainder <= unsafeRange < size && AboveMargins(remainder, unsafeRange, scale, size)
    ensures 2 * scale <= remainder <= unsafeRange - 4 * scale <==> 4 * scale <= unsafeRange
  {
    if 4 * scale <= unsafeRange { Margins(remainder, unsafeRange, scale, size); }
  }

  /** A remainder that is accepted though its range is narrower than the upper margin. */
  lemma AcceptedInNarrowRange(size: nat)
    requires size > 4
    ensures AboveMargins(2, 3, 1, size) && Nearest(2, 2, 2, 1, 3, 2) && !(2 <= 3 - 4 * 1)
  {
    assert Minus(3, 4 * 1 % size, size) == size - 1 && 2 * 1 % size == 2;
    forall d: nat, r: nat | 1 <= d <= 3 && Reachable(2, 2, 3, r) ensures Distance(2, d) <= Distance(r, d) {
      var i: nat :| Stepped(2, 2, i, r);
      assert i == 0;
    }
  }

  function Distance(a: nat, b: nat): nat { if a >= b then a - b else b - a }

  /** Remainders the digit could be lowered to: start plus a multiple of mult, inside the unsafe range. */
  ghost predicate Reachable(start: nat, mult: nat, unsafeRange: nat, r: nat) {
    r <= unsafeRange && exists i: nat :: Stepped(start, mult, i, r)
  }

  ghost predicate Stepped(start: nat, mult: nat, i: nat, r: nat) { r == start + i * mult }

  /** No other reachable remainder is nearer to any possible distance. */
  ghost predicate Nearest(remainder: nat, start: nat, mult: nat, scale: nat, unsafeRange: nat, upperRange: nat) {
    forall d: nat, r: nat {:trigger Distance(r, d)} ::
      upperRange - scale <= d <= upperRange + scale && Reachable(start, mult, unsafeRange, r) ==> Distance(remainder, d) <= Distance(r, d)
  }

  /** No step away, up or down, is nearer to d. */
  ghost predicate StepsAway(d: nat, r: nat, mult: nat, unsafeRange: nat, lowest: nat) {
    && (r > lowest ==> r >= mult && Distance(r, d) <= Distance(r - mult, d))
    && (r + mult <= unsafeRange ==> Distance(r, d) <= Distance(r + mult, d))
  }

  /** Beating the nearest steps beats all of them. */
  lemma {:induction false} BeatsAll(d: nat, r: nat, n: nat, start: nat, mult: nat, unsafeRange: nat, i: nat, other: nat)
    requires mult > 0 && StepsAway(d, r, mult, unsafeRange, start)
    requires Stepped(start, mult, n, r) && Stepped(start, mult, i, other) && other <= unsafeRange
    ensures Distance(r, d) <= Distance(other, d)
  {
    if i < n {
      Further(start, mult, i, n);
    } else if i > n {
      Further(start, mult, n, i);
    }
  }

  lemma Further(start: nat, mult: nat, i: nat, n: nat)
    requires i < n
    ensures start + i * mult + mult <= start + n * mult
  {
    assert (n - i - 1) * mult >= 0;
    assert n * mult == i * mult + mult + (n - i - 1) * mult;
  }

  /** Lowers the digit while that brings the remainder nearer to the low end of the possible distances, then accepts when
    * the high end would not ask for one step more and the margins are kept. */
  method Weed(lastDigit: nat, upperRange: nat, unsafeRange: nat, start: nat, mult: nat, scale: nat, size: nat)
    returns (ok: bool, digit: int, remainder: nat)
    requires 0 < mult && scale <= upperRange < size && start <= unsafeRange < size
    ensures exists n: nat :: Stepped(start, mult, n, remainder) && digit == lastDigit - n
    ensures remainder <= unsafeRange
    ensures upperRange + scale < size || 4 * scale <= unsafeRange ==>
      (ok <==> Nearest(remainder, start, mult, scale, unsafeRange, upperRange) && AboveMargins(remainder, unsafeRange, scale, size))
    ensures ok ==> (2 * scale <= remainder <= unsafeRange - 4 * scale <==> 4 * scale <= unsafeRange)
  {
    var first, second := upperRange - scale, Plus(upperRange, scale, size);
    ghost var n: nat := 0;
    digit, remainder := lastDigit, start;
    while
      && remainder < first
      && Minus(unsafeRange, remainder, size) >= mult
      && (remainder + mult < first || first - remainder >= remainder + mult - first)
      invariant Stepped(start, mult, n, remainder) && digit == lastDigit - n && start <= remainder <= unsafeRange
      invariant remainder > start ==> remainder >= start + mult && Distance(remainder, first) <= Distance(remainder - mult, first)
      decreases unsafeRange - remainder
    {
      digit := digit - 1;
      remainder := remainder + mult;
      Further(start, mult, n, n + 1);
      n := n + 1;
    }
    if AboveMargins(remainder, unsafeRange, scale, size) { BetweenIff(remainder, unsafeRange, scale, size); }
    hide AboveMargins;
    if
      && remainder < second
      && Minus(unsafeRange, remainder, size) >= mult
      && (remainder + mult < second || second - remainder > remainder + mult - second)
    {
      Further(start, mult, n, n + 1);
      assert Stepped(start, mult, n + 1, remainder + mult) && Reachable(start, mult, unsafeRange, remainder + mult);
      assert Distance(remainder + mult, second) < Distance(remainder, second);
      if upperRange + scale >= size && 4 * scale <= unsafeRange { Margins(remainder, unsafeRange, scale, size); }
      return false, digit, remainder;
    }
    ok := AboveMargins(remainder, unsafeRange, scale, size);
    if upperRange + scale >= size && 4 * scale <= unsafeRange && ok {
      Margins(remainder, unsafeRange, scale, size);
      LastStep(remainder, unsafeRange, scale, size, upperRange, mult);
    }
    if upperRange + scale < size || (4 * scale <= unsafeRange && ok) {
      forall d: nat, r: nat | first <= d <= upperRange + scale && Reachable(start, mult, unsafeRange, r)
        ensures Distance(remainder, d) <= Distance(r, d)
      {
        var i: nat :| Stepped(start, mult, i, r);
        assert StepsAway(d, remainder, mult, unsafeRange, start);
        BeatsAll(d, remainder, n, start, mult, unsafeRange, i, r);
      }
    }
  }

  /** When the upper end of the range wraps, a remainder inside the margins that is not raised any more is the last one. */
  lemma LastStep(remainder: nat, unsafeRange: nat, scale: nat, size: nat, upperRange: nat, mult: nat)
    requires scale <= upperRange < size <= upperRange + scale && unsafeRange < size && remainder <= unsafeRange - 4 * scale
    requires var first := upperRange - scale;
      !(remainder < first && unsafeRange - remainder >= mult && (remainder + mult < first || first - remainder >= remainder + mult - first))
    ensures remainder < upperRange - scale && unsafeRange - remainder < mult
  {
  }
}
