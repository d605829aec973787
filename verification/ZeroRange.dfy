/** Search for the first run of zero bits, yesod.old/yesod/bitset.hpp. */
module ZeroRange {
  import opened Arith

  /** A machine word, least significant bit first. */
  type Word = seq<bool>

  // ---------------------------------------------------------------- one word

  function CountTrailing(w: Word): (n: nat)
    ensures n <= |w|
  {
    if w == [] || w[0] then 0 else 1 + CountTrailing(w[1..])
  }

  function CountLeading(w: Word): (n: nat)
    ensures n <= |w|
  {
    if w == [] || w[|w| - 1] then 0 else 1 + CountLeading(w[..|w| - 1])
  }

  function PopCount(w: Word): (n: nat)
    ensures n <= |w|
  {
    if w == [] then 0 else (if w[|w| - 1] then 1 else 0) + PopCount(w[..|w| - 1])
  }

  /** w & (w >> n) */
  function AndShifted(w: Word, n: nat): (r: Word)
    ensures |r| == |w|
  {
    seq(|w|, i requires 0 <= i < |w| => w[i] && i + n < |w| && w[i + n])
  }

  /** ~(w | mask) for the mask of the bits below `first` and from `count` on. */
  function Vacancies(w: Word, first: nat, count: nat): (r: Word)
    ensures |r| == |w|
  {
    seq(|w|, i requires 0 <= i < |w| => !w[i] && first <= i < count)
  }

  ghost predicate AllFrom(w: Word, i: nat, n: nat) { i + n <= |w| && forall j :: i <= j < i + n ==> w[j] }

  lemma {:induction false} TrailingMeans(w: Word)
    ensures var n := CountTrailing(w); (forall j :: 0 <= j < n ==> !w[j]) && (n < |w| ==> w[n])
  {
    if w != [] && !w[0] {
      TrailingMeans(w[1..]);
      forall j | 0 <= j < CountTrailing(w) ensures !w[j] { if j > 0 { assert w[j] == w[1..][j - 1]; } }
    }
  }

  lemma {:induction false} LeadingMeans(w: Word)
    ensures var n := |w| - CountLeading(w); (forall j :: n <= j < |w| ==> !w[j]) && (n > 0 ==> w[n - 1])
  {
    if w != [] && !w[|w| - 1] {
      LeadingMeans(w[..|w| - 1]);
    }
  }

  lemma {:induction false} CountWindow(w: Word, i: nat, n: nat)
    requires AllFrom(w, i, n)
    ensures PopCount(w) >= n
  {
    if n > 0 {
      var k := |w| - 1;
      if i + n <= k { CountWindow(w[..k], i, n); } else { CountWindow(w[..k], i, n - 1); }
    }
  }

  /** As many bits as there are places: all of them. */
  lemma {:induction false} CountFull(w: Word, first: nat, count: nat)
    requires first <= count <= |w| && (forall j :: 0 <= j < |w| && w[j] ==> first <= j < count)
    ensures PopCount(w) <= count - first
    ensures PopCount(w) == count - first ==> AllFrom(w, first, count - first)
  {
    if w != [] {
      var k := |w| - 1;
      if count <= k { CountFull(w[..k], first, count); }
      else if first <= k { CountFull(w[..k], first, k); }
      else { CountFull(w[..k], k, k); }
    }
  }

  /** One halving step: windows of bl - shift bits of the new word are windows of bl bits of the old one. */
  lemma HalvingStep(w: Word, i: nat, bl: nat, shift: nat)
    requires 2 * shift <= bl
    ensures bl > shift ==> (AllFrom(AndShifted(w, shift), i, bl - shift) <==> AllFrom(w, i, bl))
  {
    var v := AndShifted(w, shift);
    if bl > shift && AllFrom(v, i, bl - shift) {
      assert v[i + bl - shift - 1];
      forall j | i <= j < i + bl ensures w[j] { assert j < i + bl - shift ==> v[j]; assert j >= i + shift ==> v[j - shift]; }
    }
  }

  /** The first place at or after `first` where `length` vacant bits start, or `count`. */
  ghost predicate FirstRun(w: Word, first: nat, length: nat, count: nat, r: nat) {
    var v := Vacancies(w, 0, count);
    && first <= count && (r < count ==> first <= r && AllFrom(v, r, length)) && r <= count
    && forall i {:trigger AllFrom(v, i, length)} :: first <= i < r ==> !AllFrom(v, i, length)
  }

  method FindInWord(w: Word, first: nat, length: nat, count: nat) returns (r: nat)
    requires length >= 1 && first <= count <= |w|
    ensures FirstRun(w, first, length, count, r)
  {
    ghost var all := Vacancies(w, 0, count);
    if first + length > count {
      forall i: nat | first <= i < count ensures !AllFrom(all, i, length) { assert i + length <= |w| ==> !all[i + length - 1]; }
      return count;
    }
    var v := Vacancies(w, first, count);
    ghost var start := v;
    CountFull(v, first, count);
    var bl := PopCount(v);
    SameWindows(w, first, length, count);
    if bl == count - first {
      return first;
    }
    if bl < length {
      forall i: nat | first <= i < count ensures !AllFrom(all, i, length) { if AllFrom(start, i, length) { CountWindow(start, i, length); } }
      return count;
    }
    bl := length;
    while bl > 1
      invariant 1 <= bl <= length && |v| == |w|
      invariant forall i: nat {:trigger AllFrom(v, i, bl)} :: AllFrom(v, i, bl) <==> AllFrom(start, i, length)
    {
      var shift := bl / 2;
      forall i: nat ensures AllFrom(AndShifted(v, shift), i, bl - shift) <==> AllFrom(start, i, length) { HalvingStep(v, i, bl, shift); }
      v := AndShifted(v, shift);
      bl := bl - shift;
    }
    TrailingMeans(v);
    r := CountTrailing(v);
    forall i: nat | i < |w| ensures v[i] <==> AllFrom(start, i, length) { assert v[i] <==> AllFrom(v, i, 1); }
    if r == |v| {
      r := count;
    } else {
      assert AllFrom(start, r, length) && AllFrom(all, r, length) && all[r];
    }
    forall i: nat | first <= i < r ensures !AllFrom(all, i, length) { assert !v[i]; }
  }

  lemma SameWindows(w: Word, first: nat, length: nat, count: nat)
    requires length >= 1 && first <= count <= |w|
    ensures forall i: nat {:trigger AllFrom(Vacancies(w, 0, count), i, length)} ::
      AllFrom(Vacancies(w, first, count), i, length) <==> first <= i && AllFrom(Vacancies(w, 0, count), i, length)
  {
    forall i: nat ensures AllFrom(Vacancies(w, first, count), i, length) <==> first <= i && AllFrom(Vacancies(w, 0, count), i, length) {
      var v, u := Vacancies(w, first, count), Vacancies(w, 0, count);
      assert forall j :: 0 <= j < |w| ==> (v[j] <==> u[j] && first <= j);
      if AllFrom(v, i, length) { assert v[i]; }
    }
  }

  // ---------------------------------------------------------------- several words

  /** Width of a pointer-sized word. */
  type WordWidth = w: nat | w == 32 || w == 64 witness 64

  const WORD_BITS: WordWidth

  function Offset(word: nat): nat { word * WORD_BITS }

  lemma OffsetNext(word: nat)
    ensures Offset(word + 1) == Offset(word) + WORD_BITS
  {
  }

  ghost predicate Words(bset: seq<Word>, count: nat) {
    (forall i :: 0 <= i < |bset| ==> |bset[i]| == WORD_BITS) && Offset(|bset|) >= count
  }

  /** Bit p of a multi-word set is clear. */
  ghost predicate Clear(bset: seq<Word>, count: nat, p: nat)
    requires Words(bset, count) && p < count
  {
    WordOf(p, |bset|);
    !bset[p / WORD_BITS][p % WORD_BITS]
  }

  lemma WordOf(p: nat, words: nat)
    requires p < Offset(words)
    ensures p / WORD_BITS < words && p % WORD_BITS < WORD_BITS
  {
    var q := p / WORD_BITS;
    MulMono(words, if q >= words then q else words, WORD_BITS);
  }

  lemma ClearAt(bset: seq<Word>, count: nat, word: nat, o: nat)
    requires Words(bset, count) && word < |bset| && o < WORD_BITS && Offset(word) + o < count
    ensures Clear(bset, count, Offset(word) + o) <==> !bset[word][o]
  {
    Quotient(word, o);
  }

  lemma Quotient(word: nat, o: nat)
    requires o < WORD_BITS
    ensures (Offset(word) + o) / WORD_BITS == word && (Offset(word) + o) % WORD_BITS == o
  {
  }

  /** The clear bits as one sequence. */
  ghost function Flags(bset: seq<Word>, count: nat): (f: seq<bool>)
    requires Words(bset, count)
    ensures |f| == count && forall p :: 0 <= p < count ==> (f[p] <==> Clear(bset, count, p))
  {
    seq(count, p requires 0 <= p < count => Clear(bset, count, p))
  }

  /** r is the first start at or after `first` of `length` clear bits, or their number when there is none. */
  ghost predicate IsFirst(f: seq<bool>, first: nat, length: nat, r: nat) {
    && r <= |f| && (r < |f| ==> first <= r && AllFrom(f, r, length))
    && forall p {:trigger AllFrom(f, p, length)} :: first <= p < r ==> !AllFrom(f, p, length)
  }

  /** Everything before B is searched: rLen clear bits end there, from rPos on, and no run starts before these. */
  ghost predicate Scanned(f: seq<bool>, first: nat, length: nat, rPos: nat, rLen: nat, B: nat) {
    && first <= rPos && rPos + rLen == B <= |f| && AllFrom(f, rPos, rLen)
    && forall p {:trigger AllFrom(f, p, length)} :: first <= p < rPos ==> !AllFrom(f, p, length)
  }

  /** The next n flags are those of v. */
  ghost predicate Piece(f: seq<bool>, B: nat, v: seq<bool>, n: nat) {
    B + n <= |f| && n <= |v| && forall o {:trigger v[o]} :: 0 <= o < n ==> f[B + o] == v[o]
  }

  lemma PieceOfWord(bset: seq<Word>, count: nat, word: nat, n: nat)
    requires Words(bset, count) && word < |bset| && n <= WORD_BITS && Offset(word) + n <= count
    ensures Piece(Flags(bset, count), Offset(word), Vacancies(bset[word], 0, WORD_BITS), n)
  {
    var f, v := Flags(bset, count), Vacancies(bset[word], 0, WORD_BITS);
    forall o | 0 <= o < n ensures f[Offset(word) + o] == v[o] { ClearAt(bset, count, word, o); }
  }

  /** c further clear bits complete a run. */
  lemma Completed(f: seq<bool>, first: nat, length: nat, rPos: nat, rLen: nat, B: nat, v: seq<bool>, n: nat, c: nat)
    requires Scanned(f, first, length, rPos, rLen, B) && Piece(f, B, v, n) && c <= n && AllFrom(v, 0, c) && rLen + c >= length >= 1
    ensures IsFirst(f, first, length, rPos)
  {
    forall q | rPos <= q < rPos + length ensures f[q] { if q >= B { assert v[q - B]; } }
  }

  /** A set bit after c more clear ones ends the run that was open. */
  lemma Broken(f: seq<bool>, first: nat, length: nat, rPos: nat, rLen: nat, B: nat, v: seq<bool>, n: nat, c: nat, p: nat)
    requires Scanned(f, first, length, rPos, rLen, B) && Piece(f, B, v, n) && c < n && !v[c] && rLen + c < length
    requires first <= p <= B + c
    ensures !AllFrom(f, p, length)
  {
    assert f[B + c] == v[c];
  }

  /** A run inside the word, the first there, is the first of all. */
  lemma FoundInWord(f: seq<bool>, first: nat, length: nat, rPos: nat, rLen: nat, B: nat, v: seq<bool>, n: nat, c: nat, x: nat)
    requires Scanned(f, first, length, rPos, rLen, B) && Piece(f, B, v, n) && c < n && !v[c] && rLen + c < length && length >= 1
    requires x + length <= n && AllFrom(v, x, length) && forall i {:trigger AllFrom(v, i, length)} :: 0 <= i < x ==> !AllFrom(v, i, length)
    ensures IsFirst(f, first, length, B + x)
  {
    forall q | B + x <= q < B + x + length ensures f[q] { assert v[q - B]; }
    forall p: nat | first <= p < B + x ensures !AllFrom(f, p, length) {
      if p <= B + c {
        Broken(f, first, length, rPos, rLen, B, v, n, c, p);
      } else if AllFrom(f, p, length) {
        forall j | p - B <= j < p - B + length ensures j < |v| && v[j] { if j < x { assert f[B + j] == v[j]; } }
        assert AllFrom(v, p - B, length);
      }
    }
  }

  /** No run in the word: the clear bits at its top stay open. */
  lemma NextWord(f: seq<bool>, first: nat, length: nat, rPos: nat, rLen: nat, B: nat, v: seq<bool>, n: nat, c: nat, top: nat)
    requires Scanned(f, first, length, rPos, rLen, B) && Piece(f, B, v, n) && n == |v| && c < n && !v[c] && rLen + c < length && length >= 1
    requires top < n && AllFrom(v, n - top, top) && !v[n - top - 1]
    requires forall i: nat {:trigger AllFrom(v, i, length)} :: i < n - top ==> !AllFrom(v, i, length)
    ensures Scanned(f, first, length, B + n - top, top, B + n)
  {
    forall q | B + n - top <= q < B + n ensures f[q] { assert v[q - B]; }
    assert f[B + (n - top - 1)] == v[n - top - 1];
    forall p: nat | first <= p < B + n - top ensures !AllFrom(f, p, length) {
      if p <= B + c {
        Broken(f, first, length, rPos, rLen, B, v, n, c, p);
      } else if AllFrom(f, p, length) {
        forall j | p - B <= j < p - B + length ensures v[j] { assert f[B + j] == v[j]; }
        assert AllFrom(v, p - B, length);
      }
    }
  }

  // ---------------------------------------------------------------- the two searches

  predicate Zero(w: Word) { forall i :: 0 <= i < |w| ==> !w[i] }

  lemma WordEnds(w: Word)
    requires !Zero(w) && |w| == WORD_BITS
    ensures var v, c, top := Vacancies(w, 0, WORD_BITS), CountTrailing(w), CountLeading(w);
      && c < WORD_BITS && top < WORD_BITS && AllFrom(v, 0, c) && !v[c]
      && AllFrom(v, WORD_BITS - top, top) && !v[WORD_BITS - top - 1]
  {
    TrailingMeans(w);
    LeadingMeans(w);
  }

  lemma AtFirst(f: seq<bool>, first: nat, length: nat)
    requires first <= |f|
    ensures Scanned(f, first, length, first, 0, first)
  {
  }

  lemma TooLong(f: seq<bool>, first: nat, length: nat)
    requires first + length > |f|
    ensures IsFirst(f, first, length, |f|)
  {
  }

  /** What is left when every word has been searched. */
  lemma NothingLeft(f: seq<bool>, first: nat, length: nat, rPos: nat, rLen: nat)
    requires Scanned(f, first, length, rPos, rLen, |f|) && length >= 1
    ensures IsFirst(f, first, length, if rLen >= length then rPos else |f|)
  {
    if rLen >= length {
      assert AllFrom(f, rPos, length);
    } else {
      forall p: nat | first <= p < |f| ensures !AllFrom(f, p, length) { assert p >= rPos ==> p + length > |f|; }
    }
  }

  /** One whole word of the short search. */
  method ShortWord(w: Word, length: nat, rPos: nat, rLen: nat, base: nat, ghost f: seq<bool>, ghost first: nat)
    returns (done: bool, pos: nat, open: nat)
    requires |w| == WORD_BITS && 1 <= length < WORD_BITS - 1 && base + WORD_BITS <= |f|
    requires Scanned(f, first, length, rPos, rLen, base) && Piece(f, base, Vacancies(w, 0, WORD_BITS), WORD_BITS)
    ensures done ==> IsFirst(f, first, length, pos)
    ensures !done ==> Scanned(f, first, length, pos, open, base + WORD_BITS) && open < length
  {
    ghost var v := Vacancies(w, 0, WORD_BITS);
    if Zero(w) {
      Completed(f, first, length, rPos, rLen, base, v, WORD_BITS, WORD_BITS);
      return true, rPos, 0;
    }
    WordEnds(w);
    var c := CountTrailing(w);
    if rLen + c >= length {
      Completed(f, first, length, rPos, rLen, base, v, WORD_BITS, c);
      return true, rPos, 0;
    }
    var x := FindInWord(w, 0, length, WORD_BITS);
    if x < WORD_BITS {
      FoundInWord(f, first, length, rPos, rLen, base, v, WORD_BITS, c, x);
      return true, base + x, 0;
    }
    var top := CountLeading(w);
    assert top >= length ==> AllFrom(v, WORD_BITS - top, length);
    NextWord(f, first, length, rPos, rLen, base, v, WORD_BITS, c, top);
    return false, base + WORD_BITS - top, top;
  }

  /** w | ~mask and w & mask for the mask of the bits below n. */
  function OrAbove(w: Word, n: nat): (r: Word)
    ensures |r| == |w|
  {
    seq(|w|, i requires 0 <= i < |w| => w[i] || i >= n)
  }

  function AndBelow(w: Word, n: nat): (r: Word)
    ensures |r| == |w|
  {
    seq(|w|, i requires 0 <= i < |w| => w[i] && i < n)
  }

  /** The last, partial word ends the search. */
  lemma TailDone(f: seq<bool>, first: nat, length: nat, rPos: nat, rLen: nat, B: nat, v: seq<bool>, n: nat, c: nat)
    requires Scanned(f, first, length, rPos, rLen, B) && Piece(f, B, v, n) && B + n == |f| && length >= 1
    requires c <= n && rLen + c < length && (c < n ==> !v[c])
    requires forall i: nat {:trigger AllFrom(v, i, length)} :: c < i && i + length <= n ==> !AllFrom(v, i, length)
    ensures IsFirst(f, first, length, |f|)
  {
    forall p: nat | first <= p < |f| ensures !AllFrom(f, p, length) {
      if c < n && p <= B + c {
        Broken(f, first, length, rPos, rLen, B, v, n, c, p);
      } else if p > B + c {
        NoWindow(f, B, v, n, p, length);
      }
    }
  }

  lemma NoWindow(f: seq<bool>, B: nat, v: seq<bool>, n: nat, p: nat, length: nat)
    requires Piece(f, B, v, n) && B + n == |f| && p >= B
    requires p - B + length <= n ==> !AllFrom(v, p - B, length)
    ensures !AllFrom(f, p, length)
  {
    if p + length <= |f| {
      var j :| p - B <= j < p - B + length && !v[j];
      assert f[B + j] == v[j];
    }
  }

  lemma TailPiece(f: seq<bool>, base: nat, w: Word, n: nat)
    requires |w| == WORD_BITS && n <= WORD_BITS && Piece(f, base, Vacancies(w, 0, WORD_BITS), n)
    ensures Piece(f, base, Vacancies(OrAbove(w, n), 0, WORD_BITS), n) && Piece(f, base, Vacancies(AndBelow(w, n), 0, WORD_BITS), n)
  {
    var u, v, x := Vacancies(w, 0, WORD_BITS), Vacancies(OrAbove(w, n), 0, WORD_BITS), Vacancies(AndBelow(w, n), 0, WORD_BITS);
    assert forall o :: 0 <= o < n ==> v[o] == u[o] == x[o];
  }

  method ShortTail(word: Word, length: nat, rPos: nat, rLen: nat, base: nat, count: nat, ghost f: seq<bool>, ghost first: nat)
    returns (r: nat)
    requires |word| == WORD_BITS && length >= 1 && base <= count == |f| && count - base < WORD_BITS
    requires Scanned(f, first, length, rPos, rLen, base) && Piece(f, base, Vacancies(word, 0, WORD_BITS), count - base)
    ensures IsFirst(f, first, length, r)
  {
    var n := count - base;
    var w := OrAbove(word, n);
    ghost var v := Vacancies(w, 0, WORD_BITS);
    TailPiece(f, base, word, n);
    assert w[n];
    WordEnds(w);
    var c := CountTrailing(w);
    TrailingMeans(w);
    if rLen + c >= length {
      Completed(f, first, length, rPos, rLen, base, v, n, c);
      return rPos;
    }
    var x := FindInWord(w, 0, length, WORD_BITS);
    if x < WORD_BITS {
      assert forall o :: n <= o < WORD_BITS ==> !v[o];
      assert v[x + length - 1];
      assert c < n;
      FoundInWord(f, first, length, rPos, rLen, base, v, n, c, x);
      return base + x;
    }
    TailDone(f, first, length, rPos, rLen, base, v, n, c);
    return count;
  }

  // ---------------------------------------------------------------- the first word, when the search starts inside it

  /** Where the zeros begin that the search has counted once it leaves the word of `first`; it counts the zeros at the top
    * of that word, also those before `first`. */
  function Counted(bset: seq<Word>, first: nat): (from: nat)
    ensures from <= first
  {
    var word := WordIndex(first);
    if BitIndex(first) == 0 || word >= |bset| then first
    else
      var z := Offset(word) + WORD_BITS - CountLeading(bset[word]);
      if 0 <= z < first then z else first
  }

  /** A run in what is left of the word of `first`. */
  ghost predicate RunInWord(f: seq<bool>, first: nat, length: nat) {
    exists p: nat {:trigger AllFrom(f, p, length)} :: first <= p && p + length <= Offset(WordIndex(first) + 1) && AllFrom(f, p, length)
  }

  /** The place from where the search finds the first run. */
  ghost function SearchedFrom(bset: seq<Word>, count: nat, first: nat, length: nat): (from: nat)
    requires Words(bset, count)
    ensures from <= first
  {
    if first + length > count || (length < WORD_BITS - 1 && RunInWord(Flags(bset, count), first, length)) then first
    else Counted(bset, first)
  }

  /** The short search reads a word past the last when it starts inside the last, partial word and finds nothing there. */
  ghost predicate StaysInside(bset: seq<Word>, count: nat, first: nat, length: nat)
    requires Words(bset, count)
  {
    length < WORD_BITS - 1 && BitIndex(first) != 0 && first + length <= count && WordIndex(first) == WordIndex(count) ==>
      RunInWord(Flags(bset, count), first, length)
  }

  lemma TopZeros(w: Word, top: nat)
    requires |w| == WORD_BITS && top == CountLeading(w)
    ensures var v := Vacancies(w, 0, WORD_BITS); AllFrom(v, WORD_BITS - top, top) && (top < WORD_BITS ==> !v[WORD_BITS - top - 1])
  {
    LeadingMeans(w);
  }

  lemma TopOpen(f: seq<bool>, first: nat, length: nat, B: nat, v: seq<bool>, off: nat, from: nat, top: nat)
    requires |v| == WORD_BITS && off < WORD_BITS && first == B + off && B + WORD_BITS <= |f| && length >= 1 && top <= WORD_BITS
    requires Piece(f, B, v, WORD_BITS) && AllFrom(v, WORD_BITS - top, top) && (top < WORD_BITS ==> !v[WORD_BITS - top - 1])
    requires from == if WORD_BITS - top < off then B + WORD_BITS - top else first
    requires forall i: nat {:trigger AllFrom(v, i, length)} :: off <= i < WORD_BITS - top ==> !AllFrom(v, i, length)
    ensures Scanned(f, from, length, B + WORD_BITS - top, top, B + WORD_BITS)
  {
    forall q | B + WORD_BITS - top <= q < B + WORD_BITS ensures f[q] { assert v[q - B]; }
    forall p: nat | from <= p < B + WORD_BITS - top ensures !AllFrom(f, p, length) {
      NoRunBelowTop(f, length, B, v, top, p);
    }
  }

  /** A run that starts below the set bit under the zeros at the top ends below it. */
  lemma NoRunBelowTop(f: seq<bool>, length: nat, B: nat, v: seq<bool>, top: nat, p: nat)
    requires Piece(f, B, v, WORD_BITS) && |v| == WORD_BITS && B <= p < B + WORD_BITS - top && !v[WORD_BITS - top - 1]
    requires !AllFrom(v, p - B, length)
    ensures !AllFrom(f, p, length)
  {
    var l := WORD_BITS - top - 1;
    assert f[B + l] == v[l];
    if p + length <= B + l {
      var j :| p - B <= j < p - B + length && !v[j];
      assert f[B + j] == v[j];
    }
  }

  /** The zeros at the top of the first word are the open run. */
  lemma StartedInside(f: seq<bool>, first: nat, length: nat, B: nat, w: Word, off: nat, from: nat, top: nat)
    requires |w| == WORD_BITS && off < WORD_BITS && first == B + off && B + WORD_BITS <= |f| && length >= 1
    requires Piece(f, B, Vacancies(w, 0, WORD_BITS), WORD_BITS) && top == CountLeading(w)
    requires from == if WORD_BITS - top < off then B + WORD_BITS - top else first
    requires forall i: nat {:trigger AllFrom(Vacancies(w, 0, WORD_BITS), i, length)} ::
      off <= i < WORD_BITS - top ==> !AllFrom(Vacancies(w, 0, WORD_BITS), i, length)
    ensures Scanned(f, from, length, B + WORD_BITS - top, top, B + WORD_BITS)
  {
    LeadingMeans(w);
    TopZeros(w, top);
    hide Vacancies, CountLeading;
    TopOpen(f, first, length, B, Vacancies(w, 0, WORD_BITS), off, from, top);
  }

  lemma RunFromWord(f: seq<bool>, first: nat, length: nat, B: nat, v: seq<bool>, n: nat, off: nat, x: nat)
    requires Piece(f, B, v, n) && first == B + off && off <= x && x + length <= n && length >= 1 && AllFrom(v, x, length)
    requires forall i {:trigger AllFrom(v, i, length)} :: off <= i < x ==> !AllFrom(v, i, length)
    ensures IsFirst(f, first, length, B + x) && AllFrom(f, B + x, length)
  {
    forall q | B + x <= q < B + x + length ensures f[q] { assert v[q - B]; }
    forall p: nat | first <= p < B + x ensures !AllFrom(f, p, length) {
      if AllFrom(f, p, length) {
        forall j | p - B <= j < p - B + length ensures j < |v| && v[j] { assert f[B + j] == v[j]; }
        assert AllFrom(v, p - B, length);
      }
    }
  }

  lemma NoRunInWord(f: seq<bool>, first: nat, length: nat, word: nat, off: nat, v: seq<bool>, n: nat)
    requires Piece(f, Offset(word), v, n) && first == Offset(word) + off && off < WORD_BITS && length >= 1
    requires n == WORD_BITS || Offset(word) + n == |f|
    requires forall i {:trigger AllFrom(v, i, length)} :: off <= i < n ==> !AllFrom(v, i, length)
    ensures !RunInWord(f, first, length)
  {
    Quotient(word, off);
    OffsetNext(word);
    var B := Offset(word);
    forall p: nat | first <= p && p + length <= B + WORD_BITS ensures !AllFrom(f, p, length) {
      if AllFrom(f, p, length) {
        forall j | p - B <= j < p - B + length ensures j < |v| && v[j] { assert f[B + j] == v[j]; }
        assert AllFrom(v, p - B, length);
      }
    }
  }

  /** The short search in the word of `first`, from inside it: done, or the zeros counted so far. */
  method ShortStart(w: Word, off: nat, length: nat, base: nat, n: nat, ghost f: seq<bool>, ghost first: nat, ghost word: nat)
    returns (done: bool, pos: nat, open: nat)
    requires |w| == WORD_BITS && 0 < off < n <= WORD_BITS && 1 <= length < WORD_BITS - 1 && base + n <= |f| && (n < WORD_BITS ==> base + n == |f|)
    requires Piece(f, base, Vacancies(w, 0, WORD_BITS), n) && base == Offset(word) && first == base + off
    ensures done <==> RunInWord(f, first, length)
    ensures done ==> IsFirst(f, first, length, pos)
    ensures !done && n == WORD_BITS ==> open == CountLeading(w) && pos == base + WORD_BITS - open
    ensures !done && n == WORD_BITS ==>
      Scanned(f, if WORD_BITS - open < off then pos else first, length, pos, open, base + WORD_BITS)
  {
    hide Piece, IsFirst, Scanned;
    var u := if n < WORD_BITS then OrAbove(w, n) else w;
    TailPiece(f, base, w, n);
    ghost var v := Vacancies(u, 0, WORD_BITS);
    var x := FindInWord(u, off, length, WORD_BITS);
    if x < WORD_BITS {
      InsideTail(w, n, u, x, length);
      RunFromWord(f, first, length, base, v, n, off, x);
      Quotient(word, off);
      OffsetNext(word);
      assert RunInWord(f, first, length);
      return true, base + x, 0;
    }
    NoRunInWord(f, first, length, word, off, v, n);
    open := CountLeading(u);
    pos := base + WORD_BITS - open;
    done := false;
    if n == WORD_BITS {
      StartedInside(f, first, length, base, w, off, if WORD_BITS - open < off then pos else first, open);
    }
  }

  lemma InsideTail(w: Word, n: nat, u: Word, x: nat, length: nat)
    requires |w| == WORD_BITS && n <= WORD_BITS && u == (if n < WORD_BITS then OrAbove(w, n) else w) && length >= 1
    requires AllFrom(Vacancies(u, 0, WORD_BITS), x, length)
    ensures x + length <= n
  {
    assert Vacancies(u, 0, WORD_BITS)[x + length - 1];
  }

  lemma AcrossTop(v: seq<bool>, i: nat, length: nat, top: nat)
    requires |v| == WORD_BITS && 0 < i < WORD_BITS - top && !v[WORD_BITS - top - 1] && length >= WORD_BITS - 1
    ensures !AllFrom(v, i, length)
  {
  }

  /** The long search in the word of `first` counts the zeros at its top. */
  lemma LongStart(w: Word, off: nat, length: nat, base: nat, f: seq<bool>, first: nat)
    requires |w| == WORD_BITS && 0 < off < WORD_BITS && length >= WORD_BITS - 1 && base + WORD_BITS <= |f|
    requires Piece(f, base, Vacancies(w, 0, WORD_BITS), WORD_BITS) && first == base + off
    ensures var open := CountLeading(w); var pos := base + WORD_BITS - open;
      Scanned(f, if WORD_BITS - open < off then pos else first, length, pos, open, base + WORD_BITS)
  {
    hide *;
    var open, v := CountLeading(w), Vacancies(w, 0, WORD_BITS);
    TopZeros(w, open);
    forall i: nat | off <= i < WORD_BITS - open ensures !AllFrom(v, i, length) { AcrossTop(v, i, length, open); }
    TopOpen(f, first, length, base, v, off, if WORD_BITS - open < off then base + WORD_BITS - open else first, open);
  }

  /** Started inside a word, the search counts from here. */
  lemma CountedIs(bset: seq<Word>, first: nat, word: nat, off: nat)
    requires word == WordIndex(first) && off == BitIndex(first) && word < |bset| && |bset[word]| == WORD_BITS && first == Offset(word) + off
    ensures Counted(bset, first) ==
      if off != 0 && WORD_BITS - CountLeading(bset[word]) < off then Offset(word) + WORD_BITS - CountLeading(bset[word]) else first
  {
  }

  // ---------------------------------------------------------------- the searches

  /** The search for runs shorter than a word. */
  method FindShort(bset: seq<Word>, count: nat, first: nat, length: nat) returns (r: nat)
    requires Layout(bset, count) && Words(bset, count) && 1 <= length < WORD_BITS - 1 && StaysInside(bset, count, first, length)
    ensures IsFirst(Flags(bset, count), SearchedFrom(bset, count, first, length), length, r)
  {
    hide *;
    ghost var f, from := Flags(bset, count), SearchedFrom(bset, count, first, length);
    if first + length > count {
      TooLong(f, first, length);
      FromFirst(bset, count, first, length);
      return count;
    }
    var full: nat, word: nat, off: nat := WordIndex(count), WordIndex(first), BitIndex(first);
    InWord(bset, count, first, full, word, off);
    var rLen: nat, rPos: nat := 0, Offset(word);
    if off != 0 {
      var n: nat := if word == full then count - Offset(full) else WORD_BITS;
      PieceOfWord(bset, count, word, n);
      var done;
      done, rPos, rLen := ShortStart(bset[word], off, length, Offset(word), n, f, first, word);
      if done {
        FromFirst(bset, count, first, length);
        return rPos;
      }
      StillInside(bset, count, first, length);
      FromCounted(bset, count, first, length, word, off);
      OffsetNext(word);
      word := word + 1;
    } else {
      FromAligned(bset, count, first, length);
      AtFirst(f, first, length);
    }
    while word < full
      invariant word <= full && Scanned(f, from, length, rPos, rLen, Offset(word))
    {
      OffsetNext(word);
      OffsetMono(word + 1, full);
      PieceOfWord(bset, count, word, WORD_BITS);
      var done, pos, open := ShortWord(bset[word], length, rPos, rLen, Offset(word), f, from);
      if done {
        return pos;
      }
      rPos, rLen := pos, open;
      word := word + 1;
    }
    if rLen >= length {
      Enough(f, from, length, rPos, rLen, Offset(word));
      return rPos;
    }
    if full == |bset| {
      NothingLeft(f, from, length, rPos, rLen);
      return count;
    }
    PieceOfWord(bset, count, word, count - Offset(word));
    r := ShortTail(bset[word], length, rPos, rLen, Offset(word), count, f, from);
  }

  lemma FromFirst(bset: seq<Word>, count: nat, first: nat, length: nat)
    requires Words(bset, count) && (first + length > count || (length < WORD_BITS - 1 && RunInWord(Flags(bset, count), first, length)))
    ensures SearchedFrom(bset, count, first, length) == first
  {
  }

  lemma FromAligned(bset: seq<Word>, count: nat, first: nat, length: nat)
    requires Words(bset, count) && BitIndex(first) == 0
    ensures SearchedFrom(bset, count, first, length) == first
  {
  }

  lemma FromCounted(bset: seq<Word>, count: nat, first: nat, length: nat, word: nat, off: nat)
    requires Words(bset, count) && first + length <= count && off == BitIndex(first) != 0 && word == WordIndex(first)
    requires length < WORD_BITS - 1 ==> !RunInWord(Flags(bset, count), first, length)
    requires word < |bset| && first == Offset(word) + off
    ensures var z := Offset(word) + WORD_BITS - CountLeading(bset[word]);
      SearchedFrom(bset, count, first, length) == if WORD_BITS - CountLeading(bset[word]) < off then z else first
  {
    CountedIs(bset, first, word, off);
  }

  lemma StillInside(bset: seq<Word>, count: nat, first: nat, length: nat)
    requires Words(bset, count) && StaysInside(bset, count, first, length) && !RunInWord(Flags(bset, count), first, length)
    requires length < WORD_BITS - 1 && BitIndex(first) != 0 && first + length <= count
    ensures WordIndex(first) != WordIndex(count)
  {
  }

  lemma OffsetMono(i: nat, j: nat)
    requires i <= j
    ensures Offset(i) <= Offset(j)
  {
    MulMono(i, j, WORD_BITS);
  }

  function WordIndex(p: nat): nat { p / WORD_BITS }

  predicate Aligned(p: nat) { p % WORD_BITS == 0 }

  /** As many words as hold the bits. */
  predicate Layout(bset: seq<Word>, count: nat) {
    (forall i :: 0 <= i < |bset| ==> |bset[i]| == WORD_BITS) && |bset| == WordIndex(count + WORD_BITS - 1)
  }

  lemma LayoutWords(bset: seq<Word>, count: nat)
    requires Layout(bset, count)
    ensures Words(bset, count)
  {
    DivBounds(count + WORD_BITS - 1, WORD_BITS);
    OffsetNext(|bset|);
  }

  lemma Boundaries(bset: seq<Word>, count: nat, first: nat, full: nat, word: nat)
    requires Layout(bset, count) && Aligned(first) && first <= count && full == WordIndex(count) && word == WordIndex(first)
    ensures Offset(word) == first && word <= full && Offset(full) <= count < Offset(full) + WORD_BITS
    ensures |bset| == if Offset(full) == count then full else full + 1
  {
    DivBounds(first, WORD_BITS);
    DivBounds(count, WORD_BITS);
    OffsetNext(full);
    MulMono(full + 1, if word > full then word else full + 1, WORD_BITS);
    if Offset(full) == count {
      DivUnique(count + WORD_BITS - 1, WORD_BITS, full, WORD_BITS - 1);
    } else {
      DivUnique(count + WORD_BITS - 1, WORD_BITS, full + 1, count - Offset(full) - 1);
    }
  }

  /** Runs of at least a word less one bit never start inside a word after a set bit. */
  lemma NoLongInside(w: Word, length: nat, c: nat, top: nat, i: nat)
    requires |w| == WORD_BITS && !Zero(w) && length >= WORD_BITS - 1 && c == CountTrailing(w) < length && top == CountLeading(w)
    requires i < WORD_BITS - top
    ensures !AllFrom(Vacancies(w, 0, WORD_BITS), i, length)
  {
    WordEnds(w);
    var v := Vacancies(w, 0, WORD_BITS);
    TrailingMeans(w);
    assert !v[c] && !v[WORD_BITS - top - 1];
  }

  lemma ClearWord(f: seq<bool>, first: nat, length: nat, rPos: nat, rLen: nat, B: nat, v: seq<bool>, n: nat)
    requires Scanned(f, first, length, rPos, rLen, B) && Piece(f, B, v, n) && AllFrom(v, 0, n)
    ensures Scanned(f, first, length, rPos, rLen + n, B + n)
  {
    forall q | rPos <= q < B + n ensures f[q] { if q >= B { assert v[q - B]; } }
  }

  /** One whole word of the long search. */
  method LongWord(w: Word, length: nat, rPos: nat, rLen: nat, base: nat, ghost f: seq<bool>, ghost first: nat)
    returns (done: bool, pos: nat, open: nat)
    requires |w| == WORD_BITS && length >= WORD_BITS - 1 && base + WORD_BITS <= |f|
    requires Scanned(f, first, length, rPos, rLen, base) && Piece(f, base, Vacancies(w, 0, WORD_BITS), WORD_BITS)
    ensures done ==> IsFirst(f, first, length, pos)
    ensures !done ==> Scanned(f, first, length, pos, open, base + WORD_BITS)
  {
    ghost var v := Vacancies(w, 0, WORD_BITS);
    if Zero(w) {
      if rLen + WORD_BITS >= length {
        Completed(f, first, length, rPos, rLen, base, v, WORD_BITS, WORD_BITS);
        return true, rPos, 0;
      }
      ClearWord(f, first, length, rPos, rLen, base, v, WORD_BITS);
      return false, rPos, rLen + WORD_BITS;
    }
    WordEnds(w);
    var c := CountTrailing(w);
    if rLen + c >= length {
      Completed(f, first, length, rPos, rLen, base, v, WORD_BITS, c);
      return true, rPos, 0;
    }
    var top := CountLeading(w);
    forall i: nat | i < WORD_BITS - top ensures !AllFrom(v, i, length) { NoLongInside(w, length, c, top, i); }
    NextWord(f, first, length, rPos, rLen, base, v, WORD_BITS, c, top);
    return false, base + WORD_BITS - top, top;
  }

  method LongTail(word: Word, length: nat, rPos: nat, rLen: nat, base: nat, count: nat, ghost f: seq<bool>, ghost first: nat)
    returns (r: nat)
    requires |word| == WORD_BITS && length >= WORD_BITS - 1 && base <= count == |f| && count - base < WORD_BITS
    requires Scanned(f, first, length, rPos, rLen, base) && Piece(f, base, Vacancies(word, 0, WORD_BITS), count - base)
    ensures IsFirst(f, first, length, r)
  {
    var n := count - base;
    var w := AndBelow(word, n);
    ghost var v := Vacancies(w, 0, WORD_BITS);
    TailPiece(f, base, word, n);
    TrailingMeans(w);
    var c := if Zero(w) then n else CountTrailing(w);
    assert c <= n && AllFrom(v, 0, c) && (c < n ==> !v[c]) by {
      if !Zero(w) {
        assert w[CountTrailing(w)];
        assert CountTrailing(w) < n;
      }
    }
    if rLen + c >= length {
      Completed(f, first, length, rPos, rLen, base, v, n, c);
      return rPos;
    }
    TailDone(f, first, length, rPos, rLen, base, v, n, c);
    return count;
  }

  /** The search for longer runs. */
  method FindLong(bset: seq<Word>, count: nat, first: nat, length: nat) returns (r: nat)
    requires Layout(bset, count) && Words(bset, count) && length >= WORD_BITS - 1
    ensures IsFirst(Flags(bset, count), SearchedFrom(bset, count, first, length), length, r)
  {
    hide *;
    ghost var f, from := Flags(bset, count), SearchedFrom(bset, count, first, length);
    if first + length > count {
      TooLong(f, first, length);
      FromFirst(bset, count, first, length);
      return count;
    }
    var full: nat, word: nat, off: nat := WordIndex(count), WordIndex(first), BitIndex(first);
    InWord(bset, count, first, full, word, off);
    var rLen: nat, rPos: nat := 0, Offset(word);
    if off != 0 {
      // a run this long does not fit behind a place inside the last, partial word
      PieceOfWord(bset, count, word, WORD_BITS);
      LongStart(bset[word], off, length, Offset(word), f, first);
      FromCounted(bset, count, first, length, word, off);
      rLen := CountLeading(bset[word]);
      rPos := Offset(word) + WORD_BITS - rLen;
      OffsetNext(word);
      word := word + 1;
    } else {
      FromAligned(bset, count, first, length);
      AtFirst(f, first, length);
    }
    while word < full
      invariant word <= full && Scanned(f, from, length, rPos, rLen, Offset(word))
    {
      OffsetNext(word);
      OffsetMono(word + 1, full);
      PieceOfWord(bset, count, word, WORD_BITS);
      var done, pos, open := LongWord(bset[word], length, rPos, rLen, Offset(word), f, from);
      if done {
        return pos;
      }
      rPos, rLen := pos, open;
      word := word + 1;
    }
    if rLen >= length {
      Enough(f, from, length, rPos, rLen, Offset(word));
      return rPos;
    }
    if full == |bset| {
      NothingLeft(f, from, length, rPos, rLen);
      return count;
    }
    PieceOfWord(bset, count, word, count - Offset(word));
    r := LongTail(bset[word], length, rPos, rLen, Offset(word), count, f, from);
  }

  lemma Enough(f: seq<bool>, first: nat, length: nat, rPos: nat, rLen: nat, B: nat)
    requires Scanned(f, first, length, rPos, rLen, B) && rLen >= length >= 1
    ensures IsFirst(f, first, length, rPos)
  {
    assert AllFrom(f, rPos, length);
  }

  /** find_zero_range_first: the first place where `length` clear bits start inside the set, counted from where the search
    * begins to count; that is `first` itself on a word boundary. */
  method FindZeroRangeFirst(bset: seq<Word>, count: nat, first: nat, length: nat) returns (r: nat)
    requires Layout(bset, count) && Words(bset, count) && length >= 1 && StaysInside(bset, count, first, length)
    ensures IsFirst(Flags(bset, count), SearchedFrom(bset, count, first, length), length, r)
    ensures Aligned(first) ==> IsFirst(Flags(bset, count), first, length, r)
    ensures IsFirst(Flags(bset, count), first, length, r) <==>
      !(SearchedFrom(bset, count, first, length) < first && AllFrom(Flags(bset, count), SearchedFrom(bset, count, first, length), length))
  {
    if length < WORD_BITS - 1 {
      r := FindShort(bset, count, first, length);
    } else {
      r := FindLong(bset, count, first, length);
    }
    RightIff(bset, count, first, length, r);
  }

  /** From `first` on the answer is right unless a run that starts before `first` is long enough. */
  lemma RightIff(bset: seq<Word>, count: nat, first: nat, length: nat, r: nat)
    requires Layout(bset, count) && Words(bset, count) && length >= 1 && StaysInside(bset, count, first, length)
    requires IsFirst(Flags(bset, count), SearchedFrom(bset, count, first, length), length, r)
    ensures Aligned(first) ==> SearchedFrom(bset, count, first, length) == first
    ensures IsFirst(Flags(bset, count), first, length, r) <==>
      !(SearchedFrom(bset, count, first, length) < first && AllFrom(Flags(bset, count), SearchedFrom(bset, count, first, length), length))
  {
    hide Flags, Layout, Words, StaysInside, SearchedFrom;
    var f, from := Flags(bset, count), SearchedFrom(bset, count, first, length);
    if Aligned(first) { FromAligned(bset, count, first, length); }
    if from < first {
      ZerosBefore(bset, count, first, length);
      if r < first { Reaches(f, from, first, length, r); }
    }
  }

  /** A run that starts among clear bits reaches back to the first of them. */
  lemma Reaches(f: seq<bool>, from: nat, first: nat, length: nat, r: nat)
    requires from <= r < first && AllFrom(f, from, first - from) && AllFrom(f, r, length)
    ensures AllFrom(f, from, length)
  {
    forall q | from <= q < from + length ensures q < |f| && f[q] { }
  }

  /** What the search counts before `first` is clear. */
  lemma ZerosBefore(bset: seq<Word>, count: nat, first: nat, length: nat)
    requires Layout(bset, count) && Words(bset, count) && length >= 1 && StaysInside(bset, count, first, length)
    requires SearchedFrom(bset, count, first, length) < first
    ensures var from := SearchedFrom(bset, count, first, length);
      first + length <= count && AllFrom(Flags(bset, count), from, first - from)
  {
    var full: nat, word: nat, off: nat := WordIndex(count), WordIndex(first), BitIndex(first);
    InWord(bset, count, first, full, word, off);
    CountedIs(bset, first, word, off);
    hide Layout, Offset, Counted;
    var w, f := bset[word], Flags(bset, count);
    PieceOfWord(bset, count, word, WORD_BITS);
    LeadingMeans(w);
    var v := Vacancies(w, 0, WORD_BITS);
    forall q | Offset(word) + WORD_BITS - CountLeading(w) <= q < first ensures f[q] { assert v[q - Offset(word)]; }
  }

  // ---------------------------------------------------------------- the first set or clear bit

  /** r is the first place from `first` on whose flag is `want`, or the number of flags. */
  ghost predicate FirstFlag(f: seq<bool>, first: nat, want: bool, r: nat) {
    && r <= |f| && (r < |f| ==> first <= r && f[r] == want)
    && forall p :: first <= p < r ==> f[p] != want
  }

  /** w or ~w, without the bits below `from` and from n on. */
  function Wanted(w: Word, one: bool, from: nat, n: nat): (r: Word)
    ensures |r| == |w|
  {
    seq(|w|, i requires 0 <= i < |w| => w[i] == one && from <= i < n)
  }

  /** Nothing wanted between two places. */
  ghost predicate NoneBetween(f: seq<bool>, first: nat, to: nat, one: bool) {
    first <= to <= |f| && forall p {:trigger f[p]} :: first <= p < to ==> f[p] == one
  }

  /** The search inside one word of a longer set. */
  lemma WantedFirst(f: seq<bool>, first: nat, one: bool, base: nat, from: nat, n: nat, w: Word)
    requires |w| == WORD_BITS && n <= WORD_BITS && from <= n && Piece(f, base, Vacancies(w, 0, WORD_BITS), n)
    requires NoneBetween(f, first, base + from, one)
    ensures var v := Wanted(w, one, from, n);
      if Zero(v) then NoneBetween(f, first, base + n, one)
      else CountTrailing(v) < n && FirstFlag(f, first, !one, base + CountTrailing(v))
  {
    var v, u := Wanted(w, one, from, n), Vacancies(w, 0, WORD_BITS);
    TrailingMeans(v);
    var c := if Zero(v) then n else CountTrailing(v);
    forall p | first <= p < base + c ensures f[p] == one { if p >= base + from { assert f[base + (p - base)] == u[p - base] && !v[p - base]; } }
    if !Zero(v) { assert v[c] && f[base + c] == u[c]; }
  }

  lemma NoneLeft(f: seq<bool>, first: nat, one: bool)
    requires NoneBetween(f, first, |f|, one)
    ensures FirstFlag(f, first, !one, |f|)
  {
  }

  /** (w & mask) >> first for the mask of the bits below count. */
  function Rest(w: Word, first: nat, count: nat): (r: Word)
    ensures |r| == |w|
  {
    seq(|w|, i requires 0 <= i < |w| => i + first < count <= |w| && w[i + first])
  }

  function Complement(w: Word): (r: Word)
    ensures |r| == |w|
  {
    seq(|w|, i requires 0 <= i < |w| => !w[i])
  }

  /** find_first_one and find_first_zero of a set of one word. */
  method FindFirstInWord(w: Word, count: nat, first: nat, one: bool) returns (r: nat)
    requires count <= |w|
    ensures FirstFlag(Vacancies(w, 0, count)[..count], if first <= count then first else count, !one, r)
  {
    if first >= count {
      return count;
    }
    var rest := Rest(w, first, count);
    var v := if one then rest else Complement(rest);
    TrailingMeans(v);
    var c := CountTrailing(v);
    ghost var f := Vacancies(w, 0, count)[..count];
    forall p | first <= p < count ensures f[p] == !rest[p - first] { }
    assert forall p {:trigger f[p]} :: first <= p < count ==> (f[p] == !one <==> v[p - first]);
    assert !one && count - first < |v| ==> v[count - first];
    r := if Zero(v) then count else c + first;
    if !Zero(v) { assert v[c]; }
    forall p | first <= p < r ensures p < count && f[p] != !one { assert !v[p - first]; }
  }

  function BitIndex(p: nat): nat { p % WORD_BITS }

  method SearchWord(w: Word, one: bool, from: nat, n: nat, base: nat, ghost f: seq<bool>, ghost first: nat) returns (found: bool, pos: nat)
    requires |w| == WORD_BITS && n <= WORD_BITS && from <= n && Piece(f, base, Vacancies(w, 0, WORD_BITS), n)
    requires NoneBetween(f, first, base + from, one)
    ensures found ==> FirstFlag(f, first, !one, pos)
    ensures !found ==> NoneBetween(f, first, base + n, one)
  {
    var v := Wanted(w, one, from, n);
    WantedFirst(f, first, one, base, from, n, w);
    hide *;
    if Zero(v) {
      return false, base;
    }
    return true, CountTrailing(v) + base;
  }

  /** find_first_one and find_first_zero of a set of several words, from any place on. */
  method FindFirst(bset: seq<Word>, count: nat, first: nat, one: bool) returns (r: nat)
    requires Layout(bset, count)
    ensures Words(bset, count) && FirstFlag(Flags(bset, count), if first <= count then first else count, !one, r)
  {
    hide *;
    LayoutWords(bset, count);
    ghost var f := Flags(bset, count);
    if first >= count {
      NothingAfter(f, !one);
      return count;
    }
    var full: nat, word: nat, off: nat := WordIndex(count), WordIndex(first), BitIndex(first);
    InWord(bset, count, first, full, word, off);
    NoneYet(f, first, one);
    if off != 0 {
      var n: nat := if word == full then count - Offset(full) else WORD_BITS;
      PieceOfWord(bset, count, word, n);
      var found, pos := SearchWord(bset[word], one, off, n, Offset(word), f, first);
      if found {
        return pos;
      } else if word == full {
        NoneLeft(f, first, one);
        return count;
      }
      OffsetNext(word);
      word := word + 1;
    }
    while word < full
      invariant word <= full && NoneBetween(f, first, Offset(word), one)
    {
      OffsetNext(word);
      OffsetMono(word + 1, full);
      PieceOfWord(bset, count, word, WORD_BITS);
      var found, pos := SearchWord(bset[word], one, 0, WORD_BITS, Offset(word), f, first);
      if found {
        return pos;
      }
      word := word + 1;
    }
    if |bset| == full {
      NoneLeft(f, first, one);
      return count;
    }
    var n: nat := count - Offset(full);
    PieceOfWord(bset, count, full, n);
    var found, pos := SearchWord(bset[full], one, 0, n, Offset(full), f, first);
    if found {
      return pos;
    }
    NoneLeft(f, first, one);
    return count;
  }

  lemma NothingAfter(f: seq<bool>, want: bool)
    ensures FirstFlag(f, |f|, want, |f|)
  {
  }

  lemma NoneYet(f: seq<bool>, first: nat, one: bool)
    requires first <= |f|
    ensures NoneBetween(f, first, first, one)
  {
  }

  lemma InWord(bset: seq<Word>, count: nat, first: nat, full: nat, word: nat, off: nat)
    requires Layout(bset, count) && first < count && full == WordIndex(count) && word == WordIndex(first) && off == BitIndex(first)
    ensures Offset(word) + off == first && off < WORD_BITS && word <= full && Offset(full) <= count < Offset(full) + WORD_BITS
    ensures |bset| == (if Offset(full) == count then full else full + 1) && word < |bset|
    ensures forall i :: 0 <= i < |bset| ==> |bset[i]| == WORD_BITS
    ensures word < full ==> Offset(word) + WORD_BITS <= count
  {
    DivBounds(first, WORD_BITS);
    var base := Offset(word);
    DivUnique(base, WORD_BITS, word, 0);
    Boundaries(bset, count, base, full, word);
    if word < full { OffsetNext(word); OffsetMono(word + 1, full); }
  }
}
