/** Fixed-width fields packed into machine words, possibly across a word boundary. */
module PackedIndex {
  import opened Arith
  import opened ZeroRange

  // ---------------------------------------------------------------- word operations

  function Shl(w: Word, n: nat): (r: Word)
    ensures |r| == |w|
  {
    seq(|w|, i requires 0 <= i < |w| => i >= n && w[i - n])
  }

  function Shr(w: Word, n: nat): (r: Word)
    ensures |r| == |w|
  {
    seq(|w|, i requires 0 <= i < |w| => i + n < |w| && w[i + n])
  }

  function And(v: Word, w: Word): (r: Word)
    requires |v| == |w|
    ensures |r| == |w|
  {
    seq(|w|, i requires 0 <= i < |w| => v[i] && w[i])
  }

  function Or(v: Word, w: Word): (r: Word)
    requires |v| == |w|
    ensures |r| == |w|
  {
    seq(|w|, i requires 0 <= i < |w| => v[i] || w[i])
  }

  function Not(w: Word): (r: Word)
    ensures |r| == |w|
  {
    seq(|w|, i requires 0 <= i < |w| => !w[i])
  }

  /** (1 << n) - 1, and the same at the top of the word. */
  function Mask(n: nat): (r: Word)
    ensures |r| == WORD_BITS
  {
    seq(WORD_BITS, i => i < n)
  }

  function UpperMask(n: nat): (r: Word)
    requires n <= WORD_BITS
    ensures |r| == WORD_BITS
  {
    Shl(Mask(n), WORD_BITS - n)
  }

  // ---------------------------------------------------------------- the words as one string of bits

  ghost predicate Sized(index: seq<Word>) { forall i :: 0 <= i < |index| ==> |index[i]| == WORD_BITS }

  ghost function BitAt(index: seq<Word>, p: nat): bool
    requires Sized(index) && p < Offset(|index|)
  {
    WordOf(p, |index|);
    index[p / WORD_BITS][p % WORD_BITS]
  }

  lemma BitOfWord(index: seq<Word>, word: nat, o: nat)
    requires Sized(index) && word < |index| && o < WORD_BITS
    ensures Offset(word) + o < Offset(|index|) && BitAt(index, Offset(word) + o) == index[word][o]
  {
    Quotient(word, o);
    OffsetNext(word);
    OffsetMono(word + 1, |index|);
  }

  /** Where a field starts and ends: in one word, or in two adjacent ones. */
  ghost predicate Spanned(b: nat, n: nat, words: nat, wb: nat, ob: nat, we: nat, oe: nat) {
    && 1 <= n <= WORD_BITS && wb < words && we < words && ob < WORD_BITS && oe < WORD_BITS && b == Offset(wb) + ob
    && if ob + n <= WORD_BITS then we == wb && oe == ob + n - 1
       else we == wb + 1 && oe == ob + n - 1 - WORD_BITS && Offset(we) == Offset(wb) + WORD_BITS
  }

  lemma Spans(b: nat, n: nat, words: nat)
    requires 1 <= n <= WORD_BITS && b + n <= Offset(words)
    ensures var e := b + n - 1;
      Spanned(b, n, words, b / WORD_BITS, b % WORD_BITS, e / WORD_BITS, e % WORD_BITS)
  {
    var e, wb, ob := b + n - 1, b / WORD_BITS, b % WORD_BITS;
    WordOf(b, words);
    WordOf(e, words);
    DivBounds(b, WORD_BITS);
    OffsetNext(wb);
    if ob + n <= WORD_BITS { Quotient(wb, ob + n - 1); } else { Quotient(wb + 1, ob + n - 1 - WORD_BITS); }
  }

  /** The field of n bits at bit b, from the word of its first and the word of its last bit. */
  function GetField(first: Word, last: Word, ob: nat, oe: nat, n: nat): (r: Word)
    requires |first| == |last| == WORD_BITS && 1 <= n <= WORD_BITS && ob < WORD_BITS && oe < WORD_BITS
    ensures |r| == WORD_BITS
  {
    var w1 := And(Shr(first, ob), Mask(n));
    var w2 := And(Shl(last, WORD_BITS - oe - 1), UpperMask(n));
    Or(w1, Shr(w2, WORD_BITS - n))
  }

  function SetFirst(first: Word, ob: nat, n: nat, value: Word): (r: Word)
    requires |first| == |value| == WORD_BITS
    ensures |r| == WORD_BITS
  {
    Or(And(first, Not(Shl(Mask(n), ob))), Shl(value, ob))
  }

  function SetLast(last: Word, oe: nat, n: nat, value: Word): (r: Word)
    requires |last| == |value| == WORD_BITS && n <= WORD_BITS && oe < WORD_BITS
    ensures |r| == WORD_BITS
  {
    Or(And(last, Not(Shr(UpperMask(n), WORD_BITS - oe - 1))), Shr(Shl(value, WORD_BITS - n), WORD_BITS - oe - 1))
  }

  ghost predicate Short(value: Word, n: nat) { |value| == WORD_BITS && forall i :: n <= i < |value| ==> !value[i] }

  /** Bits b to b + n hold the value. */
  ghost predicate Holds(index: seq<Word>, b: nat, n: nat, value: Word) {
    && Sized(index) && b + n <= Offset(|index|) && n <= |value|
    && forall i {:trigger value[i]} :: 0 <= i < n ==> BitAt(index, b + i) == value[i]
  }

  /** The two words' parts of a field. */
  ghost predicate Halves(ob: nat, oe: nat, n: nat) {
    1 <= n <= WORD_BITS && ob < WORD_BITS && oe == if ob + n <= WORD_BITS then ob + n - 1 else ob + n - 1 - WORD_BITS
  }

  lemma GetBit(first: Word, last: Word, ob: nat, oe: nat, n: nat, i: nat)
    requires |first| == |last| == WORD_BITS && Halves(ob, oe, n) && (ob + n <= WORD_BITS ==> first == last) && i < WORD_BITS
    ensures GetField(first, last, ob, oe, n)[i] == (i < n && if ob + i < WORD_BITS then first[ob + i] else last[ob + i - WORD_BITS])
  {
  }

  lemma SetFirstBit(first: Word, ob: nat, n: nat, value: Word, i: nat)
    requires |first| == WORD_BITS && Short(value, n) && ob < WORD_BITS && i < WORD_BITS
    ensures SetFirst(first, ob, n, value)[i] == if ob <= i < ob + n then value[i - ob] else first[i]
  {
  }

  lemma SetLastBit(last: Word, oe: nat, n: nat, value: Word, i: nat)
    requires |last| == WORD_BITS && Short(value, n) && 1 <= n <= WORD_BITS && oe < WORD_BITS && i < WORD_BITS
    ensures SetLast(last, oe, n, value)[i] == if i <= oe < i + n then value[i + n - 1 - oe] else last[i]
  {
  }

  /** The expression reads the field. */
  lemma GetReads(index: seq<Word>, b: nat, n: nat, wb: nat, ob: nat, we: nat, oe: nat)
    requires Sized(index) && Spanned(b, n, |index|, wb, ob, we, oe) && b + n <= Offset(|index|)
    ensures var r := GetField(index[wb], index[we], ob, oe, n); Short(r, n) && Holds(index, b, n, r)
  {
    var r := GetField(index[wb], index[we], ob, oe, n);
    hide Offset, BitAt, GetField;
    forall i | 0 <= i < |r| ensures (i >= n ==> !r[i]) && (i < n ==> BitAt(index, b + i) == r[i]) {
      GetBit(index[wb], index[we], ob, oe, n, i);
      if i < n {
        if ob + i < WORD_BITS { BitOfWord(index, wb, ob + i); } else { BitOfWord(index, we, ob + i - WORD_BITS); }
      }
    }
  }

  function SetField(index: seq<Word>, n: nat, value: Word, wb: nat, ob: nat, we: nat, oe: nat): (r: seq<Word>)
    requires wb < |index| && we < |index| && |index[wb]| == |index[we]| == |value| == WORD_BITS && n <= WORD_BITS && oe < WORD_BITS
    ensures |r| == |index|
  {
    var mid := index[wb := SetFirst(index[wb], ob, n, value)];
    mid[we := SetLast(mid[we], oe, n, value)]
  }

  /** One bit after a field has been written. */
  lemma SetBit(index: seq<Word>, b: nat, n: nat, value: Word, wb: nat, ob: nat, we: nat, oe: nat, w: nat, o: nat)
    requires Sized(index) && Spanned(b, n, |index|, wb, ob, we, oe) && b + n <= Offset(|index|) && Short(value, n)
    requires w < |index| && o < WORD_BITS
    ensures var after, p := SetField(index, n, value, wb, ob, we, oe), Offset(w) + o;
      Sized(after) && after[w][o] == if b <= p < b + n then value[p - b] else index[w][o]
  {
    var mid := index[wb := SetFirst(index[wb], ob, n, value)];
    OffsetApart(w, wb);
    OffsetApart(w, we);
    SetFirstBit(index[wb], ob, n, value, o);
    SetLastBit(mid[we], oe, n, value, o);
    hide Offset, SetFirst, SetLast;
  }

  lemma OffsetApart(v: nat, w: nat)
    ensures v < w ==> Offset(v) + WORD_BITS <= Offset(w)
    ensures v > w ==> Offset(v) >= Offset(w) + WORD_BITS
  {
    if v < w { OffsetNext(v); OffsetMono(v + 1, w); }
    if v > w { OffsetNext(w); OffsetMono(w + 1, v); }
  }

  /** The n bits from b on are replaced by the value, and no others. */
  ghost predicate Written(index: seq<Word>, after: seq<Word>, b: nat, n: nat, value: Word) {
    && Sized(index) && Sized(after) && |after| == |index| && n <= |value|
    && forall p: nat {:trigger BitAt(after, p)} :: p < Offset(|index|) ==>
         BitAt(after, p) == if b <= p < b + n then value[p - b] else BitAt(index, p)
  }

  /** Writing a field changes its own bits only, also when it spans two words. */
  lemma SetWrites(index: seq<Word>, b: nat, n: nat, value: Word, wb: nat, ob: nat, we: nat, oe: nat)
    requires Sized(index) && Spanned(b, n, |index|, wb, ob, we, oe) && b + n <= Offset(|index|) && Short(value, n)
    ensures Written(index, SetField(index, n, value, wb, ob, we, oe), b, n, value)
  {
    var after := SetField(index, n, value, wb, ob, we, oe);
    SetBit(index, b, n, value, wb, ob, we, oe, 0, 0);
    hide Offset, SetField, Spanned, Short;
    forall p: nat | p < Offset(|index|) ensures BitAt(after, p) == if b <= p < b + n then value[p - b] else BitAt(index, p) {
      var w, o := p / WORD_BITS, p % WORD_BITS;
      Located(p, |index|, w, o);
      SetBit(index, b, n, value, wb, ob, we, oe, w, o);
    }
  }

  lemma Located(p: nat, words: nat, w: nat, o: nat)
    requires p < Offset(words) && w == p / WORD_BITS && o == p % WORD_BITS
    ensures w < words && o < WORD_BITS && p == Offset(w) + o
  {
    WordOf(p, words);
    DivBounds(p, WORD_BITS);
  }
}
