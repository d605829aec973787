/** The bit-packed slot index of yesod.old/yesod/detail/compressed_array.hpp. */
module CompressedArray {
  import opened Arith
  import opened ZeroRange
  import opened PackedIndex
  import opened PlacementArray
  import opened Wrappers

  // ---------------------------------------------------------------- numbers and words

  function Num(w: Word): nat {
    if w == [] then 0 else (if w[0] then 1 else 0) + 2 * Num(w[1..])
  }

  function Bits(x: nat, n: nat): (w: Word)
    ensures |w| == n
  {
    if n == 0 then [] else [x % 2 == 1] + Bits(x / 2, n - 1)
  }

  lemma {:induction false} NumBits(x: nat, n: nat)
    requires x < Pow2(n)
    ensures Num(Bits(x, n)) == x
  {
    if n > 0 {
      assert Bits(x, n)[1..] == Bits(x / 2, n - 1);
      NumBits(x / 2, n - 1);
    }
  }

  /** A number below 2^k has no bit from k on. */
  lemma {:induction false} ShortBits(x: nat, n: nat, k: nat)
    requires x < Pow2(k)
    ensures forall i :: k <= i < n ==> !Bits(x, n)[i]
  {
    if n > 0 {
      if k == 0 { ShortBits(0, n - 1, 0); } else { ShortBits(x / 2, n - 1, k - 1); }
    }
  }

  ghost predicate AllSet(w: Word, k: nat) { k <= |w| && forall i :: 0 <= i < k ==> w[i] }

  lemma AllSetStep(w: Word, k: nat)
    requires 0 < k <= |w|
    ensures AllSet(w, k) <==> w[0] && AllSet(w[1..], k - 1)
  {
    if w[0] && AllSet(w[1..], k - 1) { forall i | 0 <= i < k ensures w[i] { assert i > 0 ==> w[i] == w[1..][i - 1]; } }
  }

  /** Only the number with all k bits set has no clear bit among them. */
  lemma {:induction false} AllOnes(x: nat, n: nat, k: nat)
    requires x < Pow2(k) && k <= n
    ensures AllSet(Bits(x, n), k) <==> x == Pow2(k) - 1
  {
    if k > 0 {
      var w := Bits(x, n);
      AllSetStep(w, k);
      assert w[0] == (x % 2 == 1) && w[1..] == Bits(x / 2, n - 1);
      assert Pow2(k) == 2 * Pow2(k - 1);
      AllOnes(x / 2, n - 1, k - 1);
    }
  }

  // ---------------------------------------------------------------- the index

  function Start(pos: nat, order: nat): nat { pos * order }

  lemma StartsApart(p: nat, q: nat, order: nat)
    requires p < q
    ensures Start(p, order) + order <= Start(q, order)
  {
    MulAdd(p, 1, order);
    MulMono(p + 1, q, order);
  }

  ghost predicate FieldIs(index: seq<Word>, order: nat, pos: nat, id: nat) {
    && Sized(index) && Start(pos, order) + order <= Offset(|index|) && order <= WORD_BITS && id < Pow2(order)
    && Holds(index, Start(pos, order), order, Bits(id, WORD_BITS))
  }

  /** The index holds one number for each position, and set bits after the last. */
  ghost predicate Indexed(index: seq<Word>, order: nat, ids: seq<nat>) {
    && 2 <= order <= WORD_BITS && Sized(index) && Start(|ids|, order) <= Offset(|index|)
    && (forall pos {:trigger FieldIs(index, order, pos, ids[pos])} :: 0 <= pos < |ids| ==> FieldIs(index, order, pos, ids[pos]))
    && (forall p: nat {:trigger BitAt(index, p)} :: Start(|ids|, order) <= p < Offset(|index|) ==> BitAt(index, p))
  }

  lemma FieldFits(index: seq<Word>, order: nat, ids: seq<nat>, pos: nat)
    requires Indexed(index, order, ids) && pos < |ids|
    ensures Start(pos, order) + order <= Start(|ids|, order) <= Offset(|index|)
    ensures var b := Start(pos, order); var e := b + order - 1;
      Spanned(b, order, |index|, b / WORD_BITS, b % WORD_BITS, e / WORD_BITS, e % WORD_BITS)
  {
    StartsApart(pos, |ids|, order);
    Spans(Start(pos, order), order, |index|);
  }

  /** Reading a field gives the number stored there. */
  lemma ReadsNumber(index: seq<Word>, order: nat, ids: seq<nat>, pos: nat, wb: nat, ob: nat, we: nat, oe: nat)
    requires Indexed(index, order, ids) && pos < |ids| && Spanned(Start(pos, order), order, |index|, wb, ob, we, oe)
    ensures Start(pos, order) + order <= Offset(|index|) && Num(GetField(index[wb], index[we], ob, oe, order)) == ids[pos]
  {
    FieldFits(index, order, ids, pos);
    var b, w := Start(pos, order), Bits(ids[pos], WORD_BITS);
    GetReads(index, b, order, wb, ob, we, oe);
    var r := GetField(index[wb], index[we], ob, oe, order);
    assert FieldIs(index, order, pos, ids[pos]);
    hide Start, Offset, BitAt, GetField, Bits, Pow2, Spanned;
    ShortBits(ids[pos], WORD_BITS, order);
    assert forall i :: 0 <= i < order ==> r[i] == w[i];
    assert r == w;
    PowMonotone(order);
    NumBits(ids[pos], WORD_BITS);
  }

  lemma PowMonotone(k: nat)
    requires k <= WORD_BITS
    ensures Pow2(k) <= Pow2(WORD_BITS)
  {
    PowMono(2, k, WORD_BITS);
  }

  /** Writing a field replaces that number and no other. */
  lemma WritesNumber(index: seq<Word>, order: nat, ids: seq<nat>, pos: nat, id: nat, wb: nat, ob: nat, we: nat, oe: nat)
    requires Indexed(index, order, ids) && pos < |ids| && Spanned(Start(pos, order), order, |index|, wb, ob, we, oe)
    requires id < Pow2(order)
    ensures Indexed(SetField(index, order, Bits(id, WORD_BITS), wb, ob, we, oe), order, ids[pos := id])
  {
    FieldFits(index, order, ids, pos);
    var b, w, after := Start(pos, order), Bits(id, WORD_BITS), SetField(index, order, Bits(id, WORD_BITS), wb, ob, we, oe);
    ShortBits(id, WORD_BITS, order);
    assert |w| == WORD_BITS && order >= 2 && Sized(index);
    hide Start, Offset, BitAt, Bits, Pow2, SetField, Spanned, FieldIs, Holds;
    SetWrites(index, b, order, w, wb, ob, we, oe);
    var ids' := ids[pos := id];
    forall q | 0 <= q < |ids| ensures FieldIs(after, order, q, ids'[q]) {
      OtherField(index, order, ids, pos, id, after, q);
    }
  }

  lemma OtherField(index: seq<Word>, order: nat, ids: seq<nat>, pos: nat, id: nat, after: seq<Word>, q: nat)
    requires Indexed(index, order, ids) && pos < |ids| && q < |ids| && id < Pow2(order) && Sized(after) && |after| == |index|
    requires Start(pos, order) + order <= Offset(|index|) && Written(index, after, Start(pos, order), order, Bits(id, WORD_BITS))
    ensures FieldIs(after, order, q, ids[pos := id][q])
  {
    assert FieldIs(index, order, q, ids[q]);
    var b, c := Start(pos, order), Start(q, order);
    if q < pos { StartsApart(q, pos, order); }
    if q > pos { StartsApart(pos, q, order); }
    hide Start, Offset, BitAt, Bits, Pow2, Written, Holds;
    if q == pos {
      OwnBits(index, after, b, order, Bits(id, WORD_BITS));
    } else {
      OtherBits(index, after, b, order, Bits(id, WORD_BITS), c, Bits(ids[q], WORD_BITS));
    }
  }

  lemma OwnBits(index: seq<Word>, after: seq<Word>, b: nat, n: nat, w: Word)
    requires Written(index, after, b, n, w) && b + n <= Offset(|index|)
    ensures Holds(after, b, n, w)
  {
    hide Offset, BitAt;
    forall i | 0 <= i < n ensures BitAt(after, b + i) == w[i] { }
  }

  lemma OtherBits(index: seq<Word>, after: seq<Word>, b: nat, n: nat, w: Word, c: nat, v: Word)
    requires Written(index, after, b, n, w) && Holds(index, c, n, v) && (c + n <= b || b + n <= c)
    ensures Holds(after, c, n, v)
  {
    hide Offset, BitAt;
    forall i | 0 <= i < n ensures BitAt(after, c + i) == v[i] { assert BitAt(index, c + i) == v[i]; }
  }

  // ---------------------------------------------------------------- positions and slots

  ghost predicate PosOk<V>(ids: seq<nat>, used: seq<bool>, data: seq<V>, valid: V -> bool, leaked: set<nat>, p: nat) {
    && p < |ids| && |data| == |used| && ids[p] <= |used|
    && (ids[p] < |used| ==> used[ids[p]] && ids[p] !in leaked && valid(data[ids[p]]))
  }

  ghost predicate Apart(ids: seq<nat>, n: nat) {
    forall p, q {:trigger ids[p], ids[q]} :: 0 <= p < q < |ids| && ids[p] == ids[q] ==> ids[p] == n
  }

  ghost predicate At(ids: seq<nat>, p: nat, s: nat) { p < |ids| && ids[p] == s }

  ghost predicate SlotOk(ids: seq<nat>, used: seq<bool>, leaked: set<nat>, s: nat) {
    && s < |used| && (s in leaked ==> used[s]) && (used[s] && s !in leaked ==> exists p :: At(ids, p, s))
  }

  /** Positions that hold a slot number hold different ones, each of a slot in use with an accepted value; `leaked` slots
    * are in use without a position; there are no others in use. */
  ghost predicate Mapping<V>(ids: seq<nat>, used: seq<bool>, data: seq<V>, valid: V -> bool, leaked: set<nat>) {
    && |data| == |used| && Apart(ids, |used|) && (forall s :: s in leaked ==> s < |used|)
    && (forall p {:trigger PosOk(ids, used, data, valid, leaked, p)} :: 0 <= p < |ids| ==> PosOk(ids, used, data, valid, leaked, p))
    && (forall s {:trigger SlotOk(ids, used, leaked, s)} :: 0 <= s < |used| ==> SlotOk(ids, used, leaked, s))
  }

  /** The map the array stands for. */
  ghost function Contents<V>(ids: seq<nat>, data: seq<V>): map<nat, V> {
    map p | 0 <= p < |ids| && ids[p] < |data| :: data[ids[p]]
  }

  lemma OnlyOne<V>(ids: seq<nat>, used: seq<bool>, data: seq<V>, valid: V -> bool, leaked: set<nat>, pos: nat, p: nat)
    requires Mapping(ids, used, data, valid, leaked) && pos < |ids| && ids[pos] < |used| && p < |ids| && p != pos
    ensures ids[p] != ids[pos]
  {
  }

  /** One slot changes hands: every other position and slot stays as it was. */
  lemma Others<V>(ids: seq<nat>, used: seq<bool>, data: seq<V>, valid: V -> bool, leaked: set<nat>, pos: nat, s: nat,
                ids': seq<nat>, used': seq<bool>, data': seq<V>, leaked': set<nat>)
    requires Mapping(ids, used, data, valid, leaked) && pos < |ids| && s < |used| && |data| == |used|
    requires |ids'| == |ids| && |used'| == |used| && |data'| == |data|
    requires forall p :: 0 <= p < |ids| && p != pos ==> ids'[p] == ids[p] && ids[p] != s
    requires ids[pos] == s || ids[pos] == |used|
    requires forall t :: 0 <= t < |used| && t != s ==> used'[t] == used[t] && data'[t] == data[t] && (t in leaked' <==> t in leaked)
    requires forall t :: t in leaked' ==> t < |used|
    requires PosOk(ids', used', data', valid, leaked', pos) && SlotOk(ids', used', leaked', s) && (ids'[pos] == s || ids'[pos] == |used|)
    ensures Mapping(ids', used', data', valid, leaked')
  {
    forall p | 0 <= p < |ids| ensures PosOk(ids', used', data', valid, leaked', p) {
      if p != pos { assert PosOk(ids, used, data, valid, leaked, p); }
    }
    forall t | 0 <= t < |used| ensures SlotOk(ids', used', leaked', t) {
      if t != s {
        assert SlotOk(ids, used, leaked, t);
        if used[t] && t !in leaked {
          var p :| At(ids, p, t);
          assert At(ids', p, t);
        }
      }
    }
  }

  lemma PutNew<V>(ids: seq<nat>, used: seq<bool>, data: seq<V>, valid: V -> bool, leaked: set<nat>, pos: nat, s: nat, v: V)
    requires Mapping(ids, used, data, valid, leaked) && pos < |ids| && ids[pos] == |used| && s < |used| && !used[s]
    ensures if valid(v) then Mapping(ids[pos := s], used[s := true], data[s := v], valid, leaked)
      else Mapping(ids, used[s := true], data[s := v], valid, leaked + {s})
    ensures if valid(v) then Contents(ids[pos := s], data[s := v]) == Contents(ids, data)[pos := v]
      else Contents(ids, data[s := v]) == Contents(ids, data)
  {
    assert SlotOk(ids, used, leaked, s);
    forall p | 0 <= p < |ids| ensures ids[p] != s { assert PosOk(ids, used, data, valid, leaked, p); }
    assert At(ids[pos := s], pos, s);
    if valid(v) {
      Others(ids, used, data, valid, leaked, pos, s, ids[pos := s], used[s := true], data[s := v], leaked);
    } else {
      Others(ids, used, data, valid, leaked, pos, s, ids, used[s := true], data[s := v], leaked + {s});
    }
  }

  lemma PutOld<V>(ids: seq<nat>, used: seq<bool>, data: seq<V>, valid: V -> bool, leaked: set<nat>, pos: nat, s: nat, v: V)
    requires Mapping(ids, used, data, valid, leaked) && pos < |ids| && ids[pos] == s < |used|
    ensures used[s]
    ensures if valid(v) then Mapping(ids, used, data[s := v], valid, leaked)
      else Mapping(ids[pos := |used|], used, data[s := v], valid, leaked + {s})
    ensures if valid(v) then Contents(ids, data[s := v]) == Contents(ids, data)[pos := v]
      else Contents(ids[pos := |used|], data[s := v]) == Contents(ids, data) - {pos}
  {
    assert PosOk(ids, used, data, valid, leaked, pos) && At(ids, pos, s);
    forall p | 0 <= p < |ids| && p != pos ensures ids[p] != s { OnlyOne(ids, used, data, valid, leaked, pos, p); }
    if valid(v) {
      Others(ids, used, data, valid, leaked, pos, s, ids, used, data[s := v], leaked);
    } else {
      Others(ids, used, data, valid, leaked, pos, s, ids[pos := |used|], used, data[s := v], leaked + {s});
    }
  }

  lemma TakeOut<V>(ids: seq<nat>, used: seq<bool>, data: seq<V>, valid: V -> bool, leaked: set<nat>, pos: nat, s: nat)
    requires Mapping(ids, used, data, valid, leaked) && pos < |ids| && ids[pos] == s < |used|
    ensures used[s] && Mapping(ids[pos := |used|], used[s := false], data, valid, leaked)
    ensures Contents(ids[pos := |used|], data) == Contents(ids, data) - {pos}
  {
    assert PosOk(ids, used, data, valid, leaked, pos);
    forall p | 0 <= p < |ids| && p != pos ensures ids[p] != s { OnlyOne(ids, used, data, valid, leaked, pos, p); }
    Others(ids, used, data, valid, leaked, pos, s, ids[pos := |used|], used[s := false], data, leaked);
  }

  // ---------------------------------------------------------------- counting

  ghost function Image(ids: seq<nat>, keys: set<nat>): set<nat>
    requires forall k :: k in keys ==> k < |ids|
  {
    set k | k in keys :: ids[k]
  }

  lemma {:induction false} ImageSize(ids: seq<nat>, keys: set<nat>)
    requires forall k :: k in keys ==> k < |ids|
    requires forall j, k :: j in keys && k in keys && ids[j] == ids[k] ==> j == k
    ensures |Image(ids, keys)| == |keys|
  {
    if keys != {} {
      var k :| k in keys;
      ImageSize(ids, keys - {k});
      assert Image(ids, keys) == Image(ids, keys - {k}) + {ids[k]};
    }
  }

  ghost function Upto(n: nat): (r: set<nat>)
    ensures |r| == n && forall s :: s in r <==> 0 <= s < n
  {
    if n == 0 then {} else Upto(n - 1) + {n - 1}
  }

  ghost function InUse(used: seq<bool>): set<nat> { set s | 0 <= s < |used| && used[s] }

  /** The stored values and the leaked slots make up the slots in use. */
  lemma Counted<V>(ids: seq<nat>, used: seq<bool>, data: seq<V>, valid: V -> bool, leaked: set<nat>)
    requires Mapping(ids, used, data, valid, leaked)
    ensures |Contents(ids, data)| + |leaked| == |InUse(used)|
  {
    var keys := Contents(ids, data).Keys;
    var image := Image(ids, keys);
    forall j, k | j in keys && k in keys && ids[j] == ids[k] ensures j == k { }
    ImageSize(ids, keys);
    forall s | s in image ensures s < |used| && used[s] && s !in leaked {
      var p :| p in keys && ids[p] == s;
      assert PosOk(ids, used, data, valid, leaked, p);
    }
    forall s | s in leaked ensures used[s] { assert SlotOk(ids, used, leaked, s); }
    forall s | s in InUse(used) ensures s in image + leaked {
      assert SlotOk(ids, used, leaked, s);
      if s !in leaked { var p :| At(ids, p, s); assert p in keys; }
    }
    assert InUse(used) == image + leaked;
  }

  lemma SubsetSize(a: set<nat>, b: set<nat>)
    requires a <= b
    ensures |a| <= |b|
  {
    assert b == a + (b - a);
  }

  /** All slots are in use exactly when the stored values and the leaked slots are as many as there are slots. */
  lemma FullMeans<V>(ids: seq<nat>, used: seq<bool>, data: seq<V>, valid: V -> bool, leaked: set<nat>, r: nat)
    requires Mapping(ids, used, data, valid, leaked) && FirstFlag(used, 0, false, r)
    ensures |Contents(ids, data)| + |leaked| <= |used|
    ensures r == |used| <==> |Contents(ids, data)| + |leaked| == |used|
  {
    Counted(ids, used, data, valid, leaked);
    var all := Upto(|used|);
    if r == |used| {
      assert InUse(used) == all;
    } else {
      assert InUse(used) <= all - {r};
      SubsetSize(InUse(used), all - {r});
    }
  }

  // ---------------------------------------------------------------- the search for a mapped position

  /** ~w without the bits below `from`. */
  function ClearFrom(w: Word, from: nat): (r: Word)
    ensures |r| == |w|
  {
    seq(|w|, i requires 0 <= i < |w| => !w[i] && i >= from)
  }

  ghost predicate OnesBetween(index: seq<Word>, b: nat, to: nat)
    requires Sized(index)
  {
    b <= to <= Offset(|index|) && forall p: nat {:trigger BitAt(index, p)} :: b <= p < to ==> BitAt(index, p)
  }

  /** One word of the search. */
  lemma ClearInWord(index: seq<Word>, word: nat, from: nat, b: nat)
    requires Sized(index) && word < |index| && from <= WORD_BITS && OnesBetween(index, b, Offset(word) + from)
    ensures Zero(ClearFrom(index[word], from)) ==> OnesBetween(index, b, Offset(word + 1))
    ensures var v := ClearFrom(index[word], from);
      var p := Offset(word) + CountTrailing(v);
      !Zero(v) ==> b <= p < Offset(|index|) && OnesBetween(index, b, p) && !BitAt(index, p)
  {
    var v := ClearFrom(index[word], from);
    TrailingMeans(v);
    var c := if Zero(v) then WORD_BITS else CountTrailing(v);
    OffsetNext(word);
    OffsetMono(word + 1, |index|);
    hide Offset;
    forall p: nat | b <= p < Offset(word) + c ensures p < Offset(|index|) && BitAt(index, p) {
      if p >= Offset(word) + from {
        BitOfWord(index, word, p - Offset(word));
        assert !v[p - Offset(word)];
      }
    }
    if !Zero(v) {
      assert v[c] && c >= from;
      BitOfWord(index, word, c);
    }
  }

  /** A position holds no slot exactly when its field has no clear bit. */
  lemma Vacant(index: seq<Word>, order: nat, ids: seq<nat>, q: nat)
    requires Indexed(index, order, ids) && q < |ids|
    ensures Start(q, order) + order <= Offset(|index|)
    ensures ids[q] == Pow2(order) - 1 <==> OnesBetween(index, Start(q, order), Start(q, order) + order)
  {
    assert FieldIs(index, order, q, ids[q]);
    AllOnes(ids[q], WORD_BITS, order);
    var b, w := Start(q, order), Bits(ids[q], WORD_BITS);
    hide Start, Offset, BitAt, Bits, Pow2;
    OnesAreSet(index, b, order, w);
  }

  lemma OnesAreSet(index: seq<Word>, b: nat, n: nat, w: Word)
    requires Holds(index, b, n, w)
    ensures AllSet(w, n) <==> OnesBetween(index, b, b + n)
  {
    hide Offset, BitAt;
    if OnesBetween(index, b, b + n) {
      forall i | 0 <= i < n ensures w[i] { assert BitAt(index, b + i); }
    }
    if AllSet(w, n) {
      forall p: nat | b <= p < b + n ensures BitAt(index, p) { assert BitAt(index, b + (p - b)) == w[p - b]; }
    }
  }

  /** r is the first position from `first` on that holds a slot, or their number. */
  ghost predicate FirstMapped(ids: seq<nat>, none: nat, first: nat, r: nat) {
    && r <= |ids| && (r < |ids| ==> first <= r && ids[r] != none)
    && forall q {:trigger ids[q]} :: first <= q < r ==> ids[q] == none
  }

  lemma PositionOf(index: seq<Word>, order: nat, ids: seq<nat>, first: nat, p: nat, r: nat)
    requires Indexed(index, order, ids) && p < Offset(|index|) && !BitAt(index, p) && OnesBetween(index, Start(first, order), p)
    requires Start(r, order) <= p < Start(r, order) + order
    ensures r < |ids| && FirstMapped(ids, Pow2(order) - 1, first, r)
  {
    hide Start, Offset, BitAt, FieldIs, Pow2;
    StartsOrder(order, r, |ids|, p);
    StartsOrder(order, first, r, p);
    Vacant(index, order, ids, r);
    forall q | first <= q < r ensures ids[q] == Pow2(order) - 1 {
      Vacant(index, order, ids, q);
      StartsApart(q, r, order);
      if q > first { StartsApart(first, q, order); }
    }
  }

  lemma StartsOrder(order: nat, q: nat, r: nat, p: nat)
    requires Start(q, order) <= p && order > 0
    ensures p < Start(r, order) ==> q < r
    ensures p < Start(r, order) + order ==> q <= r
  {
    if q > r { StartsApart(r, q, order); }
  }

  lemma NoneMapped(index: seq<Word>, order: nat, ids: seq<nat>, first: nat)
    requires Indexed(index, order, ids) && OnesBetween(index, Start(first, order), Offset(|index|))
    ensures FirstMapped(ids, Pow2(order) - 1, first, |ids|)
  {
    hide Start, Offset, BitAt, FieldIs, Pow2;
    forall q | first <= q < |ids| ensures ids[q] == Pow2(order) - 1 {
      Vacant(index, order, ids, q);
      StartsApart(q, |ids|, order);
      if q > first { StartsApart(first, q, order); }
    }
  }

  // ---------------------------------------------------------------- the array

  lemma SlotCount(order: nat)
    requires order >= 2
    ensures Pow2(order) >= 4
  {
    PowMono(2, 2, order);
    assert Pow(2, 2) == 4;
  }

  /** With every bit set no position holds a slot. */
  lemma BlankIndex(index: seq<Word>, order: nat, ids: seq<nat>, bits: nat)
    requires 2 <= order <= WORD_BITS && bits == Start(|ids|, order) && |index| == WordIndex(bits + WORD_BITS - 1)
    requires (forall i :: 0 <= i < |index| ==> index[i] == Mask(WORD_BITS)) && forall p :: 0 <= p < |ids| ==> ids[p] == Pow2(order) - 1
    ensures Indexed(index, order, ids)
  {
    BlankSized(index);
    BlankFits(bits, |index|);
    hide Offset, BitAt, Bits, Pow2, Start, WordIndex, Mask, FieldIs;
    forall p: nat | p < Offset(|index|) ensures BitAt(index, p) { MaskedBit(index, p); }
    forall pos | 0 <= pos < |ids| ensures FieldIs(index, order, pos, ids[pos]) {
      StartsApart(pos, |ids|, order);
      BlankField(index, order, pos);
    }
  }

  lemma BlankSized(index: seq<Word>)
    requires forall i :: 0 <= i < |index| ==> index[i] == Mask(WORD_BITS)
    ensures Sized(index)
  {
  }

  lemma BlankFits(bits: nat, words: nat)
    requires words == WordIndex(bits + WORD_BITS - 1)
    ensures bits <= Offset(words)
  {
    DivBounds(bits + WORD_BITS - 1, WORD_BITS);
    OffsetNext(words);
  }

  /** A field of set bits holds the number that stands for no slot. */
  lemma BlankField(index: seq<Word>, order: nat, pos: nat)
    requires Sized(index) && order <= WORD_BITS && Start(pos, order) + order <= Offset(|index|)
    requires forall p: nat {:trigger BitAt(index, p)} :: p < Offset(|index|) ==> BitAt(index, p)
    ensures FieldIs(index, order, pos, Pow2(order) - 1)
  {
    hide Offset, BitAt, Bits, Pow2, Start;
    AllOnes(Pow2(order) - 1, WORD_BITS, order);
  }

  lemma MaskedBit(index: seq<Word>, p: nat)
    requires Sized(index) && (forall i :: 0 <= i < |index| ==> index[i] == Mask(WORD_BITS)) && p < Offset(|index|)
    ensures BitAt(index, p)
  {
    WordOf(p, |index|);
  }

  lemma BlankMapping<V>(ids: seq<nat>, used: seq<bool>, data: seq<V>, valid: V -> bool)
    requires |data| == |used| && (forall s :: 0 <= s < |used| ==> !used[s]) && forall p :: 0 <= p < |ids| ==> ids[p] == |used|
    ensures Mapping(ids, used, data, valid, {}) && Contents(ids, data) == map[]
  {
  }

  lemma SlotNotLeaked<V>(ids: seq<nat>, used: seq<bool>, data: seq<V>, valid: V -> bool, leaked: set<nat>, s: nat)
    requires Mapping(ids, used, data, valid, leaked) && s < |used| && !used[s]
    ensures s !in leaked
  {
    assert SlotOk(ids, used, leaked, s);
  }

  lemma MappedMeans<V>(ids: seq<nat>, used: seq<bool>, data: seq<V>, valid: V -> bool, leaked: set<nat>, first: nat)
    requires Mapping(ids, used, data, valid, leaked)
    ensures forall q {:trigger ids[q]} :: 0 <= q < |ids| ==> (ids[q] != |used| <==> q in Contents(ids, data))
    ensures forall q :: q in Contents(ids, data) ==> 0 <= q < |ids|
  {
    forall q | 0 <= q < |ids| ensures ids[q] != |used| <==> q in Contents(ids, data) {
      assert PosOk(ids, used, data, valid, leaked, q);
    }
  }

  function Position(p: nat, order: nat): nat
    requires order > 0
  {
    p / order
  }

  lemma PositionSpan(p: nat, order: nat, r: nat)
    requires order > 0 && r == Position(p, order)
    ensures Start(r, order) <= p < Start(r, order) + order
  {
    DivBounds(p, order);
  }

  lemma StartsBack(p: nat, q: nat, order: nat)
    ensures order > 0 && Start(p, order) >= Start(q, order) ==> p >= q
  {
    if p < q { StartsApart(p, q, order); }
  }

  /** The word a position's field starts in; from beyond the last word on there is no position. */
  lemma FromWord(index: seq<Word>, order: nat, ids: seq<nat>, first: nat, b: nat, word: nat, off: nat)
    requires Indexed(index, order, ids) && b == Start(first, order) && word == WordIndex(b) && off == BitIndex(b)
    ensures off < WORD_BITS && b == Offset(word) + off
    ensures word < |index| ==> OnesBetween(index, b, Offset(word) + off)
    ensures word >= |index| ==> FirstMapped(ids, Pow2(order) - 1, first, |ids|)
  {
    DivBounds(b, WORD_BITS);
    hide BitAt, Pow2;
    if word < |index| {
      OffsetNext(word);
      OffsetMono(word + 1, |index|);
    } else {
      OffsetMono(|index|, word);
      StartsBack(first, |ids|, order);
    }
  }

  /** The values at the positions below `pos`, as many as there is room for, the least positions first. */
  ghost function FirstFew<V>(m: map<nat, V>, pos: nat, room: nat): map<nat, V> {
    if pos == 0 then map[]
    else
      var few := FirstFew(m, pos - 1, room);
      if pos - 1 in m && |few| < room then few[pos - 1 := m[pos - 1]] else few
  }

  ghost function Below<V>(m: map<nat, V>, pos: nat): set<nat> { set k | k in m && k < pos }

  /** The positions with fewer than `room` others before them, below `pos`. */
  ghost predicate AreFirst<V>(m: map<nat, V>, pos: nat, room: nat, few: map<nat, V>) {
    && (forall k {:trigger k in few} :: k in few <==> k in m && k < pos && |Below(m, k)| < room)
    && (forall k :: k in few ==> few[k] == m[k])
    && |few| == if |Below(m, pos)| < room then |Below(m, pos)| else room
  }

  lemma NoneFirst<V>(m: map<nat, V>, room: nat)
    ensures AreFirst(m, 0, room, map[])
  {
    assert Below(m, 0) == {};
    hide Below;
  }

  lemma FirstStep<V>(m: map<nat, V>, pos: nat, room: nat, few: map<nat, V>)
    requires AreFirst(m, pos, room, few)
    ensures AreFirst(m, pos + 1, room, if pos in m && |few| < room then few[pos := m[pos]] else few)
  {
    BelowNext(m, pos);
    hide Below;
    if pos in m && |few| < room { assert few[pos := m[pos]].Keys == few.Keys + {pos}; }
  }

  lemma {:induction false} FirstFewMeans<V>(m: map<nat, V>, pos: nat, room: nat)
    ensures AreFirst(m, pos, room, FirstFew(m, pos, room))
  {
    hide AreFirst, Below;
    if pos == 0 {
      NoneFirst(m, room);
    } else {
      FirstFewMeans(m, pos - 1, room);
      FirstStep(m, pos - 1, room, FirstFew(m, pos - 1, room));
    }
  }

  lemma BelowNext<V>(m: map<nat, V>, pos: nat)
    ensures |Below(m, pos + 1)| == |Below(m, pos)| + if pos in m then 1 else 0
  {
    if pos in m {
      assert Below(m, pos + 1) == Below(m, pos) + {pos};
    } else {
      assert Below(m, pos + 1) == Below(m, pos);
    }
  }

  /** With room for all of them they are all. */
  lemma RoomForAll<V>(m: map<nat, V>, pos: nat, room: nat)
    requires |m| <= room && forall k :: k in m ==> k < pos
    ensures FirstFew(m, pos, room) == m
  {
    FirstFewMeans(m, pos, room);
    forall k | k in m ensures |Below(m, k)| < room {
      SubsetSize(Below(m, k), m.Keys - {k});
    }
    hide FirstFew, Below;
    assert FirstFew(m, pos, room).Keys == m.Keys;
  }

  lemma FirstFewGap<V>(m: map<nat, V>, from: nat, to: nat, room: nat)
    requires from <= to && forall q :: from <= q < to ==> q !in m
    ensures FirstFew(m, to, room) == FirstFew(m, from, room)
  {
  }

  lemma NotYet<V>(m: map<nat, V>, pos: nat, room: nat, few: map<nat, V>)
    requires AreFirst(m, pos, room, few)
    ensures pos !in few
  {
  }

  lemma FirstFewNext<V>(m: map<nat, V>, pos: nat, next: nat, room: nat)
    requires pos in m && pos < next && forall q :: pos < q < next ==> q !in m
    ensures var few := FirstFew(m, pos, room);
      pos !in few && FirstFew(m, next, room) == if |few| < room then few[pos := m[pos]] else few
  {
    hide AreFirst, Below;
    FirstFewMeans(m, pos, room);
    NotYet(m, pos, room, FirstFew(m, pos, room));
    FirstFewGap(m, pos + 1, next, room);
  }

  lemma KeysBelow<V>(ids: seq<nat>, used: seq<bool>, data: seq<V>, valid: V -> bool, leaked: set<nat>)
    requires Mapping(ids, used, data, valid, leaked)
    ensures forall k :: k in Contents(ids, data) ==> k < |ids| && valid(Contents(ids, data)[k])
  {
    forall k | k in Contents(ids, data) ensures valid(Contents(ids, data)[k]) { assert PosOk(ids, used, data, valid, leaked, k); }
  }

  class Compressed<V(0)> {
    const order: nat
    const apparent: nat
    const index: array<Word>
    const items: Slots<V>
    /** The numbers in the index, and the slots in use that no position holds. */
    ghost var ids: seq<nat>
    ghost var leaked: set<nat>

    /** Positions. */
    function Size(): nat { Pow2(apparent) }

    /** The number that stands for no slot: one more than the last slot. */
    function None(): nat { Pow2(order) - 1 }

    ghost predicate Valid()
      reads this, index, items, items.bset, items.data
    {
      && order < apparent && items.Valid() && items.n == None() && |ids| == Size()
      && index != items.bset && index as object != items.data
      && Indexed(index[..], order, ids) && Mapping(ids, items.Used(), items.data[..], items.valid, leaked)
    }

    ghost function Map(): map<nat, V>
      requires Valid()
      reads this, index, items, items.bset, items.data
    {
      Contents(ids, items.data[..])
    }

    constructor (theOrder: nat, theApparent: nat, isValid: V -> bool)
      requires 2 <= theOrder < theApparent && theOrder <= WORD_BITS
      ensures order == theOrder && apparent == theApparent && items.valid == isValid
      ensures Valid() && Map() == map[] && leaked == {} && fresh(index) && fresh(items) && fresh(items.bset) && fresh(items.data)
    {
      order, apparent := theOrder, theApparent;
      var bits := Start(Pow2(theApparent), theOrder);
      SlotCount(theOrder);
      index := new Word[WordIndex(bits + WORD_BITS - 1)](_ => Mask(WORD_BITS));
      var s := new Slots<V>(Pow2(theOrder) - 1, isValid);
      items := s;
      ids, leaked := seq(Pow2(theApparent), _ => Pow2(theOrder) - 1), {};
      new;
      hide Pow2, Start, Mapping, Indexed;
      BlankIndex(index[..], order, ids, bits);
      BlankMapping(ids, items.Used(), items.data[..], isValid);
    }

    method GetIndex(pos: nat) returns (id: nat)
      requires Valid() && pos < Size()
      ensures id == ids[pos] <= None()
    {
      FieldFits(index[..], order, ids, pos);
      assert PosOk(ids, items.Used(), items.data[..], items.valid, leaked, pos);
      var b := Start(pos, order);
      var e := b + order - 1;
      ReadsNumber(index[..], order, ids, pos, b / WORD_BITS, b % WORD_BITS, e / WORD_BITS, e % WORD_BITS);
      hide *;
      id := Num(GetField(index[b / WORD_BITS], index[e / WORD_BITS], b % WORD_BITS, e % WORD_BITS, order));
    }

    /** Writes a number into the field of a position and touches no other. */
    method SetIndex(pos: nat, id: nat)
      requires Indexed(index[..], order, ids) && pos < |ids| && id <= None()
      modifies index, `ids
      ensures ids == old(ids)[pos := id] && Indexed(index[..], order, ids)
    {
      FieldFits(index[..], order, ids, pos);
      var b := Start(pos, order);
      var e := b + order - 1;
      var wb, ob, we, oe := b / WORD_BITS, b % WORD_BITS, e / WORD_BITS, e % WORD_BITS;
      var value := Bits(id, WORD_BITS);
      ghost var before := index[..];
      assert |before[wb]| == |before[we]| == WORD_BITS && order <= WORD_BITS && id < Pow2(order);
      WritesNumber(before, order, ids, pos, id, wb, ob, we, oe);
      hide SetFirst, SetLast, Indexed, Bits, Spanned, Start;
      index[wb] := SetFirst(index[wb], ob, order, value);
      index[we] := SetLast(index[we], oe, order, value);
      assert index[..] == SetField(before, order, value, wb, ob, we, oe);
      ids := ids[pos := id];
    }

    method PtrAt(pos: nat) returns (r: Option<V>)
      requires Valid() && pos < Size()
      ensures r == if pos in Map() then Some(Map()[pos]) else Option.None
    {
      var id := GetIndex(pos);
      assert PosOk(ids, items.Used(), items.data[..], items.valid, leaked, pos);
      if id != None() {
        r := items.PtrAt(id);
      } else {
        r := Option.None;
      }
    }

    /** Stores a value. It is refused when the predicate rejects it, and when the position is vacant and every slot is in
      * use; a rejected value leaves its slot in use without a position. */
    method Emplace(pos: nat, v: V) returns (ok: bool)
      requires Valid() && pos < Size()
      modifies this, index, items.bset, items.data
      ensures Valid()
      ensures ok <==> items.valid(v) && (pos in old(Map()) || |old(Map())| + |old(leaked)| < None())
      ensures items.valid(v) ==> leaked == old(leaked) && Map() == if ok then old(Map())[pos := v] else old(Map())
      ensures !items.valid(v) ==> Map() == old(Map()) - {pos}
      ensures !items.valid(v) ==> |leaked| == |old(leaked)| + (if pos in old(Map()) || |old(Map())| + |old(leaked)| < None() then 1 else 0)
    {
      var id := GetIndex(pos);
      assert PosOk(ids, items.Used(), items.data[..], items.valid, leaked, pos);
      ghost var m := Map();
      assert (pos in m <==> id != None()) && (pos !in m ==> m - {pos} == m);
      hide *;
      if id == None() {
        ok := EmplaceVacant(pos, v);
      } else {
        ok := EmplaceHeld(pos, id, v);
      }
    }

    /** Emplace at a position without a slot. */
    method EmplaceVacant(pos: nat, v: V) returns (ok: bool)
      requires Valid() && pos < Size() && ids[pos] == None()
      modifies this, index, items.bset, items.data
      ensures Valid()
      ensures ok <==> items.valid(v) && |old(Map())| + |old(leaked)| < None()
      ensures Map() == if ok then old(Map())[pos := v] else old(Map())
      ensures items.valid(v) ==> leaked == old(leaked)
      ensures !items.valid(v) ==> |leaked| == |old(leaked)| + (if |old(Map())| + |old(leaked)| < None() then 1 else 0)
    {
      hide Indexed, Mapping, Pow2, Contents, Taken, Layout;
      ghost var used, data := items.Used(), items.data[..];
      var x := items.FindVacant(0);
      FullMeans(ids, used, data, items.valid, leaked, x);
      if x == items.n {
        return false;
      }
      PutNew(ids, used, data, items.valid, leaked, pos, x, v);
      SlotNotLeaked(ids, used, data, items.valid, leaked, x);
      hide FirstFlag;
      ok := items.Emplace(x, v);
      if ok {
        SetIndex(pos, x);
      } else {
        leaked := leaked + {x};
      }
    }

    /** Emplace at a position with a slot. */
    method EmplaceHeld(pos: nat, id: nat, v: V) returns (ok: bool)
      requires Valid() && pos < Size() && ids[pos] == id < None()
      modifies this, index, items.bset, items.data
      ensures Valid() && ok == items.valid(v)
      ensures ok ==> leaked == old(leaked) && Map() == old(Map())[pos := v]
      ensures !ok ==> |leaked| == |old(leaked)| + 1 && Map() == old(Map()) - {pos}
    {
      ghost var used, data := items.Used(), items.data[..];
      assert PosOk(ids, used, data, items.valid, leaked, pos);
      PutOld(ids, used, data, items.valid, leaked, pos, id, v);
      assert used == used[id := true];
      hide Indexed, Mapping, Pow2, Contents;
      ok := items.Emplace(id, v);
      if !ok {
        SetIndex(pos, None());
        leaked := leaked + {id};
      }
    }

    method EraseAt(pos: nat) returns (erased: bool)
      requires Valid() && pos < Size()
      modifies this, index, items.bset
      ensures Valid() && leaked == old(leaked) && erased == (pos in old(Map())) && Map() == old(Map()) - {pos}
    {
      var id := GetIndex(pos);
      ghost var used, data := items.Used(), items.data[..];
      hide Indexed, Mapping, Pow2;
      if id == None() {
        return false;
      }
      TakeOut(ids, used, data, items.valid, leaked, pos, id);
      SetIndex(pos, None());
      erased := items.EraseAt(id);
    }

    /** The first mapped position: the first clear bit of the index, divided by the field width. */
    method FindOccupied(first: nat) returns (r: nat)
      requires Valid()
      ensures r <= Size() && (r < Size() ==> first <= r && r in Map())
      ensures forall q :: first <= q < r ==> q !in Map()
    {
      MappedMeans(ids, items.Used(), items.data[..], items.valid, leaked, first);
      hide Mapping, Pow2, Contents;
      r := FindClear(first);
    }

    method FindClear(first: nat) returns (r: nat)
      requires Indexed(index[..], order, ids) && |ids| == Size()
      ensures FirstMapped(ids, None(), first, r)
    {
      var b := Start(first, order);
      var word: nat, off: nat := WordIndex(b), BitIndex(b);
      FromWord(index[..], order, ids, first, b, word, off);
      hide Indexed, Start, WordIndex, BitIndex, Offset, OnesBetween, FirstMapped, Pow2, BitAt, Position;
      if word >= index.Length {
        return Size();
      }
      var found, p := FirstClearBit(word, off, b);
      if !found {
        NoneMapped(index[..], order, ids, first);
        return Size();
      }
      r := Position(p, order);
      PositionSpan(p, order, r);
      PositionOf(index[..], order, ids, first, p, r);
    }

    method FirstClearBit(fromWord: nat, fromBit: nat, ghost b: nat) returns (found: bool, p: nat)
      requires fromWord < index.Length && fromBit <= WORD_BITS && Sized(index[..])
      requires OnesBetween(index[..], b, Offset(fromWord) + fromBit)
      ensures found ==> b <= p < Offset(index.Length) && OnesBetween(index[..], b, p) && !BitAt(index[..], p)
      ensures !found ==> OnesBetween(index[..], b, Offset(index.Length))
    {
      var word: nat, off: nat := fromWord, fromBit;
      ghost var words := index[..];
      hide *;
      var w := ClearFrom(index[word], off);
      while true
        invariant word < index.Length == |words| && off <= WORD_BITS && index[..] == words && Sized(words)
        invariant w == ClearFrom(words[word], off) && OnesBetween(words, b, Offset(word) + off)
        decreases index.Length - word
      {
        ClearInWord(words, word, off, b);
        if !Zero(w) {
          return true, CountTrailing(w) + Offset(word);
        }
        if word == index.Length - 1 {
          return false, 0;
        }
        word, off := word + 1, 0;
        w := ClearFrom(index[word], 0);
      }
    }

    /** The first position without a slot. */
    method FindVacant(first: nat) returns (r: nat)
      requires Valid()
      ensures r <= Size() && (r < Size() ==> first <= r && r !in Map())
      ensures forall q :: first <= q < r ==> q in Map()
    {
      var from := first;
      var next := FindOccupied(from);
      while next < Size()
        invariant first <= from && next <= Size() && (next < Size() ==> from <= next && next in Map())
        invariant forall q :: from <= q < next ==> q !in Map()
        invariant forall q :: first <= q < from ==> q in Map()
        decreases Size() - from
      {
        if next > from {
          return from;
        }
        from := next + 1;
        next := FindOccupied(from);
      }
      r := if next > from then from else Size();
    }

    ghost function Repr(): set<object> {
      {this, index, items, items.bset, items.data}
    }

    /** The positions below pos have been taken over from an array that stands for m. */
    ghost predicate Taking(other: Compressed<V>, m: map<nat, V>, pos: nat)
      reads this, index, items, items.bset, items.data
      reads other, other.index, other.items, other.items.bset, other.items.data
    {
      && Valid() && other.Valid() && Repr() !! other.Repr() && leaked == {} && items.valid == other.items.valid
      && Size() == other.Size() && other.Map() == m && Map() == FirstFew(m, pos, None())
    }

    /** Takes one value over, if there is a slot for it, and looks for the next. */
    method MoveOne(other: Compressed<V>, pos: nat, ghost m: map<nat, V>) returns (next: nat)
      requires Taking(other, m, pos) && pos in m && pos < Size()
      modifies this, index, items.bset, items.data
      ensures pos < next <= Size() && (next < Size() ==> next in m) && Taking(other, m, next)
    {
      hide Mapping, Indexed, Contents, Pow2, FirstFew, Indexed, Taken, Layout;
      other.ValuesAccepted();
      var v := other.PtrAt(pos);
      var ok := Emplace(pos, v.value);
      next := other.NextMapped(m, pos + 1);
      FirstFewNext(m, pos, next, None());
    }

    method NextMapped(ghost m: map<nat, V>, from: nat) returns (next: nat)
      requires Valid() && Map() == m
      ensures next <= Size() && (next < Size() ==> from <= next && next in m) && forall q :: from <= q < next ==> q !in m
    {
      hide Mapping, Indexed, Contents, Pow2, Taken, Layout;
      next := FindOccupied(from);
      forall q | from <= q < next ensures q !in m { assert q !in Map(); }
    }

    lemma ValuesAccepted()
      requires Valid()
      ensures forall k :: k in Map() ==> k < Size() && items.valid(Map()[k])
    {
      KeysBelow(ids, items.Used(), items.data[..], items.valid, leaked);
    }

    /** Takes over the values of an array of another slot width, position by position, as long as there are slots. */
    method MoveFrom(other: Compressed<V>)
      requires Valid() && Map() == map[] && leaked == {} && other.Valid() && Repr() !! other.Repr()
      requires apparent == other.apparent && items.valid == other.items.valid
      modifies this, index, items.bset, items.data
      ensures Valid() && Map() == FirstFew(other.Map(), Size(), None()) && other.Map() == old(other.Map()) && leaked == {}
      ensures |other.Map()| <= None() ==> Map() == other.Map()
    {
      ghost var m := other.Map();
      hide *;
      var pos := other.FindOccupied(0);
      TakingFirst(other, m, pos);
      while pos < other.Size()
        invariant pos <= other.Size() == Size() && Taking(other, m, pos) && (pos < Size() ==> pos in m)
        decreases other.Size() - pos
      {
        pos := MoveOne(other, pos, m);
      }
      TakingAll(other, m, pos);
    }

    lemma TakingFirst(other: Compressed<V>, m: map<nat, V>, pos: nat)
      requires Valid() && Map() == map[] && leaked == {} && other.Valid() && Repr() !! other.Repr() && m == other.Map()
      requires apparent == other.apparent && items.valid == other.items.valid
      requires forall q :: 0 <= q < pos ==> q !in m
      ensures Taking(other, m, pos)
    {
      hide Mapping, Indexed, Contents, Pow2;
      FirstFewGap(m, 0, pos, None());
    }

    lemma TakingAll(other: Compressed<V>, m: map<nat, V>, pos: nat)
      requires Taking(other, m, pos) && pos == Size()
      ensures Valid() && other.Valid() && Map() == FirstFew(m, Size(), None()) && other.Map() == m && leaked == {}
      ensures |m| <= None() ==> Map() == m
    {
      hide Mapping, Indexed, Contents, Pow2, FirstFew;
      other.ValuesAccepted();
      if |m| <= None() { RoomForAll(m, pos, None()); }
    }
  }
}
