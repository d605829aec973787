/** The slot allocator of yesod.old/yesod/detail/placement_array.hpp, for values that are constructed and destroyed. */
module PlacementArray {
  import opened Arith
  import opened Wrappers
  import opened ZeroRange

  function SetIn(w: Word, o: nat, b: bool): (r: Word)
    requires o < |w|
    ensures |r| == |w|
  {
    w[o := b]
  }

  /** Setting one bit of one word changes one flag. */
  lemma BitSet(bset: seq<Word>, count: nat, pos: nat, b: bool, after: seq<Word>)
    requires Words(bset, count) && pos < count
    requires pos / WORD_BITS < |bset| && pos % WORD_BITS < WORD_BITS
    requires after == bset[pos / WORD_BITS := SetIn(bset[pos / WORD_BITS], pos % WORD_BITS, b)]
    ensures Words(after, count) && Flags(after, count) == Flags(bset, count)[pos := !b]
  {
    var f, g := Flags(bset, count), Flags(after, count);
    forall p | 0 <= p < count ensures g[p] == f[pos := !b][p] { OneBit(bset, count, pos, b, after, p); }
  }

  lemma OneBit(bset: seq<Word>, count: nat, pos: nat, b: bool, after: seq<Word>, p: nat)
    requires Words(bset, count) && pos < count && p < count
    requires pos / WORD_BITS < |bset| && pos % WORD_BITS < WORD_BITS
    requires after == bset[pos / WORD_BITS := SetIn(bset[pos / WORD_BITS], pos % WORD_BITS, b)]
    ensures Words(after, count) && Clear(after, count, p) == if p == pos then !b else Clear(bset, count, p)
  {
    WordOf(p, |bset|);
    DivBounds(p, WORD_BITS);
    DivBounds(pos, WORD_BITS);
  }

  /** A set of one word. */
  lemma OneWord(bset: seq<Word>, count: nat)
    requires Layout(bset, count) && 0 < count <= WORD_BITS
    ensures |bset| == 1 && Words(bset, count) && Flags(bset, count) == Vacancies(bset[0], 0, count)[..count]
  {
    LayoutWords(bset, count);
    DivUnique(count + WORD_BITS - 1, WORD_BITS, 1, count - 1);
    forall p | 0 <= p < count ensures Flags(bset, count)[p] == Vacancies(bset[0], 0, count)[p] {
      ClearAt(bset, count, 0, p);
    }
  }

  /** Which places of a set are in use. */
  ghost function Taken(bset: seq<Word>, count: nat): (u: seq<bool>)
    requires Layout(bset, count)
    ensures |u| == count && Words(bset, count) && forall s :: 0 <= s < count ==> u[s] == !Flags(bset, count)[s]
  {
    LayoutWords(bset, count);
    var f := Flags(bset, count);
    seq(count, s requires 0 <= s < count => !f[s])
  }

  lemma TakenSet(bset: seq<Word>, count: nat, pos: nat, b: bool, after: seq<Word>)
    requires Layout(bset, count) && pos < count
    requires pos / WORD_BITS < |bset| && pos % WORD_BITS < WORD_BITS && |bset[pos / WORD_BITS]| == WORD_BITS
    requires after == bset[pos / WORD_BITS := SetIn(bset[pos / WORD_BITS], pos % WORD_BITS, b)]
    ensures Layout(after, count) && Taken(after, count) == Taken(bset, count)[pos := b]
  {
    LayoutWords(bset, count);
    BitSet(bset, count, pos, b, after);
  }

  lemma TakenAt(bset: seq<Word>, count: nat, pos: nat)
    requires Layout(bset, count) && pos < count
    ensures pos / WORD_BITS < |bset| && |bset[pos / WORD_BITS]| == WORD_BITS && pos % WORD_BITS < WORD_BITS
    ensures Taken(bset, count)[pos] == bset[pos / WORD_BITS][pos % WORD_BITS]
  {
    LayoutWords(bset, count);
    WordOf(pos, |bset|);
  }

  lemma NoneTaken(bset: seq<Word>, count: nat)
    requires Layout(bset, count) && forall i :: 0 <= i < |bset| ==> bset[i] == seq(WORD_BITS, _ => false)
    ensures forall s :: 0 <= s < count ==> !Taken(bset, count)[s]
  {
    forall s | 0 <= s < count ensures !Taken(bset, count)[s] { TakenAt(bset, count, s); }
  }

  lemma TakenFlag(bset: seq<Word>, count: nat, first: nat, used: bool, r: nat)
    requires Layout(bset, count)
    requires Words(bset, count) ==> FirstFlag(Flags(bset, count), first, !used, r)
    ensures FirstFlag(Taken(bset, count), first, used, r)
  {
    var u := Taken(bset, count);
  }

  class Slots<V(0)> {
    const n: nat
    const valid: V -> bool
    const bset: array<Word>
    const data: array<V>

    ghost predicate Valid()
      reads this, bset, data
    {
      && n > 0 && Layout(bset[..], n) && data.Length == n && bset as object != data
    }

    /** Which slots are in use. */
    ghost function Used(): (u: seq<bool>)
      requires Valid()
      reads this, bset, data
      ensures |u| == n
    {
      Taken(bset[..], n)
    }

    constructor (count: nat, isValid: V -> bool)
      requires count > 0
      ensures n == count && valid == isValid && fresh(bset) && fresh(data) && Valid()
      ensures forall s :: 0 <= s < n ==> !Used()[s]
    {
      n, valid := count, isValid;
      bset := new Word[WordIndex(count + WORD_BITS - 1)](_ => seq(WORD_BITS, _ => false));
      data := new V[count];
      new;
      NoneTaken(bset[..], n);
    }

    method Test(pos: nat) returns (b: bool)
      requires Valid() && pos < n
      ensures b == Used()[pos]
    {
      TakenAt(bset[..], n, pos);
      b := bset[pos / WORD_BITS][pos % WORD_BITS];
    }

    method SetUsed(pos: nat, b: bool)
      requires Valid() && pos < n
      modifies bset
      ensures Valid() && Used() == old(Used())[pos := b]
    {
      TakenAt(bset[..], n, pos);
      var w, o := pos / WORD_BITS, pos % WORD_BITS;
      ghost var before := bset[..];
      bset[w] := SetIn(bset[w], o, b);
      TakenSet(before, n, pos, b, bset[..]);
    }

    /** The value of a slot in use, unless the predicate rejects it. */
    method PtrAt(pos: nat) returns (r: Option<V>)
      requires Valid() && pos < n
      ensures r == if Used()[pos] && valid(data[pos]) then Some(data[pos]) else None
    {
      var used := Test(pos);
      r := if used && valid(data[pos]) then Some(data[pos]) else None;
    }

    /** Constructs or assigns a value in a slot; the slot is in use afterwards even when the value is not accepted. */
    method Emplace(pos: nat, v: V) returns (ok: bool)
      requires Valid() && pos < n
      modifies bset, data
      ensures Valid() && Used() == old(Used())[pos := true] && data[..] == old(data[..])[pos := v]
      ensures ok == valid(v)
    {
      var used := Test(pos);
      if !used {
        data[pos] := v;
        SetUsed(pos, true);
      } else {
        data[pos] := v;
      }
      var r := PtrAt(pos);
      ok := r.Some?;
    }

    method EraseAt(pos: nat) returns (erased: bool)
      requires Valid() && pos < n
      modifies bset
      ensures Valid() && Used() == old(Used())[pos := false] && erased == old(Used())[pos]
    {
      erased := Test(pos);
      if erased {
        SetUsed(pos, false);
      }
    }

    method FindFirstUsed(first: nat, used: bool) returns (r: nat)
      requires Valid()
      ensures FirstFlag(Used(), if first <= n then first else n, used, r)
    {
      if n <= WORD_BITS {
        OneWord(bset[..], n);
        r := FindFirstInWord(bset[0], n, first, used);
      } else {
        r := FindFirst(bset[..], n, first, used);
      }
      TakenFlag(bset[..], n, if first <= n then first else n, used, r);
    }

    /** The first vacant slot. */
    method FindVacant(first: nat) returns (r: nat)
      requires Valid()
      ensures FirstFlag(Used(), if first <= n then first else n, false, r)
    {
      r := FindFirstUsed(first, false);
    }

    /** The first slot in use whose value is accepted. */
    method FindOccupied(first: nat) returns (r: nat)
      requires Valid()
      ensures r <= n && (r < n ==> first <= r && Used()[r] && valid(data[r]))
      ensures forall s :: first <= s < r ==> !(Used()[s] && valid(data[s]))
    {
      r := FindFirstUsed(first, true);
      while r < n
        invariant r <= n && (r < n ==> first <= r && Used()[r])
        invariant forall s :: first <= s < r ==> !(Used()[s] && valid(data[s]))
        decreases n - r
      {
        if valid(data[r]) {
          return;
        }
        r := FindFirstUsed(r + 1, true);
      }
    }
  }
}
