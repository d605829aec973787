/** Streaming XXH32, yesod.old/yesod/coder/xxhash.hpp, and the algorithm it streams. */
module XxHash {

  type Byte = bv8
  type Word32 = bv32

  const PRIME_1: Word32 := 0x9e3779b1
  const PRIME_2: Word32 := 0x85ebca77
  const PRIME_3: Word32 := 0xc2b2ae3d
  const PRIME_4: Word32 := 0x27d4eb2f
  const PRIME_5: Word32 := 0x165667b1

  datatype Lanes = Lanes(a: Word32, b: Word32, c: Word32, d: Word32)

  // ---------------------------------------------------------------- the algorithm on a whole message

  function Rotate(x: Word32, n: nat): Word32
    requires 0 < n < 32
  {
    (x << n) | (x >> (32 - n))
  }

  /** Four bytes, little-endian. */
  function Le32(m: seq<Byte>): Word32
    requires |m| == 4
  {
    (m[0] as Word32) | ((m[1] as Word32) << 8) | ((m[2] as Word32) << 16) | ((m[3] as Word32) << 24)
  }

  function Round(acc: Word32, lane: Word32): Word32 { Rotate(acc + lane * PRIME_2, 13) * PRIME_1 }

  /** One stripe of 16 bytes. */
  function Stripe(s: Lanes, m: seq<Byte>): Lanes
    requires |m| == 16
  {
    Lanes(Round(s.a, Le32(m[0..4])), Round(s.b, Le32(m[4..8])), Round(s.c, Le32(m[8..12])), Round(s.d, Le32(m[12..16])))
  }

  function Start(seed: Word32): Lanes { Lanes(seed + PRIME_1 + PRIME_2, seed + PRIME_2, seed, seed - PRIME_1) }

  /** All stripes of a message of a multiple of 16 bytes. */
  function Stripes(s: Lanes, m: seq<Byte>): Lanes
    requires |m| % 16 == 0
  {
    if m == [] then s else Stripe(Stripes(s, m[..|m| - 16]), m[|m| - 16..])
  }

  function Converge(s: Lanes): Word32 { Rotate(s.a, 1) + Rotate(s.b, 7) + Rotate(s.c, 12) + Rotate(s.d, 18) }

  function MixWord(acc: Word32, w: Word32): Word32 { Rotate(acc + w * PRIME_3, 17) * PRIME_4 }

  function MixByte(acc: Word32, b: Byte): Word32 { Rotate(acc + (b as Word32) * PRIME_5, 11) * PRIME_1 }

  /** The last bytes, four at a time, then one at a time. */
  function Tail(acc: Word32, m: seq<Byte>): Word32
    decreases |m|
  {
    if |m| >= 4 then Tail(MixWord(acc, Le32(m[..4])), m[4..])
    else if m != [] then Tail(MixByte(acc, m[0]), m[1..])
    else acc
  }

  function Avalanche(h: Word32): Word32 {
    var h1 := (h ^ (h >> 15)) * PRIME_2;
    var h2 := (h1 ^ (h1 >> 13)) * PRIME_3;
    h2 ^ (h2 >> 16)
  }

  function Whole(n: nat): (r: nat)
    ensures r % 16 == 0 && r <= n < r + 16
  {
    n - n % 16
  }

  /** What a message shorter than a stripe starts from. */
  function ShortStart(seed: Word32): Word32 { seed + PRIME_5 }

  /** The length is mixed in as a 32-bit word. */
  function WithLength(acc: Word32, n: nat): Word32 { acc + Low32(n) }

  function Low32(n: nat): Word32 { (n % 0x1_0000_0000) as Word32 }

  /** XXH32 of a message. */
  function Xxh32(seed: Word32, m: seq<Byte>): Word32 {
    var w := Whole(|m|);
    var acc := if |m| >= 16 then Converge(Stripes(Start(seed), m[..w])) else ShortStart(seed);
    Avalanche(Tail(WithLength(acc, |m|), m[w..]))
  }

  lemma NextStripe(s: Lanes, m: seq<Byte>, pos: nat)
    requires pos % 16 == 0 && pos + 16 <= |m|
    ensures (pos + 16) % 16 == 0 && Stripes(s, m[..pos + 16]) == Stripe(Stripes(s, m[..pos]), m[pos..pos + 16])
  {
    var t := m[..pos + 16];
    assert t[..|t| - 16] == m[..pos] && t[|t| - 16..] == m[pos..pos + 16];
  }

  // ---------------------------------------------------------------- what a state has absorbed

  /** The whole stripes of the bytes fed are in the lanes, the others at the start of the buffer. */
  ghost predicate Absorbed(seed: Word32, fed: seq<Byte>, state: Lanes, mem: seq<Byte>) {
    && |mem| == 16
    && var w := Whole(|fed|); state == Stripes(Start(seed), fed[..w]) && mem[..|fed| - w] == fed[w..]
  }

  /** The buffer with bytes copied in. */
  function Placed(mem: seq<Byte>, o: nat, p: seq<Byte>): (r: seq<Byte>)
    requires |mem| == 16 && o + |p| <= 16
    ensures |r| == 16
  {
    mem[..o] + p + mem[o + |p|..]
  }

  lemma PlacedNothing(mem: seq<Byte>)
    requires |mem| == 16
    ensures Placed(mem, 0, []) == mem
  {
  }

  lemma WholeSum(n: nat, k: nat)
    requires n % 16 + k <= 16
    ensures Whole(n + k) == (if n % 16 + k < 16 then Whole(n) else Whole(n) + 16) && n % 16 == n - Whole(n)
    ensures (n + k) % 16 == if n % 16 + k < 16 then n % 16 + k else 0
  {
  }

  lemma Joined(fed: seq<Byte>, w: nat, mem: seq<Byte>, p: seq<Byte>, o: nat)
    requires w <= |fed| && o == |fed| - w && |mem| == 16 && o + |p| <= 16 && mem[..o] == fed[w..]
    ensures Placed(mem, o, p)[..o + |p|] == (fed + p)[w..] && (fed + p)[..w] == fed[..w]
  {
  }

  /** Filling up the buffer, and taking it in once it is full. */
  lemma Filled(seed: Word32, fed: seq<Byte>, state: Lanes, mem: seq<Byte>, p: seq<Byte>, o: nat)
    requires Absorbed(seed, fed, state, mem) && o == |fed| % 16 && o + |p| <= 16
    ensures (|fed| + |p|) % 16 == if o + |p| < 16 then o + |p| else 0
    ensures var mem' := Placed(mem, o, p);
      Absorbed(seed, fed + p, if o + |p| < 16 then state else Stripe(state, mem'), mem')
  {
    hide Stripe, Start, Whole, Placed;
    var w, all, mem' := Whole(|fed|), fed + p, Placed(mem, o, p);
    WholeSum(|fed|, |p|);
    Joined(fed, w, mem, p, o);
    if o + |p| == 16 {
      assert mem'[..16] == mem' && all[w..w + 16] == mem' && all[..w + 16] == all;
      NextStripe(Start(seed), all, w);
    }
  }

  lemma Block(seed: Word32, fed: seq<Byte>, state: Lanes, mem: seq<Byte>, block: seq<Byte>)
    requires Absorbed(seed, fed, state, mem) && |fed| % 16 == 0 && |block| == 16
    ensures Absorbed(seed, fed + block, Stripe(state, block), mem)
  {
    var all := fed + block;
    hide Stripe, Start;
    assert Whole(|fed|) == |fed| && Whole(|all|) == |all| && fed[..|fed|] == fed && all[..|fed|] == fed && all[..|all|] == all;
    assert all[|fed|..|fed| + 16] == block;
    NextStripe(Start(seed), all, |fed|);
  }

  // ---------------------------------------------------------------- the streaming object

  class Hasher {
    var totalCnt: nat
    var seed: Word32
    var state: Lanes
    const mem: array<Byte>
    /** Everything fed so far. */
    ghost var fed: seq<Byte>

    ghost predicate Valid()
      reads this, mem
    {
      mem.Length == 16 && totalCnt == |fed| && Absorbed(seed, fed, state, mem[..])
    }

    constructor (theSeed: Word32)
      ensures Valid() && fed == [] && seed == theSeed && fresh(mem)
    {
      mem := new Byte[16];
      seed, state, totalCnt, fed := theSeed, Start(theSeed), 0, [];
    }

    method Reset(theSeed: Word32)
      requires Valid()
      modifies this
      ensures Valid() && fed == [] && seed == theSeed
    {
      seed, state, totalCnt, fed := theSeed, Start(theSeed), 0, [];
    }

    /** The overload for input iterators: one byte at a time. */
    method UpdateEach(p: seq<Byte>)
      requires Valid()
      modifies this, mem
      ensures Valid() && seed == old(seed) && fed == old(fed) + p
    {
      hide Absorbed;
      var i := 0;
      while i < |p|
        invariant 0 <= i <= |p| && Valid() && seed == old(seed) && fed == old(fed) + p[..i]
      {
        UpdateByte(p[i]);
        assert p[..i] + [p[i]] == p[..i + 1];
        i := i + 1;
      }
      assert p[..i] == p;
    }

    method UpdateByte(b: Byte)
      requires Valid()
      modifies this, mem
      ensures Valid() && seed == old(seed) && fed == old(fed) + [b]
    {
      hide Absorbed, Stripe;
      var o := totalCnt % 16;
      Filled(seed, fed, state, mem[..], [b], o);
      ghost var before := mem[..];
      mem[o] := b;
      assert mem[..] == Placed(before, o, [b]);
      hide Placed;
      fed := fed + [b];
      totalCnt := totalCnt + 1;
      if totalCnt % 16 == 0 { state := Stripe(state, mem[..]); }
    }

    method CopyIn(o: nat, p: seq<Byte>)
      requires mem.Length == 16 && o + |p| <= 16
      modifies mem
      ensures mem[..] == Placed(old(mem[..]), o, p)
    {
      forall i | 0 <= i < |p| {
        mem[o + i] := p[i];
      }
    }

    /** What follows a full buffer: whole stripes straight from the input, then the rest into the buffer. */
    method UpdateBlocks(p: seq<Byte>)
      requires Valid() && totalCnt % 16 == 0
      modifies this, mem
      ensures Valid() && seed == old(seed) && fed == old(fed) + p
    {
      hide Absorbed, Stripe, Placed;
      var at := 0;
      while at + 16 <= |p|
        invariant 0 <= at <= |p| && Valid() && seed == old(seed) && fed == old(fed) + p[..at] && totalCnt % 16 == 0
        decreases |p| - at
      {
        var block := p[at..at + 16];
        Block(seed, fed, state, mem[..], block);
        state := Stripe(state, block);
        totalCnt := totalCnt + 16;
        fed := fed + block;
        assert p[..at] + block == p[..at + 16];
        at := at + 16;
      }
      var rest := p[at..];
      assert p[..at] + rest == p;
      if at < |p| {
        Filled(seed, fed, state, mem[..], rest, 0);
        CopyIn(0, rest);
        totalCnt := totalCnt + |rest|;
        fed := fed + rest;
      }
    }

    /** The overloads for an iterator or a pointer and a count; they differ in how they copy. With nothing to add on a
      * stripe boundary they mix in the stale buffer; otherwise they absorb the bytes. */
    method UpdateBytes(p: seq<Byte>)
      requires Valid()
      modifies this, mem
      ensures seed == old(seed) && fed == old(fed) + p && totalCnt == |fed|
      ensures |p| > 0 || old(totalCnt) % 16 != 0 ==> Valid()
      ensures |p| == 0 && old(totalCnt) % 16 == 0 ==> state == Stripe(old(state), old(mem[..]))
    {
      hide Absorbed, Stripe, Placed;
      var o := totalCnt % 16;
      var count := if |p| <= 16 - o then |p| else 16 - o;
      Filled(seed, fed, state, mem[..], p[..count], o);
      CopyIn(o, p[..count]);
      totalCnt := totalCnt + count;
      fed := fed + p[..count];
      if totalCnt % 16 != 0 {
        assert p[..count] == p;
        return;
      }
      state := Stripe(state, mem[..]);
      if count == 0 {
        PlacedNothing(old(mem[..]));
        return;
      }
      UpdateBlocks(p[count..]);
      assert p[..count] + p[count..] == p;
    }

    /** The hash of everything fed. */
    method Digest() returns (h: Word32)
      requires Valid()
      ensures h == Xxh32(seed, fed)
    {
      var cnt := totalCnt % 16;
      ghost var f, st, m := fed, state, mem[..];
      BufferIsRest(seed, f, st, m, cnt);
      Assembled(seed, f, st, m);
      hide *;
      var acc := if totalCnt >= 16 then Converge(state) else ShortStart(seed);
      var rv := MixRest(WithLength(acc, totalCnt), mem[..cnt]);
      h := Avalanche(rv);
    }
  }

  lemma BufferIsRest(seed: Word32, fed: seq<Byte>, state: Lanes, mem: seq<Byte>, cnt: nat)
    requires Absorbed(seed, fed, state, mem) && cnt == |fed| % 16
    ensures cnt <= |mem| && mem[..cnt] == fed[Whole(|fed|)..]
  {
    hide Stripes, Start;
  }

  /** The two loops over the bytes left in the buffer. */
  method MixRest(acc: Word32, rest: seq<Byte>) returns (rv: Word32)
    ensures rv == Tail(acc, rest)
  {
    hide *;
    rv := acc;
    var c: nat := 0;
    while c + 4 <= |rest|
      invariant c <= |rest| && Tail(rv, rest[c..]) == Tail(acc, rest)
      decreases |rest| - c
    {
      TailWord(rv, rest, c);
      rv := MixWord(rv, Le32(rest[c..c + 4]));
      c := c + 4;
    }
    while c < |rest|
      invariant c <= |rest| < c + 4 && Tail(rv, rest[c..]) == Tail(acc, rest)
    {
      TailByte(rv, rest, c);
      rv := MixByte(rv, rest[c]);
      c := c + 1;
    }
    TailEmpty(rv, rest[c..]);
  }

  lemma TailWord(acc: Word32, m: seq<Byte>, i: nat)
    requires i + 4 <= |m|
    ensures Tail(acc, m[i..]) == Tail(MixWord(acc, Le32(m[i..i + 4])), m[i + 4..])
  {
    hide MixWord, MixByte, Le32;
    assert m[i..][..4] == m[i..i + 4] && m[i..][4..] == m[i + 4..];
  }

  lemma TailByte(acc: Word32, m: seq<Byte>, i: nat)
    requires i < |m| < i + 4
    ensures Tail(acc, m[i..]) == Tail(MixByte(acc, m[i]), m[i + 1..])
  {
    hide MixWord, MixByte, Le32;
    assert m[i..][1..] == m[i + 1..];
  }

  lemma TailEmpty(acc: Word32, m: seq<Byte>)
    requires m == []
    ensures Tail(acc, m) == acc
  {
  }

  lemma Assembled(seed: Word32, fed: seq<Byte>, state: Lanes, mem: seq<Byte>)
    requires Absorbed(seed, fed, state, mem)
    ensures var acc := if |fed| >= 16 then Converge(state) else ShortStart(seed);
      Xxh32(seed, fed) == Avalanche(Tail(WithLength(acc, |fed|), fed[Whole(|fed|)..]))
  {
    hide Converge, Tail, Avalanche, WithLength, Stripes, Start, ShortStart;
  }

  // ---------------------------------------------------------------- any split of the input

  /** A chunk fed through the per-byte overload or through a block-wise one. */
  datatype Chunk = Each(bytes: seq<Byte>) | Counted(bytes: seq<Byte>)

  function Concat(chunks: seq<Chunk>): seq<Byte> {
    if chunks == [] then [] else Concat(chunks[..|chunks| - 1]) + chunks[|chunks| - 1].bytes
  }

  /** However the message is split and fed, the digest is that of the whole. */
  method HashChunks(theSeed: Word32, chunks: seq<Chunk>) returns (h: Word32)
    requires forall i :: 0 <= i < |chunks| ==> chunks[i].bytes != []
    ensures h == Xxh32(theSeed, Concat(chunks))
  {
    hide Xxh32, Absorbed, Stripe;
    var hasher := new Hasher(theSeed);
    var i := 0;
    while i < |chunks|
      invariant 0 <= i <= |chunks| && fresh(hasher) && fresh(hasher.mem)
      invariant hasher.Valid() && hasher.seed == theSeed && hasher.fed == Concat(chunks[..i])
    {
      assert chunks[..i + 1][..i] == chunks[..i];
      match chunks[i] {
        case Each(bytes) => hasher.UpdateEach(bytes);
        case Counted(bytes) => hasher.UpdateBytes(bytes);
      }
      i := i + 1;
    }
    assert chunks[..i] == chunks;
    h := hasher.Digest();
  }
}
