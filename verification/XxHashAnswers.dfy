/** Known answers of XXH32, byte by byte. */
module XxHashAnswers {
  import opened XxHash

  lemma Short(seed: Word32, m: seq<Byte>, acc: Word32, mixed: Word32, last: Word32, hash: Word32)
    requires |m| < 16 && ShortStart(seed) == acc && WithLength(acc, |m|) == mixed
    requires Tail(mixed, m) == last && Avalanche(last) == hash
    ensures Xxh32(seed, m) == hash
  {
    hide ShortStart, WithLength, Tail, Avalanche, Whole;
    assert Whole(|m|) == 0 by { ShortWhole(|m|); }
    assert m[0..] == m;
  }

  lemma ShortWhole(n: nat)
    requires n < 16
    ensures Whole(n) == 0
  {
  }

  lemma Long(seed: Word32, m: seq<Byte>, acc: Word32, mixed: Word32, last: Word32, hash: Word32)
    requires |m| >= 16 && Converge(Stripes(Start(seed), m[..Whole(|m|)])) == acc && WithLength(acc, |m|) == mixed
    requires Tail(mixed, m[Whole(|m|)..]) == last && Avalanche(last) == hash
    ensures Xxh32(seed, m) == hash
  {
    hide Start, Stripes, Converge, WithLength, Tail, Avalanche, Whole;
  }

  lemma NoTail(acc: Word32, t: seq<Byte>)
    requires t == []
    ensures Tail(acc, t) == acc
  {
  }

  lemma StartsAt(seed: Word32, s: Lanes)
    requires s == Lanes(seed + PRIME_1 + PRIME_2, seed + PRIME_2, seed, seed - PRIME_1)
    ensures Start(seed) == s
  {
  }

  lemma EmptyStart()
    ensures ShortStart(0x00000000) == 0x165667b1 && WithLength(0x165667b1, 0) == 0x165667b1
  {
    hide Low32;
    Low0();
  }

  lemma EmptyEnd()
    ensures Avalanche(0x165667b1) == 0x02cc5d05
  {
    assert ((0x165667b1 as Word32) ^ ((0x165667b1 as Word32) >> 15)) * PRIME_2 == 0x7e00cc7b;
    assert ((0x7e00cc7b as Word32) ^ ((0x7e00cc7b as Word32) >> 13)) * PRIME_3 == 0x02cc5fc9;
  }

  lemma Low0()
    ensures Low32(0) == 0
  {
    assert 0 % 0x1_0000_0000 == 0;
  }

  /** The empty message. */
  lemma Empty(m: seq<Byte>)
    requires m == []
    ensures Xxh32(0x00000000, m) == 0x02cc5d05
  {
    hide Stripes, Tail, Xxh32, Start, Converge, ShortStart, WithLength, Avalanche;
    EmptyStart();
    EmptyEnd();
    NoTail(0x165667b1, m);
    Short(0x00000000, m, 0x165667b1, 0x165667b1, 0x165667b1, 0x02cc5d05);
  }

  lemma EmptySeededStart()
    ensures ShortStart(0x9e3779b1) == 0xb48de162 && WithLength(0xb48de162, 0) == 0xb48de162
  {
    hide Low32;
    Low0();
  }

  lemma EmptySeededEnd()
    ensures Avalanche(0xb48de162) == 0x36b78ae7
  {
    assert ((0xb48de162 as Word32) ^ ((0xb48de162 as Word32) >> 15)) * PRIME_2 == 0xf515ea3f;
    assert ((0xf515ea3f as Word32) ^ ((0xf515ea3f as Word32) >> 13)) * PRIME_3 == 0x36b7bc50;
  }

  /** The empty message under another seed. */
  lemma EmptySeeded(m: seq<Byte>)
    requires m == []
    ensures Xxh32(0x9e3779b1, m) == 0x36b78ae7
  {
    hide Stripes, Tail, Xxh32, Start, Converge, ShortStart, WithLength, Avalanche;
    EmptySeededStart();
    EmptySeededEnd();
    NoTail(0xb48de162, m);
    Short(0x9e3779b1, m, 0xb48de162, 0xb48de162, 0xb48de162, 0x36b78ae7);
  }

  lemma OneLetterTail(t: seq<Byte>)
    requires t == [0x61]
    ensures Tail(0x165667b2, t) == 0x6506cbe8
  {
    assert 0x165667b2 + 0x61 * PRIME_5 == 0x8d13b1c3 && Rotate(0x8d13b1c3, 11) == 0x9d8e1c68;
    assert MixByte(0x165667b2, 0x61) == 0x6506cbe8;
    assert Tail(0x165667b2, t) == 0x6506cbe8;
  }

  lemma OneLetterStart()
    ensures ShortStart(0x00000000) == 0x165667b1 && WithLength(0x165667b1, 1) == 0x165667b2
  {
    hide Low32;
    Low1();
  }

  lemma OneLetterEnd()
    ensures Avalanche(0x6506cbe8) == 0x550d7456
  {
    assert ((0x6506cbe8 as Word32) ^ ((0x6506cbe8 as Word32) >> 15)) * PRIME_2 == 0x69809373;
    assert ((0x69809373 as Word32) ^ ((0x69809373 as Word32) >> 13)) * PRIME_3 == 0x550d215b;
  }

  lemma Low1()
    ensures Low32(1) == 1
  {
    assert 1 % 0x1_0000_0000 == 1;
  }

  /** "a". */
  lemma OneLetter(m: seq<Byte>)
    requires m == [0x61]
    ensures Xxh32(0x00000000, m) == 0x550d7456
  {
    hide Stripes, Tail, Xxh32, Start, Converge, ShortStart, WithLength, Avalanche;
    OneLetterStart();
    OneLetterEnd();
    OneLetterTail(m);
    Short(0x00000000, m, 0x165667b1, 0x165667b2, 0x6506cbe8, 0x550d7456);
  }

  lemma ThreeLettersTail(t: seq<Byte>)
    requires t == [0x61, 0x62, 0x63]
    ensures Tail(0x165667b4, t) == 0x760a1e67
  {
    assert 0x165667b4 + 0x61 * PRIME_5 == 0x8d13b1c5 && Rotate(0x8d13b1c5, 11) == 0x9d8e2c68;
    assert MixByte(0x165667b4, 0x61) == 0xdca1dbe8;
    assert 0xdca1dbe8 + 0x62 * PRIME_5 == 0x69b58daa && Rotate(0x69b58daa, 11) == 0xac6d534d;
    assert MixByte(0xdca1dbe8, 0x62) == 0x4f80fd3d;
    assert 0x4f80fd3d + 0x63 * PRIME_5 == 0xf2eb16b0 && Rotate(0xf2eb16b0, 11) == 0x58b58797;
    assert MixByte(0x4f80fd3d, 0x63) == 0x760a1e67;
    assert t[2..] == [0x63];
    assert Tail(0x4f80fd3d, t[2..]) == 0x760a1e67;
    assert t[1..] == [0x62, 0x63];
    assert Tail(0xdca1dbe8, t[1..]) == 0x760a1e67;
    assert Tail(0x165667b4, t) == 0x760a1e67;
  }

  lemma ThreeLettersStart()
    ensures ShortStart(0x00000000) == 0x165667b1 && WithLength(0x165667b1, 3) == 0x165667b4
  {
    hide Low32;
    Low3();
  }

  lemma ThreeLettersEnd()
    ensures Avalanche(0x760a1e67) == 0x32d153ff
  {
    assert ((0x760a1e67 as Word32) ^ ((0x760a1e67 as Word32) >> 15)) * PRIME_2 == 0xd0f67175;
    assert ((0xd0f67175 as Word32) ^ ((0xd0f67175 as Word32) >> 13)) * PRIME_3 == 0x32d1612e;
  }

  lemma Low3()
    ensures Low32(3) == 3
  {
    assert 3 % 0x1_0000_0000 == 3;
  }

  /** "abc". */
  lemma ThreeLetters(m: seq<Byte>)
    requires m == [0x61, 0x62, 0x63]
    ensures Xxh32(0x00000000, m) == 0x32d153ff
  {
    hide Stripes, Tail, Xxh32, Start, Converge, ShortStart, WithLength, Avalanche;
    ThreeLettersStart();
    ThreeLettersEnd();
    ThreeLettersTail(m);
    Short(0x00000000, m, 0x165667b1, 0x165667b4, 0x760a1e67, 0x32d153ff);
  }

  lemma DigitsFirst(m: seq<Byte>)
    requires m == [0x30, 0x31, 0x32, 0x33, 0x34, 0x35, 0x36, 0x37, 0x38, 0x39, 0x61, 0x62, 0x63, 0x64, 0x65, 0x66]
    ensures Stripe(Lanes(0x24234428, 0x85ebca77, 0x00000000, 0x61c8864f), m)
      == Lanes(0x07417adb, 0x7314b5fa, 0x7ec050e7, 0x8fef5e40)
  {
    assert Le32(m[0..4]) == 0x33323130 && Le32(m[4..8]) == 0x37363534;
    assert Le32(m[8..12]) == 0x62613938 && Le32(m[12..16]) == 0x66656463;
    assert 0x24234428 + 0x33323130 * PRIME_2 == 0xa2580178 && Rotate(0xa2580178, 13) == 0x002f144b;
    assert Round(0x24234428, 0x33323130) == 0x07417adb;
    assert 0x85ebca77 + 0x37363534 * PRIME_2 == 0xd0d58da3 && Rotate(0xd0d58da3, 13) == 0xb1b47a1a;
    assert Round(0x85ebca77, 0x37363534) == 0x7314b5fa;
    assert 0x00000000 + 0x62613938 * PRIME_2 == 0x10bfc908 && Rotate(0x10bfc908, 13) == 0xf9210217;
    assert Round(0x00000000, 0x62613938) == 0x7ec050e7;
    assert 0x61c8864f + 0x66656463 * PRIME_2 == 0x92014e54 && Rotate(0x92014e54, 13) == 0x29ca9240;
    assert Round(0x61c8864f, 0x66656463) == 0x8fef5e40;
  }

  lemma DigitsStripes(m: seq<Byte>)
    requires m == [0x30, 0x31, 0x32, 0x33, 0x34, 0x35, 0x36, 0x37, 0x38, 0x39, 0x61, 0x62, 0x63, 0x64, 0x65, 0x66]
    ensures Stripes(Start(0x00000000), m[..16]) == Lanes(0x07417adb, 0x7314b5fa, 0x7ec050e7, 0x8fef5e40)
  {
    hide Stripe, Start;
    assert m[..0] == [];
    StartsAt(0x00000000, Lanes(0x24234428, 0x85ebca77, 0x00000000, 0x61c8864f));
    assert m[0..16] == [0x30, 0x31, 0x32, 0x33, 0x34, 0x35, 0x36, 0x37, 0x38, 0x39, 0x61, 0x62, 0x63, 0x64, 0x65, 0x66];
    DigitsFirst(m[0..16]);
    NextStripe(Start(0x00000000), m, 0);
  }

  lemma DigitsStart()
    ensures Converge(Lanes(0x07417adb, 0x7314b5fa, 0x7ec050e7, 0x8fef5e40)) == 0x16eeaa98 && WithLength(0x16eeaa98, 16) == 0x16eeaaa8
  {
    hide Low32;
    Low16();
    assert Rotate(0x07417adb, 1) == 0x0e82f5b6 && Rotate(0x7314b5fa, 7) == 0x8a5afd39;
    assert Rotate(0x7ec050e7, 12) == 0x050e77ec && Rotate(0x8fef5e40, 18) == 0x79023fbd;
  }

  lemma DigitsEnd()
    ensures Avalanche(0x16eeaaa8) == 0xc2c45b69
  {
    assert ((0x16eeaaa8 as Word32) ^ ((0x16eeaaa8 as Word32) >> 15)) * PRIME_2 == 0x012a4963;
    assert ((0x012a4963 as Word32) ^ ((0x012a4963 as Word32) >> 13)) * PRIME_3 == 0xc2c499ad;
  }

  lemma Low16()
    ensures Low32(16) == 16
  {
    assert 16 % 0x1_0000_0000 == 16;
  }

  /** "0123456789abcdef". */
  lemma Digits(m: seq<Byte>)
    requires m == [0x30, 0x31, 0x32, 0x33, 0x34, 0x35, 0x36, 0x37, 0x38, 0x39, 0x61, 0x62, 0x63, 0x64, 0x65, 0x66]
    ensures Xxh32(0x00000000, m) == 0xc2c45b69
  {
    hide Stripes, Tail, Xxh32, Start, Converge, ShortStart, WithLength, Avalanche;
    DigitsStart();
    DigitsEnd();
    DigitsStripes(m);
    NoTail(0x16eeaaa8, m[16..]);
    Long(0x00000000, m, 0x16eeaa98, 0x16eeaaa8, 0x16eeaaa8, 0xc2c45b69);
  }

  lemma DigitsSeededFirst(m: seq<Byte>)
    requires m == [0x30, 0x31, 0x32, 0x33, 0x34, 0x35, 0x36, 0x37, 0x38, 0x39, 0x61, 0x62, 0x63, 0x64, 0x65, 0x66]
    ensures Stripe(Lanes(0xc25abdd9, 0x24234428, 0x9e3779b1, 0x00000000), m)
      == Lanes(0x6e87bcc1, 0x78927191, 0x73742c7e, 0x956d19d7)
  {
    assert Le32(m[0..4]) == 0x33323130 && Le32(m[4..8]) == 0x37363534;
    assert Le32(m[8..12]) == 0x62613938 && Le32(m[12..16]) == 0x66656463;
    assert 0xc25abdd9 + 0x33323130 * PRIME_2 == 0x408f7b29 && Rotate(0x408f7b29, 13) == 0xef652811;
    assert Round(0xc25abdd9, 0x33323130) == 0x6e87bcc1;
    assert 0x24234428 + 0x37363534 * PRIME_2 == 0x6f0d0754 && Rotate(0x6f0d0754, 13) == 0xa0ea8de1;
    assert Round(0x24234428, 0x37363534) == 0x78927191;
    assert 0x9e3779b1 + 0x62613938 * PRIME_2 == 0xaef742b9 && Rotate(0xaef742b9, 13) == 0xe85735de;
    assert Round(0x9e3779b1, 0x62613938) == 0x73742c7e;
    assert 0x00000000 + 0x66656463 * PRIME_2 == 0x3038c805 && Rotate(0x3038c805, 13) == 0x1900a607;
    assert Round(0x00000000, 0x66656463) == 0x956d19d7;
  }

  lemma DigitsSeededStripes(m: seq<Byte>)
    requires m == [0x30, 0x31, 0x32, 0x33, 0x34, 0x35, 0x36, 0x37, 0x38, 0x39, 0x61, 0x62, 0x63, 0x64, 0x65, 0x66]
    ensures Stripes(Start(0x9e3779b1), m[..16]) == Lanes(0x6e87bcc1, 0x78927191, 0x73742c7e, 0x956d19d7)
  {
    hide Stripe, Start;
    assert m[..0] == [];
    StartsAt(0x9e3779b1, Lanes(0xc25abdd9, 0x24234428, 0x9e3779b1, 0x00000000));
    assert m[0..16] == [0x30, 0x31, 0x32, 0x33, 0x34, 0x35, 0x36, 0x37, 0x38, 0x39, 0x61, 0x62, 0x63, 0x64, 0x65, 0x66];
    DigitsSeededFirst(m[0..16]);
    NextStripe(Start(0x9e3779b1), m, 0);
  }

  lemma DigitsSeededStart()
    ensures Converge(Lanes(0x6e87bcc1, 0x78927191, 0x73742c7e, 0x956d19d7)) == 0xd06e7f29 && WithLength(0xd06e7f29, 16) == 0xd06e7f39
  {
    hide Low32;
    Low16();
    assert Rotate(0x6e87bcc1, 1) == 0xdd0f7982 && Rotate(0x78927191, 7) == 0x4938c8bc;
    assert Rotate(0x73742c7e, 12) == 0x42c7e737 && Rotate(0x956d19d7, 18) == 0x675e55b4;
  }

  lemma DigitsSeededEnd()
    ensures Avalanche(0xd06e7f39) == 0x72e8faf9
  {
    assert ((0xd06e7f39 as Word32) ^ ((0xd06e7f39 as Word32) >> 15)) * PRIME_2 == 0xaae2c573;
    assert ((0xaae2c573 as Word32) ^ ((0xaae2c573 as Word32) >> 13)) * PRIME_3 == 0x72e88811;
  }

  /** "0123456789abcdef" under another seed. */
  lemma DigitsSeeded(m: seq<Byte>)
    requires m == [0x30, 0x31, 0x32, 0x33, 0x34, 0x35, 0x36, 0x37, 0x38, 0x39, 0x61, 0x62, 0x63, 0x64, 0x65, 0x66]
    ensures Xxh32(0x9e3779b1, m) == 0x72e8faf9
  {
    hide Stripes, Tail, Xxh32, Start, Converge, ShortStart, WithLength, Avalanche;
    DigitsSeededStart();
    DigitsSeededEnd();
    DigitsSeededStripes(m);
    NoTail(0xd06e7f39, m[16..]);
    Long(0x9e3779b1, m, 0xd06e7f29, 0xd06e7f39, 0xd06e7f39, 0x72e8faf9);
  }

  lemma SentenceFirst(m: seq<Byte>)
    requires m == [0x4e, 0x6f, 0x62, 0x6f, 0x64, 0x79, 0x20, 0x69, 0x6e, 0x73, 0x70, 0x65, 0x63, 0x74, 0x73, 0x20]
    ensures Stripe(Lanes(0x24234428, 0x85ebca77, 0x00000000, 0x61c8864f), m)
      == Lanes(0x046a700a, 0xbfadf8e3, 0x5b32b4aa, 0x137e5555)
  {
    assert Le32(m[0..4]) == 0x6f626f4e && Le32(m[4..8]) == 0x69207964;
    assert Le32(m[8..12]) == 0x6570736e && Le32(m[12..16]) == 0x20737463;
    assert 0x24234428 + 0x6f626f4e * PRIME_2 == 0x49528d6a && Rotate(0x49528d6a, 13) == 0x51ad492a;
    assert Round(0x24234428, 0x6f626f4e) == 0x046a700a;
    assert 0x85ebca77 + 0x69207964 * PRIME_2 == 0x66991ff3 && Rotate(0x66991ff3, 13) == 0x23fe6cd3;
    assert Round(0x85ebca77, 0x69207964) == 0xbfadf8e3;
    assert 0x00000000 + 0x6570736e * PRIME_2 == 0xfe547422 && Rotate(0xfe547422, 13) == 0x8e845fca;
    assert Round(0x00000000, 0x6570736e) == 0x5b32b4aa;
    assert 0x61c8864f + 0x20737463 * PRIME_2 == 0xd72abe54 && Rotate(0xd72abe54, 13) == 0x57ca9ae5;
    assert Round(0x61c8864f, 0x20737463) == 0x137e5555;
  }

  lemma SentenceSecond(m: seq<Byte>)
    requires m == [0x74, 0x68, 0x65, 0x20, 0x73, 0x70, 0x61, 0x6d, 0x6d, 0x69, 0x73, 0x68, 0x20, 0x72, 0x65, 0x70]
    ensures Stripe(Lanes(0x046a700a, 0xbfadf8e3, 0x5b32b4aa, 0x137e5555), m)
      == Lanes(0x719a836e, 0x514c1de8, 0x97fa4ba2, 0x242a97a2)
  {
    assert Le32(m[0..4]) == 0x20656874 && Le32(m[4..8]) == 0x6d617073;
    assert Le32(m[8..12]) == 0x6873696d && Le32(m[12..16]) == 0x70657220;
    assert 0x046a700a + 0x20656874 * PRIME_2 == 0x3e7585f6 && Rotate(0x3e7585f6, 13) == 0xb0bec7ce;
    assert Round(0x046a700a, 0x20656874) == 0x719a836e;
    assert 0xbfadf8e3 + 0x6d617073 * PRIME_2 == 0x7344fc58 && Rotate(0x7344fc58, 13) == 0x9f8b0e68;
    assert Round(0xbfadf8e3, 0x6d617073) == 0x514c1de8;
    assert 0x5b32b4aa + 0x6873696d * PRIME_2 == 0x6217b855 && Rotate(0x6217b855, 13) == 0xf70aac42;
    assert Round(0x5b32b4aa, 0x6873696d) == 0x97fa4ba2;
    assert 0x137e5555 + 0x70657220 * PRIME_2 == 0xc213a235 && Rotate(0xc213a235, 13) == 0x7446b842;
    assert Round(0x137e5555, 0x70657220) == 0x242a97a2;
  }

  lemma SentenceStripes(m: seq<Byte>)
    requires m ==
      [0x4e, 0x6f, 0x62, 0x6f, 0x64, 0x79, 0x20, 0x69, 0x6e, 0x73, 0x70, 0x65, 0x63, 0x74, 0x73, 0x20]
      + [0x74, 0x68, 0x65, 0x20, 0x73, 0x70, 0x61, 0x6d, 0x6d, 0x69, 0x73, 0x68, 0x20, 0x72, 0x65, 0x70]
      + [0x65, 0x74, 0x69, 0x74, 0x69, 0x6f, 0x6e]
    ensures Stripes(Start(0x00000000), m[..32]) == Lanes(0x719a836e, 0x514c1de8, 0x97fa4ba2, 0x242a97a2)
  {
    hide Stripe, Start;
    assert m[..0] == [];
    StartsAt(0x00000000, Lanes(0x24234428, 0x85ebca77, 0x00000000, 0x61c8864f));
    assert m[0..16] == [0x4e, 0x6f, 0x62, 0x6f, 0x64, 0x79, 0x20, 0x69, 0x6e, 0x73, 0x70, 0x65, 0x63, 0x74, 0x73, 0x20];
    SentenceFirst(m[0..16]);
    NextStripe(Start(0x00000000), m, 0);
    assert m[16..32] == [0x74, 0x68, 0x65, 0x20, 0x73, 0x70, 0x61, 0x6d, 0x6d, 0x69, 0x73, 0x68, 0x20, 0x72, 0x65, 0x70];
    SentenceSecond(m[16..32]);
    NextStripe(Start(0x00000000), m, 16);
  }

  lemma SentenceTail(t: seq<Byte>)
    requires t == [0x65, 0x74, 0x69, 0x74, 0x69, 0x6f, 0x6e]
    ensures Tail(0x8c86b554, t) == 0xb3a7011b
  {
    assert Le32(t[0..4]) == 0x74697465;
    assert 0x8c86b554 + 0x74697465 * PRIME_3 == 0x6efe1765 && Rotate(0x6efe1765, 17) == 0x2ecaddfc;
    assert MixWord(0x8c86b554, 0x74697465) == 0x09b51544;
    assert 0x09b51544 + 0x69 * PRIME_5 == 0x33259cdd && Rotate(0x33259cdd, 11) == 0x2ce6e999;
    assert MixByte(0x09b51544, 0x69) == 0xcdefd3c9;
    assert 0xcdefd3c9 + 0x6f * PRIME_5 == 0x7d66c988 && Rotate(0x7d66c988, 11) == 0x364c43eb;
    assert MixByte(0xcdefd3c9, 0x6f) == 0x3852087b;
    assert 0x3852087b + 0x6e * PRIME_5 == 0xd1729689 && Rotate(0xd1729689, 11) == 0x94b44e8b;
    assert MixByte(0x3852087b, 0x6e) == 0xb3a7011b;
    assert t[6..] == [0x6e];
    assert Tail(0x3852087b, t[6..]) == 0xb3a7011b;
    assert t[5..] == [0x6f, 0x6e];
    assert Tail(0xcdefd3c9, t[5..]) == 0xb3a7011b;
    assert t[4..] == [0x69, 0x6f, 0x6e];
    assert Tail(0x09b51544, t[4..]) == 0xb3a7011b;
    assert Tail(0x8c86b554, t) == 0xb3a7011b;
  }

  lemma SentenceStart()
    ensures Converge(Lanes(0x719a836e, 0x514c1de8, 0x97fa4ba2, 0x242a97a2)) == 0x8c86b52d && WithLength(0x8c86b52d, 39) == 0x8c86b554
  {
    hide Low32;
    Low39();
    assert Rotate(0x719a836e, 1) == 0xe33506dc && Rotate(0x514c1de8, 7) == 0xa60ef428;
    assert Rotate(0x97fa4ba2, 12) == 0xa4ba297f && Rotate(0x242a97a2, 18) == 0x5e8890aa;
  }

  lemma SentenceEnd()
    ensures Avalanche(0xb3a7011b) == 0xe2293b2f
  {
    assert ((0xb3a7011b as Word32) ^ ((0xb3a7011b as Word32) >> 15)) * PRIME_2 == 0xe81fa383;
    assert ((0xe81fa383 as Word32) ^ ((0xe81fa383 as Word32) >> 13)) * PRIME_3 == 0xe229d906;
  }

  lemma Low39()
    ensures Low32(39) == 39
  {
    assert 39 % 0x1_0000_0000 == 39;
  }

  /** "Nobody inspects the spammish repetition". */
  lemma Sentence(m: seq<Byte>)
    requires m ==
      [0x4e, 0x6f, 0x62, 0x6f, 0x64, 0x79, 0x20, 0x69, 0x6e, 0x73, 0x70, 0x65, 0x63, 0x74, 0x73, 0x20]
      + [0x74, 0x68, 0x65, 0x20, 0x73, 0x70, 0x61, 0x6d, 0x6d, 0x69, 0x73, 0x68, 0x20, 0x72, 0x65, 0x70]
      + [0x65, 0x74, 0x69, 0x74, 0x69, 0x6f, 0x6e]
    ensures Xxh32(0x00000000, m) == 0xe2293b2f
  {
    hide Stripes, Tail, Xxh32, Start, Converge, ShortStart, WithLength, Avalanche;
    SentenceStart();
    SentenceEnd();
    SentenceStripes(m);
    SentenceTail(m[32..]);
    Long(0x00000000, m, 0x8c86b52d, 0x8c86b554, 0xb3a7011b, 0xe2293b2f);
  }
}
