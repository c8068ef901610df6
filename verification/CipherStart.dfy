/** How a cipher starts, in numbers: the seeds, and one cipher from its seed to its pad. */
module CipherStart {
  import opened Bytes
  import opened CipherState
  import opened Keystream
  import Md5

  //////////////////////////////////////////////////////////////////////////
  // Seeds.
  //////////////////////////////////////////////////////////////////////////

  function Scale(m: bv32): bv32 { 0x10dcd * m }

  /** The powers of the multiplier 0x10dcd, modulo 2^32. */
  function Multiplier(n: nat): bv32 {
    if n == 0 then 1 else Scale(Multiplier(n - 1))
  }

  /** What the increments 0x4271 have come to: after each further step they are scaled
      with the rest, and one more is added. */
  function Increments(n: nat): bv32 {
    if n == 0 then 0 else Scaled(Increments(n - 1))
  }

  function Scaled(i: bv32): bv32 { 0x10dcd * i + 0x4271 }

  function Affine(m: bv32, i: bv32, seed: bv32): bv32 { m * seed + i }

  /** n steps from a seed: a power of the multiplier times the seed, and the increments,
      modulo 2^32. */
  lemma {:induction false} SeedAfterIs(seed: bv32, n: nat)
    ensures SeedAfter(seed, n) == Affine(Multiplier(n), Increments(n), seed)
  {
    hide SeedStep, Affine, Scale, Scaled;
    if n == 0 {
      StartsThere(seed);
    } else {
      SeedAfterIs(seed, n - 1);
      StepOfAffine(Multiplier(n - 1), Increments(n - 1), seed);
    }
  }

  lemma StartsThere(seed: bv32)
    ensures Affine(1, 0, seed) == seed
  {
  }

  lemma StepOfAffine(m: bv32, i: bv32, seed: bv32)
    ensures SeedStep(Affine(m, i, seed)) == Affine(Scale(m), Scaled(i), seed)
  {
    StepOfSum(m, i, seed);
    assert Affine(m, i, seed) == m * seed + i;
    assert Scale(m) == 0x10dcd * m && Scaled(i) == 0x10dcd * i + 0x4271;
    hide SeedStep, Affine, Scale, Scaled;
  }

  lemma StepOfSum(m: bv32, i: bv32, seed: bv32)
    ensures SeedStep(m * seed + i) == Affine(0x10dcd * m, 0x10dcd * i + 0x4271, seed)
  {
  }

  //////////////////////////////////////////////////////////////////////////
  // One cipher.
  //////////////////////////////////////////////////////////////////////////

  /** The twenty words of the seed 0xFACB1238. */
  function KeyWords(): Key {
    [
      0x36c2b149, 0x6e31eee6, 0xb6043e9f, 0x37337ac4, 0x4c398565,
      0x7b3b3552, 0xe5711f1b, 0x99458a10, 0xcec2a141, 0x154cb07e,
      0xa3ddfd57, 0x7bf88c1c, 0x7141e0dd, 0xeb098c6a, 0x3f311553,
      0x2db68ce8, 0x6d3ee039, 0x8cf5b516, 0x100a630f, 0xc2685874
    ]
  }

  lemma KeySteps()
    ensures var k := KeyWords(); SeedStep(0xFACB1238) == k[0] && forall i :: 0 <= i < 19 ==> SeedStep(k[i]) == k[i + 1]
  {
    assert SeedStep(0xfacb1238) == 0x36c2b149;
    assert SeedStep(0x36c2b149) == 0x6e31eee6;
    assert SeedStep(0x6e31eee6) == 0xb6043e9f;
    assert SeedStep(0xb6043e9f) == 0x37337ac4;
    assert SeedStep(0x37337ac4) == 0x4c398565;
    assert SeedStep(0x4c398565) == 0x7b3b3552;
    assert SeedStep(0x7b3b3552) == 0xe5711f1b;
    assert SeedStep(0xe5711f1b) == 0x99458a10;
    assert SeedStep(0x99458a10) == 0xcec2a141;
    assert SeedStep(0xcec2a141) == 0x154cb07e;
    assert SeedStep(0x154cb07e) == 0xa3ddfd57;
    assert SeedStep(0xa3ddfd57) == 0x7bf88c1c;
    assert SeedStep(0x7bf88c1c) == 0x7141e0dd;
    assert SeedStep(0x7141e0dd) == 0xeb098c6a;
    assert SeedStep(0xeb098c6a) == 0x3f311553;
    assert SeedStep(0x3f311553) == 0x2db68ce8;
    assert SeedStep(0x2db68ce8) == 0x6d3ee039;
    assert SeedStep(0x6d3ee039) == 0x8cf5b516;
    assert SeedStep(0x8cf5b516) == 0x100a630f;
    assert SeedStep(0x100a630f) == 0xc2685874;
    hide SeedStep;
  }

  lemma OneMoreSeed(s: bv32, n: nat)
    ensures SeedAfter(s, 0) == s && SeedAfter(s, n + 1) == SeedStep(SeedAfter(s, n))
  {
    hide SeedStep;
  }

  lemma TwentySteps()
    ensures SeedKey(0xFACB1238) == KeyWords() && SeedAfter(0xFACB1238, 20) == 0xc2685874
  {
    var s: bv32, k := 0xFACB1238, KeyWords();
    KeySteps();
    hide SeedStep, SeedAfter;
    OneMoreSeed(s, 0);
    for i := 0 to 20
      invariant i > 0 ==> SeedAfter(s, i) == k[i - 1]
      invariant forall j :: 0 <= j < i ==> SeedAfter(s, j + 1) == k[j]
    {
      OneMoreSeed(s, i);
    }
  }

  /** The words of a key lie in the pad low byte first. */
  lemma KeyByteIs(k: Key, i: nat)
    requires i < 80
    ensures KeyByte(k, i) == Md5.WordBytes(k[i / 4])[i % 4]
  {
    hide Md5.WordBytes, ShiftedDown;
    var w, b := k[i / 4], i % 4;
    ShiftedBytes(w);
    KeyByteShifts(k, i);
    if b == 0 {
      assert 8 * b == 0;
    } else if b == 1 {
      assert 8 * b == 8;
    } else if b == 2 {
      assert 8 * b == 16;
    } else {
      assert 8 * b == 24;
    }
  }

  lemma KeyByteShifts(k: Key, i: nat)
    requires i < 80
    ensures KeyByte(k, i) == ShiftedDown(k[i / 4], 8 * (i % 4))
  {
    hide ShiftedDown;
  }

  lemma ShiftedBytes(w: bv32)
    ensures var b := Md5.WordBytes(w);
            ShiftedDown(w, 0) == b[0] && ShiftedDown(w, 8) == b[1] &&
            ShiftedDown(w, 16) == b[2] && ShiftedDown(w, 24) == b[3]
  {
  }

  /** The type 0x40 takes its pad from the key alone. */
  lemma TypeFromKey(m: Mixers, seed: bv32)
    ensures Supported(0x40) && !AddsToLookup(0x40) && !Mixes(0x40)
    ensures var p := PadInit(m, seed, 0x40);
            p.seed == SeedAfter(seed, 20) && forall i :: 0 <= i < 63 ==> p.pad[i] == KeyByte(SeedKey(seed), i)
  {
    hide SeedAfter, SeedKey, KeyByte;
    assert !UsesCube(0x40) && UsesKey(0x40);
    ZeroXors(seq(63, i requires 0 <= i < 63 => KeyByte(SeedKey(seed), i)));
  }

  lemma ZeroXors(s: seq<byte>)
    ensures forall i :: 0 <= i < |s| ==> 0 ^ s[i] == s[i]
  {
  }

  lemma WordsInBytes()
    ensures Md5.WordBytes(KeyWords()[0]) == [0x49, 0xb1, 0xc2, 0x36]
    ensures Md5.WordBytes(KeyWords()[4]) == [0x65, 0x85, 0x39, 0x4c]
    ensures Md5.WordBytes(KeyWords()[5]) == [0x52, 0x35, 0x3b, 0x7b]
    ensures Md5.WordBytes(KeyWords()[6]) == [0x1b, 0x1f, 0x71, 0xe5]
  {
  }

  lemma StartsAt20()
    ensures StartPos(0xc2685874) == 20
  {
    assert SeedStep(0xc2685874) == 0x5280fb55;
    assert High16(0x5280fb55) == 0x5280;
  }

  /** The bytes of the pad around the start, the key's but for every third one. */
  lemma PadAround20(m: Mixers)
    ensures var s := Init(m, 0xFACB1238, 0x40, seq(20, _ => 0)).value;
            s.pos == 20 && s.addToLookup == 0 && s.lookup == Identity() &&
            s.pad[19..28] == [0x4c, 0xc1, 0x35, 0x3b, 0x9b, 0x1b, 0x1f, 0xa9, 0xe5]
  {
    hide SeedAfter, KeyWords, StartPos, Supported, Mixes, AddsToLookup, Identity, Adjust, Rekey, PadInit;
    var p := PadInit(m, 0xFACB1238, 0x40);
    TypeFromKey(m, 0xFACB1238);
    TwentySteps();
    StartsAt20();
    FirstPad(m);
    AdjustedAlready(p.pad);
    RekeyedPad(p.pad);
  }

  /** The pad before it is rekeyed. */
  lemma FirstPad(m: Mixers)
    ensures var p := PadInit(m, 0xFACB1238, 0x40).pad;
            p[0] == 0x49 && p[19..28] == [0x4c, 0x52, 0x35, 0x3b, 0x7b, 0x1b, 0x1f, 0x71, 0xe5]
  {
    hide SeedKey, SeedAfter, KeyWords, KeyByte, Md5.WordBytes, PadInit, Supported, Mixes, AddsToLookup;
    var p := PadInit(m, 0xFACB1238, 0x40);
    TypeFromKey(m, 0xFACB1238);
    TwentySteps();
    WordsInBytes();
    forall i | 0 <= i < 63
      ensures p.pad[i] == Md5.WordBytes(KeyWords()[i / 4])[i % 4]
    {
      KeyByteIs(KeyWords(), i);
    }
    assert p.pad[19] == Md5.WordBytes(KeyWords()[4])[3];
    assert p.pad[20] == Md5.WordBytes(KeyWords()[5])[0] && p.pad[21] == Md5.WordBytes(KeyWords()[5])[1];
    assert p.pad[22] == Md5.WordBytes(KeyWords()[5])[2] && p.pad[23] == Md5.WordBytes(KeyWords()[5])[3];
    assert p.pad[24] == Md5.WordBytes(KeyWords()[6])[0] && p.pad[25] == Md5.WordBytes(KeyWords()[6])[1];
    assert p.pad[26] == Md5.WordBytes(KeyWords()[6])[2] && p.pad[27] == Md5.WordBytes(KeyWords()[6])[3];
    assert p.pad[0] == Md5.WordBytes(KeyWords()[0])[0];
  }

  /** What rekeying changes there. */
  lemma RekeyedPad(pad: seq<byte>)
    requires |pad| == 63 && pad[19..28] == [0x4c, 0x52, 0x35, 0x3b, 0x7b, 0x1b, 0x1f, 0x71, 0xe5]
    ensures Rekey(pad, 20)[19..28] == [0x4c, 0xc1, 0x35, 0x3b, 0x9b, 0x1b, 0x1f, 0xa9, 0xe5]
  {
    hide Rekey, LessOne;
    var w := RekeyIs(pad, 20);
    Around20();
    var r, p := Rekey(pad, 20), pad[19..28];
    assert r[19] == p[0] && r[21] == p[2] && r[22] == p[3] && r[24] == p[5] && r[25] == p[6] && r[27] == p[8];
    assert r[20] == LessOne(p[1], 20) && r[23] == LessOne(p[4], 23) && r[26] == LessOne(p[7], 26);
  }

  lemma Around20()
    ensures LessOne(0x52, 20) == 0xc1 && LessOne(0x7b, 23) == 0x9b && LessOne(0x71, 26) == 0xa9
  {
  }

  /** A pad with an odd byte is left alone. */
  lemma AdjustedAlready(pad: seq<byte>)
    requires |pad| == 63 && pad[0] == 0x49
    ensures Adjust(pad) == pad
  {
    HasOddBitIff(pad, 63);
    assert pad[..63] == pad && Odd(pad[0]) && pad[0] in pad;
  }

  /** The first eight bytes of its keystream, whatever the mixing functions are. */
  lemma FirstKeystream(m: Mixers)
    ensures Supported(0x40)
    ensures Crypt(m, Init(m, 0xFACB1238, 0x40, seq(20, _ => 0)).value, [0, 0, 0, 0, 0, 0, 0, 0]) ==
            [0x0d, 0x42, 0x7d, 0x18, 0x33, 0x52, 0xfb, 0xe0]
  {
    TypeFromKey(m, 0xFACB1238);
    PadAround20(m);
    var s := Init(m, 0xFACB1238, 0x40, seq(20, _ => 0)).value;
    hide Init, SeedAfter, Supported, Crypt, Identity, TotalAt;
    Totals(s);
    Zeros(m, s);
    EightOutputs(m, s);
  }

  lemma EightOutputs(m: Mixers, s: State)
    requires s.Shaped() && s.pos == 20 && s.addToLookup == 0 && s.lookup == Identity()
    ensures seq(8, n requires 0 <= n < 8 => Output(m, After(m, s, n))) ==
            [TotalAt(s, 20), TotalAt(s, 21), TotalAt(s, 22), TotalAt(s, 23),
             TotalAt(s, 24), TotalAt(s, 25), TotalAt(s, 26), TotalAt(s, 27)]
  {
    hide Output, After, TotalAt, Identity, LookupIndex;
    forall n | 0 <= n < 8
      ensures Output(m, After(m, s, n)) == TotalAt(s, 20 + n)
    {
      KeystreamIs(m, s, n);
      IdentityIs(TotalAt(s, 20 + n));
    }
  }

  /** Encrypting zeros is listing the keystream. */
  lemma Zeros(m: Mixers, s: State)
    requires s.Shaped()
    ensures Crypt(m, s, [0, 0, 0, 0, 0, 0, 0, 0]) == seq(8, n requires 0 <= n < 8 => Output(m, After(m, s, n)))
  {
    hide Output, After;
    ZeroXors(seq(8, n requires 0 <= n < 8 => Output(m, After(m, s, n))));
  }

  lemma IdentityIs(x: byte)
    ensures Identity()[LookupIndex(0, x) as nat] == x
  {
    assert LookupIndex(0, x) == x;
    NatOfByte(x);
  }

  lemma Totals(s: State)
    requires s.Shaped() && s.pos == 20
    requires s.pad[19..28] == [0x4c, 0xc1, 0x35, 0x3b, 0x9b, 0x1b, 0x1f, 0xa9, 0xe5]
    ensures TotalAt(s, 20) == 0x0d && TotalAt(s, 21) == 0x42 && TotalAt(s, 22) == 0x7d && TotalAt(s, 23) == 0x18 &&
            TotalAt(s, 24) == 0x33 && TotalAt(s, 25) == 0x52 && TotalAt(s, 26) == 0xfb && TotalAt(s, 27) == 0xe0
  {
    var p := s.pad;
    assert p[19] == p[19..28][0] && p[20] == p[19..28][1] && p[21] == p[19..28][2] && p[22] == p[19..28][3];
    assert p[23] == p[19..28][4] && p[24] == p[19..28][5] && p[25] == p[19..28][6] && p[26] == p[19..28][7];
    assert p[27] == p[19..28][8];
    SumOfOne(s);
    NextTotal(s, 21);
    NextTotal(s, 22);
    NextTotal(s, 23);
    NextTotal(s, 24);
    NextTotal(s, 25);
    NextTotal(s, 26);
    NextTotal(s, 27);
    hide TotalAt, ByteSum;
  }

  //////////////////////////////////////////////////////////////////////////
  // The parts of a start which that cipher does not need.
  //////////////////////////////////////////////////////////////////////////

  /** The three mixing functions come in order, each with the next seed: for a type with
      all three bits, and for those with one. */
  lemma MixingOrder(m: Mixers, seed: bv32)
    ensures PadKey(m, seed, 0xa2) ==
            Keyed(m.enc80(m.enc20(m.enc2(SeedKey(seed), SeedAfter(seed, 21)), SeedAfter(seed, 22)),
                          SeedAfter(seed, 23)),
                  SeedAfter(seed, 23))
    ensures PadKey(m, seed, 0x02) == Keyed(m.enc2(SeedKey(seed), SeedAfter(seed, 21)), SeedAfter(seed, 21))
    ensures PadKey(m, seed, 0x20) == Keyed(m.enc20(SeedKey(seed), SeedAfter(seed, 21)), SeedAfter(seed, 21))
    ensures PadKey(m, seed, 0x80) == Keyed(m.enc80(SeedKey(seed), SeedAfter(seed, 21)), SeedAfter(seed, 21))
    ensures PadKey(m, seed, 0x40) == Keyed(SeedKey(seed), SeedAfter(seed, 20))
  {
    hide SeedKey, SeedStep, SeedAfter;
    OneMoreSeed(seed, 20);
    OneMoreSeed(seed, 21);
    OneMoreSeed(seed, 22);
  }

  /** A byte of the key given to enc_type_1 counts the upper 15 bits of a seed, and starts
      again after 223. */
  lemma CubeBytes()
    ensures CubeByte(0x0001_ffff) == 0 && CubeByte(0x0002_0000) == 1 && CubeByte(0x01bf_ffff) == 223
    ensures CubeByte(0x01c0_0000) == 0 && CubeByte(0xffff_ffff) == 63
  {
  }

  /** Each of the 255 bytes has its own seed; the types without any of the bits 0x1e7
      have a cube as those with bit 1. */
  lemma CubeInputIs(seed: bv32, i: nat)
    requires i < 255
    ensures CubeInput(seed)[i] == CubeByte(SeedAfter(seed, i + 1))
    ensures UsesCube(0x01) && UsesCube(0x00) && UsesCube(0x29) && UsesCube(0x08) && !UsesCube(0x02) && !UsesCube(0x40)
  {
    hide SeedAfter, CubeByte;
  }

  /** The lookup table is shuffled by the first four bytes of the pad's MD5 digest. */
  lemma DigestWordIs(pad: seq<byte>)
    ensures Md5.WordBytes(DigestWord(pad)) == Md5.DigestOf(pad)[..4]
  {
    hide Md5.DigestOf, Md5.WordBytes, Md5.Word;
    var d := Md5.DigestOf(pad);
    FourBytes(d[0], d[1], d[2], d[3]);
    assert d[..4] == [d[0], d[1], d[2], d[3]];
  }

  lemma FourBytes(a: byte, b: byte, c: byte, d: byte)
    ensures Md5.WordBytes(Md5.Word(a, b, c, d)) == [a, b, c, d]
  {
  }

  /** A pad of zeros gets an odd first byte and is otherwise left alone. */
  lemma AdjustedZeros()
    ensures Adjust(seq(63, _ => 0)) == [0x71] + seq(62, _ => 0)
  {
    var zeros: seq<byte> := seq(63, _ => 0);
    HasOddBitIff(zeros, 63);
    assert zeros[..63] == zeros && forall b :: b in zeros ==> b == 0;
    assert (0 as byte) | 0x71 == 0x71;
  }

  /** A drawn number is the fraction of the bound that the upper half of the seed is of
      2^16, rounded down. */
  lemma DrawIs(num: bv32, val: nat)
    requires 0 < val <= 256
    ensures 0x1_0000 * Draw(num, val) <= High16(num) * val < 0x1_0000 * (Draw(num, val) + 1)
  {
    hide High16;
    Rounded(High16(num) * val);
  }

  lemma Rounded(p: nat)
    ensures 0x1_0000 * (p / 0x1_0000) <= p < 0x1_0000 * (p / 0x1_0000 + 1)
  {
  }

  /** The n-th place, from the front, gets a byte drawn from those at it and behind it. */
  lemma ShuffleIs(num: bv32, n: nat)
    requires n < 256
    ensures var s, t := Shuffle(num, n), Shuffle(num, n + 1);
            var d := n + Draw(SeedAfter(num, n + 1), 256 - n);
            n <= d < 256 && t[n] == s[d] && t[d] == s[n] &&
            forall i :: 0 <= i < 256 && i != n && i != d ==> t[i] == s[i]
  {
    hide Draw, SeedAfter, Identity, Shuffle, Swapped;
    ShuffleStep(num, n);
    SwappedIs(Shuffle(num, n), n, n + Draw(SeedAfter(num, n + 1), 256 - n));
  }

  lemma ShuffleStep(num: bv32, n: nat)
    requires n < 256
    ensures Shuffle(num, n + 1) == Swapped(Shuffle(num, n), n, n + Draw(SeedAfter(num, n + 1), 256 - n))
  {
    hide Draw, SeedAfter, Identity, Swapped;
  }

  lemma ShuffleStarts(num: bv32)
    ensures Shuffle(num, 0) == Identity()
  {
  }

  lemma SwappedIs(s: seq<byte>, i: nat, j: nat)
    requires i < |s| && j < |s|
    ensures var t := Swapped(s, i, j);
            t[i] == s[j] && t[j] == s[i] && forall k :: 0 <= k < |s| && k != i && k != j ==> t[k] == s[k]
  {
  }

  /** The position is the fraction of 63 that the upper half of the next seed is of 2^16. */
  lemma StartPosIs(seed: bv32)
    ensures StartPos(seed) == Draw(SeedStep(seed), 63)
  {
    hide SeedStep, High16;
  }
}
