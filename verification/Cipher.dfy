/** fst_crypt.c: the stream cipher's state machine as functions of its state, and
    what every reachable state satisfies. */
module CipherState {
  import opened Bytes
  import Md5

  /** The byte strings of the four mixing functions, each a function of its input
      alone. */
  type Key = k: seq<bv32> | |k| == 20 witness seq(20, _ => 0)

  type Block = b: seq<byte> | |b| == 256 witness seq(256, _ => 0)

  datatype Mixers = Mixers(enc1: seq<byte> -> Block, enc2: (Key, bv32) -> Key,
                           enc20: (Key, bv32) -> Key, enc80: (Key, bv32) -> Key)

  const PAD: nat := 63

  datatype State = State(pos: nat, wrapcount: bv32, addToLookup: bv32, encType: bv32,
                         pad: seq<byte>, lookup: seq<byte>, pad16: seq<bv32>)
  {
    predicate Shaped() {
      pos < PAD && |pad| == PAD && |lookup| == 256 && |pad16| == 20
    }
  }

  //////////////////////////////////////////////////////////////////////////
  // Keys from seeds.
  //////////////////////////////////////////////////////////////////////////

  function SeedStep(seed: bv32): bv32 {
    0x10dcd * seed + 0x4271
  }

  function SeedAfter(seed: bv32, n: nat): bv32 {
    if n == 0 then seed else SeedStep(SeedAfter(seed, n - 1))
  }

  function SeedKey(seed: bv32): Key {
    seq(20, i requires 0 <= i => SeedAfter(seed, i + 1))
  }

  /** The key enc_type_2 makes of twenty steps from a seed. */
  function MixedKey(m: Mixers, seed: bv32): Key {
    m.enc2(SeedKey(seed), SeedAfter(seed, 21))
  }

  /** fst_cipher_mangle_enc_type. */
  function Mangle(m: Mixers, seed: bv32, encType: bv32): bv32 {
    encType ^ MixedKey(m, seed)[7]
  }

  /** Mangling an encryption type twice under one seed restores it. */
  lemma MangleInvolutes(m: Mixers, seed: bv32, encType: bv32)
    ensures Mangle(m, seed, Mangle(m, seed, encType)) == encType
  {
    XorTwice(encType, MixedKey(m, seed)[7]);
  }

  lemma XorTwice(a: bv32, b: bv32)
    ensures (a ^ b) ^ b == a
  {
  }

  //////////////////////////////////////////////////////////////////////////
  // Sorting five bytes.
  //////////////////////////////////////////////////////////////////////////

  /** qsort_cmp_func compares bytes with bit 5 inverted. */
  predicate Precedes(a: byte, b: byte) { a ^ 0x20 <= b ^ 0x20 }

  lemma PrecedesOrders(a: byte, b: byte, c: byte)
    ensures Precedes(a, a) && (Precedes(a, b) || Precedes(b, a))
    ensures Precedes(a, b) && Precedes(b, c) ==> Precedes(a, c)
    ensures Precedes(a, b) && Precedes(b, a) ==> a == b
  {
  }

  predicate FirstIn(b: byte, s: seq<byte>) {
    forall x :: x in s ==> Precedes(b, x)
  }

  predicate Ordered(s: seq<byte>) {
    s == [] || (FirstIn(s[0], s[1..]) && Ordered(s[1..]))
  }

  function Insert(b: byte, s: seq<byte>): (r: seq<byte>)
    ensures |r| == |s| + 1 && multiset(r) == multiset(s) + multiset{b}
  {
    if s == [] then [b]
    else
      assert s == [s[0]] + s[1..];
      if Precedes(b, s[0]) then [b] + s else [s[0]] + Insert(b, s[1..])
  }

  function Sorted(s: seq<byte>): (r: seq<byte>)
    ensures |r| == |s| && multiset(r) == multiset(s)
  {
    if s == [] then []
    else
      assert s == [s[0]] + s[1..];
      Insert(s[0], Sorted(s[1..]))
  }

  /** Permuting bytes does not change what comes before them. */
  lemma FirstInPermuted(b: byte, s: seq<byte>, t: seq<byte>)
    requires FirstIn(b, s) && multiset(t) <= multiset(s)
    ensures FirstIn(b, t)
  {
    forall x | x in t
      ensures Precedes(b, x)
    {
      assert x in multiset(t);
      assert x in multiset(s);
    }
  }

  lemma FirstBefore(a: byte, b: byte, s: seq<byte>)
    requires Precedes(a, b) && FirstIn(b, s)
    ensures FirstIn(a, s)
  {
    forall x | x in s
      ensures Precedes(a, x)
    {
      PrecedesOrders(a, b, x);
    }
  }

  lemma {:induction false} InsertOrders(b: byte, s: seq<byte>)
    requires Ordered(s)
    ensures Ordered(Insert(b, s))
  {
    hide Precedes;
    if s == [] {
      assert [b][1..] == [];
    } else if Precedes(b, s[0]) {
      PrecedesOrders(b, s[0], s[0]);
      FirstBefore(b, s[0], s[1..]);
      assert ([b] + s)[1..] == s;
    } else {
      PrecedesOrders(b, s[0], b);
      InsertOrders(b, s[1..]);
      var r := Insert(b, s[1..]);
      FirstInPermuted(s[0], s[1..] + [b], r);
      assert ([s[0]] + r)[1..] == r;
    }
  }

  lemma {:induction false} SortedOrders(s: seq<byte>)
    ensures Ordered(Sorted(s))
  {
    hide Precedes, Insert;
    if s != [] {
      SortedOrders(s[1..]);
      InsertOrders(s[0], Sorted(s[1..]));
    }
  }

  lemma {:induction false} OrderedUnique(s: seq<byte>, t: seq<byte>)
    requires Ordered(s) && Ordered(t) && multiset(s) == multiset(t)
    ensures s == t
  {
    hide Precedes;
    assert |s| == |multiset(s)| == |t|;
    if s != [] {
      assert s == [s[0]] + s[1..] && t == [t[0]] + t[1..];
      HeadsAgree(s, t);
      assert multiset(s[1..]) == multiset(s) - multiset{s[0]};
      assert multiset(t[1..]) == multiset(t) - multiset{s[0]};
      OrderedUnique(s[1..], t[1..]);
    }
  }

  lemma HeadsAgree(s: seq<byte>, t: seq<byte>)
    requires s != [] && t != [] && multiset(s) == multiset(t)
    requires FirstIn(s[0], s[1..]) && FirstIn(t[0], t[1..])
    ensures s[0] == t[0]
  {
    hide Precedes;
    assert s[0] in multiset(t) && t[0] in multiset(s);
    assert s == [s[0]] + s[1..] && t == [t[0]] + t[1..];
    assert t[0] in s && s[0] in t;
    PrecedesOrders(s[0], t[0], t[0]);
  }

  /** Whatever algorithm qsort uses, two ciphers in step stay in step: an ordered
      permutation of five bytes is this one. */
  lemma SortIsUnique(s: seq<byte>, t: seq<byte>)
    requires Ordered(t) && multiset(t) == multiset(s)
    ensures t == Sorted(s)
  {
    SortedOrders(s);
    OrderedUnique(t, Sorted(s));
  }

  //////////////////////////////////////////////////////////////////////////
  // Stirring the pad.
  //////////////////////////////////////////////////////////////////////////

  function SortWindow(pad: seq<byte>, at: nat): (r: seq<byte>)
    requires at + 5 <= |pad|
    ensures |r| == |pad| && multiset(r) == multiset(pad)
  {
    assert pad == pad[..at] + pad[at..at + 5] + pad[at + 5..];
    pad[..at] + Sorted(pad[at..at + 5]) + pad[at + 5..]
  }

  /** Five bytes from here are sorted; the last of them is inside the pad. */
  function SortPos(n: nat): (at: nat)
    ensures at + 5 <= PAD
  {
    (n * n + 2) % (PAD - 4)
  }

  function Stirred(c: byte, i: nat): byte
    requires i < 256
  {
    (!c + i as byte) | 1
  }

  predicate IsThird(i: nat) { i >= 5 && (i - 5) % 3 == 0 }

  /** Every third byte from the fifth on, modified. */
  function Stir(pad: seq<byte>): (r: seq<byte>)
    requires |pad| == PAD
    ensures |r| == PAD
  {
    seq(PAD, i requires 0 <= i < PAD => if IsThird(i) then Stirred(pad[i], i) else pad[i])
  }

  function Rekey(pad: seq<byte>, n: nat): (r: seq<byte>)
    requires |pad| == PAD
    ensures |r| == PAD
  {
    Stir(SortWindow(pad, SortPos(n)))
  }

  predicate Odd(b: byte) { b & 1 == 1 }

  predicate HasOdd(pad: seq<byte>) {
    exists b :: b in pad && Odd(b)
  }

  predicate NonZero(pad: seq<byte>) {
    exists b :: b in pad && b != 0
  }

  /** Stirring always leaves odd bytes behind. */
  lemma RekeyHasOdd(pad: seq<byte>, n: nat)
    requires |pad| == PAD
    ensures HasOdd(Rekey(pad, n))
  {
    hide SortWindow;
    var p, r := SortWindow(pad, SortPos(n)), Rekey(pad, n);
    StirredIsOdd(p[5], 5);
    assert r[5] == Stirred(p[5], 5);
    assert r[5] in r;
  }

  lemma StirredIsOdd(c: byte, i: nat)
    requires i < 256
    ensures Odd(Stirred(c, i))
  {
  }

  //////////////////////////////////////////////////////////////////////////
  // The clock.
  //////////////////////////////////////////////////////////////////////////

  function LastPos(pos: nat): (p: nat)
    requires pos < PAD
    ensures p < PAD
  {
    if pos > 0 then pos - 1 else PAD - 1
  }

  /** The running total at the current position. */
  function Total(pad: seq<byte>, pos: nat): (r: seq<byte>)
    requires |pad| == PAD && pos < PAD
    ensures |r| == PAD
  {
    pad[pos := pad[pos] + pad[LastPos(pos)]]
  }

  predicate Stirs(x: byte) { x & 0x70 == 0 }

  /** What the pad is when the byte xor has been taken from it. */
  function Mangled(pad: seq<byte>, pos: nat): (r: seq<byte>)
    requires |pad| == PAD && pos < PAD
    ensures |r| == PAD
  {
    var t := Total(pad, pos);
    if pos == 7 && Stirs(t[pos]) then Rekey(t, t[pos] as nat + t[2] as nat) else t
  }

  function ShiftFactor(pad: seq<byte>): bv6
    requires |pad| == PAD
  {
    (pad[0x18] & 0x0f) as bv6
  }

  function PadOffset(pad: seq<byte>): (n: nat)
    requires |pad| == PAD
    ensures n <= 31
  {
    (pad[0x19] & 0x1f) as bv5 as nat
  }

  function MixByte(k: bv32, shift: bv6): byte
    requires shift < 16
  {
    ((k >> shift) & 0xff) as byte
  }

  lemma ShiftFits(pad: seq<byte>)
    requires |pad| == PAD
    ensures ShiftFactor(pad) < 16
  {
  }

  /** The six bytes of the xor window, and the bit set in its fifth byte. */
  function XorWindow(pad: seq<byte>, pad16: seq<bv32>): (r: seq<byte>)
    requires |pad| == PAD && |pad16| == 20
    ensures |r| == PAD
  {
    ShiftFits(pad);
    var at, shift := PadOffset(pad), ShiftFactor(pad);
    seq(PAD, i requires 0 <= i < PAD =>
      if at <= i < at + 6 then pad[i] ^ MixByte(pad16[i - at], shift) else pad[i])
  }

  function Mix(pad: seq<byte>, pad16: seq<bv32>): (r: seq<byte>)
    requires |pad| == PAD && |pad16| == 20
    ensures |r| == PAD
  {
    var x := XorWindow(pad, pad16);
    var at := PadOffset(pad) + 4;
    x[at := x[at] | BitOf(x[0x0a])]
  }

  function BitOf(b: byte): byte {
    1 << ((b & 7) as bv4)
  }

  lemma BitIsSet(b: byte, x: byte)
    ensures x | BitOf(b) != 0
  {
  }

  /** Bits of the encryption type. */
  predicate AddsToLookup(encType: bv32) { encType & 0x08 != 0 }

  predicate Mixes(encType: bv32) { encType & 0x10 != 0 }

  predicate EverySixteenth(wrapcount: bv32) { wrapcount & 15 == 0 }

  function Inc(n: bv32): bv32 { n + 1 }

  /** What happens when the position wraps around. */
  function Wrap(m: Mixers, s: State): (r: State)
    requires s.Shaped()
    ensures r.Shaped()
  {
    var wrapcount := Inc(s.wrapcount);
    var add := if AddsToLookup(s.encType) then Inc(s.addToLookup) else s.addToLookup;
    if Mixes(s.encType) then
      var pad16 := if EverySixteenth(wrapcount) then MixedKey(m, wrapcount) else s.pad16;
      State(0, wrapcount, add, s.encType, Mix(s.pad, s.pad16), s.lookup, pad16)
    else State(0, wrapcount, add, s.encType, s.pad, s.lookup, s.pad16)
  }

  /** The state after fst_cipher_clock. */
  function Next(m: Mixers, s: State): (r: State)
    requires s.Shaped()
    ensures r.Shaped() && r.encType == s.encType && r.lookup == s.lookup
  {
    var pad := Mangled(s.pad, s.pos);
    if s.pos + 1 == PAD then Wrap(m, s.(pad := pad))
    else s.(pos := s.pos + 1, pad := pad)
  }

  function LookupIndex(add: bv32, x: byte): byte {
    (add & 0xff) as byte + x
  }

  /** The byte fst_cipher_clock returns. */
  function Output(m: Mixers, s: State): byte
    requires s.Shaped()
  {
    var x := Total(s.pad, s.pos)[s.pos];
    s.lookup[LookupIndex(Next(m, s).addToLookup, x) as nat]
  }

  //////////////////////////////////////////////////////////////////////////
  // What every clock keeps.
  //////////////////////////////////////////////////////////////////////////

  function Identity(): (s: seq<byte>)
    ensures |s| == 256
  {
    seq(256, i requires 0 <= i < 256 => i as byte)
  }

  predicate Permutation(lookup: seq<byte>) {
    multiset(lookup) == multiset(Identity())
  }

  predicate Ready(s: State) {
    s.Shaped() && Permutation(s.lookup) && NonZero(s.pad) && (!Mixes(s.encType) ==> HasOdd(s.pad))
  }

  lemma OddSum(a: byte, b: byte)
    ensures !Odd(a) ==> (Odd(b + a) <==> Odd(b))
    ensures Odd(a) ==> a != 0
    ensures b + 0 == b
  {
  }

  /** A running total changes no byte's parity unless the byte before it is odd. */
  lemma TotalKeeps(pad: seq<byte>, pos: nat)
    requires |pad| == PAD && pos < PAD
    ensures HasOdd(pad) ==> HasOdd(Total(pad, pos))
    ensures NonZero(pad) ==> NonZero(Total(pad, pos))
  {
    hide Odd;
    var r, last := Total(pad, pos), LastPos(pos);
    assert r[last] == pad[last] && r[last] in r;
    OddSum(pad[last], pad[pos]);
    assert r[pos] in r;
    if b :| b in pad && Odd(b) {
      var i :| 0 <= i < PAD && pad[i] == b;
      assert i != pos ==> r[i] == b && r[i] in r;
    }
    if b :| b in pad && b != 0 {
      var i :| 0 <= i < PAD && pad[i] == b;
      assert i != pos ==> r[i] == b && r[i] in r;
    }
  }

  lemma OddIsNonZero(pad: seq<byte>)
    requires HasOdd(pad)
    ensures NonZero(pad)
  {
    hide Odd;
    var b :| b in pad && Odd(b);
    OddSum(b, b);
  }

  lemma {:induction false} MangledKeeps(pad: seq<byte>, pos: nat)
    requires |pad| == PAD && pos < PAD
    ensures HasOdd(pad) ==> HasOdd(Mangled(pad, pos))
    ensures NonZero(pad) ==> NonZero(Mangled(pad, pos))
  {
    hide HasOdd, NonZero, Rekey;
    TotalKeeps(pad, pos);
    var t := Total(pad, pos);
    if pos == 7 && Stirs(t[pos]) {
      RekeyHasOdd(t, t[pos] as nat + t[2] as nat);
      OddIsNonZero(Mangled(pad, pos));
    }
  }

  /** Mixing leaves a bit set. */
  lemma MixNonZero(pad: seq<byte>, pad16: seq<bv32>)
    requires |pad| == PAD && |pad16| == 20
    ensures NonZero(Mix(pad, pad16))
  {
    hide XorWindow, BitOf, PadOffset;
    var x, at := XorWindow(pad, pad16), PadOffset(pad) + 4;
    BitIsSet(x[0x0a], x[at]);
    assert Mix(pad, pad16)[at] in Mix(pad, pad16);
  }

  /** Every clock leaves the lookup table a permutation and the pad with a bit set,
      and without the bit 0x10 of the encryption type some byte of it odd. */
  lemma NextReady(m: Mixers, s: State)
    requires Ready(s)
    ensures Ready(Next(m, s))
  {
    hide HasOdd, NonZero, Permutation, Mangled, Mix, MixedKey;
    MangledKeeps(s.pad, s.pos);
    MixNonZero(Mangled(s.pad, s.pos), s.pad16);
  }

  //////////////////////////////////////////////////////////////////////////
  // Initialization.
  //////////////////////////////////////////////////////////////////////////

  /** The 255 bytes given to enc_type_1. */
  function CubeInput(seed: bv32): (s: seq<byte>)
    ensures |s| == 255
  {
    seq(255, i requires 0 <= i < 255 => CubeByte(SeedAfter(seed, i + 1)))
  }

  function CubeByte(seed: bv32): byte {
    ((seed >> 0x11) % 0xe0 & 0xff) as byte
  }

  function ShiftedDown(w: bv32, s: nat): byte
    requires s <= 24
  {
    ((w >> s) & 0xff) as byte
  }

  /** Byte i of a key laid out in little-endian words. */
  function KeyByte(k: Key, i: nat): byte
    requires i < 80
  {
    ShiftedDown(k[i / 4], 8 * (i % 4))
  }

  predicate UsesCube(encType: bv32) { encType & 1 != 0 || encType & 0x1e7 == 0 }

  predicate UsesKey(encType: bv32) { encType & 0x1e6 != 0 }

  /** Encryption types with bit 0x04 or 0x100 are not implemented. */
  predicate Supported(encType: bv32) { encType & 0x104 == 0 }

  /** A key on its way through pad_init, and the seed that goes with it. */
  datatype Keyed = Keyed(key: Key, seed: bv32)

  function KeyStep(k: Keyed, uses: bool, mix: (Key, bv32) -> Key): Keyed {
    if uses then Keyed(mix(k.key, SeedStep(k.seed)), SeedStep(k.seed)) else k
  }

  function PadKey(m: Mixers, seed: bv32, encType: bv32): Keyed {
    var k0 := Keyed(SeedKey(seed), SeedAfter(seed, 20));
    var k1 := KeyStep(k0, encType & 0x02 != 0, m.enc2);
    var k2 := KeyStep(k1, encType & 0x20 != 0, m.enc20);
    KeyStep(k2, encType & 0x80 != 0, m.enc80)
  }

  datatype PadSeed = PadSeed(pad: seq<byte>, seed: bv32)

  function CubePad(m: Mixers, seed: bv32, encType: bv32): (r: PadSeed)
    ensures |r.pad| == PAD
  {
    if UsesCube(encType) then PadSeed(m.enc1(CubeInput(seed))[..PAD], SeedAfter(seed, 255))
    else PadSeed(seq(PAD, _ => 0), seed)
  }

  /** pad_init for a supported encryption type. */
  function PadInit(m: Mixers, seed: bv32, encType: bv32): (r: PadSeed)
    ensures |r.pad| == PAD
  {
    var c := CubePad(m, seed, encType);
    if UsesKey(encType) then
      var k := PadKey(m, c.seed, encType);
      PadSeed(seq(PAD, i requires 0 <= i < PAD => c.pad[i] ^ KeyByte(k.key, i)), k.seed)
    else c
  }

  /** Sets an odd byte when the pad has none. */
  function Adjust(pad: seq<byte>): (r: seq<byte>)
    requires |pad| == PAD
    ensures |r| == PAD
  {
    if HasOddBit(pad, PAD) then pad else pad[0 := pad[0] | 0x71]
  }

  /** Whether the bytes or-ed together have bit 0. */
  predicate HasOddBit(pad: seq<byte>, n: nat)
    requires n <= |pad|
  {
    n > 0 && (Odd(pad[n - 1]) || HasOddBit(pad, n - 1))
  }

  lemma {:induction false} HasOddBitIff(pad: seq<byte>, n: nat)
    requires n <= |pad|
    ensures HasOddBit(pad, n) <==> HasOdd(pad[..n])
  {
    if n > 0 {
      hide Odd;
      HasOddBitIff(pad, n - 1);
      assert pad[..n] == pad[..n - 1] + [pad[n - 1]];
      if b :| b in pad[..n] && Odd(b) {
        assert b in pad[..n - 1] || b == pad[n - 1];
      }
      if b :| b in pad[..n - 1] && Odd(b) {
        assert b in pad[..n];
      }
    }
  }

  lemma AdjustHasOdd(pad: seq<byte>)
    requires |pad| == PAD
    ensures HasOdd(Adjust(pad))
  {
    HasOddBitIff(pad, PAD);
    assert pad[..PAD] == pad;
    assert Odd(pad[0] | 0x71);
    hide Odd;
    assert Adjust(pad)[0] in Adjust(pad);
  }

  function High16(x: bv32): (n: nat)
    ensures n < 0x1_0000
  {
    (x >> 16) as bv16 as nat
  }

  /** (t << 6) - t is 63 * t. */
  function StartPos(seed: bv32): (pos: nat)
    ensures pos < PAD
  {
    63 * High16(SeedStep(seed)) / 0x1_0000
  }

  /** calculate_num for a number just stepped. */
  function Draw(num: bv32, val: nat): (n: nat)
    requires 0 < val <= 0x100
    ensures n < val
  {
    ScaledBelow(High16(num), val);
    High16(num) * val / 0x1_0000
  }

  lemma ScaledBelow(h: nat, val: nat)
    requires h < 0x1_0000 && val > 0
    ensures 0 <= h * val / 0x1_0000 < val
  {
    assert h * val <= 0xffff * val;
    assert h * val < 0x1_0000 * val;
  }

  function Swapped(s: seq<byte>, i: nat, j: nat): (r: seq<byte>)
    requires i < |s| && j < |s|
    ensures |r| == |s| && multiset(r) == multiset(s)
  {
    s[i := s[j]][j := s[i]]
  }

  /** The lookup table after n draws. */
  function Shuffle(num: bv32, n: nat): (s: seq<byte>)
    requires n <= 256
    ensures |s| == 256 && multiset(s) == multiset(Identity())
  {
    if n == 0 then Identity()
    else
      var i := n - 1;
      Swapped(Shuffle(num, i), i, i + Draw(SeedAfter(num, n), 0x100 - i))
  }

  /** The first word of the pad's MD5 digest. */
  function DigestWord(pad: seq<byte>): bv32 {
    var d := Md5.DigestOf(pad);
    Md5.Word(d[0], d[1], d[2], d[3])
  }

  /** fst_cipher_init, for a cipher whose pad16 was as given. */
  function Init(m: Mixers, seed: bv32, encType: bv32, pad16: seq<bv32>): (r: Option<State>)
    requires |pad16| == 20
    ensures r.Some? ==> r.value.Shaped()
    ensures r.Some? <==> Supported(encType)
  {
    if !Supported(encType) then None
    else
      var p := PadInit(m, seed, encType);
      var pad, pos := Adjust(p.pad), StartPos(p.seed);
      var lookup := if AddsToLookup(encType) then Shuffle(DigestWord(pad), 256) else Identity();
      var k16 := if Mixes(encType) then MixedKey(m, pos as bv32) else pad16;
      Some(State(pos, 0, 0, encType, Rekey(pad, pos), lookup, k16))
  }

  /** An initialized cipher is ready, whatever the seed. */
  lemma {:induction false} InitReady(m: Mixers, seed: bv32, encType: bv32, pad16: seq<bv32>)
    requires |pad16| == 20 && Supported(encType)
    ensures Ready(Init(m, seed, encType, pad16).value)
  {
    hide HasOdd, NonZero, Rekey, PadInit, Adjust, Shuffle, DigestWord, Identity, MixedKey, StartPos, Supported;
    var p := PadInit(m, seed, encType);
    RekeyHasOdd(Adjust(p.pad), StartPos(p.seed));
    OddIsNonZero(Rekey(Adjust(p.pad), StartPos(p.seed)));
  }

  //////////////////////////////////////////////////////////////////////////
  // Encryption.
  //////////////////////////////////////////////////////////////////////////

  function After(m: Mixers, s: State, n: nat): (r: State)
    requires s.Shaped()
    ensures r.Shaped() && r.encType == s.encType
  {
    if n == 0 then s else Next(m, After(m, s, n - 1))
  }

  /** Ready after any number of clocks: the position is inside the pad, the lookup
      table is a permutation, and the pad is not all zero. */
  lemma {:induction false} AlwaysReady(m: Mixers, seed: bv32, encType: bv32, pad16: seq<bv32>, n: nat)
    requires |pad16| == 20 && Supported(encType)
    ensures Ready(After(m, Init(m, seed, encType, pad16).value, n))
  {
    hide Ready, Next, Init;
    if n == 0 {
      InitReady(m, seed, encType, pad16);
    } else {
      AlwaysReady(m, seed, encType, pad16, n - 1);
      NextReady(m, After(m, Init(m, seed, encType, pad16).value, n - 1));
    }
  }

  /** fst_cipher_crypt on a block of data. */
  function Crypt(m: Mixers, s: State, data: seq<byte>): (r: seq<byte>)
    requires s.Shaped()
    ensures |r| == |data|
  {
    seq(|data|, i requires 0 <= i < |data| => data[i] ^ Output(m, After(m, s, i)))
  }

  lemma XorByteTwice(a: byte, b: byte)
    ensures (a ^ b) ^ b == a
  {
  }

  /** Decrypting with a cipher in the same state restores the data. */
  lemma CryptTwice(m: Mixers, s: State, data: seq<byte>)
    requires s.Shaped()
    ensures Crypt(m, s, Crypt(m, s, data)) == data
  {
    hide Output, After;
    forall i | 0 <= i < |data|
      ensures Crypt(m, s, Crypt(m, s, data))[i] == data[i]
    {
      XorByteTwice(data[i], Output(m, After(m, s, i)));
    }
  }

  lemma {:induction false} AfterSum(m: Mixers, s: State, a: nat, b: nat)
    requires s.Shaped()
    ensures After(m, s, a + b) == After(m, After(m, s, a), b)
  {
    hide Next;
    if b > 0 {
      AfterSum(m, s, a, b - 1);
      assert a + b - 1 == a + (b - 1);
    }
  }

  lemma {:induction false} CryptAt(m: Mixers, s: State, a: seq<byte>, b: seq<byte>, i: nat)
    requires s.Shaped() && i < |b|
    ensures Crypt(m, s, a + b)[|a| + i] == Crypt(m, After(m, s, |a|), b)[i]
  {
    hide Output, After;
    AfterSum(m, s, |a|, i);
    assert (a + b)[|a| + i] == b[i];
  }

  /** Data can be encrypted in parts. */
  lemma {:induction false} CryptSum(m: Mixers, s: State, a: seq<byte>, b: seq<byte>)
    requires s.Shaped()
    ensures Crypt(m, s, a + b) == Crypt(m, s, a) + Crypt(m, After(m, s, |a|), b)
  {
    hide Output, After;
    var c := Crypt(m, s, a + b);
    assert c[..|a|] == Crypt(m, s, a);
    assert c[|a|..] == Crypt(m, After(m, s, |a|), b) by {
      forall i | 0 <= i < |b|
        ensures c[|a| + i] == Crypt(m, After(m, s, |a|), b)[i]
      {
        CryptAt(m, s, a, b, i);
      }
      hide Crypt;
    }
    assert c == c[..|a|] + c[|a|..];
  }
}
