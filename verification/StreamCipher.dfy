/** fst_crypt.c: the cipher object, updated in place. */
module StreamCipher {
  import opened Bytes
  import opened CipherState
  import Md5

  /** Twenty steps from a seed, and the seed after them. */
  method StepKey(seed0: bv32) returns (key: Key, seed: bv32)
    ensures key == SeedKey(seed0) && seed == SeedAfter(seed0, 20)
  {
    hide SeedStep;
    var words := new bv32[20];
    seed := seed0;
    for i := 0 to 20
      invariant seed == SeedAfter(seed0, i)
      invariant forall k :: 0 <= k < i ==> words[k] == SeedAfter(seed0, k + 1)
    {
      seed := SeedStep(seed);
      words[i] := seed;
    }
    key := words[..];
  }

  method MixKey(m: Mixers, seed0: bv32) returns (key: Key)
    ensures key == MixedKey(m, seed0)
  {
    hide SeedStep;
    var k, seed := StepKey(seed0);
    seed := SeedStep(seed);
    assert seed == SeedAfter(seed0, 21);
    key := m.enc2(k, seed);
  }

  method MangleEncType(m: Mixers, seed: bv32, encType: bv32) returns (r: bv32)
    ensures r == Mangle(m, seed, encType)
  {
    var key := MixKey(m, seed);
    r := encType ^ key[7];
  }

  class Cipher {
    const mix: Mixers
    const pad: array<byte>
    const lookup: array<byte>
    const pad16: array<bv32>
    var pos: nat
    var wrapcount: bv32
    var addToLookup: bv32
    var encType: bv32
    var seed: bv32

    ghost function Repr(): set<object> {
      {this, pad, lookup, pad16}
    }

    ghost predicate Valid()
      reads this
    {
      pad != lookup && pad.Length == PAD && lookup.Length == 256 && pad16.Length == 20 && pos < PAD
    }

    /** The fields the clock depends on. */
    ghost function Value(): (s: State)
      reads this, pad, lookup, pad16
      requires Valid()
      ensures s.Shaped()
    {
      State(pos, wrapcount, addToLookup, encType, pad[..], lookup[..], pad16[..])
    }

    constructor (mix: Mixers)
      ensures Valid() && fresh(pad) && fresh(lookup) && fresh(pad16)
      ensures this.mix == mix && pad16[..] == seq(20, _ => 0)
    {
      this.mix := mix;
      pad, lookup, pad16 := new byte[63](_ => 0), new byte[256](_ => 0), new bv32[20](_ => 0);
      pos, wrapcount, addToLookup, encType, seed := 0, 0, 0, 0, 0;
    }

    //////////////////////////////////////////////////////////////////////////
    // fst_cipher_init.
    //////////////////////////////////////////////////////////////////////////

    method XorPad(src: seq<byte>)
      requires Valid() && |src| >= PAD
      modifies pad
      ensures pad[..] == seq(PAD, i requires 0 <= i < PAD => old(pad[i]) ^ src[i])
    {
      for i := 0 to 63
        invariant forall k :: 0 <= k < i ==> pad[k] == old(pad[k]) ^ src[k]
        invariant forall k :: i <= k < PAD ==> pad[k] == old(pad[k])
      {
        pad[i] := pad[i] ^ src[i];
      }
    }

    method CubeBytes(seed0: bv32) returns (key: seq<byte>, seed: bv32)
      ensures key == CubeInput(seed0) && seed == SeedAfter(seed0, 255)
    {
      hide SeedStep, CubeByte;
      var bytes := new byte[255];
      seed := seed0;
      for i := 0 to 255
        invariant seed == SeedAfter(seed0, i)
        invariant forall k :: 0 <= k < i ==> bytes[k] == CubeByte(SeedAfter(seed0, k + 1))
      {
        seed := SeedStep(seed);
        bytes[i] := CubeByte(seed);
      }
      key := bytes[..];
    }

    method KeyBytes(key: Key) returns (bytes: seq<byte>)
      ensures |bytes| == 80 && forall i :: 0 <= i < 80 ==> bytes[i] == KeyByte(key, i)
    {
      hide KeyByte;
      bytes := seq(80, i requires 0 <= i < 80 => KeyByte(key, i));
    }

    /** The first half of pad_init. */
    method CubePart(seed0: bv32, encType: bv32) returns (seed: bv32)
      requires Valid()
      modifies pad
      ensures PadSeed(pad[..], seed) == CubePad(mix, seed0, encType)
    {
      hide UsesCube, SeedAfter, CubeInput;
      for i := 0 to 63
        invariant forall k :: 0 <= k < i ==> pad[k] == 0
      {
        pad[i] := 0;
      }
      seed := seed0;
      if UsesCube(encType) {
        var keyIn;
        keyIn, seed := CubeBytes(seed0);
        var keyOut := mix.enc1(keyIn);
        XorPad(keyOut);
        XorZeros(keyOut[..PAD]);
        assert pad[..] == keyOut[..PAD];
      }
    }

    lemma XorZeros(s: seq<byte>)
      ensures forall i :: 0 <= i < |s| ==> 0 ^ s[i] == s[i]
    {
    }

    method PadInit(seed0: bv32, encType: bv32) returns (ok: bool, seed: bv32)
      requires Valid()
      modifies pad
      ensures ok <==> Supported(encType)
      ensures ok ==> PadSeed(pad[..], seed) == CipherState.PadInit(mix, seed0, encType)
    {
      hide CubePad, SeedStep, SeedKey, SeedAfter, KeyByte;
      seed := CubePart(seed0, encType);
      ok := true;
      if UsesKey(encType) {
        var key;
        key, seed := StepKey(seed);
        if encType & 0x02 != 0 {
          seed := SeedStep(seed);
          key := mix.enc2(key, seed);
        }
        if encType & 0x04 != 0 {
          seed := SeedStep(seed);
          return false, seed;
        }
        if encType & 0x20 != 0 {
          seed := SeedStep(seed);
          key := mix.enc20(key, seed);
        }
        if encType & 0x80 != 0 {
          seed := SeedStep(seed);
          key := mix.enc80(key, seed);
        }
        if encType & 0x100 != 0 {
          seed := SeedStep(seed);
          return false, seed;
        }
        var bytes := KeyBytes(key);
        XorPad(bytes);
      }
    }

    method AdjustPad()
      requires Valid()
      modifies pad
      ensures pad[..] == Adjust(old(pad[..]))
    {
      var c: byte := 0;
      for i := 0 to 63
        invariant pad[..] == old(pad[..]) && (Odd(c) <==> HasOddBit(pad[..], i))
      {
        OrOdd(c, pad[i]);
        c := c | pad[i];
      }
      OrOdd(c, c);
      if c & 1 == 0 {
        pad[0] := pad[0] | 0x71;
      }
      assert pad[..] == Adjust(old(pad[..]));
    }

    lemma OrOdd(a: byte, b: byte)
      ensures Odd(a | b) <==> Odd(a) || Odd(b)
      ensures a & 1 == 0 <==> !Odd(a)
    {
    }

    /** The lookup table: 256 swaps drawn from the pad's digest. */
    method InitLookup(encType: bv32)
      requires Valid()
      modifies lookup
      ensures lookup[..] == if AddsToLookup(encType) then Shuffle(DigestWord(pad[..]), 256) else Identity()
    {
      hide Draw, SeedStep, Swapped, DigestWord;
      for i := 0 to 256
        invariant forall k :: 0 <= k < i ==> lookup[k] == k as byte
      {
        lookup[i] := i as byte;
      }
      assert lookup[..] == Identity();
      if AddsToLookup(encType) {
        var num0 := PadDigest();
        var num := num0;
        for i := 0 to 256
          invariant num == SeedAfter(num0, i) && lookup[..] == Shuffle(num0, i)
        {
          hide Identity;
          num := SeedStep(num);
          var j := Draw(num, 0x100 - i) + i;
          SwapInLookup(i, j);
        }
      }
    }

    method SwapInLookup(i: nat, j: nat)
      requires Valid() && i < 256 && j < 256
      modifies lookup
      ensures lookup[..] == Swapped(old(lookup[..]), i, j)
    {
      if j != i {
        var a, b := lookup[j], lookup[i];
        lookup[i] := a;
        lookup[j] := b;
      }
    }

    method PadDigest() returns (word: bv32)
      requires Valid()
      ensures word == DigestWord(pad[..])
    {
      hide Md5.DigestOf, Md5.Word, Md5.Context.Valid, Md5.Context.Sized;
      var ctx := new Md5.Context();
      var md5 := new byte[16];
      ctx.Update(pad[..]);
      assert ctx.msg == pad[..];
      ctx.Final(md5, 0);
      assert md5[..] == Md5.DigestOf(pad[..]);
      word := Md5.Word(md5[0], md5[1], md5[2], md5[3]);
    }

    method SetPad16(seed: bv32)
      requires Valid()
      modifies pad16
      ensures pad16[..] == MixedKey(mix, seed)
    {
      var key := MixKey(mix, seed);
      for i := 0 to 20
        invariant forall k :: 0 <= k < i ==> pad16[k] == key[k]
      {
        pad16[i] := key[i];
      }
    }

    /** qsort of five bytes, by any algorithm (SortIsUnique). */
    method SortPad(at: nat)
      requires Valid() && at + 5 <= PAD
      modifies pad
      ensures pad[..] == SortWindow(old(pad[..]), at)
    {
      hide Sorted;
      MemCpy(pad, at, Sorted(pad[at..at + 5]));
    }

    method StirPad()
      requires Valid()
      modifies pad
      ensures pad[..] == Stir(old(pad[..]))
    {
      hide Stirred;
      var i := 5;
      while i < PAD
        invariant 5 <= i <= 65 && i % 3 == 2
        invariant forall k :: 0 <= k < PAD ==>
                    pad[k] == if k < i && IsThird(k) then Stirred(old(pad[k]), k) else old(pad[k])
      {
        pad[i] := Stirred(pad[i], i);
        i := i + 3;
      }
    }

    method Init(seed0: bv32, encType: bv32) returns (ok: bool)
      requires Valid()
      modifies this, pad, lookup, pad16
      ensures Valid() && seed == seed0
      ensures ok <==> CipherState.Init(mix, seed0, encType, old(pad16[..])).Some?
      ensures ok ==> Value() == CipherState.Init(mix, seed0, encType, old(pad16[..])).value
    {
      hide CipherState.PadInit, Adjust, Shuffle, DigestWord, Identity, MixedKey, StartPos, Supported, Rekey;
      this.encType, wrapcount, addToLookup, seed := encType, 0, 0, seed0;
      var temp;
      ok, temp := PadInit(seed0, encType);
      if !ok {
        return;
      }
      AdjustPad();
      pos := StartPos(temp);
      InitLookup(encType);
      if Mixes(encType) {
        SetPad16(pos as bv32);
      }
      RekeyPad(pos);
    }

    method RekeyPad(n: nat)
      requires Valid()
      modifies pad
      ensures pad[..] == Rekey(old(pad[..]), n)
    {
      hide SortWindow, Stir;
      SortPad(SortPos(n));
      StirPad();
    }

    //////////////////////////////////////////////////////////////////////////
    // fst_cipher_clock.
    //////////////////////////////////////////////////////////////////////////

    method MixPad()
      requires Valid()
      modifies pad
      ensures pad[..] == Mix(old(pad[..]), pad16[..])
    {
      hide MixByte, BitOf;
      ShiftFits(pad[..]);
      var shift, at := ShiftFactor(pad[..]), PadOffset(pad[..]);
      hide ShiftFactor, PadOffset;
      for i := 0 to 6
        invariant forall k :: 0 <= k < PAD ==>
                    pad[k] == if at <= k < at + i then old(pad[k]) ^ MixByte(pad16[k - at], shift) else old(pad[k])
      {
        pad[at + i] := pad[at + i] ^ MixByte(pad16[i], shift);
      }
      assert pad[..] == XorWindow(old(pad[..]), pad16[..]);
      pad[at + 4] := pad[at + 4] | BitOf(pad[0x0a]);
    }

    method MixAndRefresh()
      requires Valid() && Mixes(encType)
      modifies pad, pad16
      ensures pad[..] == Mix(old(pad[..]), old(pad16[..]))
      ensures pad16[..] == if EverySixteenth(wrapcount) then MixedKey(mix, wrapcount) else old(pad16[..])
    {
      hide Mix, MixedKey, EverySixteenth;
      MixPad();
      if EverySixteenth(wrapcount) {
        SetPad16(wrapcount);
      }
    }

    method CountWrap()
      requires Valid()
      modifies this`pos, this`wrapcount, this`addToLookup
      ensures pos == 0 && wrapcount == Inc(old(wrapcount))
      ensures addToLookup == if AddsToLookup(encType) then Inc(old(addToLookup)) else old(addToLookup)
    {
      pos := 0;
      wrapcount := Inc(wrapcount);
      if AddsToLookup(encType) {
        addToLookup := Inc(addToLookup);
      }
    }

    method WrapAround()
      requires Valid()
      modifies this, pad, pad16
      ensures Valid() && seed == old(seed) && Value() == Wrap(mix, old(Value()))
    {
      hide Mix, MixedKey, Mixes, AddsToLookup, EverySixteenth, Inc;
      ghost var p, k, l := pad[..], pad16[..], lookup[..];
      CountWrap();
      assert pad[..] == p && pad16[..] == k && lookup[..] == l;
      if Mixes(encType) {
        MixAndRefresh();
        assert lookup[..] == l;
      }
    }

    /** The running total, stirred when its turn comes. */
    method Accumulate() returns (xor: byte)
      requires Valid()
      modifies pad
      ensures pad[..] == Mangled(old(pad[..]), pos) && xor == Total(old(pad[..]), pos)[pos]
    {
      hide Rekey, Stirs;
      xor := AddLast();
      if pos == 7 && Stirs(xor) {
        RekeyPad(xor as nat + pad[2] as nat);
      }
    }

    method AddLast() returns (xor: byte)
      requires Valid()
      modifies pad
      ensures pad[..] == Total(old(pad[..]), pos) && xor == pad[pos]
    {
      ghost var before := pad[..];
      pad[pos] := pad[pos] + pad[LastPos(pos)];
      xor := pad[pos];
      assert pad[..] == before[pos := before[pos] + before[LastPos(pos)]];
    }

    method Clock() returns (xor: byte)
      requires Valid()
      modifies this, pad, pad16
      ensures Valid() && seed == old(seed)
      ensures Value() == Next(mix, old(Value())) && xor == Output(mix, old(Value()))
    {
      hide Wrap, LookupIndex, Mangled, Total;
      xor := Accumulate();
      if pos + 1 == PAD {
        WrapAround();
      } else {
        pos := pos + 1;
      }
      xor := lookup[LookupIndex(addToLookup, xor) as nat];
    }

    lemma AfterNext(s: State, n: nat)
      requires s.Shaped()
      ensures After(mix, s, 0) == s && After(mix, s, n + 1) == Next(mix, After(mix, s, n))
    {
    }

    lemma CryptIs(s: State, before: seq<byte>, after: seq<byte>)
      requires s.Shaped() && |after| == |before|
      requires forall k :: 0 <= k < |before| ==> after[k] == before[k] ^ Output(mix, After(mix, s, k))
      ensures after == CipherState.Crypt(mix, s, before)
    {
      hide Output, After;
    }

    /** fst_cipher_crypt on the first len bytes of data. */
    method Crypt(data: array<byte>, len: nat)
      requires Valid() && len <= data.Length && data !in Repr()
      modifies this, pad, pad16, data
      ensures Valid() && seed == old(seed)
      ensures Value() == After(mix, old(Value()), len)
      ensures data[..len] == CipherState.Crypt(mix, old(Value()), old(data[..len]))
      ensures data[len..] == old(data[len..])
    {
      hide Output, Next, Cipher.Valid, Cipher.Value, CipherState.Crypt, After;
      AfterNext(Value(), 0);
      for i := 0 to len
        invariant Valid() && seed == old(seed) && Value() == After(mix, old(Value()), i)
        invariant forall k :: 0 <= k < i ==> data[k] == old(data[k]) ^ Output(mix, After(mix, old(Value()), k))
        invariant forall k :: i <= k < data.Length ==> data[k] == old(data[k])
      {
        var x := Clock();
        AfterNext(old(Value()), i);
        data[i] := data[i] ^ x;
      }
      CryptIs(old(Value()), old(data[..len]), data[..len]);
    }
  }
}
