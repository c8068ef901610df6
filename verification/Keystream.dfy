/** The keystream in terms of the cipher's fields alone: sums of pad bytes, looked up. */
module Keystream {
  import opened Bytes
  import opened CipherState

  /** Addition modulo 256. */
  function Plus(a: byte, b: byte): byte { a + b }

  /** The sum of the bytes, modulo 256. */
  function ByteSum(s: seq<byte>): byte {
    if s == [] then 0 else Plus(ByteSum(s[..|s| - 1]), s[|s| - 1])
  }

  lemma SumStep(s: seq<byte>, lo: nat, hi: nat)
    requires lo <= hi < |s|
    ensures ByteSum(s[lo..hi + 1]) == Plus(ByteSum(s[lo..hi]), s[hi])
  {
    hide Plus;
    assert s[lo..hi + 1][..hi - lo] == s[lo..hi];
  }

  /** The pad byte behind the position: the last one for the first position. */
  function Behind(s: State): byte
    requires s.Shaped()
  {
    s.pad[if s.pos == 0 then 62 else s.pos - 1]
  }

  /** The running total at a position not before the cipher's: the byte behind it and all
      bytes from it up to there. */
  function TotalAt(s: State, at: nat): byte
    requires s.Shaped() && s.pos <= at < 63
  {
    Plus(Behind(s), ByteSum(s.pad[s.pos..at + 1]))
  }

  /** Whether the pad is stirred before the position gets to `at`: at position 7, for a
      total in which the bits 4 to 6 are zero. */
  predicate StirsBefore(s: State, at: nat)
    requires s.Shaped() && s.pos <= at <= 63
  {
    s.pos <= 7 < at && TotalAt(s, 7) & 0x70 == 0
  }

  /** The pad when the position has come to `at`: running totals where it has been. */
  predicate Accumulated(s: State, pad: seq<byte>, at: nat)
    requires s.Shaped() && s.pos <= at <= 63
  {
    |pad| == 63 &&
    forall i :: 0 <= i < 63 ==> pad[i] == if s.pos <= i < at then TotalAt(s, i) else s.pad[i]
  }

  lemma SumOfOne(s: State)
    requires s.Shaped()
    ensures TotalAt(s, s.pos) == Plus(Behind(s), s.pad[s.pos])
  {
    hide Behind, Plus, ByteSum;
    assert s.pad[s.pos..s.pos + 1] == [s.pad[s.pos]];
    OneByte(s.pad[s.pos]);
  }

  lemma OneByte(b: byte)
    ensures ByteSum([b]) == b
  {
    assert [b][..0] == [];
    assert Plus(0, b) == b;
  }

  lemma NextTotal(s: State, at: nat)
    requires s.Shaped() && s.pos < at < 63
    ensures TotalAt(s, at) == Plus(TotalAt(s, at - 1), s.pad[at])
  {
    hide ByteSum, Behind, Plus;
    SumStep(s.pad, s.pos, at);
    Associates(Behind(s), ByteSum(s.pad[s.pos..at]), s.pad[at]);
  }

  lemma Associates(a: byte, b: byte, c: byte)
    ensures Plus(a, Plus(b, c)) == Plus(Plus(a, b), c)
  {
    SumAssociates8(a, b, c);
    assert Plus(b, c) == b + c && Plus(a, b) == a + b;
    assert Plus(a, b + c) == a + (b + c) && Plus(a + b, c) == (a + b) + c;
    hide Plus;
  }

  lemma SumAssociates8(a: byte, b: byte, c: byte)
    ensures a + (b + c) == (a + b) + c
  {
  }

  lemma Commutes(a: byte, b: byte)
    ensures a + b == Plus(b, a)
  {
  }

  /** What a clock adds up, and the pad it leaves, when nothing has been stirred. */
  lemma {:induction false} Adds(s: State, pad: seq<byte>, at: nat)
    requires s.Shaped() && s.pos <= at < 63 && Accumulated(s, pad, at)
    ensures |pad| == PAD && Total(pad, at)[at] == TotalAt(s, at)
    ensures Accumulated(s, Total(pad, at), at + 1)
    ensures !StirsBefore(s, at + 1) ==> Mangled(pad, at) == Total(pad, at)
  {
    hide TotalAt, Behind, Rekey, Plus, Stirs, Mangled, StirsBefore;
    var last := pad[if at == 0 then 62 else at - 1];
    SumOfOne(s);
    if at > s.pos {
      NextTotal(s, at);
    } else {
      BehindIs(s);
    }
    TotalIs(pad, at);
    NotStirred(s, pad, at);
  }

  /** The sum in the code's own order. */
  lemma TotalIs(pad: seq<byte>, at: nat)
    requires |pad| == PAD && at < 63
    ensures Total(pad, at) == pad[at := Plus(pad[if at == 0 then 62 else at - 1], pad[at])]
  {
    Commutes(pad[at], pad[LastPos(at)]);
    hide Plus;
  }

  lemma NotStirred(s: State, pad: seq<byte>, at: nat)
    requires s.Shaped() && s.pos <= at < 63 && |pad| == PAD && Total(pad, at)[at] == TotalAt(s, at)
    ensures !StirsBefore(s, at + 1) ==> Mangled(pad, at) == Total(pad, at)
  {
    hide Total, TotalAt, Rekey;
  }

  lemma BehindIs(s: State)
    requires s.Shaped()
    ensures Behind(s) == s.pad[if s.pos == 0 then 62 else s.pos - 1]
  {
  }

  /** As long as nothing is stirred, the state after n clocks within the pad. */
  lemma {:induction false} StateAfter(m: Mixers, s: State, n: nat)
    requires s.Shaped() && s.pos + n < 63 && !StirsBefore(s, s.pos + n)
    ensures var r := After(m, s, n);
            r == s.(pos := s.pos + n, pad := r.pad) && Accumulated(s, r.pad, s.pos + n)
  {
    hide Accumulated, StirsBefore, Mangled, Total;
    if n == 0 {
      NothingYet(s);
    } else {
      StirsLater(s, s.pos + n - 1);
      StateAfter(m, s, n - 1);
      Adds(s, After(m, s, n - 1).pad, s.pos + n - 1);
    }
  }

  lemma NothingYet(s: State)
    requires s.Shaped()
    ensures Accumulated(s, s.pad, s.pos)
  {
  }

  lemma StirsLater(s: State, at: nat)
    requires s.Shaped() && s.pos <= at < 63 && !StirsBefore(s, at + 1)
    ensures !StirsBefore(s, at)
  {
  }

  /** The keystream byte after n clocks is looked up under the running total and the
      number of wrap-arounds counted in addToLookup. */
  lemma {:induction false} KeystreamIs(m: Mixers, s: State, n: nat)
    requires s.Shaped() && s.pos + n + 1 < 63 && !StirsBefore(s, s.pos + n)
    ensures Output(m, After(m, s, n)) == s.lookup[LookupIndex(s.addToLookup, TotalAt(s, s.pos + n)) as nat]
  {
    hide Accumulated, StirsBefore, Mangled, Total, TotalAt, LookupIndex;
    StateAfter(m, s, n);
    Adds(s, After(m, s, n).pad, s.pos + n);
  }

  /** What the wrap-around counts. */
  function Wrapped(s: State, pad: seq<byte>): State {
    s.(pos := 0, pad := pad, wrapcount := s.wrapcount + 1,
       addToLookup := if AddsToLookup(s.encType) then s.addToLookup + 1 else s.addToLookup)
  }

  lemma WrappedAlike(s: State, pos: nat, pad: seq<byte>, pad1: seq<byte>)
    ensures Wrapped(s.(pos := pos, pad := pad), pad1) == Wrapped(s, pad1)
    ensures Wrapped(s, pad).addToLookup == Wrapped(s, pad1).addToLookup
    ensures Wrapped(s, pad).pad == pad && Wrapped(s, pad).lookup == s.lookup
  {
  }

  /** What the bits of an encryption type decide. */
  lemma TypeBits(encType: bv32)
    ensures AddsToLookup(encType) <==> encType & 0x08 == 0x08
    ensures Mixes(encType) <==> encType & 0x10 == 0x10
    ensures Supported(encType) <==> encType & 0x04 == 0 && encType & 0x100 == 0
    ensures UsesKey(encType) <==>
            encType & 0x02 != 0 || encType & 0x04 != 0 || encType & 0x20 != 0 || encType & 0x40 != 0 ||
            encType & 0x80 != 0 || encType & 0x100 != 0
    ensures UsesCube(encType) <==> encType & 0x01 != 0 || !UsesKey(encType)
  {
  }

  /** The last clock of a round, without bit 0x10. */
  lemma LastClock(m: Mixers, s: State)
    requires s.Shaped() && s.pos == 62 && !Mixes(s.encType)
    ensures Next(m, s) == Wrapped(s, Total(s.pad, 62))
    ensures Output(m, s) == s.lookup[LookupIndex(Next(m, s).addToLookup, Total(s.pad, 62)[62]) as nat]
  {
    hide Total, Mix, MixedKey, EverySixteenth, LookupIndex, AddsToLookup, Mixes;
  }

  /** The state when the position has wrapped around, without bit 0x10. */
  lemma {:induction false} StateAfterWrap(m: Mixers, s: State)
    requires s.Shaped() && !StirsBefore(s, 63) && !Mixes(s.encType)
    ensures var r := After(m, s, 63 - s.pos); r == Wrapped(s, r.pad) && Accumulated(s, r.pad, 63)
  {
    hide Accumulated, StirsBefore, Total, TotalAt, Next, Output, LookupIndex, AddsToLookup, Mixes, Wrapped;
    var p := After(m, s, 62 - s.pos);
    StirsLater(s, 62);
    StateAfter(m, s, 62 - s.pos);
    Adds(s, p.pad, 62);
    LastClock(m, p);
    WrappedAlike(s, 62, p.pad, Total(p.pad, 62));
    WrappedAlike(s, 62, Total(p.pad, 62), p.pad);
    assert After(m, s, 63 - s.pos) == Next(m, p);
  }

  /** The keystream byte before that: the wrap-around is already counted. */
  lemma {:induction false} KeystreamAtWrap(m: Mixers, s: State)
    requires s.Shaped() && !StirsBefore(s, 62) && !Mixes(s.encType)
    ensures var add := Wrapped(s, s.pad).addToLookup;
            Output(m, After(m, s, 62 - s.pos)) == s.lookup[LookupIndex(add, TotalAt(s, 62)) as nat]
  {
    hide Accumulated, StirsBefore, Total, TotalAt, Next, Output, LookupIndex, AddsToLookup, Mixes, Wrapped;
    var p := After(m, s, 62 - s.pos);
    StateAfter(m, s, 62 - s.pos);
    Adds(s, p.pad, 62);
    LastClock(m, p);
    WrappedAlike(s, 62, p.pad, Total(p.pad, 62));
    WrappedAlike(s, 62, s.pad, Total(p.pad, 62));
  }

  /** A byte is looked up under the low byte of addToLookup and itself, modulo 256. */
  lemma LookedUp(add: bv32, x: byte)
    ensures LookupIndex(add, x) == (add & 0xff) as byte + x
  {
  }

  //////////////////////////////////////////////////////////////////////////
  // Stirring and mixing, byte by byte.
  //////////////////////////////////////////////////////////////////////////

  /** What bytes are sorted by: 0x20 to 0x3f come before 0x00 to 0x1f, and so on. */
  function SortKey(b: byte): nat {
    if b as nat / 32 % 2 == 0 then b as nat + 32 else b as nat - 32
  }

  lemma SortKeyIs(a: byte)
    ensures (a ^ 0x20) as nat == SortKey(a)
  {
  }

  /** A byte at a third position, counted from the fifth byte on, is its position less
      the byte less one, made odd. */
  lemma StirredIs(c: byte, i: nat)
    requires i < 256
    ensures Stirred(c, i) == LessOne(c, i as byte)
  {
    StirredByte(c, i as byte);
  }

  function LessOne(c: byte, i: byte): byte { (i - c - 1) | 1 }

  lemma StirredByte(c: byte, i: byte)
    ensures (!c + i) | 1 == LessOne(c, i)
  {
  }

  /** What a stirred byte becomes, by its position. */
  function StirredAt(c: byte, i: nat): byte
    requires i < 63
  {
    if i % 3 == 2 && i >= 5 then LessOne(c, i as byte) else c
  }

  /** The pad rekeyed with a number n: five bytes from (n * n + 2) % 59 on are in the
      order of their keys, and then every third byte is stirred. */
  lemma RekeyIs(pad: seq<byte>, n: nat) returns (w: seq<byte>)
    requires |pad| == 63
    ensures var at, r := (n * n + 2) % 59, Rekey(pad, n);
            |w| == 5 && multiset(w) == multiset(pad[at..at + 5]) &&
            (forall i, j :: 0 <= i < j < 5 ==> SortKey(w[i]) <= SortKey(w[j])) &&
            |r| == 63 && forall i :: 0 <= i < 63 ==>
                           r[i] == StirredAt(if at <= i < at + 5 then w[i - at] else pad[i], i)
  {
    var at := SortPos(n);
    SortPosIs(n);
    hide Sorted, SortPos, StirredAt, SortKey, Stir;
    w := Sorted(pad[at..at + 5]);
    InOrder(w, pad[at..at + 5]);
    var s := SortWindow(pad, at);
    forall i | 0 <= i < 63
      ensures Stir(s)[i] == StirredAt(if at <= i < at + 5 then w[i - at] else pad[i], i)
    {
      assert s[i] == if at <= i < at + 5 then w[i - at] else pad[i];
      StirIs(s, i);
    }
  }

  lemma StirIs(pad: seq<byte>, i: nat)
    requires |pad| == 63 && i < 63
    ensures Stir(pad)[i] == StirredAt(pad[i], i)
  {
    hide Stirred, StirredAt, IsThird;
    StirredThere(pad[i], i);
  }

  lemma SortPosIs(n: nat)
    ensures SortPos(n) == (n * n + 2) % 59
  {
  }

  lemma StirredThere(c: byte, i: nat)
    requires i < 63
    ensures StirredAt(c, i) == if IsThird(i) then Stirred(c, i) else c
  {
    hide Stirred, IsThird, LessOne;
    StirredIs(c, i);
    ThirdIs(i);
  }

  lemma ThirdIs(i: nat)
    ensures IsThird(i) <==> i % 3 == 2 && i >= 5
  {
  }

  lemma {:induction false} InOrder(w: seq<byte>, s: seq<byte>)
    requires w == Sorted(s)
    ensures forall i, j :: 0 <= i < j < |w| ==> SortKey(w[i]) <= SortKey(w[j])
  {
    SortedOrders(s);
    hide Sorted;
    OrderedByKey(w);
  }

  lemma {:induction false} OrderedByKey(w: seq<byte>)
    requires Ordered(w)
    ensures forall i, j :: 0 <= i < j < |w| ==> SortKey(w[i]) <= SortKey(w[j])
  {
    hide SortKey, Precedes;
    if w != [] {
      OrderedByKey(w[1..]);
      forall j | 0 < j < |w|
        ensures SortKey(w[0]) <= SortKey(w[j])
      {
        assert w[j] in w[1..];
        PrecedesByKey(w[0], w[j]);
      }
      forall i, j | 0 <= i < j < |w|
        ensures SortKey(w[i]) <= SortKey(w[j])
      {
        if i > 0 {
          assert w[i] == w[1..][i - 1] && w[j] == w[1..][j - 1];
        }
      }
    }
  }

  lemma PrecedesByKey(a: byte, b: byte)
    requires Precedes(a, b)
    ensures SortKey(a) <= SortKey(b)
  {
    SortKeyIs(a);
    SortKeyIs(b);
    hide SortKey;
    NatOrder(a ^ 0x20, b ^ 0x20);
  }

  lemma NatOrder(a: byte, b: byte)
    requires a <= b
    ensures a as nat <= b as nat
  {
  }

  /** The clock that stirs: the total decides, and with the third byte of the pad it is
      the number the pad is rekeyed with. */
  lemma StirringClock(m: Mixers, s: State)
    requires s.Shaped() && s.pos == 7 && StirsBefore(s, 8)
    ensures var x := TotalAt(s, 7);
            Next(m, s) == s.(pos := 8, pad := Rekey(s.pad[7 := x], x as nat + s.pad[2] as nat))
  {
    hide TotalAt, Rekey;
    NothingYet(s);
    Adds(s, s.pad, 7);
  }

  /** A byte of the pad when six words have been added by exclusive or. */
  function XoredAt(pad: seq<byte>, pad16: seq<bv32>, at: nat, shift: bv6, i: nat): byte
    requires i < |pad| && at + 6 <= |pad| && |pad16| == 20 && shift < 16
  {
    if at <= i < at + 6 then pad[i] ^ ((pad16[i - at] >> shift) & 0xff) as byte else pad[i]
  }

  /** The mixing at a wrap-around with bit 0x10: six words, shifted right by the low four
      bits of byte 24, are added by exclusive or from the position in the low five bits
      of byte 25 on, and in the fifth of these bytes a bit is set whose number the low
      three bits of byte 10 give by then. */
  lemma MixIs(pad: seq<byte>, pad16: seq<bv32>, at: nat, shift: bv6)
    requires |pad| == 63 && |pad16| == 20 && at < 32 && shift < 16
    requires (pad[24] & 0x0f) as bv6 == shift && (pad[25] & 0x1f) as nat == at
    ensures var r := Mix(pad, pad16);
            |r| == 63 && forall i :: 0 <= i < 63 ==>
                           r[i] == if i == at + 4
                                   then XoredAt(pad, pad16, at, shift, i) | BitOf(XoredAt(pad, pad16, at, shift, 10))
                                   else XoredAt(pad, pad16, at, shift, i)
  {
    hide BitOf, XoredAt, XorWindow, PadOffset;
    OffsetIs(pad, at);
    var x := XorWindow(pad, pad16);
    forall i | 0 <= i < 63
      ensures x[i] == XoredAt(pad, pad16, at, shift, i)
    {
      WindowIs(pad, pad16, at, shift, i);
    }
    MixSets(pad, pad16, at);
  }

  lemma MixSets(pad: seq<byte>, pad16: seq<bv32>, at: nat)
    requires |pad| == 63 && |pad16| == 20 && PadOffset(pad) == at
    ensures var x := XorWindow(pad, pad16); Mix(pad, pad16) == x[at + 4 := x[at + 4] | BitOf(x[10])]
  {
    hide BitOf, XorWindow, PadOffset;
  }

  lemma WindowIs(pad: seq<byte>, pad16: seq<bv32>, at: nat, shift: bv6, i: nat)
    requires |pad| == 63 && |pad16| == 20 && at < 32 && shift < 16 && i < 63
    requires (pad[24] & 0x0f) as bv6 == shift && PadOffset(pad) == at
    ensures XorWindow(pad, pad16)[i] == XoredAt(pad, pad16, at, shift, i)
  {
    hide PadOffset, MixByte;
    ShiftFits(pad);
    if at <= i < at + 6 {
      MixByteIs(pad16[i - at], shift);
    }
  }

  lemma OffsetIs(pad: seq<byte>, at: nat)
    requires |pad| == 63 && (pad[25] & 0x1f) as nat == at
    ensures PadOffset(pad) == at
  {
  }

  lemma MixByteIs(k: bv32, shift: bv6)
    requires shift < 16
    ensures MixByte(k, shift) == ((k >> shift) & 0xff) as byte
  {
  }

  /** A bit by its number in the low three bits. */
  lemma BitOfIs(b: byte)
    ensures BitOf(b) == if b & 7 == 0 then 1 else if b & 7 == 1 then 2 else if b & 7 == 2 then 4
                        else if b & 7 == 3 then 8 else if b & 7 == 4 then 16 else if b & 7 == 5 then 32
                        else if b & 7 == 6 then 64 else 128
  {
  }

  /** The last clock of a round with bit 0x10. The key is mixed in before it may change. */
  lemma MixingClock(m: Mixers, s: State)
    requires s.Shaped() && s.pos == 62 && Mixes(s.encType)
    ensures var w := Wrapped(s, Mix(Total(s.pad, 62), s.pad16));
            Next(m, s) ==
            w.(pad16 := if EverySixteenth(w.wrapcount) then MixedKey(m, w.wrapcount) else s.pad16)
    ensures Output(m, s) == s.lookup[LookupIndex(Next(m, s).addToLookup, Total(s.pad, 62)[62]) as nat]
  {
    hide Total, Mix, MixedKey, EverySixteenth, LookupIndex, AddsToLookup, Mixes;
  }

  lemma SixteenthIs(n: bv32)
    ensures EverySixteenth(n) <==> n % 16 == 0
  {
  }
}
