/** Two digests of the test suite in section A.5 of RFC 1321, a message of one padded
    block and one of two: they leave no constant of the algorithm open. */
module Rfc1321Suite {
  import opened Bytes
  import opened Md5

  //////////////////////////////////////////////////////////////////////////
  // Sixteen steps at a time.
  //////////////////////////////////////////////////////////////////////////

  function Next(n: nat, p: State, w: seq<bv32>): State
    requires n < 64 && |w| == 16
  {
    RowWords(n);
    Step(n, p, w[Row(n).word])
  }

  function Sixteen(lo: nat, p0: State, w: seq<bv32>): State
    requires lo <= 48 && |w| == 16
  {
    var p1 := Next(lo, p0, w);
    var p2 := Next(lo + 1, p1, w);
    var p3 := Next(lo + 2, p2, w);
    var p4 := Next(lo + 3, p3, w);
    var p5 := Next(lo + 4, p4, w);
    var p6 := Next(lo + 5, p5, w);
    var p7 := Next(lo + 6, p6, w);
    var p8 := Next(lo + 7, p7, w);
    var p9 := Next(lo + 8, p8, w);
    var p10 := Next(lo + 9, p9, w);
    var p11 := Next(lo + 10, p10, w);
    var p12 := Next(lo + 11, p11, w);
    var p13 := Next(lo + 12, p12, w);
    var p14 := Next(lo + 13, p13, w);
    var p15 := Next(lo + 14, p14, w);
    var p16 := Next(lo + 15, p15, w);
    p16
  }

  lemma OneMore(n: nat, st: State, w: seq<bv32>)
    requires n < 64 && |w| == 16
    ensures Steps(n + 1, st, w) == Next(n, Steps(n, st, w), w)
  {
    hide Step, Row;
    RowWords(n);
  }

  lemma SixteenMore(lo: nat, st: State, w: seq<bv32>)
    requires lo <= 48 && |w| == 16
    ensures Steps(lo + 16, st, w) == Sixteen(lo, Steps(lo, st, w), w)
  {
    hide Next, Steps;
    OneMore(lo, st, w);
    OneMore(lo + 1, st, w);
    OneMore(lo + 2, st, w);
    OneMore(lo + 3, st, w);
    OneMore(lo + 4, st, w);
    OneMore(lo + 5, st, w);
    OneMore(lo + 6, st, w);
    OneMore(lo + 7, st, w);
    OneMore(lo + 8, st, w);
    OneMore(lo + 9, st, w);
    OneMore(lo + 10, st, w);
    OneMore(lo + 11, st, w);
    OneMore(lo + 12, st, w);
    OneMore(lo + 13, st, w);
    OneMore(lo + 14, st, w);
    OneMore(lo + 15, st, w);
  }

  lemma NoSteps(st: State, w: seq<bv32>)
    requires |w| == 16
    ensures Steps(0, st, w) == st
  {
  }

  //////////////////////////////////////////////////////////////////////////
  // The blocks.
  //////////////////////////////////////////////////////////////////////////

  function EmptyWords(): seq<bv32> {
    [
      0x00000080, 0x00000000, 0x00000000, 0x00000000, 0x00000000, 0x00000000, 0x00000000, 0x00000000,
      0x00000000, 0x00000000, 0x00000000, 0x00000000, 0x00000000, 0x00000000, 0x00000000, 0x00000000
    ]
  }

  lemma EmptyRoundOne()
    ensures Sixteen(0, State(0x67452301, 0xefcdab89, 0x98badcfe, 0x10325476), EmptyWords()) ==
            State(0xf56c7cf1, 0xd6819c6a, 0x5aa53f75, 0x374943a7)
  {
  }

  lemma EmptyRoundTwo()
    ensures Sixteen(16, State(0xf56c7cf1, 0xd6819c6a, 0x5aa53f75, 0x374943a7), EmptyWords()) ==
            State(0x13707036, 0xa2205f1f, 0x1c31c384, 0xae7813db)
  {
  }

  lemma EmptyRoundThree()
    ensures Sixteen(32, State(0x13707036, 0xa2205f1f, 0x1c31c384, 0xae7813db), EmptyWords()) ==
            State(0x3f55edfd, 0xca7d2dbd, 0x68d84ea2, 0x22a31f54)
  {
  }

  lemma EmptyRoundFour()
    ensures Sixteen(48, State(0x3f55edfd, 0xca7d2dbd, 0x68d84ea2, 0x22a31f54), EmptyWords()) ==
            State(0x7246fad3, 0x14e45506, 0xff4ea3eb, 0x6e10a476)
  {
  }

  lemma EmptyBlock()
    ensures Transform(State(0x67452301, 0xefcdab89, 0x98badcfe, 0x10325476), EmptyWords()) ==
            State(0xd98c1dd4, 0x04b2008f, 0x980980e9, 0x7e42f8ec)
  {
    hide Sixteen, Steps;
    var w, st := EmptyWords(), State(0x67452301, 0xefcdab89, 0x98badcfe, 0x10325476);
    NoSteps(st, w);
    EmptyRoundOne();
    EmptyRoundTwo();
    EmptyRoundThree();
    EmptyRoundFour();
    SixteenMore(0, st, w);
    SixteenMore(16, st, w);
    SixteenMore(32, st, w);
    SixteenMore(48, st, w);
  }

  function FirstWords(): seq<bv32> {
    [
      0x44434241, 0x48474645, 0x4c4b4a49, 0x504f4e4d, 0x54535251, 0x58575655, 0x62615a59, 0x66656463,
      0x6a696867, 0x6e6d6c6b, 0x7271706f, 0x76757473, 0x7a797877, 0x33323130, 0x37363534, 0x00803938
    ]
  }

  lemma FirstRoundOne()
    ensures Sixteen(0, State(0x67452301, 0xefcdab89, 0x98badcfe, 0x10325476), FirstWords()) ==
            State(0x3cbdcd45, 0x5d38e690, 0xfa148c8a, 0xb8dec763)
  {
  }

  lemma FirstRoundTwo()
    ensures Sixteen(16, State(0x3cbdcd45, 0x5d38e690, 0xfa148c8a, 0xb8dec763), FirstWords()) ==
            State(0x9b085fa9, 0xdd789ecc, 0x5993248f, 0x4400a9bd)
  {
  }

  lemma FirstRoundThree()
    ensures Sixteen(32, State(0x9b085fa9, 0xdd789ecc, 0x5993248f, 0x4400a9bd), FirstWords()) ==
            State(0x2dbee21d, 0xf166f514, 0xee46e961, 0xe95c3a43)
  {
  }

  lemma FirstRoundFour()
    ensures Sixteen(48, State(0x2dbee21d, 0xf166f514, 0xee46e961, 0xe95c3a43), FirstWords()) ==
            State(0x1cb80f0a, 0xef2e3a46, 0x10f68731, 0xea3d3eb4)
  {
  }

  lemma FirstBlock()
    ensures Transform(State(0x67452301, 0xefcdab89, 0x98badcfe, 0x10325476), FirstWords()) ==
            State(0x83fd320b, 0xdefbe5cf, 0xa9b1642f, 0xfa6f932a)
  {
    hide Sixteen, Steps;
    var w, st := FirstWords(), State(0x67452301, 0xefcdab89, 0x98badcfe, 0x10325476);
    NoSteps(st, w);
    FirstRoundOne();
    FirstRoundTwo();
    FirstRoundThree();
    FirstRoundFour();
    SixteenMore(0, st, w);
    SixteenMore(16, st, w);
    SixteenMore(32, st, w);
    SixteenMore(48, st, w);
  }

  function SecondWords(): seq<bv32> {
    [
      0x00000000, 0x00000000, 0x00000000, 0x00000000, 0x00000000, 0x00000000, 0x00000000, 0x00000000,
      0x00000000, 0x00000000, 0x00000000, 0x00000000, 0x00000000, 0x00000000, 0x000001f0, 0x00000000
    ]
  }

  lemma SecondRoundOne()
    ensures Sixteen(0, State(0x83fd320b, 0xdefbe5cf, 0xa9b1642f, 0xfa6f932a), SecondWords()) ==
            State(0xa70737da, 0xa36f556f, 0x96f6586e, 0x5473f8a7)
  {
  }

  lemma SecondRoundTwo()
    ensures Sixteen(16, State(0xa70737da, 0xa36f556f, 0x96f6586e, 0x5473f8a7), SecondWords()) ==
            State(0x24eba695, 0x9c03e2e8, 0x10c42a2f, 0x4bd0378b)
  {
  }

  lemma SecondRoundThree()
    ensures Sixteen(32, State(0x24eba695, 0x9c03e2e8, 0x10c42a2f, 0x4bd0378b), SecondWords()) ==
            State(0x54c9eb3a, 0x79c0710a, 0x2ec86f72, 0xd4d9c6ac)
  {
  }

  lemma SecondRoundFour()
    ensures Sixteen(48, State(0x54c9eb3a, 0x79c0710a, 0x2ec86f72, 0xd4d9c6ac), SecondWords()) ==
            State(0x14ae42c6, 0x16dd9203, 0x826afd76, 0xa52dae75)
  {
  }

  lemma SecondBlock()
    ensures Transform(State(0x83fd320b, 0xdefbe5cf, 0xa9b1642f, 0xfa6f932a), SecondWords()) ==
            State(0x98ab74d1, 0xf5d977d2, 0x2c1c61a5, 0x9f9d419f)
  {
    hide Sixteen, Steps;
    var w, st := SecondWords(), State(0x83fd320b, 0xdefbe5cf, 0xa9b1642f, 0xfa6f932a);
    NoSteps(st, w);
    SecondRoundOne();
    SecondRoundTwo();
    SecondRoundThree();
    SecondRoundFour();
    SixteenMore(0, st, w);
    SixteenMore(16, st, w);
    SixteenMore(32, st, w);
    SixteenMore(48, st, w);
  }

  //////////////////////////////////////////////////////////////////////////
  // The padded messages.
  //////////////////////////////////////////////////////////////////////////

  lemma WordsSum(a: seq<byte>, b: seq<byte>)
    requires |a| % 4 == 0
    ensures Words(a + b) == Words(a) + Words(b)
  {
    assert forall i :: |a| <= i < |a| + |b| ==> (a + b)[i] == b[i - |a|];
  }

  lemma FourLines(a: seq<byte>, b: seq<byte>, c: seq<byte>, d: seq<byte>)
    requires |a| == |b| == |c| == |d| == 16
    ensures Words(a + b + c + d) == Words(a) + Words(b) + Words(c) + Words(d)
  {
    hide Words;
    WordsSum(a + b + c, d);
    WordsSum(a + b, c);
    WordsSum(a, b);
  }

  lemma MarkedLine()
    ensures Words([0x80, 0x00, 0x00, 0x00, 0x00, 0x00, 0x00, 0x00, 0x00, 0x00, 0x00, 0x00, 0x00, 0x00, 0x00, 0x00]) ==
            [0x00000080, 0x00000000, 0x00000000, 0x00000000]
  {
  }

  lemma ZeroLine()
    ensures Words([0x00, 0x00, 0x00, 0x00, 0x00, 0x00, 0x00, 0x00, 0x00, 0x00, 0x00, 0x00, 0x00, 0x00, 0x00, 0x00]) ==
            [0x00000000, 0x00000000, 0x00000000, 0x00000000]
  {
  }

  lemma FirstLine()
    ensures Words([0x41, 0x42, 0x43, 0x44, 0x45, 0x46, 0x47, 0x48, 0x49, 0x4a, 0x4b, 0x4c, 0x4d, 0x4e, 0x4f, 0x50]) ==
            [0x44434241, 0x48474645, 0x4c4b4a49, 0x504f4e4d]
  {
  }

  lemma SecondLine()
    ensures Words([0x51, 0x52, 0x53, 0x54, 0x55, 0x56, 0x57, 0x58, 0x59, 0x5a, 0x61, 0x62, 0x63, 0x64, 0x65, 0x66]) ==
            [0x54535251, 0x58575655, 0x62615a59, 0x66656463]
  {
  }

  lemma ThirdLine()
    ensures Words([0x67, 0x68, 0x69, 0x6a, 0x6b, 0x6c, 0x6d, 0x6e, 0x6f, 0x70, 0x71, 0x72, 0x73, 0x74, 0x75, 0x76]) ==
            [0x6a696867, 0x6e6d6c6b, 0x7271706f, 0x76757473]
  {
  }

  lemma FourthLine()
    ensures Words([0x77, 0x78, 0x79, 0x7a, 0x30, 0x31, 0x32, 0x33, 0x34, 0x35, 0x36, 0x37, 0x38, 0x39, 0x80, 0x00]) ==
            [0x7a797877, 0x33323130, 0x37363534, 0x00803938]
  {
  }

  lemma LastLine()
    ensures Words([0x00, 0x00, 0x00, 0x00, 0x00, 0x00, 0x00, 0x00, 0xf0, 0x01, 0x00, 0x00, 0x00, 0x00, 0x00, 0x00]) ==
            [0x00000000, 0x00000000, 0x000001f0, 0x00000000]
  {
  }

  lemma ShortLengths()
    ensures Length(0) == [0, 0, 0, 0, 0, 0, 0, 0]
    ensures Length(62) == [0xf0, 1, 0, 0, 0, 0, 0, 0]
  {
    hide WordBytes, BitsLow, BitsHigh;
    ShortCounts();
    BytesOfWords();
  }

  lemma ShortCounts()
    ensures BitsLow(62) == 0x1f0 && BitsHigh(62) == 0 && BitsLow(0) == 0 && BitsHigh(0) == 0
  {
  }

  lemma BytesOfWords()
    ensures WordBytes((0x1f0 as u32) as bv32) == [0xf0, 1, 0, 0] && WordBytes((0 as u32) as bv32) == [0, 0, 0, 0]
  {
    assert (0x1f0 as u32) as bv32 == 0x1f0 && (0 as u32) as bv32 == 0;
  }

  lemma EmptyPadded()
    ensures Blocks(0) == 1 && Words(Pad([])[0..64]) == EmptyWords()
  {
    hide Words, Length;
    var a: seq<byte> :=
      [0x80, 0x00, 0x00, 0x00, 0x00, 0x00, 0x00, 0x00, 0x00, 0x00, 0x00, 0x00, 0x00, 0x00, 0x00, 0x00];
    var z: seq<byte> :=
      [0x00, 0x00, 0x00, 0x00, 0x00, 0x00, 0x00, 0x00, 0x00, 0x00, 0x00, 0x00, 0x00, 0x00, 0x00, 0x00];
    ShortLengths();
    assert Pad([])[0..64] == a + z + z + z;
    FourLines(a, z, z, z);
    MarkedLine();
    ZeroLine();
  }

  /** The digest of the empty message. */
  lemma EmptyDigest()
    ensures DigestOf([]) ==
            [0xd4, 0x1d, 0x8c, 0xd9, 0x8f, 0x00, 0xb2, 0x04, 0xe9, 0x80, 0x09, 0x98, 0xec, 0xf8, 0x42, 0x7e]
  {
    hide Pad, Transform, Words;
    EmptyPadded();
    EmptyBlock();
    assert Chain(Pad([]), 0) == INIT;
    assert Chain(Pad([]), 1) == Compress(INIT, Pad([])[0..64]);
  }

  /** The 62 letters and digits: A to Z, a to z, 0 to 9. */
  function Alphanumerics(): (s: seq<byte>)
    ensures |s| == 62
  {
    [0x41, 0x42, 0x43, 0x44, 0x45, 0x46, 0x47, 0x48, 0x49, 0x4a, 0x4b, 0x4c, 0x4d, 0x4e, 0x4f, 0x50] +
    [0x51, 0x52, 0x53, 0x54, 0x55, 0x56, 0x57, 0x58, 0x59, 0x5a, 0x61, 0x62, 0x63, 0x64, 0x65, 0x66] +
    [0x67, 0x68, 0x69, 0x6a, 0x6b, 0x6c, 0x6d, 0x6e, 0x6f, 0x70, 0x71, 0x72, 0x73, 0x74, 0x75, 0x76] +
    [0x77, 0x78, 0x79, 0x7a, 0x30, 0x31, 0x32, 0x33, 0x34, 0x35, 0x36, 0x37, 0x38, 0x39]
  }

  lemma AlphanumericsPadded()
    ensures Blocks(62) == 2
    ensures Words(Pad(Alphanumerics())[0..64]) == FirstWords()
    ensures Words(Pad(Alphanumerics())[64..128]) == SecondWords()
  {
    hide Words, Length;
    var a: seq<byte> :=
      [0x41, 0x42, 0x43, 0x44, 0x45, 0x46, 0x47, 0x48, 0x49, 0x4a, 0x4b, 0x4c, 0x4d, 0x4e, 0x4f, 0x50];
    var b: seq<byte> :=
      [0x51, 0x52, 0x53, 0x54, 0x55, 0x56, 0x57, 0x58, 0x59, 0x5a, 0x61, 0x62, 0x63, 0x64, 0x65, 0x66];
    var c: seq<byte> :=
      [0x67, 0x68, 0x69, 0x6a, 0x6b, 0x6c, 0x6d, 0x6e, 0x6f, 0x70, 0x71, 0x72, 0x73, 0x74, 0x75, 0x76];
    var d: seq<byte> :=
      [0x77, 0x78, 0x79, 0x7a, 0x30, 0x31, 0x32, 0x33, 0x34, 0x35, 0x36, 0x37, 0x38, 0x39, 0x80, 0x00];
    var z: seq<byte> :=
      [0x00, 0x00, 0x00, 0x00, 0x00, 0x00, 0x00, 0x00, 0x00, 0x00, 0x00, 0x00, 0x00, 0x00, 0x00, 0x00];
    var e: seq<byte> :=
      [0x00, 0x00, 0x00, 0x00, 0x00, 0x00, 0x00, 0x00, 0xf0, 0x01, 0x00, 0x00, 0x00, 0x00, 0x00, 0x00];
    ShortLengths();
    var p := Pad(Alphanumerics());
    assert p == Alphanumerics() + [0x80] + Zeros(57) + Length(62);
    assert p[0..64] == a + b + c + d;
    assert p[64..128] == z + z + z + e;
    FourLines(a, b, c, d);
    FourLines(z, z, z, e);
    FirstLine();
    SecondLine();
    ThirdLine();
    FourthLine();
    ZeroLine();
    LastLine();
  }

  /** The digest of the letters and digits. */
  lemma AlphanumericsDigest()
    ensures DigestOf(Alphanumerics()) ==
            [0xd1, 0x74, 0xab, 0x98, 0xd2, 0x77, 0xd9, 0xf5, 0xa5, 0x61, 0x1c, 0x2c, 0x9f, 0x41, 0x9d, 0x9f]
  {
    hide Pad, Transform, Words, Alphanumerics;
    AlphanumericsPadded();
    FirstBlock();
    SecondBlock();
    var p := Pad(Alphanumerics());
    assert Chain(p, 0) == INIT;
    assert Chain(p, 1) == Compress(INIT, p[0..64]);
    assert Chain(p, 2) == Compress(Chain(p, 1), p[64..128]);
  }
}
