/** fst_utils.c: base64, hex and url encoding, and the hash strings of fst_hash.c. */
module Codecs {
  import opened Bytes
  import FstHash

  //////////////////////////////////////////////////////////////////////////
  // Base64 (section 4 of RFC 4648).
  //////////////////////////////////////////////////////////////////////////

  /** The alphabet: A to Z, a to z, 0 to 9, plus and slash. */
  function Digit(v: byte): byte {
    if v < 26 then 0x41 + v
    else if v < 52 then 0x61 + (v - 26)
    else if v < 62 then 0x30 + (v - 52)
    else if v == 62 then 0x2b
    else 0x2f
  }

  /** The alphabet in full. */
  lemma Base64Alphabet()
    ensures [Digit(0), Digit(1), Digit(2), Digit(3), Digit(4), Digit(5), Digit(6), Digit(7),
             Digit(8), Digit(9), Digit(10), Digit(11), Digit(12), Digit(13), Digit(14), Digit(15),
             Digit(16), Digit(17), Digit(18), Digit(19), Digit(20), Digit(21), Digit(22), Digit(23),
             Digit(24), Digit(25), Digit(26), Digit(27), Digit(28), Digit(29), Digit(30), Digit(31),
             Digit(32), Digit(33), Digit(34), Digit(35), Digit(36), Digit(37), Digit(38), Digit(39),
             Digit(40), Digit(41), Digit(42), Digit(43), Digit(44), Digit(45), Digit(46), Digit(47),
             Digit(48), Digit(49), Digit(50), Digit(51), Digit(52), Digit(53), Digit(54), Digit(55),
             Digit(56), Digit(57), Digit(58), Digit(59), Digit(60), Digit(61), Digit(62), Digit(63)] ==
            [0x41, 0x42, 0x43, 0x44, 0x45, 0x46, 0x47, 0x48, 0x49, 0x4a, 0x4b, 0x4c, 0x4d,
             0x4e, 0x4f, 0x50, 0x51, 0x52, 0x53, 0x54, 0x55, 0x56, 0x57, 0x58, 0x59, 0x5a,
             0x61, 0x62, 0x63, 0x64, 0x65, 0x66, 0x67, 0x68, 0x69, 0x6a, 0x6b, 0x6c, 0x6d,
             0x6e, 0x6f, 0x70, 0x71, 0x72, 0x73, 0x74, 0x75, 0x76, 0x77, 0x78, 0x79, 0x7a,
             0x30, 0x31, 0x32, 0x33, 0x34, 0x35, 0x36, 0x37, 0x38, 0x39, 0x2b, 0x2f]
  {
  }

  /** The place of a character in the alphabet. */
  function Sextet(c: byte): Option<byte> {
    if 0x41 <= c <= 0x5a then Some(c - 0x41)
    else if 0x61 <= c <= 0x7a then Some(c - 0x61 + 26)
    else if 0x30 <= c <= 0x39 then Some(c - 0x30 + 52)
    else if c == 0x2b then Some(62)
    else if c == 0x2f then Some(63)
    else None
  }

  lemma DigitSextet(v: byte)
    requires v < 64
    ensures Sextet(Digit(v)) == Some(v)
  {
  }

  /** Every character of the alphabet is one digit's. */
  lemma SextetDigit(c: byte)
    ensures Sextet(c).Some? ==> Sextet(c).value < 64 && Digit(Sextet(c).value) == c
    ensures Sextet(0x3d) == None
  {
  }

  /** The four sextets of three octets. */
  function Sextets(a: byte, b: byte, c: byte): (s: seq<byte>)
    ensures |s| == 4
  {
    [a >> 2, ((a & 0x03) << 4) + (b >> 4), ((b & 0x0f) << 2) + (c >> 6), c & 0x3f]
  }

  function FirstOctet(x: byte, y: byte): byte { (x << 2) | ((y & 0x30) >> 4) }

  function SecondOctet(y: byte, z: byte): byte { ((y & 0x0f) << 4) | ((z & 0x3c) >> 2) }

  function ThirdOctet(z: byte, w: byte): byte { ((z & 0x03) << 6) | (w & 0x3f) }

  lemma SextetsOctets(a: byte, b: byte, c: byte)
    ensures var s := Sextets(a, b, c);
            s[0] < 64 && s[1] < 64 && s[2] < 64 && s[3] < 64 &&
            FirstOctet(s[0], s[1]) == a && SecondOctet(s[1], s[2]) == b && ThirdOctet(s[2], s[3]) == c
  {
  }

  /** The 24 bits of three octets, six at a time from the highest. */
  lemma SextetsSpell(a: byte, b: byte, c: byte)
    ensures var s := Sextets(a, b, c);
            ((s[0] as bv24) << 18) | ((s[1] as bv24) << 12) | ((s[2] as bv24) << 6) | (s[3] as bv24) ==
            ((a as bv24) << 16) | ((b as bv24) << 8) | (c as bv24)
  {
  }

  function Digits(s: seq<byte>): (d: seq<byte>)
    ensures |d| == |s|
  {
    seq(|s|, i requires 0 <= i < |s| => Digit(s[i]))
  }

  /** fst_utils_base64_encode. */
  function Base64(data: seq<byte>): seq<byte> {
    if |data| > 2 then Digits(Sextets(data[0], data[1], data[2])) + Base64(data[3..])
    else if |data| == 2 then Digits(Sextets(data[0], data[1], 0)[..3]) + [0x3d]
    else if |data| == 1 then Digits(Sextets(data[0], 0, 0)[..2]) + [0x3d, 0x3d]
    else []
  }

  /** Test vectors of section 10 of RFC 4648: f, fo and foobar. */
  lemma Base64Vectors()
    ensures Base64([0x66]) == [0x5a, 0x67, 0x3d, 0x3d]
    ensures Base64([0x66, 0x6f]) == [0x5a, 0x6d, 0x38, 0x3d]
    ensures Base64([0x66, 0x6f, 0x6f, 0x62, 0x61, 0x72]) ==
            [0x5a, 0x6d, 0x39, 0x76, 0x59, 0x6d, 0x46, 0x79]
  {
    var foobar: seq<byte> := [0x66, 0x6f, 0x6f, 0x62, 0x61, 0x72];
    var bar: seq<byte> := [0x62, 0x61, 0x72];
    assert foobar[3..] == bar && bar[3..] == [];
    assert Base64(foobar) == Digits(Sextets(0x66, 0x6f, 0x6f)) + Base64(bar);
    assert Base64(bar) == Digits(Sextets(0x62, 0x61, 0x72)) + Base64([]);
    assert Sextets(0x66, 0x6f, 0x6f) == [25, 38, 61, 47] && Sextets(0x62, 0x61, 0x72) == [24, 38, 5, 50];
    assert Sextets(0x66, 0, 0) == [25, 32, 0, 0] && Sextets(0x66, 0x6f, 0) == [25, 38, 60, 0];
  }

  /** What is left to write when the text ends. */
  function Flush(held: seq<byte>): seq<byte> {
    if |held| < 2 then []
    else if |held| == 2 then [FirstOctet(held[0], held[1])]
    else [FirstOctet(held[0], held[1]), SecondOctet(held[1], held[2])]
  }

  function Octets(x: byte, y: byte, z: byte, w: byte): seq<byte> {
    [FirstOctet(x, y), SecondOctet(y, z), ThirdOctet(z, w)]
  }

  /** fst_utils_base64_decode, with the sextets it holds. Other characters are skipped. */
  function Unbase64(text: seq<byte>, held: seq<byte>): seq<byte>
    requires |held| < 4
    decreases |text|
  {
    if text == [] then Flush(held)
    else match Sextet(text[0])
      case None => Unbase64(text[1..], held)
      case Some(v) =>
        if |held| == 3 then Octets(held[0], held[1], held[2], v) + Unbase64(text[1..], [])
        else Unbase64(text[1..], held + [v])
  }

  lemma TakeDigit(v: byte, rest: seq<byte>, held: seq<byte>)
    requires v < 64 && |held| < 4
    ensures Unbase64([Digit(v)] + rest, held) ==
            if |held| == 3 then Octets(held[0], held[1], held[2], v) + Unbase64(rest, [])
            else Unbase64(rest, held + [v])
  {
    hide Digit, Sextet, FirstOctet, SecondOctet, ThirdOctet;
    DigitSextet(v);
    assert ([Digit(v)] + rest)[1..] == rest;
  }

  /** Up to three digits are held. */
  lemma {:induction false} TakeDigits(s: seq<byte>, rest: seq<byte>, held: seq<byte>)
    requires |held| + |s| < 4 && forall i :: 0 <= i < |s| ==> s[i] < 64
    ensures Unbase64(Digits(s) + rest, held) == Unbase64(rest, held + s)
  {
    hide Digit;
    if s == [] {
      assert Digits(s) + rest == rest && held + s == held;
    } else {
      TakeDigit(s[0], Digits(s[1..]) + rest, held);
      TakeDigits(s[1..], rest, held + [s[0]]);
      assert Digits(s) + rest == [Digit(s[0])] + (Digits(s[1..]) + rest);
      assert held + [s[0]] + s[1..] == held + s;
    }
  }

  lemma TakeFour(s: seq<byte>, rest: seq<byte>)
    requires |s| == 4 && forall i :: 0 <= i < 4 ==> s[i] < 64
    ensures Unbase64(Digits(s) + rest, []) == Octets(s[0], s[1], s[2], s[3]) + Unbase64(rest, [])
  {
    hide Digit, Octets, Unbase64;
    TakeDigits(s[..3], [Digit(s[3])] + rest, []);
    assert Digits(s) + rest == Digits(s[..3]) + ([Digit(s[3])] + rest);
    assert [] + s[..3] == s[..3];
    TakeDigit(s[3], rest, s[..3]);
  }

  lemma {:induction false} Padding(n: nat, held: seq<byte>)
    requires |held| < 4
    ensures Unbase64(seq(n, _ => 0x3d), held) == Flush(held)
  {
    if n > 0 {
      SextetDigit(0);
      assert seq(n, _ => 0x3d as byte)[1..] == seq(n - 1, _ => 0x3d as byte);
      Padding(n - 1, held);
    }
  }

  lemma OnePad(held: seq<byte>)
    requires |held| < 4
    ensures Unbase64([0x3d], held) == Flush(held)
  {
    Padding(1, held);
    assert [0x3d] == seq(1, _ => 0x3d as byte);
  }

  lemma TwoPads(held: seq<byte>)
    requires |held| < 4
    ensures Unbase64([0x3d, 0x3d], held) == Flush(held)
  {
    Padding(2, held);
    assert [0x3d, 0x3d] == seq(2, _ => 0x3d as byte);
  }

  lemma TwoLeft(a: byte, b: byte)
    ensures Unbase64(Digits(Sextets(a, b, 0)[..3]) + [0x3d], []) == [a, b]
  {
    hide Digits, Sextets, FirstOctet, SecondOctet, ThirdOctet, Unbase64;
    var s := Sextets(a, b, 0);
    SextetsOctets(a, b, 0);
    TakeDigits(s[..3], [0x3d], []);
    OnePad(s[..3]);
    assert [] + s[..3] == s[..3];
  }

  lemma OneLeft(a: byte)
    ensures Unbase64(Digits(Sextets(a, 0, 0)[..2]) + [0x3d, 0x3d], []) == [a]
  {
    hide Digits, Sextets, FirstOctet, SecondOctet, ThirdOctet, Unbase64;
    var s := Sextets(a, 0, 0);
    SextetsOctets(a, 0, 0);
    TakeDigits(s[..2], [0x3d, 0x3d], []);
    TwoPads(s[..2]);
    assert [] + s[..2] == s[..2];
  }

  /** Decoding restores every byte string. */
  lemma {:induction false} Base64RoundTrip(data: seq<byte>)
    ensures Unbase64(Base64(data), []) == data
  {
    hide Digits, Sextets, FirstOctet, SecondOctet, ThirdOctet, Unbase64;
    if |data| > 2 {
      var s := Sextets(data[0], data[1], data[2]);
      SextetsOctets(data[0], data[1], data[2]);
      TakeFour(s, Base64(data[3..]));
      Base64RoundTrip(data[3..]);
      assert data == [data[0], data[1], data[2]] + data[3..];
    } else if |data| == 2 {
      TwoLeft(data[0], data[1]);
    } else if |data| == 1 {
      OneLeft(data[0]);
    } else {
      Padding(0, []);
      assert seq(0, _ => 0x3d as byte) == [];
    }
  }

  /** The buffers allocated are large enough, the terminator included. */
  lemma {:induction false} Base64Fits(data: seq<byte>)
    ensures |Base64(data)| == 4 * ((|data| + 2) / 3) < (|data| + 4) * 2
  {
    if |data| > 2 {
      Base64Fits(data[3..]);
    }
  }

  lemma {:induction false} Unbase64Fits(text: seq<byte>, held: seq<byte>)
    requires |held| < 4
    ensures 4 * |Unbase64(text, held)| <= 3 * (|text| + |held|)
    decreases |text|
  {
    hide Sextet, FirstOctet, SecondOctet, ThirdOctet;
    if text != [] {
      match Sextet(text[0])
      case None => Unbase64Fits(text[1..], held);
      case Some(v) =>
        if |held| == 3 {
          Unbase64Fits(text[1..], []);
        } else {
          Unbase64Fits(text[1..], held + [v]);
        }
    }
  }

  /** fst_utils_base64_encode: the loop, and the one or two octets behind it. */
  method Base64Encode(data: seq<byte>) returns (text: seq<byte>)
    ensures text == Base64(data)
  {
    hide Digit, Base64, Sextets;
    var out := new byte[(|data| + 4) * 2];
    var dst, src := 0, 0;
    Base64Fits(data);
    Parts(data, 0);
    while |data| - src > 2
      invariant src <= |data| && dst + |Base64(data[src..])| == |Base64(data)|
      invariant out[..dst] + Base64(data[src..]) == Base64(data)
    {
      Parts(data, src);
      var s := Sextets(data[src], data[src + 1], data[src + 2]);
      ghost var before := out[..dst];
      PutDigits(out, dst, s);
      SumAssociates(before, Digits(s), Base64(data[src + 3..]));
      dst, src := dst + 4, src + 3;
    }
    Parts(data, src);
    dst := PutTail(out, dst, data[src..]);
    out[dst] := 0;
    text := out[..dst];
  }

  /** One or two octets left over, with their padding. */
  method PutTail(out: array<byte>, dst: nat, data: seq<byte>) returns (end: nat)
    requires |data| <= 2 && dst + |Base64(data)| <= out.Length
    modifies out
    ensures end == dst + |Base64(data)| && out[..end] == old(out[..dst]) + Base64(data)
  {
    hide Digit, Sextets;
    end := dst;
    if |data| == 1 {
      PutDigits(out, dst, Sextets(data[0], 0, 0)[..2]);
      PutPad(out, dst + 2);
      PutPad(out, dst + 3);
      end := dst + 4;
    } else if |data| == 2 {
      PutDigits(out, dst, Sextets(data[0], data[1], 0)[..3]);
      PutPad(out, dst + 3);
      end := dst + 4;
    }
  }

  method PutPad(out: array<byte>, dst: nat)
    requires dst < out.Length
    modifies out
    ensures out[..dst + 1] == old(out[..dst]) + [0x3d]
  {
    out[dst] := 0x3d;
  }

  /** The encoding of what remains. */
  lemma Parts(data: seq<byte>, i: nat)
    requires i <= |data|
    ensures data[0..] == data
    ensures |data| - i > 2 ==>
              Base64(data[i..]) == Digits(Sextets(data[i], data[i + 1], data[i + 2])) + Base64(data[i + 3..])
    ensures |data| - i == 2 ==> Base64(data[i..]) == Digits(Sextets(data[i], data[i + 1], 0)[..3]) + [0x3d]
    ensures |data| - i == 1 ==> Base64(data[i..]) == Digits(Sextets(data[i], 0, 0)[..2]) + [0x3d, 0x3d]
    ensures |data| == i ==> Base64(data[i..]) == []
  {
    hide Sextets, Digits;
    if |data| - i > 2 {
      assert data[i..][3..] == data[i + 3..];
    }
  }

  method PutDigits(out: array<byte>, dst: nat, s: seq<byte>)
    requires dst + |s| <= out.Length
    modifies out
    ensures out[..dst + |s|] == old(out[..dst]) + Digits(s)
  {
    hide Digit;
    for i := 0 to |s|
      invariant out[..dst] == old(out[..dst])
      invariant forall k :: 0 <= k < i ==> out[dst + k] == Digit(s[k])
    {
      out[dst + i] := Digit(s[i]);
    }
  }

  /** fst_utils_base64_decode. */
  method Base64Decode(text: seq<byte>) returns (data: seq<byte>)
    ensures data == Unbase64(text, [])
  {
    hide Sextet, FirstOctet, SecondOctet, ThirdOctet;
    var out := new byte[|text|];
    var dst, held := 0, [];
    Unbase64Fits(text, []);
    assert text[0..] == text && out[..0] == [];
    for i := 0 to |text|
      invariant |held| < 4 && dst + |Unbase64(text[i..], held)| == |Unbase64(text, [])| <= out.Length
      invariant out[..dst] + Unbase64(text[i..], held) == Unbase64(text, [])
    {
      assert text[i..][1..] == text[i + 1..];
      match Sextet(text[i]) {
        case None =>
        case Some(v) =>
          held := held + [v];
          if |held| == 4 {
            var o := Octets(held[0], held[1], held[2], held[3]);
            ghost var before := out[..dst];
            MemCpy(out, dst, o);
            SumAssociates(before, o, Unbase64(text[i + 1..], []));
            dst, held := dst + 3, [];
          }
      }
    }
    assert text[|text|..] == [];
    var rest := Flush(held);
    MemCpy(out, dst, rest);
    dst := dst + |rest|;
    data := out[..dst];
  }

  //////////////////////////////////////////////////////////////////////////
  // Hex.
  //////////////////////////////////////////////////////////////////////////

  function HexDigit(v: byte): byte {
    if v < 10 then 0x30 + v else 0x61 + (v - 10)
  }

  /** The digits: 0 to 9 and a to f. */
  lemma HexAlphabet()
    ensures [HexDigit(0), HexDigit(1), HexDigit(2), HexDigit(3), HexDigit(4), HexDigit(5), HexDigit(6),
             HexDigit(7),
             HexDigit(8), HexDigit(9), HexDigit(10), HexDigit(11), HexDigit(12), HexDigit(13), HexDigit(14),
             HexDigit(15)] ==
            [0x30, 0x31, 0x32, 0x33, 0x34, 0x35, 0x36, 0x37, 0x38, 0x39,
             0x61, 0x62, 0x63, 0x64, 0x65, 0x66]
  {
  }

  function HexValue(c: byte): Option<byte> {
    if 0x30 <= c <= 0x39 then Some(c - 0x30)
    else if 0x61 <= c <= 0x66 then Some(c - 0x61 + 10)
    else if 0x41 <= c <= 0x46 then Some(c - 0x41 + 10)
    else None
  }

  /** Digits are read in either case, and nothing else is. */
  lemma HexRead(c: byte)
    ensures match HexValue(c)
            case Some(v) => v < 16 && (c == HexDigit(v) || (v >= 10 && c + 0x20 == HexDigit(v)))
            case None => forall v :: v < 16 ==> c != HexDigit(v) && (v >= 10 ==> c + 0x20 != HexDigit(v))
  {
  }

  function Nibbles(hi: byte, lo: byte): byte { (hi << 4) | lo }

  lemma HexByte(b: byte)
    ensures HexValue(HexDigit(b >> 4)) == Some(b >> 4) && HexValue(HexDigit(b & 0x0f)) == Some(b & 0x0f)
    ensures Nibbles(b >> 4, b & 0x0f) == b
  {
  }

  function HexPair(b: byte): (s: seq<byte>)
    ensures |s| == 2
  {
    [HexDigit(b >> 4), HexDigit(b & 0x0f)]
  }

  /** fst_utils_hex_encode. */
  function Hex(data: seq<byte>): (s: seq<byte>)
    ensures |s| == 2 * |data|
  {
    if data == [] then [] else HexPair(data[0]) + Hex(data[1..])
  }

  /** fst_utils_hex_decode: no result for a character that is no digit; an odd
      character at the end is ignored. */
  function Unhex(text: seq<byte>): Option<seq<byte>> {
    if |text| < 2 then Some([])
    else match (HexValue(text[0]), HexValue(text[1]))
      case (Some(hi), Some(lo)) =>
        (match Unhex(text[2..])
         case None => None
         case Some(rest) => Some([Nibbles(hi, lo)] + rest))
      case _ => None
  }

  /** The high digit comes first. */
  lemma HexOrder()
    ensures Hex([0x1f, 0xe0]) == [0x31, 0x66, 0x65, 0x30]
  {
    assert [0x1f as byte, 0xe0][1..] == [0xe0] && [0xe0 as byte][1..] == [];
    assert Hex([0xe0]) == HexPair(0xe0) + Hex([]);
    assert HexPair(0x1f) == [0x31, 0x66] && HexPair(0xe0) == [0x65, 0x30];
  }

  /** Decoding restores every byte string, whatever single character follows it. */
  lemma {:induction false} HexRoundTrip(data: seq<byte>, odd: seq<byte>)
    requires |odd| < 2
    ensures Unhex(Hex(data) + odd) == Some(data)
  {
    hide HexValue, HexDigit, Nibbles;
    if data == [] {
      assert Hex(data) + odd == odd;
    } else {
      HexByte(data[0]);
      HexRoundTrip(data[1..], odd);
      var text := Hex(data) + odd;
      assert text[2..] == Hex(data[1..]) + odd;
      assert data == [data[0]] + data[1..];
    }
  }

  method HexEncode(data: seq<byte>) returns (text: seq<byte>)
    ensures text == Hex(data)
  {
    hide HexPair;
    var out := new byte[|data| * 2 + 1];
    assert data[0..] == data && out[..0] == [];
    for i := 0 to |data|
      invariant out[..2 * i] + Hex(data[i..]) == Hex(data)
    {
      ghost var before := out[..2 * i];
      assert data[i..][1..] == data[i + 1..];
      MemCpy(out, 2 * i, HexPair(data[i]));
      SumAssociates(before, HexPair(data[i]), Hex(data[i + 1..]));
    }
    out[2 * |data|] := 0;
    text := out[..2 * |data|];
    assert data[|data|..] == [];
  }

  method HexDecode(text: seq<byte>) returns (data: Option<seq<byte>>)
    ensures data == Unhex(text)
  {
    hide HexValue, Nibbles;
    var dst := new byte[|text| / 2 + 1];
    var i := 0;
    assert text[0..] == text && forall rest: seq<byte> :: dst[..0] + rest == rest;
    while 2 * i + 1 < |text|
      invariant 2 * i <= |text|
      invariant Unhex(text) == match Unhex(text[2 * i..]) { case None => None case Some(rest) => Some(dst[..i] + rest) }
    {
      assert text[2 * i..][2..] == text[2 * i + 2..];
      var hi, lo := HexValue(text[2 * i]), HexValue(text[2 * i + 1]);
      if hi.None? || lo.None? {
        return None;
      }
      ghost var before := dst[..i];
      MemCpy(dst, i, [Nibbles(hi.value, lo.value)]);
      i := i + 1;
      assert forall rest: seq<byte> :: before + ([dst[i - 1]] + rest) == dst[..i] + rest;
    }
    assert dst[..i] + [] == dst[..i];
    data := Some(dst[..i]);
  }

  //////////////////////////////////////////////////////////////////////////
  // Hash strings.
  //////////////////////////////////////////////////////////////////////////

  const FTHASH_LEN: nat := 20

  /** fst_hash_decode16_kzhash and fst_hash_decode16_fthash, by the length of the hash. */
  function Decode16(text: seq<byte>, len: nat): Option<seq<byte>> {
    match Unhex(text)
    case None => None
    case Some(buf) => if |buf| < len then None else Some(buf[..len])
  }

  function Decode64(text: seq<byte>, len: nat): Option<seq<byte>> {
    var buf := Unbase64(text, []);
    if |buf| < len then None else Some(buf[..len])
  }

  /** fst_hash_encode64_fthash writes a leading '='. */
  function Encode64Fthash(hash: seq<byte>): seq<byte> {
    [0x3d] + Base64(hash)
  }

  /** The hex form of either hash decodes to the hash, and fits the static buffer. */
  lemma HexHashes(kzhash: seq<byte>, fthash: seq<byte>)
    requires |kzhash| == FstHash.KZHASH_LEN && |fthash| == FTHASH_LEN
    ensures Decode16(Hex(kzhash), FstHash.KZHASH_LEN) == Some(kzhash) && |Hex(kzhash)| < 128
    ensures Decode16(Hex(fthash), FTHASH_LEN) == Some(fthash) && |Hex(fthash)| < 128
    ensures Decode16(Hex(kzhash), FTHASH_LEN) == Some(kzhash[..FTHASH_LEN])
  {
    hide Hex, Unhex;
    HexRoundTrip(kzhash, []);
    HexRoundTrip(fthash, []);
    assert Hex(kzhash) + [] == Hex(kzhash) && Hex(fthash) + [] == Hex(fthash);
    assert kzhash[..FstHash.KZHASH_LEN] == kzhash && fthash[..FTHASH_LEN] == fthash;
  }

  /** So does the base64 form, with or without the leading '='. */
  lemma Base64Hashes(kzhash: seq<byte>, fthash: seq<byte>)
    requires |kzhash| == FstHash.KZHASH_LEN && |fthash| == FTHASH_LEN
    ensures Decode64(Base64(kzhash), FstHash.KZHASH_LEN) == Some(kzhash) && |Base64(kzhash)| < 128
    ensures Decode64(Encode64Fthash(fthash), FTHASH_LEN) == Some(fthash) && |Encode64Fthash(fthash)| < 128
    ensures Encode64Fthash(fthash)[0] == 0x3d && Decode64(Encode64Fthash(fthash)[1..], FTHASH_LEN) == Some(fthash)
  {
    hide Base64, Sextet;
    Base64RoundTrip(kzhash);
    Base64RoundTrip(fthash);
    Base64Fits(kzhash);
    Base64Fits(fthash);
    SextetDigit(0);
    assert Encode64Fthash(fthash)[1..] == Base64(fthash);
    assert kzhash[..FstHash.KZHASH_LEN] == kzhash && fthash[..FTHASH_LEN] == fthash;
  }

  //////////////////////////////////////////////////////////////////////////
  // Urls.
  //////////////////////////////////////////////////////////////////////////

  /** Printable characters that are neither white space nor special: ? @ + % & : = ( )
      [ ] and both quotes are. */
  predicate IsPlain(c: byte) {
    0x21 <= c <= 0x7e && c != 0x3f && c != 0x40 && c != 0x2b && c != 0x25 && c != 0x26 && c != 0x3a && c != 0x3d &&
    c != 0x28 && c != 0x29 && c != 0x5b && c != 0x5d && c != 0x22 && c != 0x27
  }

  /** The others: what is not printable or white space, and thirteen special characters. */
  lemma SpecialCharacters(c: byte)
    ensures !IsPlain(c) <==>
              c <= 0x20 || c >= 0x7f ||
              c in [0x22, 0x25, 0x26, 0x27, 0x28, 0x29, 0x2b, 0x3a, 0x3d, 0x3f, 0x40, 0x5b, 0x5d]
  {
  }

  function UrlChar(c: byte): (s: seq<byte>)
    ensures 1 <= |s| <= 3
  {
    if IsPlain(c) then [c] else [0x25] + HexPair(c)
  }

  /** fst_utils_url_encode. */
  function UrlEncode(s: seq<byte>): seq<byte> {
    if s == [] then [] else UrlChar(s[0]) + UrlEncode(s[1..])
  }

  /** How many characters the next decoded one takes, and what it is. */
  predicate IsEscape(s: seq<byte>) {
    |s| >= 3 && s[0] == 0x25 && HexValue(s[1]).Some? && HexValue(s[2]).Some?
  }

  function UrlDecode(s: seq<byte>): seq<byte> {
    if s == [] then []
    else if IsEscape(s) then [Nibbles(HexValue(s[1]).value, HexValue(s[2]).value)] + UrlDecode(s[3..])
    else [if s[0] == 0x2b then 0x20 else s[0]] + UrlDecode(s[1..])
  }

  /** A plus sign is a space, and a percent sign without two digits behind it stays. */
  lemma UrlSpecials(s: seq<byte>)
    requires s != []
    ensures s[0] == 0x2b ==> UrlDecode(s) == [0x20] + UrlDecode(s[1..])
    ensures s[0] == 0x25 && (|s| < 3 || HexValue(s[1]).None? || HexValue(s[2]).None?) ==>
              UrlDecode(s) == [0x25] + UrlDecode(s[1..])
    ensures s[0] != 0x2b && s[0] != 0x25 ==> UrlDecode(s) == [s[0]] + UrlDecode(s[1..])
  {
    hide Nibbles, HexValue;
  }

  lemma UrlCharDecodes(c: byte, rest: seq<byte>)
    ensures UrlDecode(UrlChar(c) + rest) == [c] + UrlDecode(rest)
  {
    hide Nibbles, HexDigit, HexValue;
    HexByte(c);
    var s := UrlChar(c) + rest;
    if IsPlain(c) {
      assert s[1..] == rest;
    } else {
      assert s[1] == HexDigit(c >> 4) && s[2] == HexDigit(c & 0x0f) && s[3..] == rest;
    }
  }

  /** Decoding restores every string. */
  lemma {:induction false} UrlRoundTrip(s: seq<byte>)
    ensures UrlDecode(UrlEncode(s)) == s
  {
    hide UrlChar;
    if s != [] {
      UrlCharDecodes(s[0], UrlEncode(s[1..]));
      UrlRoundTrip(s[1..]);
      assert s == [s[0]] + s[1..];
    }
  }

  /** An encoded string has no special characters but the percent sign, and fits the
      buffer allocated for it. */
  lemma {:induction false} UrlEncodeIsPlain(s: seq<byte>)
    ensures forall c :: c in UrlEncode(s) ==> IsPlain(c) || c == 0x25
    ensures |s| <= |UrlEncode(s)| <= 3 * |s|
  {
    if s != [] {
      UrlCharIsPlain(s[0]);
      hide UrlChar, IsPlain;
      UrlEncodeIsPlain(s[1..]);
      forall c | c in UrlEncode(s)
        ensures IsPlain(c) || c == 0x25
      {
        assert c in UrlChar(s[0]) || c in UrlEncode(s[1..]);
      }
    }
  }

  lemma UrlCharIsPlain(c: byte)
    ensures forall d :: d in UrlChar(c) ==> IsPlain(d) || d == 0x25
  {
    HexDigitIsPlain(c >> 4);
    HexDigitIsPlain(c & 0x0f);
  }

  lemma HexDigitIsPlain(v: byte)
    requires v < 16
    ensures IsPlain(HexDigit(v))
  {
  }

  /** fst_utils_url_decode, in place on a copy. */
  method UrlDecodeInPlace(encoded: seq<byte>) returns (decoded: seq<byte>)
    ensures decoded == UrlDecode(encoded)
  {
    hide IsEscape, UrlDecode;
    var buf := new byte[|encoded|];
    MemCpy(buf, 0, encoded);
    var ptr, end := 0, |encoded|;
    assert buf[0..end] == encoded && buf[..0] == [];
    while ptr < end
      invariant ptr <= end <= buf.Length && buf[..ptr] + UrlDecode(buf[ptr..end]) == UrlDecode(encoded)
      decreases end - ptr
    {
      ghost var before := buf[..ptr];
      end := DecodeAt(buf, ptr, end);
      assert buf[..ptr + 1] == before + [buf[ptr]];
      ptr := ptr + 1;
      SumAssociates(before, [buf[ptr - 1]], UrlDecode(buf[ptr..end]));
    }
    assert buf[ptr..end] == [];
    DecodeNothing();
    decoded := buf[..ptr];
  }

  lemma DecodeNothing()
    ensures UrlDecode([]) == []
  {
  }

  /** One character in place: what follows an escape is moved down. */
  method DecodeAt(buf: array<byte>, ptr: nat, end: nat) returns (end1: nat)
    requires ptr < end <= buf.Length
    modifies buf
    ensures ptr < end1 <= end && buf[..ptr] == old(buf[..ptr])
    ensures UrlDecode(old(buf[ptr..end])) == [buf[ptr]] + UrlDecode(buf[ptr + 1..end1])
  {
    hide HexValue, Nibbles;
    ghost var rest := buf[ptr..end];
    assert rest[1..] == buf[ptr + 1..end];
    assert end - ptr >= 3 ==> rest[1] == buf[ptr + 1] && rest[2] == buf[ptr + 2] && rest[3..] == buf[ptr + 3..end];
    end1 := end;
    if buf[ptr] == 0x2b {
      buf[ptr] := 0x20;
    } else if end - ptr >= 3 && buf[ptr] == 0x25 && HexValue(buf[ptr + 1]).Some? && HexValue(buf[ptr + 2]).Some? {
      buf[ptr] := Nibbles(HexValue(buf[ptr + 1]).value, HexValue(buf[ptr + 2]).value);
      MoveDown(buf, ptr + 1, ptr + 3, end);
      end1 := end - 2;
    }
  }

  /** memmove(buf + to, buf + from, end - from). */
  method MoveDown(buf: array<byte>, to: nat, from: nat, end: nat)
    requires to <= from <= end <= buf.Length
    modifies buf
    ensures buf[..to] == old(buf[..to]) && buf[to..to + (end - from)] == old(buf[from..end])
  {
    for i := 0 to end - from
      invariant buf[..to] == old(buf[..to]) && buf[to..to + i] == old(buf[from..from + i])
      invariant buf[from + i..end] == old(buf[from + i..end])
    {
      assert buf[from + i] == old(buf[from + i..end])[0] == old(buf[from + i]);
      buf[to + i] := buf[from + i];
      assert buf[to..to + i + 1] == buf[to..to + i] + [buf[to + i]];
      assert buf[from + i + 1..end] == old(buf[from + i..end])[1..];
    }
  }

  lemma EncodeFrom(s: seq<byte>, i: nat)
    requires i < |s|
    ensures UrlEncode(s[i..]) == UrlChar(s[i]) + UrlEncode(s[i + 1..])
  {
    assert s[i..][1..] == s[i + 1..];
  }

  lemma EncodeNothing()
    ensures UrlEncode([]) == []
  {
  }

  method UrlEncodeString(s: seq<byte>) returns (encoded: seq<byte>)
    ensures encoded == UrlEncode(s)
  {
    hide UrlChar, UrlEncode;
    EncodeNothing();
    var out := new byte[|s| * 3 + 1];
    var ptr := 0;
    assert s[0..] == s && out[..0] == [];
    for i := 0 to |s|
      invariant 0 <= ptr <= 3 * i && out[..ptr] + UrlEncode(s[i..]) == UrlEncode(s)
    {
      ghost var before := out[..ptr];
      EncodeFrom(s, i);
      MemCpy(out, ptr, UrlChar(s[i]));
      SumAssociates(before, UrlChar(s[i]), UrlEncode(s[i + 1..]));
      ptr := ptr + |UrlChar(s[i])|;
    }
    out[ptr] := 0;
    encoded := out[..ptr];
    assert s[|s|..] == [];
  }
}
