/** fst_packet.c: a growable buffer with a read position, and FastTrack's
    variable-length integers. */
module PacketBuffer {
  import opened Bytes

  //////////////////////////////////////////////////////////////////////////
  // Variable-length integers.
  //////////////////////////////////////////////////////////////////////////

  predicate Continues(b: byte) { b & 0x80 != 0 }

  /** What is left above the lowest septet. */
  function Upper(v: bv32): bv32 { v >> 7 }

  function Septet(v: bv32): byte { (v & 0x7f) as byte }

  function Marked(b: byte): byte { 0x80 | b }

  function Unmarked(b: byte): byte { b & 0x7f }

  /** The octets before the last one, each with its continuation bit. */
  function HighSeptets(v: bv32): seq<byte>
    decreases v
  {
    if v == 0 then [] else HighSeptets(Upper(v)) + [Marked(Septet(v))]
  }

  /** The encoding of fst_packet_put_dynint. */
  function DynInt(v: bv32): seq<byte> {
    HighSeptets(Upper(v)) + [Septet(v)]
  }

  /** One turn of the loop of fst_packet_get_dynint. */
  function Shift(acc: bv32, b: byte): bv32 {
    (acc << 7) | Unmarked(b) as bv32
  }

  datatype Parsed = Parsed(value: bv32, length: nat)

  /** What fst_packet_get_dynint returns and how many octets it consumes. It
      returns zero when the octets end before the integer does. */
  function ParseDynInt(s: seq<byte>, acc: bv32): (p: Parsed)
    ensures p.length <= |s|
  {
    if s == [] then Parsed(0, 0)
    else if Continues(s[0]) then
      var p := ParseDynInt(s[1..], Shift(acc, s[0]));
      Parsed(p.value, p.length + 1)
    else Parsed(Shift(acc, s[0]), 1)
  }

  lemma SeptetShifts(v: bv32)
    ensures Shift(Upper(v), Septet(v)) == v && Shift(Upper(v), Marked(Septet(v))) == v
    ensures Continues(Marked(Septet(v))) && !Continues(Septet(v))
  {
  }

  /** Reading past the high septets restores the value they spell. */
  lemma {:induction false} HighSeptetsRead(v: bv32, tail: seq<byte>)
    ensures var h, p := HighSeptets(v), ParseDynInt(tail, v);
            ParseDynInt(h + tail, 0) == Parsed(p.value, p.length + |h|)
    decreases v
  {
    if v == 0 {
      assert HighSeptets(v) + tail == tail;
    } else {
      var b := Marked(Septet(v));
      SeptetShifts(v);
      HighSeptetsRead(Upper(v), [b] + tail);
      assert HighSeptets(v) + tail == HighSeptets(Upper(v)) + ([b] + tail);
      assert ([b] + tail)[1..] == tail;
    }
  }

  /** Reading an integer returns what was written and consumes exactly that. */
  lemma DynIntRoundTrip(v: bv32, tail: seq<byte>)
    ensures ParseDynInt(DynInt(v) + tail, 0) == Parsed(v, |DynInt(v)|)
  {
    SeptetShifts(v);
    hide Septet, Shift, Continues, HighSeptets, Upper;
    HighSeptetsRead(Upper(v), [Septet(v)] + tail);
    assert ParseDynInt([Septet(v)] + tail, Upper(v)) == Parsed(v, 1);
    assert DynInt(v) + tail == HighSeptets(Upper(v)) + ([Septet(v)] + tail);
  }

  /** The number with these digits to base 128, the highest first, modulo 2^32. */
  function Base128(s: seq<byte>): bv32 {
    if s == [] then 0 else Digit128(Base128(s[..|s| - 1]), s[|s| - 1])
  }

  function Digit128(high: bv32, b: byte): bv32 { 128 * high + (b % 128) as bv32 }

  /** Octets of 128 and more go on, the first below 128 ends the integer, and all of them
      are its digits. */
  lemma {:induction false} ParsedIs(s: seq<byte>, n: nat)
    requires n < |s| && s[n] < 128 && forall i :: 0 <= i < n ==> s[i] >= 128
    ensures ParseDynInt(s, 0) == Parsed(Base128(s[..n + 1]), n + 1)
  {
    ParsedFrom(s, 0, n);
    assert s[..0] == [] && s[0..] == s;
  }

  lemma {:induction false} ParsedFrom(s: seq<byte>, i: nat, n: nat)
    requires i <= n < |s| && s[n] < 128 && forall k :: 0 <= k < n ==> s[k] >= 128
    ensures ParseDynInt(s[i..], Base128(s[..i])) == Parsed(Base128(s[..n + 1]), n + 1 - i)
    decreases n - i
  {
    hide Shift, Continues, Digit128;
    ShiftIs(Base128(s[..i]), s[i]);
    assert s[..i + 1][..i] == s[..i] && s[i..][1..] == s[i + 1..];
    if i < n {
      ParsedFrom(s, i + 1, n);
    }
  }

  lemma ShiftIs(acc: bv32, b: byte)
    ensures Shift(acc, b) == Digit128(acc, b) && (Continues(b) <==> b >= 128)
  {
  }

  function DynInts(vs: seq<bv32>): seq<byte> {
    if vs == [] then [] else DynInt(vs[0]) + DynInts(vs[1..])
  }

  /** The result of n reads, and what they leave. */
  function ParseDynInts(s: seq<byte>, n: nat): (seq<bv32>, seq<byte>) {
    if n == 0 then ([], s)
    else
      var p := ParseDynInt(s, 0);
      var r := ParseDynInts(s[p.length..], n - 1);
      ([p.value] + r.0, r.1)
  }

  lemma {:induction false} DynIntsRoundTrip(vs: seq<bv32>, tail: seq<byte>)
    ensures ParseDynInts(DynInts(vs) + tail, |vs|) == (vs, tail)
  {
    if vs == [] {
      assert DynInts(vs) + tail == tail;
    } else {
      hide DynInt, ParseDynInt;
      var rest := DynInts(vs[1..]) + tail;
      DynIntRoundTrip(vs[0], rest);
      assert DynInts(vs) + tail == DynInt(vs[0]) + rest;
      assert (DynInt(vs[0]) + rest)[|DynInt(vs[0])|..] == rest;
      DynIntsRoundTrip(vs[1..], tail);
      assert [vs[0]] + vs[1..] == vs;
    }
  }

  /** A value without its n lowest septets. */
  function Drop(v: bv32, n: nat): bv32 {
    if n == 0 then v else Drop(Upper(v), n - 1)
  }

  lemma DropZero(n: nat)
    ensures Drop(0, n) == 0
  {
  }

  lemma {:induction false} DropStays(v: bv32, m: nat, n: nat)
    requires m <= n && Drop(v, m) == 0
    ensures Drop(v, n) == 0
  {
    if m == 0 {
      DropZero(n);
    } else {
      DropStays(Upper(v), m - 1, n - 1);
    }
  }

  /** An integer of n + 1 octets needs them all. */
  lemma {:induction false} DynIntNeeds(v: bv32)
    ensures v != 0 ==> |HighSeptets(v)| > 0 && Drop(v, |HighSeptets(v)| - 1) != 0
    decreases v
  {
    if v != 0 && Upper(v) != 0 {
      DynIntNeeds(Upper(v));
    }
  }

  function Masked(v: bv32, mask: bv32): bv32 { v & mask }

  lemma UpperMask(v: bv32, mask: bv32)
    ensures Upper(Masked(v, mask)) == Masked(Upper(v), Upper(mask)) && Masked(0, mask) == 0
  {
  }

  lemma UpperShift(acc: bv32, b: byte)
    ensures Upper(Shift(acc, b)) == Masked(acc, 0x1ff_ffff)
  {
  }

  lemma {:induction false} DropMask(v: bv32, mask: bv32, n: nat)
    requires Drop(v, n) == 0
    ensures Drop(Masked(v, mask), n) == 0
    decreases n
  {
    UpperMask(v, mask);
    hide Upper, Masked;
    if n > 0 {
      DropMask(Upper(v), Upper(mask), n - 1);
    }
  }

  /** Every octet read adds seven bits at most; the shift drops what is above. */
  lemma ShiftGrows(acc: bv32, b: byte, n: nat)
    requires Drop(acc, n) == 0
    ensures Drop(Shift(acc, b), n + 1) == 0
  {
    UpperShift(acc, b);
    hide Upper, Shift, Masked;
    DropMask(acc, 0x1ff_ffff, n);
  }

  lemma {:induction false} ParsedFits(s: seq<byte>, acc: bv32, n: nat)
    requires Drop(acc, n) == 0
    ensures var p := ParseDynInt(s, acc); Drop(p.value, n + p.length) == 0
  {
    if s == [] {
      DropZero(n);
    } else {
      hide Drop, Shift, Continues, Upper;
      ShiftGrows(acc, s[0], n);
      if Continues(s[0]) {
        ParsedFits(s[1..], Shift(acc, s[0]), n + 1);
      }
    }
  }

  /** The encoding has the fewest octets of all that read as the same integer. */
  lemma DynIntShortest(v: bv32, s: seq<byte>)
    requires v != 0 && ParseDynInt(s, 0).value == v
    ensures |DynInt(v)| <= ParseDynInt(s, 0).length
  {
    var h, n := |HighSeptets(Upper(v))|, ParseDynInt(s, 0).length;
    ParsedFits(s, 0, 0);
    DynIntNeeds(Upper(v));
    if Upper(v) != 0 && n <= h {
      assert Drop(v, h) == Drop(Upper(v), h - 1);
      DropStays(v, n, h);
      assert false;
    }
  }

  lemma DropBounds(v: bv32)
    ensures Drop(v, 5) == 0 && (Drop(v, 2) == 0 <==> v < 0x4000)
  {
    var u1 := Upper(v);
    var u2 := Upper(u1);
    var u3 := Upper(u2);
    var u4 := Upper(u3);
    UpperFive(v);
    hide Upper;
    assert Drop(u1, 1) == Drop(u2, 0) == u2;
    assert Drop(v, 2) == Drop(u1, 1);
    assert Drop(u4, 1) == Drop(Upper(u4), 0) == Upper(u4);
    assert Drop(u3, 2) == Drop(u4, 1);
    assert Drop(u2, 3) == Drop(u3, 2);
    assert Drop(u1, 4) == Drop(u2, 3);
  }

  lemma UpperFive(v: bv32)
    ensures Upper(Upper(Upper(Upper(Upper(v))))) == 0 && (Upper(Upper(v)) == 0 <==> v < 0x4000)
  {
  }

  /** An integer takes five octets at most, and two below 0x4000, which is where the
      14-bit checksum of a hash stays. */
  lemma DynIntLength(v: bv32)
    ensures 1 <= |DynInt(v)| <= 5 && (v < 0x4000 ==> |DynInt(v)| <= 2)
  {
    DropBounds(v);
    hide Upper, Drop;
    var h := |HighSeptets(Upper(v))|;
    DynIntNeeds(Upper(v));
    DropOnce(v, h);
    if Upper(v) != 0 && h >= 5 {
      DropStays(v, 5, h);
    }
    if Upper(v) != 0 && h >= 2 && Drop(v, 2) == 0 {
      DropStays(v, 2, h);
    }
    NoHighSeptets(Upper(v));
  }

  lemma DropOnce(v: bv32, n: nat)
    ensures n > 0 ==> Drop(v, n) == Drop(Upper(v), n - 1)
  {
  }

  lemma NoHighSeptets(v: bv32)
    ensures v == 0 ==> HighSeptets(v) == []
  {
  }

  /** The first octet is never a bare continuation: no leading zero septet. */
  lemma {:induction false} NoLeadingZero(v: bv32)
    ensures v != 0 ==> |HighSeptets(v)| > 0 && HighSeptets(v)[0] != 0x80
    decreases v
  {
    if v != 0 {
      NoLeadingZero(Upper(v));
      if Upper(v) == 0 {
        assert Marked(Septet(v)) != 0x80;
      }
    }
  }

  //////////////////////////////////////////////////////////////////////////
  // The buffer.
  //////////////////////////////////////////////////////////////////////////

  /** A 32-bit word in network byte order. */
  function Net32(v: bv32): seq<byte> {
    [(v >> 24) as byte, ((v >> 16) & 0xff) as byte, ((v >> 8) & 0xff) as byte, (v & 0xff) as byte]
  }

  function FromNet32(s: seq<byte>): bv32
    requires |s| == 4
  {
    ((s[0] as bv32) << 24) | ((s[1] as bv32) << 16) | ((s[2] as bv32) << 8) | (s[3] as bv32)
  }

  lemma Net32RoundTrip(v: bv32)
    ensures FromNet32(Net32(v)) == v
  {
  }

  /** Four bytes in network order are a number with the first of them the highest. */
  lemma FromNet32Is(s: seq<byte>)
    requires |s| == 4
    ensures FromNet32(s) ==
            0x100_0000 * s[0] as bv32 + 0x1_0000 * s[1] as bv32 + 0x100 * s[2] as bv32 + s[3] as bv32
  {
    BytesAdd(s[0] as bv32, s[1] as bv32, s[2] as bv32, s[3] as bv32);
  }

  lemma BytesAdd(a: bv32, b: bv32, c: bv32, d: bv32)
    requires a < 0x100 && b < 0x100 && c < 0x100 && d < 0x100
    ensures (a << 24) | (b << 16) | (c << 8) | d == 0x100_0000 * a + 0x1_0000 * b + 0x100 * c + d
  {
  }

  /** And the other way round. */
  lemma Net32Is(v: bv32)
    ensures var s := Net32(v);
            |s| == 4 &&
            v == 0x100_0000 * s[0] as bv32 + 0x1_0000 * s[1] as bv32 + 0x100 * s[2] as bv32 + s[3] as bv32
  {
    Net32RoundTrip(v);
    var s := Net32(v);
    hide FromNet32;
    FromNet32Is(s);
  }

  /** The size of a buffer of alloc bytes when there has to be room for len. */
  function Grown(alloc: nat, len: nat): (r: nat)
    ensures alloc <= r && len <= r
    decreases len - alloc
  {
    if len <= alloc then alloc else Grown(alloc + 512, len)
  }

  class Packet {
    var data: array<byte>
    var readPos: nat
    var used: nat

    ghost predicate Valid()
      reads this
    {
      readPos <= used <= data.Length && data.Length % 512 == 0
    }

    /** Everything written, read or not. */
    ghost function Contents(): seq<byte>
      reads this, data
      requires Valid()
    {
      data[..used]
    }

    ghost function Unread(): seq<byte>
      reads this, data
      requires Valid()
    {
      data[readPos..used]
    }

    constructor ()
      ensures Valid() && Contents() == [] && readPos == used == 0 && data.Length == 0 && fresh(data)
    {
      data := new byte[0];
      readPos, used := 0, 0;
    }

    /** Makes room for len bytes, in steps of 512. Room for none frees the buffer. */
    method Resize(len: nat)
      requires Valid() && used <= len
      modifies this
      ensures Valid() && used == old(used) && len <= data.Length
      ensures data == old(data) || fresh(data)
      ensures Contents() == old(Contents()) && readPos == old(readPos)
      ensures old(data.Length) < len ==> data.Length < len + 512
      ensures 0 < len <= old(data.Length) ==> data == old(data)
      ensures len > 0 ==> data.Length == Grown(old(data.Length), len)
    {
      if len == 0 {
        data := new byte[0];
        return;
      }
      if data.Length >= len {
        return;
      }
      var newAlloc := data.Length;
      while newAlloc < len
        invariant newAlloc % 512 == 0 && data.Length <= newAlloc < len + 512
        invariant Grown(newAlloc, len) == Grown(data.Length, len)
      {
        newAlloc := newAlloc + 512;
      }
      var mem := new byte[newAlloc];
      for i := 0 to data.Length
        invariant data == old(data) && used == old(used) && readPos == old(readPos)
        invariant mem[..i] == data[..i] == old(data[..i])
      {
        mem[i] := data[i];
      }
      assert mem[..data.Length][..used] == mem[..used];
      assert data[..data.Length][..used] == data[..used];
      data := mem;
    }

    /** packet_write: appends, and leaves the read position alone. */
    method Write(src: seq<byte>)
      requires Valid()
      modifies this, data
      ensures Valid() && (data == old(data) || fresh(data))
      ensures Contents() == old(Contents()) + src && readPos == old(readPos)
      ensures Unread() == old(Unread()) + src
    {
      ghost var before := data[..used];
      Resize(used + |src|);
      MemCpy(data, used, src);
      used := used + |src|;
      assert data[..used] == before + src;
      assert data[readPos..used] == data[..used][readPos..];
    }

    /** fst_packet_recv with what tcp_recv supplies: at most what there is room for in
        the resized buffer, none when the peer has closed the connection. */
    method Recv(chunk: seq<byte>) returns (ok: bool)
      requires Valid() && used + |chunk| <= Grown(data.Length, used + 1024)
      modifies this, data
      ensures Valid() && (data == old(data) || fresh(data))
      ensures ok <==> chunk != []
      ensures Contents() == old(Contents()) + chunk && readPos == old(readPos)
    {
      ghost var before := data[..used];
      Resize(used + 1024);
      if chunk == [] {
        return false;
      }
      MemCpy(data, used, chunk);
      used := used + |chunk|;
      assert data[..used] == before + chunk;
      ok := true;
    }

    /** packet_read: the next size bytes, or nothing when fewer remain. */
    method Read(size: nat) returns (bytes: Option<seq<byte>>)
      requires Valid()
      modifies this`readPos
      ensures Valid() && Contents() == old(Contents())
      ensures bytes == (if size <= |old(Unread())| then Some(old(Unread())[..size]) else None)
      ensures Unread() == if bytes.Some? then old(Unread())[size..] else old(Unread())
    {
      ghost var unread := data[readPos..used];
      if used - readPos < size {
        return None;
      }
      bytes := Some(data[readPos..readPos + size]);
      assert bytes.value == unread[..size];
      readPos := readPos + size;
      assert data[readPos..used] == unread[size..];
    }

    /** fst_packet_get_uint8. What it returns when nothing is left is not determined. */
    method GetUint8() returns (b: byte)
      requires Valid()
      modifies this`readPos
      ensures Valid() && Contents() == old(Contents())
      ensures old(Unread()) != [] ==> [b] + Unread() == old(Unread()) && readPos == old(readPos) + 1
      ensures old(Unread()) == [] ==> readPos == old(readPos)
    {
      b := *;
      if readPos < used {
        b := data[readPos];
        readPos := readPos + 1;
      }
    }

    /** ntohl(fst_packet_get_uint32(packet)). Nothing is read and the result is not
        determined when fewer than four bytes are left. */
    method GetNet32() returns (v: bv32)
      requires Valid()
      modifies this`readPos
      ensures Valid() && Contents() == old(Contents())
      ensures |old(Unread())| >= 4 ==>
                readPos == old(readPos) + 4 && v == FromNet32(old(Unread())[..4]) && Unread() == old(Unread())[4..]
      ensures |old(Unread())| < 4 ==> readPos == old(readPos)
    {
      v := *;
      if used - readPos >= 4 {
        v := FromNet32(data[readPos..readPos + 4]);
        readPos := readPos + 4;
      }
    }

    /** fst_packet_create_copy: a packet of the next len bytes, or of all there are. */
    method CreateCopy(len: nat) returns (copy: Packet)
      requires Valid()
      modifies this`readPos
      ensures Valid() && Contents() == old(Contents())
      ensures fresh(copy) && fresh(copy.data) && copy.Valid() && copy.readPos == 0
      ensures var n := Min(len, |old(Unread())|);
              copy.Contents() == old(Unread())[..n] && Unread() == old(Unread())[n..]
    {
      var n := if len > used - readPos then used - readPos else len;
      var bytes := data[readPos..readPos + n];
      readPos := readPos + n;
      copy := Holding(bytes);
    }

    /** fst_packet_append: what other has not read goes to the end. */
    method Append(other: Packet)
      requires Valid() && other.Valid() && this != other && data != other.data
      modifies this, data
      ensures Valid() && (data == old(data) || fresh(data))
      ensures Contents() == old(Contents()) + old(other.Unread()) && readPos == old(readPos)
      ensures Unread() == old(Unread()) + old(other.Unread())
    {
      Write(other.data[other.readPos..other.used]);
    }

    method Rewind()
      requires Valid()
      modifies this`readPos
      ensures Valid() && Contents() == old(Contents()) && readPos == 0 && Unread() == Contents()
    {
      readPos := 0;
    }

    /** Moves what is unread to the front, in place. */
    method Truncate()
      requires Valid()
      modifies this, data
      ensures Valid() && data == old(data) && readPos == 0
      ensures Contents() == old(Unread()) == Unread()
    {
      var remaining := used - readPos;
      for i := 0 to remaining
        invariant data == old(data) && readPos == old(readPos) && used == old(used)
        invariant forall k :: 0 <= k < i ==> data[k] == old(data[readPos + k])
        invariant forall k :: i <= k < data.Length ==> data[k] == old(data[k])
      {
        data[i] := data[readPos + i];
      }
      readPos := 0;
      used := remaining;
    }

    /** What fst_packet_send hands to the connection. */
    method Bytes() returns (bytes: seq<byte>)
      requires Valid()
      ensures bytes == Contents()
    {
      bytes := data[..used];
    }

    method PutDynInt(v: bv32)
      requires Valid()
      modifies this, data
      ensures Valid() && (data == old(data) || fresh(data))
      ensures Contents() == old(Contents()) + DynInt(v) && readPos == old(readPos)
      ensures Unread() == old(Unread()) + DynInt(v)
    {
      var len := CountOctets(v);
      var buf := Octets(v, len);
      Write(buf);
    }

    method GetDynInt() returns (v: bv32)
      requires Valid()
      modifies this`readPos
      ensures Valid() && Contents() == old(Contents())
      ensures var p := ParseDynInt(old(Unread()), 0);
              v == p.value && Unread() == old(Unread())[p.length..]
    {
      hide Shift, Continues;
      v := 0;
      ghost var start := readPos;
      while true
        invariant Valid() && Contents() == old(Contents()) && start <= readPos
        invariant var p, q := ParseDynInt(old(Unread()), 0), ParseDynInt(Unread(), v);
                  p == Parsed(q.value, q.length + (readPos - start))
        decreases used - readPos
      {
        if readPos == used {
          return 0;
        }
        var curr := GetUint8();
        v := Shift(v, curr);
        if !Continues(curr) {
          return;
        }
      }
    }
  }

  method Holding(bytes: seq<byte>) returns (packet: Packet)
    ensures fresh(packet) && fresh(packet.data) && packet.Valid()
    ensures packet.readPos == 0 && packet.Contents() == bytes
  {
    packet := new Packet();
    packet.Write(bytes);
  }

  /** n octets for the n lowest septets, each with its continuation bit. */
  ghost function Fill(v: bv32, n: nat): (s: seq<byte>)
    ensures |s| == n
  {
    if n == 0 then [] else Fill(Upper(v), n - 1) + [Marked(Septet(v))]
  }

  lemma {:induction false} FillIsHigh(v: bv32)
    ensures HighSeptets(v) == Fill(v, |HighSeptets(v)|)
    decreases v
  {
    if v != 0 {
      FillIsHigh(Upper(v));
    }
  }

  lemma UpperBelow(v: bv32)
    requires v > 127
    ensures Upper(v) < v
  {
  }

  lemma SmallUpper(v: bv32)
    ensures v <= 127 <==> Upper(v) == 0
    ensures Unmarked(Marked(Septet(v))) == Septet(v)
  {
  }

  /** The first loop of fst_packet_put_dynint counts the octets. */
  method CountOctets(v: bv32) returns (len: nat)
    ensures len == |DynInt(v)|
  {
    hide Upper, Septet;
    var value := v;
    len := 1;
    SmallUpper(v);
    while value > 127
      invariant len + |HighSeptets(Upper(value))| == 1 + |HighSeptets(Upper(v))|
      decreases value
    {
      UpperBelow(value);
      SmallUpper(value);
      len, value := len + 1, Upper(value);
    }
    SmallUpper(value);
  }

  /** The second one fills them, from the last to the first. */
  method FillOctets(v: bv32, octets: array<byte>)
    modifies octets
    ensures octets[..] == Fill(v, octets.Length)
  {
    hide Upper, Septet, Marked;
    var data, i := v, octets.Length;
    assert octets[i..] == [];
    while i > 0
      invariant 0 <= i <= octets.Length && Fill(v, octets.Length) == Fill(data, i) + octets[i..]
    {
      i := i - 1;
      ghost var tail := octets[i + 1..];
      octets[i] := Marked(Septet(data));
      assert octets[i..] == [Marked(Septet(data))] + tail;
      SumAssociates(Fill(Upper(data), i), [Marked(Septet(data))], tail);
      data := Upper(data);
    }
    assert octets[0..] == octets[..];
  }

  method Octets(v: bv32, len: nat) returns (buf: seq<byte>)
    requires len == |DynInt(v)|
    ensures buf == DynInt(v)
  {
    hide Fill, HighSeptets, Unmarked, Septet, Upper;
    var octets := new byte[len];
    FillOctets(v, octets);
    octets[len - 1] := Unmarked(octets[len - 1]);
    buf := octets[..];
    LastUnmarked(v, buf);
  }

  lemma LastUnmarked(v: bv32, s: seq<byte>)
    requires var f := Fill(v, |DynInt(v)|);
             |s| == |f| && s[..|s| - 1] == f[..|f| - 1] && s[|s| - 1] == Unmarked(f[|f| - 1])
    ensures s == DynInt(v)
  {
    SmallUpper(v);
    FillIsHigh(Upper(v));
    hide Upper, Septet, Marked, Unmarked;
    assert s == s[..|s| - 1] + [s[|s| - 1]];
  }
}
