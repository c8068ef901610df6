/** The established stream of fst_session.c: how frames are written, how they are
    found again in a buffer, and when a sender and a receiver stay in step. */
module Frames {
  import opened Bytes

  type u16 = x: nat | x < 0x1_0000

  datatype Frame = Ping | Pong | Message(kind: u16, payload: seq<byte>)

  //////////////////////////////////////////////////////////////////////////
  // Sending.
  //////////////////////////////////////////////////////////////////////////

  /** The order of the header bytes rotates with the state. */
  datatype Order = TypeFirst | TypeSplit | LengthInside

  function Xtype(xinu: bv32): bv32 { xinu % 3 }

  function OrderOf(xinu: bv32): Order {
    if Xtype(xinu) == 0 then TypeFirst else if Xtype(xinu) == 1 then TypeSplit else LengthInside
  }

  lemma XtypeIs(xinu: bv32)
    ensures Xtype(xinu) == xinu % 3
  {
  }

  function Lo(n: nat): byte { (n % 0x100) as byte }

  function Hi(n: nat): byte { (n / 0x100 % 0x100) as byte }

  function Word(hi: byte, lo: byte): u16 { 0x100 * hi as nat + lo as nat }

  lemma {:induction false} WordOfBytes(n: nat)
    ensures Word(Hi(n), Lo(n)) == n % 0x1_0000
  {
    ByteOfNat(n % 0x100);
    ByteOfNat(n / 0x100 % 0x100);
    hide Word;
    assert Word(Hi(n), Lo(n)) == 0x100 * (n / 0x100 % 0x100) + n % 0x100 by {
      var hi, lo := Hi(n), Lo(n);
      assert hi as nat == n / 0x100 % 0x100 && lo as nat == n % 0x100;
      WordIs(hi, lo);
    }
    Digits(n);
  }

  lemma WordIs(hi: byte, lo: byte)
    ensures Word(hi, lo) == 0x100 * hi as nat + lo as nat
  {
  }

  lemma Digits(n: nat)
    ensures n % 0x1_0000 == 0x100 * (n / 0x100 % 0x100) + n % 0x100
  {
    var q := n / 0x100;
    var p := q / 0x100;
    assert n == 0x1_0000 * p + (0x100 * (q % 0x100) + n % 0x100);
  }

  function Header(order: Order, kind: nat, size: nat): (h: seq<byte>)
    ensures |h| == 4
  {
    match order
    case TypeFirst => [Lo(kind), Hi(kind), Hi(size), Lo(size)]
    case TypeSplit => [Hi(kind), Hi(size), Lo(kind), Lo(size)]
    case LengthInside => [Hi(kind), Lo(size), Hi(size), Lo(kind)]
  }

  function HeaderKind(order: Order, h: seq<byte>): u16
    requires |h| == 4
  {
    match order
    case TypeFirst => Word(h[1], h[0])
    case TypeSplit => Word(h[0], h[2])
    case LengthInside => Word(h[0], h[3])
  }

  function HeaderSize(order: Order, h: seq<byte>): u16
    requires |h| == 4
  {
    match order
    case TypeFirst => Word(h[2], h[3])
    case TypeSplit => Word(h[1], h[3])
    case LengthInside => Word(h[2], h[1])
  }

  lemma {:induction false} HeaderRoundTrip(order: Order, kind: nat, size: nat)
    ensures HeaderKind(order, Header(order, kind, size)) == kind % 0x1_0000
    ensures HeaderSize(order, Header(order, kind, size)) == size % 0x1_0000
  {
    hide Lo, Hi, Word;
    WordOfBytes(kind);
    WordOfBytes(size);
  }

  function Low32(n: nat): bv32 { (n % 0x1_0000_0000) as bv32 }

  /** The state after a message of this type and size. */
  function Twist(xinu: bv32, kind: nat, size: nat): bv32 {
    xinu ^ !Low32(size + kind)
  }

  function FrameBytes(f: Frame, xinu: bv32): (s: seq<byte>)
    ensures s != []
  {
    match f
    case Ping => [0x50]
    case Pong => [0x52]
    case Message(kind, payload) => [0x4b] + Header(OrderOf(xinu), kind, |payload|) + payload
  }

  function XinuAfter(f: Frame, xinu: bv32): bv32 {
    match f
    case Message(kind, payload) => Twist(xinu, kind, |payload|)
    case _ => xinu
  }

  function Encode(frames: seq<Frame>, xinu: bv32): seq<byte> {
    if frames == [] then []
    else FrameBytes(frames[0], xinu) + Encode(frames[1..], XinuAfter(frames[0], xinu))
  }

  function XinuAfterAll(frames: seq<Frame>, xinu: bv32): bv32 {
    if frames == [] then xinu else XinuAfterAll(frames[1..], XinuAfter(frames[0], xinu))
  }

  //////////////////////////////////////////////////////////////////////////
  // The bytes of a message, one by one.
  //////////////////////////////////////////////////////////////////////////

  /** The bytes have the low and the high byte of the type at the first two positions,
      and those of the length at the other two. */
  predicate HasBytes(s: seq<byte>, typeLo: nat, typeHi: nat, lenLo: nat, lenHi: nat, kind: nat, size: nat)
    requires typeLo < |s| && typeHi < |s| && lenLo < |s| && lenHi < |s|
  {
    s[typeLo] as nat == kind % 256 && s[typeHi] as nat == kind / 256 % 256 &&
    s[lenLo] as nat == size % 256 && s[lenHi] as nat == size / 256 % 256
  }

  /** A message on the wire: a K, four bytes whose order depends on the state modulo 3, its xtype,
      and the payload. */
  predicate OnWire(s: seq<byte>, kind: nat, payload: seq<byte>, xtype: bv32) {
    |s| == 5 + |payload| && s[0] == 0x4b && s[5..] == payload &&
    (xtype == 0 ==> HasBytes(s, 1, 2, 4, 3, kind, |payload|)) &&
    (xtype == 1 ==> HasBytes(s, 3, 1, 4, 2, kind, |payload|)) &&
    (xtype > 1 ==> HasBytes(s, 4, 1, 2, 3, kind, |payload|))
  }

  lemma {:induction false} MessageOnWire(kind: u16, payload: seq<byte>, xinu: bv32)
    ensures OnWire(FrameBytes(Message(kind, payload), xinu), kind, payload, Xtype(xinu))
  {
    hide Xtype;
    LoHi(kind);
    LoHi(|payload|);
    hide Lo, Hi;
    var s, h := FrameBytes(Message(kind, payload), xinu), Header(OrderOf(xinu), kind, |payload|);
    assert s[1..5] == h && s[5..] == payload;
    assert s[1] == h[0] && s[2] == h[1] && s[3] == h[2] && s[4] == h[3];
  }

  lemma LoHi(n: nat)
    ensures Lo(n) as nat == n % 256 && Hi(n) as nat == n / 256 % 256
  {
    ByteOfNat(n % 0x100);
    ByteOfNat(n / 0x100 % 0x100);
  }

  /** A number of two bytes in a buffer. */
  function At16(buf: seq<byte>, hi: nat, lo: nat): u16
    requires hi < |buf| && lo < |buf|
  {
    256 * buf[hi] as nat + buf[lo] as nat
  }

  /** What the receiver takes for the type of a message. */
  function TypeAt(buf: seq<byte>, xtype: bv32): u16
    requires |buf| >= 5
  {
    if xtype == 0 then At16(buf, 2, 1) else if xtype == 1 then At16(buf, 1, 3) else At16(buf, 1, 4)
  }

  /** What it takes for the length of its payload. */
  function LengthAt(buf: seq<byte>, xtype: bv32): u16
    requires |buf| >= 5
  {
    if xtype == 0 then At16(buf, 3, 4) else if xtype == 1 then At16(buf, 2, 4) else At16(buf, 3, 2)
  }

  /** Every byte string that begins with a K, as the receiver sees it. */
  lemma MessageTaken(buf: seq<byte>, xinu: bv32)
    requires buf != [] && buf[0] == 0x4b
    ensures var x := Xtype(xinu);
            Find(buf, xinu) ==
            if |buf| < 6 || |buf| < 5 + LengthAt(buf, x) then Wait
            else Got(Message(TypeAt(buf, x), buf[5..5 + LengthAt(buf, x)]), 5 + LengthAt(buf, x))
  {
    hide Xtype;
    if |buf| >= 6 {
      assert buf[1..5] == [buf[1], buf[2], buf[3], buf[4]];
      HeaderTaken(buf, xinu);
      hide HeaderKind, HeaderSize, TypeAt, LengthAt;
    }
  }

  lemma HeaderTaken(buf: seq<byte>, xinu: bv32)
    requires |buf| >= 5
    ensures var h, order, x := buf[1..5], OrderOf(xinu), Xtype(xinu);
            HeaderKind(order, h) == TypeAt(buf, x) && HeaderSize(order, h) == LengthAt(buf, x)
  {
    hide Xtype;
    var h := buf[1..5];
    assert h[0] == buf[1] && h[1] == buf[2] && h[2] == buf[3] && h[3] == buf[4];
  }

  /** The other frames are a P or an R; no other byte begins one. */
  lemma ControlBytes(buf: seq<byte>, xinu: bv32)
    requires buf != []
    ensures FrameBytes(Ping, xinu) == [0x50] && FrameBytes(Pong, xinu) == [0x52]
    ensures buf[0] == 0x50 ==> Find(buf, xinu) == Got(Ping, 1)
    ensures buf[0] == 0x52 ==> Find(buf, xinu) == Got(Pong, 1)
    ensures Find(buf, xinu) == Strange <==> buf[0] !in {0x4b, 0x50, 0x52}
  {
    hide OrderOf, HeaderKind, HeaderSize;
  }

  /** The next state differs from the last in exactly the bits in which the sum of length
      and type, 32 bits of it, has zeros. */
  lemma NextXinu(kind: u16, payload: seq<byte>, xinu: bv32)
    ensures (XinuAfter(Message(kind, payload), xinu) ^ xinu) + Low32(kind + |payload|) == 0xffff_ffff
  {
    hide Low32;
    Complement(xinu, Low32(|payload| + kind));
  }

  lemma SmallLow32(n: nat)
    requires n < 0x1_0000_0000
    ensures Low32(n) == n as bv32
  {
    assert n % 0x1_0000_0000 == n;
  }

  lemma Complement(x: bv32, s: bv32)
    ensures ((x ^ !s) ^ x) + s == 0xffff_ffff
  {
  }

  /** A first message of type 2 with five bytes of payload. */
  lemma FirstMessage(a: byte, b: byte, c: byte, d: byte, e: byte)
    ensures var f := Message(0x02, [a, b, c, d, e]);
            FrameBytes(f, 0x51) == [0x4b, 0x02, 0x00, 0x00, 0x05, a, b, c, d, e] &&
            XinuAfter(f, 0x51) == 0xffff_ffa9
  {
    assert (5 + 2) as bv32 == 7;
  }

  //////////////////////////////////////////////////////////////////////////
  // Receiving.
  //////////////////////////////////////////////////////////////////////////

  datatype Found = Wait | Strange | Got(frame: Frame, length: nat)

  /** What the parse loop finds at the front of the buffer. It waits for five bytes
      after the type of a message, one more than the header has. */
  function Find(buf: seq<byte>, xinu: bv32): (r: Found)
    ensures r.Got? ==> 0 < r.length <= |buf|
  {
    if buf == [] then Wait
    else if buf[0] == 0x50 then Got(Ping, 1)
    else if buf[0] == 0x52 then Got(Pong, 1)
    else if buf[0] == 0x4b then
      if |buf| < 6 then Wait
      else
        var order := OrderOf(xinu);
        var size := HeaderSize(order, buf[1..5]);
        if |buf| < 5 + size then Wait
        else Got(Message(HeaderKind(order, buf[1..5]), buf[5..5 + size]), 5 + size)
    else Strange
  }

  datatype Link = Lost | Open(rest: seq<byte>, xinu: bv32)

  datatype Parsed = Parsed(frames: seq<Frame>, link: Link)

  /** The parse loop: the frames delivered, and what is left to wait with. */
  function Parse(buf: seq<byte>, xinu: bv32): Parsed
    decreases |buf|
  {
    match Find(buf, xinu)
    case Wait => Parsed([], Open(buf, xinu))
    case Strange => Parsed([], Lost)
    case Got(f, n) => Before([f], Parse(buf[n..], XinuAfter(f, xinu)))
  }

  function Before(frames: seq<Frame>, p: Parsed): Parsed {
    Parsed(frames + p.frames, p.link)
  }

  /** What a receiver has after more bytes have come. */
  function Feed(p: Parsed, more: seq<byte>): Parsed {
    match p.link
    case Lost => p
    case Open(rest, xinu) => Before(p.frames, Parse(rest + more, xinu))
  }

  /** More bytes do not change a frame that is already complete. */
  lemma FindStays(buf: seq<byte>, more: seq<byte>, xinu: bv32)
    requires !Find(buf, xinu).Wait?
    ensures Find(buf + more, xinu) == Find(buf, xinu)
  {
    hide OrderOf, HeaderSize, HeaderKind;
    if buf[0] == 0x4b {
      assert (buf + more)[1..5] == buf[1..5];
      var size := HeaderSize(OrderOf(xinu), buf[1..5]);
      assert (buf + more)[5..5 + size] == buf[5..5 + size];
    }
  }

  lemma BeforeSum(a: seq<Frame>, b: seq<Frame>, p: Parsed)
    ensures Before(a, Before(b, p)) == Before(a + b, p) && Before([], p) == p
  {
    assert a + (b + p.frames) == a + b + p.frames;
  }

  /** Parsing resumes: bytes that come later are parsed as if they had come before. */
  lemma {:induction false} ParseResumes(buf: seq<byte>, more: seq<byte>, xinu: bv32)
    ensures Feed(Parse(buf, xinu), more) == Parse(buf + more, xinu)
    decreases |buf|
  {
    hide Find, XinuAfter, Before;
    match Find(buf, xinu)
    case Wait =>
      BeforeSum([], [], Parse(buf + more, xinu));
    case Strange =>
      FindStays(buf, more, xinu);
    case Got(f, n) =>
      FindStays(buf, more, xinu);
      assert (buf + more)[n..] == buf[n..] + more;
      ParseResumes(buf[n..], more, XinuAfter(f, xinu));
      FeedBefore([f], Parse(buf[n..], XinuAfter(f, xinu)), more);
  }

  lemma FeedBefore(a: seq<Frame>, p: Parsed, more: seq<byte>)
    ensures Feed(Before(a, p), more) == Before(a, Feed(p, more))
  {
    hide Parse;
    if p.link.Open? {
      BeforeSum(a, p.frames, Parse(p.link.rest + more, p.link.xinu));
    }
  }

  //////////////////////////////////////////////////////////////////////////
  // In step.
  //////////////////////////////////////////////////////////////////////////

  /** A message whose size the header can hold. */
  predicate Short(f: Frame) {
    f.Message? ==> |f.payload| < 0x1_0000
  }

  predicate AllShort(frames: seq<Frame>) {
    forall f :: f in frames ==> Short(f)
  }

  predicate Empty(f: Frame) {
    f.Message? && f.payload == []
  }

  /** The receiver does not see a message without payload before another byte comes. */
  predicate Prompt(frames: seq<Frame>) {
    frames == [] || !Empty(frames[|frames| - 1])
  }

  /** What a receiver finds where a message begins: the size it sees is the size
      the header could hold. */
  lemma FindMessage(kind: u16, payload: seq<byte>, xinu: bv32, tail: seq<byte>)
    requires payload != [] || tail != []
    ensures var n := |payload| % 0x1_0000;
            Find(FrameBytes(Message(kind, payload), xinu) + tail, xinu) == Got(Message(kind, payload[..n]), 5 + n)
  {
    hide OrderOf, Header, HeaderKind, HeaderSize;
    var order, n := OrderOf(xinu), |payload| % 0x1_0000;
    var h := Header(order, kind, |payload|);
    var buf := FrameBytes(Message(kind, payload), xinu) + tail;
    HeaderRoundTrip(order, kind, |payload|);
    assert buf == [0x4b] + h + payload + tail;
    assert buf[1..5] == h;
    assert buf[5..5 + n] == payload[..n];
  }

  lemma FrameLength(f: Frame, xinu: bv32)
    ensures |FrameBytes(f, xinu)| == if f.Message? then 5 + |f.payload| else 1
  {
    hide OrderOf, Header;
  }

  lemma FindShort(f: Frame, xinu: bv32, tail: seq<byte>)
    requires f.Message? && Short(f) && (tail != [] || !Empty(f))
    ensures Find(FrameBytes(f, xinu) + tail, xinu) == Got(f, 5 + |f.payload|)
  {
    hide Find, FrameBytes;
    FindMessage(f.kind, f.payload, xinu, tail);
    assert |f.payload| % 0x1_0000 == |f.payload|;
    assert f.payload[..|f.payload|] == f.payload;
  }

  lemma FindControl(f: Frame, xinu: bv32, tail: seq<byte>)
    requires !f.Message?
    ensures Find(FrameBytes(f, xinu) + tail, xinu) == Got(f, 1)
  {
    hide OrderOf, Header, HeaderSize, HeaderKind;
    assert (FrameBytes(f, xinu) + tail)[0] == FrameBytes(f, xinu)[0];
  }

  lemma {:induction false} FindFrame(f: Frame, xinu: bv32, tail: seq<byte>)
    requires Short(f) && (tail != [] || !Empty(f))
    ensures var s := FrameBytes(f, xinu);
            Find(s + tail, xinu) == Got(f, |s|) && (s + tail)[|s|..] == tail
  {
    FrameLength(f, xinu);
    hide Find, FrameBytes;
    SumTail(FrameBytes(f, xinu), tail, 0);
    if f.Message? {
      FindShort(f, xinu, tail);
    } else {
      FindControl(f, xinu, tail);
    }
  }

  /** Frames followed by anything are found, and parsing goes on behind them. */
  lemma {:induction false} ParseFrames(frames: seq<Frame>, xinu: bv32, tail: seq<byte>)
    requires AllShort(frames) && (tail != [] || Prompt(frames))
    ensures Parse(Encode(frames, xinu) + tail, xinu) == Before(frames, Parse(tail, XinuAfterAll(frames, xinu)))
  {
    hide Find, FrameBytes, XinuAfter, Empty, Short, Before;
    BeforeSum([], [], Parse(tail, xinu));
    if frames == [] {
      assert Encode(frames, xinu) + tail == tail;
    } else {
      var f, rest, x := frames[0], frames[1..], XinuAfter(frames[0], xinu);
      var more := Encode(rest, x) + tail;
      assert rest == [] ==> Encode(rest, x) == [];
      assert Encode(frames, xinu) + tail == FrameBytes(f, xinu) + more;
      FindFrame(f, xinu, more);
      ParseFrames(rest, x, tail);
      BeforeSum([f], rest, Parse(tail, XinuAfterAll(rest, x)));
      assert [f] + rest == frames;
    }
  }

  /** A receiver does not get a list of frames when one of its messages is too long
      for the header, or when the list ends with an empty message. */
  lemma {:induction false} OutOfStep(frames: seq<Frame>, xinu: bv32)
    requires !AllShort(frames) || !Prompt(frames)
    ensures Parse(Encode(frames, xinu), xinu).frames != frames
  {
    hide Find, FrameBytes, XinuAfter;
    var f, rest, x := frames[0], frames[1..], XinuAfter(frames[0], xinu);
    var buf, more := FrameBytes(f, xinu), Encode(rest, x);
    assert frames == [f] + rest;
    if !Short(f) {
      FindMessage(f.kind, f.payload, xinu, more);
      assert |Parse(buf + more, xinu).frames| > 0;
      assert Parse(buf + more, xinu).frames[0] != f;
    } else if rest == [] {
      assert buf + more == buf;
      EmptyWaits(f.kind, xinu);
    } else {
      assert more != [];
      FindFrame(f, xinu, more);
      OutOfStep(rest, x);
      assert Parse(buf + more, xinu).frames == [f] + Parse(more, x).frames;
      assert Parse(buf + more, xinu).frames[1..] == Parse(more, x).frames;
    }
  }

  /** An empty message is complete, and is waited with all the same. */
  lemma EmptyWaits(kind: u16, xinu: bv32)
    ensures var s := FrameBytes(Message(kind, []), xinu);
            |s| == 5 && Find(s, xinu) == Wait
  {
  }

  /** The receiver gets exactly the frames sent if and only if every message fits its
      header and the last frame is not an empty message. Then nothing is left in the
      buffer and both ends have the same state. */
  lemma {:induction false} InStep(frames: seq<Frame>, xinu: bv32)
    ensures Parse(Encode(frames, xinu), xinu).frames == frames <==> AllShort(frames) && Prompt(frames)
    ensures AllShort(frames) && Prompt(frames) ==>
              Parse(Encode(frames, xinu), xinu) == Parsed(frames, Open([], XinuAfterAll(frames, xinu)))
  {
    hide Encode, AllShort, Prompt;
    if AllShort(frames) && Prompt(frames) {
      ParseFrames(frames, xinu, []);
      assert Encode(frames, xinu) + [] == Encode(frames, xinu);
      assert frames + [] == frames;
    } else {
      OutOfStep(frames, xinu);
    }
  }

  /** An empty message at the end stays in the buffer until another byte comes. */
  lemma {:induction false} LastWaits(frames: seq<Frame>, kind: u16, xinu: bv32)
    requires AllShort(frames)
    ensures var x := XinuAfterAll(frames, xinu); var s := FrameBytes(Message(kind, []), x);
            Parse(Encode(frames, xinu) + s, xinu) == Parsed(frames, Open(s, x))
  {
    hide Encode, AllShort, XinuAfterAll, FrameBytes, Find;
    var x := XinuAfterAll(frames, xinu);
    EmptyWaits(kind, x);
    ParseFrames(frames, xinu, FrameBytes(Message(kind, []), x));
    assert frames + [] == frames;
  }
}
