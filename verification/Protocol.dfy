/** The session of fst_session.c as a state machine over values: one step for every
    chunk received, whatever the chunks are. */
module Protocol {
  import opened Bytes
  import opened Frames
  import opened CipherState
  import PacketBuffer

  //////////////////////////////////////////////////////////////////////////
  // State.
  //////////////////////////////////////////////////////////////////////////

  /** The mixing functions, and the payload of the node info message. */
  datatype Config = Config(mix: Mixers, info: seq<byte>)

  datatype In = In(cipher: State, xinu: bv32, buf: seq<byte>)

  /** The sending side, with every byte handed to the connection so far. */
  datatype Out = Out(cipher: State, xinu: bv32, sent: seq<byte>)

  /** What the session's owner gets to know, and the pings and pongs it does not. */
  datatype Event = Up | Down | Received(frame: Frame)

  datatype Session =
    | Handshaking(seed: bv32, buf: seq<byte>, sent: seq<byte>, log: seq<Event>)
    | WaitingNetName(input: In, output: Out, log: seq<Event>)
    | Established(input: In, output: Out, log: seq<Event>)
    | Disconnected(sent: seq<byte>, log: seq<Event>)
  {
    predicate Valid() {
      match this
      case Handshaking(_, buf, _, _) => |buf| < 8
      case WaitingNetName(i, o, _) => i.cipher.Shaped() && o.cipher.Shaped() && 0 !in i.buf
      case Established(i, o, _) => i.cipher.Shaped() && o.cipher.Shaped()
      case Disconnected(_, _) => true
    }
  }

  const XINU: bv32 := 0x51

  function Put(m: Mixers, o: Out, plain: seq<byte>): (r: Out)
    requires o.cipher.Shaped()
    ensures r.cipher.Shaped()
  {
    Out(After(m, o.cipher, |plain|), o.xinu, o.sent + Crypt(m, o.cipher, plain))
  }

  lemma {:induction false} PutSum(m: Mixers, o: Out, a: seq<byte>, b: seq<byte>)
    requires o.cipher.Shaped()
    ensures Put(m, Put(m, o, a), b) == Put(m, o, a + b)
  {
    hide Crypt, After;
    CryptSum(m, o.cipher, a, b);
    AfterSum(m, o.cipher, |a|, |b|);
    SumAssociates(o.sent, Crypt(m, o.cipher, a), Crypt(m, After(m, o.cipher, |a|), b));
  }

  lemma PutNothing(m: Mixers, o: Out)
    requires o.cipher.Shaped()
    ensures Put(m, o, []) == o
  {
  }

  /** Bytes decrypted and added to the buffer. */
  function Take(m: Mixers, i: In, chunk: seq<byte>): (r: In)
    requires i.cipher.Shaped()
    ensures r.cipher.Shaped()
  {
    In(After(m, i.cipher, |chunk|), i.xinu, i.buf + Crypt(m, i.cipher, chunk))
  }

  lemma {:induction false} TakeSum(m: Mixers, i: In, a: seq<byte>, b: seq<byte>)
    requires i.cipher.Shaped()
    ensures Take(m, Take(m, i, a), b) == Take(m, i, a + b)
  {
    hide Crypt, After;
    CryptSum(m, i.cipher, a, b);
    AfterSum(m, i.cipher, |a|, |b|);
    SumAssociates(i.buf, Crypt(m, i.cipher, a), Crypt(m, After(m, i.cipher, |a|), b));
  }

  //////////////////////////////////////////////////////////////////////////
  // Established: decoding frames.
  //////////////////////////////////////////////////////////////////////////

  /** The answers to the pings among the frames. */
  function Pongs(frames: seq<Frame>): seq<byte> {
    if frames == [] then []
    else (if frames[0] == Ping then [0x52] else []) + Pongs(frames[1..])
  }

  lemma {:induction false} PongsSum(a: seq<Frame>, b: seq<Frame>)
    ensures Pongs(a + b) == Pongs(a) + Pongs(b)
  {
    if a == [] {
      assert a + b == b;
    } else {
      PongsSum(a[1..], b);
      assert (a + b)[1..] == a[1..] + b;
      SumAssociates(if a[0] == Ping then [0x52] else [], Pongs(a[1..]), Pongs(b));
    }
  }

  function Events(frames: seq<Frame>): seq<Event> {
    seq(|frames|, i requires 0 <= i < |frames| => Received(frames[i]))
  }

  /** The session after the frames of a parse have been handled. */
  function Handled(m: Mixers, cipher: State, o: Out, p: Parsed, log: seq<Event>): (r: Session)
    requires cipher.Shaped() && o.cipher.Shaped()
    ensures r.Valid()
  {
    var o1 := Put(m, o, Pongs(p.frames));
    match p.link
    case Lost => Disconnected(o1.sent, log + Events(p.frames) + [Down])
    case Open(rest, xinu) => Established(In(cipher, xinu, rest), o1, log + Events(p.frames))
  }

  function Decode(m: Mixers, i: In, o: Out, log: seq<Event>): (r: Session)
    requires i.cipher.Shaped() && o.cipher.Shaped()
    ensures r.Valid()
  {
    Handled(m, i.cipher, o, Parse(i.buf, i.xinu), log)
  }

  /** The session after one turn of the parse loop. */
  function Turn(m: Mixers, i: In, o: Out, log: seq<Event>): (r: Session)
    requires i.cipher.Shaped() && o.cipher.Shaped()
    ensures r.Valid()
  {
    match Find(i.buf, i.xinu)
    case Wait => Established(i, o, log)
    case Strange => Disconnected(o.sent, log + [Down])
    case Got(f, n) =>
      Established(In(i.cipher, XinuAfter(f, i.xinu), i.buf[n..]),
                  if f == Ping then Put(m, o, [0x52]) else o, log + [Received(f)])
  }

  lemma {:induction false} HandledBefore(m: Mixers, cipher: State, o: Out, frames: seq<Frame>, p: Parsed,
                                         log: seq<Event>)
    requires cipher.Shaped() && o.cipher.Shaped()
    ensures Handled(m, cipher, Put(m, o, Pongs(frames)), p, log + Events(frames)) ==
            Handled(m, cipher, o, Before(frames, p), log)
  {
    hide Put, Pongs, Events;
    PongsSum(frames, p.frames);
    PutSum(m, o, Pongs(frames), Pongs(p.frames));
    EventsSum(frames, p.frames);
    SumAssociates(log, Events(frames), Events(p.frames));
  }

  lemma EventsSum(a: seq<Frame>, b: seq<Frame>)
    ensures Events(a + b) == Events(a) + Events(b)
  {
  }

  lemma NothingHandled(m: Mixers, o: Out, log: seq<Event>)
    requires o.cipher.Shaped()
    ensures Put(m, o, Pongs([])) == o && log + Events([]) == log
  {
    PutNothing(m, o);
  }

  lemma OneHandled(m: Mixers, o: Out, f: Frame, log: seq<Event>)
    requires o.cipher.Shaped()
    ensures Put(m, o, Pongs([f])) == (if f == Ping then Put(m, o, [0x52]) else o)
    ensures log + Events([f]) == log + [Received(f)]
  {
    PutNothing(m, o);
    assert [f][1..] == [];
    assert [] + Pongs([]) == [] && [0x52] + Pongs([]) == [0x52];
  }

  /** Decoding is turn after turn, while they find frames. */
  lemma {:induction false} DecodeTurn(m: Mixers, i: In, o: Out, log: seq<Event>)
    requires i.cipher.Shaped() && o.cipher.Shaped()
    ensures var r := Turn(m, i, o, log);
            Decode(m, i, o, log) ==
            if Find(i.buf, i.xinu).Got? then Decode(m, r.input, r.output, r.log) else r
  {
    hide Put, Pongs, Events, XinuAfter;
    match Find(i.buf, i.xinu)
    case Wait => NothingHandled(m, o, log);
    case Strange => NothingHandled(m, o, log);
    case Got(f, n) =>
      OneHandled(m, o, f, log);
      HandledBefore(m, i.cipher, o, [f], Parse(i.buf[n..], XinuAfter(f, i.xinu)), log);
  }

  //////////////////////////////////////////////////////////////////////////
  // Waiting for the network name.
  //////////////////////////////////////////////////////////////////////////

  function Lower(b: byte): byte {
    if 0x41 <= b <= 0x5a then b + 0x20 else b
  }

  /** Equality of strcasecmp. */
  function Lowered(s: seq<byte>): seq<byte> {
    seq(|s|, i requires 0 <= i < |s| => Lower(s[i]))
  }

  /** kazaa, fileshare, grokster. */
  function ValidNames(): seq<seq<byte>> {
    [[0x6b, 0x61, 0x7a, 0x61, 0x61],
     [0x66, 0x69, 0x6c, 0x65, 0x73, 0x68, 0x61, 0x72, 0x65],
     [0x67, 0x72, 0x6f, 0x6b, 0x73, 0x74, 0x65, 0x72]]
  }

  predicate ValidName(name: seq<byte>) {
    Lowered(name) in ValidNames()
  }

  /** The networks' names as they may be written. */
  lemma KnownNames()
    ensures ValidName([0x4b, 0x61, 0x5a, 0x61, 0x41])
    ensures ValidName([0x46, 0x69, 0x6c, 0x65, 0x53, 0x68, 0x61, 0x72, 0x65])
    ensures ValidName([0x67, 0x72, 0x6f, 0x6b, 0x73, 0x74, 0x65, 0x72])
  {
    assert Lowered([0x4b, 0x61, 0x5a, 0x61, 0x41]) == ValidNames()[0];
    assert Lowered([0x46, 0x69, 0x6c, 0x65, 0x53, 0x68, 0x61, 0x72, 0x65]) == ValidNames()[1];
    assert Lowered([0x67, 0x72, 0x6f, 0x6b, 0x73, 0x74, 0x65, 0x72]) == ValidNames()[2];
  }

  /** The name this side announces, with its terminator: KaZaA. */
  function OwnName(): seq<byte> {
    [0x4b, 0x61, 0x5a, 0x61, 0x41, 0]
  }

  /** How many bytes come before the terminator. */
  function NameLength(buf: seq<byte>): (n: nat)
    requires 0 in buf
    ensures n < |buf| && buf[n] == 0 && 0 !in buf[..n]
  {
    if buf[0] == 0 then 0
    else
      assert buf == [buf[0]] + buf[1..];
      var n := NameLength(buf[1..]);
      assert buf[..n + 1] == [buf[0]] + buf[1..][..n];
      n + 1
  }

  lemma {:induction false} NameLengthStays(buf: seq<byte>, more: seq<byte>)
    requires 0 in buf
    ensures 0 in buf + more && NameLength(buf + more) == NameLength(buf)
  {
    assert (buf + more)[0] == buf[0];
    if buf[0] != 0 {
      assert buf == [buf[0]] + buf[1..];
      NameLengthStays(buf[1..], more);
      assert (buf + more)[1..] == buf[1..] + more;
    }
  }

  /** A message written to the connection. */
  function PutFrame(m: Mixers, o: Out, f: Frame): (r: Out)
    requires o.cipher.Shaped()
    ensures r.cipher.Shaped()
  {
    Put(m, o, FrameBytes(f, o.xinu)).(xinu := XinuAfter(f, o.xinu))
  }

  /** SessMsgNodeInfo. */
  function Info(cfg: Config): Frame { Message(0x02, cfg.info) }

  function NetName(cfg: Config, i: In, o: Out, log: seq<Event>): (r: Session)
    requires i.cipher.Shaped() && o.cipher.Shaped()
    ensures r.Valid()
  {
    if 0 !in i.buf then WaitingNetName(i, o, log)
    else
      var n := NameLength(i.buf);
      if !ValidName(i.buf[..n]) then Disconnected(o.sent, log + [Down])
      else Decode(cfg.mix, i.(buf := i.buf[n + 1..]), PutFrame(cfg.mix, o, Info(cfg)), log + [Up])
  }

  //////////////////////////////////////////////////////////////////////////
  // Handshaking.
  //////////////////////////////////////////////////////////////////////////

  function NoKey(): (k: Key) { seq(20, _ => 0) }

  /** The clear seed and encryption type at the front of a server's stream. */
  function ServerSeed(buf: seq<byte>): bv32
    requires |buf| >= 8
  {
    PacketBuffer.FromNet32(buf[..4])
  }

  function ServerType(m: Mixers, buf: seq<byte>): bv32
    requires |buf| >= 8
  {
    Mangle(m, ServerSeed(buf), PacketBuffer.FromNet32(buf[4..8]))
  }

  function Xor(a: bv32, b: bv32): bv32 { a ^ b }

  function Handshake(cfg: Config, seed: bv32, buf: seq<byte>, sent: seq<byte>, log: seq<Event>): (r: Session)
    requires |buf| >= 8
    ensures r.Valid()
  {
    var serverSeed, encType := ServerSeed(buf), ServerType(cfg.mix, buf);
    var outC := Init(cfg.mix, Xor(seed, serverSeed), encType, NoKey());
    var inC := Init(cfg.mix, serverSeed, encType, NoKey());
    if outC.None? then Disconnected(sent, log + [Down])
    else
      NetName(cfg, Take(cfg.mix, In(inC.value, XINU, []), buf[8..]),
              Put(cfg.mix, Out(outC.value, XINU, sent), OwnName()), log)
  }

  //////////////////////////////////////////////////////////////////////////
  // Receiving.
  //////////////////////////////////////////////////////////////////////////

  function Hangup(s: Session): Session {
    match s
    case Handshaking(_, _, sent, log) => Disconnected(sent, log + [Down])
    case WaitingNetName(_, o, log) => Disconnected(o.sent, log + [Down])
    case Established(_, o, log) => Disconnected(o.sent, log + [Down])
    case Disconnected(_, _) => s
  }

  /** session_decrypt_packet with the bytes received: none when the peer closed the
      connection. Nothing is received on a connection that is closed. */
  function Receive(cfg: Config, s: Session, chunk: seq<byte>): (r: Session)
    requires s.Valid()
    ensures r.Valid()
  {
    if chunk == [] then Hangup(s)
    else match s
      case Handshaking(seed, buf, sent, log) =>
        if |buf + chunk| < 8 then Handshaking(seed, buf + chunk, sent, log)
        else Handshake(cfg, seed, buf + chunk, sent, log)
      case WaitingNetName(i, o, log) => NetName(cfg, Take(cfg.mix, i, chunk), o, log)
      case Established(i, o, log) => Decode(cfg.mix, Take(cfg.mix, i, chunk), o, log)
      case Disconnected(_, _) => s
  }

  function ReceiveAll(cfg: Config, s: Session, chunks: seq<seq<byte>>): (r: Session)
    requires s.Valid()
    ensures r.Valid()
    decreases |chunks|
  {
    if chunks == [] then s else ReceiveAll(cfg, Receive(cfg, s, chunks[0]), chunks[1..])
  }
}
