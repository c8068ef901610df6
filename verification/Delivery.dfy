/** What the session protocol promises: the cut of the stream does not matter, and
    what one end writes is what the other end gets. */
module Delivery {
  import opened Bytes
  import opened Frames
  import opened CipherState
  import opened Protocol
  import PacketBuffer

  //////////////////////////////////////////////////////////////////////////
  // Every cut of the stream.
  //////////////////////////////////////////////////////////////////////////

  lemma {:induction false} DecodeResumes(cfg: Config, i: In, o: Out, log: seq<Event>, more: seq<byte>)
    requires i.cipher.Shaped() && o.cipher.Shaped() && more != []
    ensures Receive(cfg, Decode(cfg.mix, i, o, log), more) == Decode(cfg.mix, Take(cfg.mix, i, more), o, log)
  {
    hide Put, Pongs, Events, Parse, After, Crypt;
    var p, extra := Parse(i.buf, i.xinu), Crypt(cfg.mix, i.cipher, more);
    ParseResumes(i.buf, extra, i.xinu);
    if p.link.Open? {
      HandledBefore(cfg.mix, After(cfg.mix, i.cipher, |more|), o, p.frames,
                    Parse(p.link.rest + extra, p.link.xinu), log);
    }
  }

  lemma {:induction false} NetNameResumes(cfg: Config, i: In, o: Out, log: seq<Event>, more: seq<byte>)
    requires i.cipher.Shaped() && o.cipher.Shaped() && more != []
    ensures Receive(cfg, NetName(cfg, i, o, log), more) == NetName(cfg, Take(cfg.mix, i, more), o, log)
  {
    hide Put, PutFrame, After, Crypt, Decode, ValidName, NameLength;
    if 0 in i.buf {
      var n, extra := NameLength(i.buf), Crypt(cfg.mix, i.cipher, more);
      NameLengthStays(i.buf, extra);
      assert (i.buf + extra)[..n] == i.buf[..n];
      assert (i.buf + extra)[n + 1..] == i.buf[n + 1..] + extra;
      if ValidName(i.buf[..n]) {
        DecodeResumes(cfg, i.(buf := i.buf[n + 1..]), PutFrame(cfg.mix, o, Info(cfg)), log + [Up], more);
      }
    }
  }

  lemma {:induction false} HandshakeResumes(cfg: Config, seed: bv32, buf: seq<byte>, sent: seq<byte>,
                                            log: seq<Event>, more: seq<byte>)
    requires |buf| >= 8 && more != []
    ensures Receive(cfg, Handshake(cfg, seed, buf, sent, log), more) ==
            Handshake(cfg, seed, buf + more, sent, log)
  {
    hide Put, Take, Init, NetName, PacketBuffer.FromNet32, Mangle, Xor;
    assert (buf + more)[..4] == buf[..4] && (buf + more)[4..8] == buf[4..8];
    assert (buf + more)[8..] == buf[8..] + more;
    var serverSeed, encType := ServerSeed(buf), ServerType(cfg.mix, buf);
    var outC := Init(cfg.mix, Xor(seed, serverSeed), encType, NoKey());
    var inC := Init(cfg.mix, serverSeed, encType, NoKey());
    if outC.Some? {
      var i := In(inC.value, XINU, []);
      TakeSum(cfg.mix, i, buf[8..], more);
      NetNameResumes(cfg, Take(cfg.mix, i, buf[8..]), Put(cfg.mix, Out(outC.value, XINU, sent), OwnName()), log, more);
    }
  }

  /** Two receives leave the session as one receive of both chunks does. */
  lemma {:induction false} ReceiveSum(cfg: Config, s: Session, a: seq<byte>, b: seq<byte>)
    requires s.Valid() && a != [] && b != []
    ensures Receive(cfg, Receive(cfg, s, a), b) == Receive(cfg, s, a + b)
  {
    hide Handshake, NetName, Decode, Take;
    match s
    case Handshaking(seed, buf, sent, log) =>
      SumAssociates(buf, a, b);
      if |buf + a| >= 8 {
        HandshakeResumes(cfg, seed, buf + a, sent, log, b);
      }
    case WaitingNetName(i, o, log) =>
      TakeSum(cfg.mix, i, a, b);
      NetNameResumes(cfg, Take(cfg.mix, i, a), o, log, b);
    case Established(i, o, log) =>
      TakeSum(cfg.mix, i, a, b);
      DecodeResumes(cfg, Take(cfg.mix, i, a), o, log, b);
    case Disconnected(_, _) =>
  }

  predicate NonEmpty(chunks: seq<seq<byte>>) {
    forall c :: c in chunks ==> c != []
  }

  /** However the connection cuts the stream into receives, the session ends in the
      same state with the same deliveries and the same answers sent. */
  lemma {:induction false} AnyCut(cfg: Config, s: Session, chunks: seq<seq<byte>>)
    requires s.Valid() && NonEmpty(chunks) && chunks != []
    ensures ReceiveAll(cfg, s, chunks) == Receive(cfg, s, Concat(chunks))
    decreases |chunks|
  {
    hide Receive, Session.Valid;
    var first, rest := chunks[0], chunks[1..];
    if rest == [] {
      assert Concat(chunks) == first + [];
      assert first + [] == first;
      assert ReceiveAll(cfg, Receive(cfg, s, first), []) == Receive(cfg, s, first);
    } else {
      assert forall c :: c in rest ==> c in chunks;
      assert first in chunks && rest[0] in chunks;
      AnyCut(cfg, Receive(cfg, s, first), rest);
      assert Concat(rest) == rest[0] + Concat(rest[1..]);
      ReceiveSum(cfg, s, first, Concat(rest));
    }
  }

  //////////////////////////////////////////////////////////////////////////
  // One end writes, the other receives.
  //////////////////////////////////////////////////////////////////////////

  lemma EventsInjective(a: seq<Frame>, b: seq<Frame>)
    requires Events(a) == Events(b)
    ensures a == b
  {
    forall k | 0 <= k < |a|
      ensures |b| == |a| && a[k] == b[k]
    {
      assert |Events(a)| == |Events(b)|;
      assert Events(a)[k] == Received(a[k]) && Events(b)[k] == Received(b[k]);
    }
    assert |Events(a)| == |Events(b)|;
  }

  /** The end of a connection does not pass for a frame. */
  lemma DownIsNoFrame(log: seq<Event>, a: seq<Frame>, b: seq<Frame>)
    ensures log + Events(a) + [Down] != log + Events(b)
    ensures log + Events(a) == log + Events(b) ==> a == b
  {
    var e, f := log + Events(a), log + Events(b);
    assert |f| > |log| ==> f[|f| - 1] == Received(b[|b| - 1]);
    assert |f| > |log| ==> f[|f| - 1] != (e + [Down])[|e|];
    assert e[|log|..] == Events(a) && f[|log|..] == Events(b);
    if e == f {
      EventsInjective(a, b);
    }
  }

  /** A session that knows the sender's cipher and xinu state. */
  predicate Listens(s: Session, c: State, xinu: bv32) {
    s.Established? && s.Valid() && s.input == In(c, xinu, [])
  }

  /** Whatever the cut, the receiver gets exactly the frames that were written if and
      only if they all fit their headers and the last is not an empty message. Then
      its buffer is empty and both its xinu state and its cipher are the sender's. */
  lemma {:induction false} Delivered(cfg: Config, s: Session, c: State, xinu: bv32, frames: seq<Frame>,
                                     chunks: seq<seq<byte>>)
    requires c.Shaped() && Listens(s, c, xinu) && NonEmpty(chunks) && chunks != []
    requires Concat(chunks) == Crypt(cfg.mix, c, Encode(frames, xinu)) != []
    ensures var r := ReceiveAll(cfg, s, chunks);
            (r.log == s.log + Events(frames) <==> AllShort(frames) && Prompt(frames)) &&
            (AllShort(frames) && Prompt(frames) ==>
               r == Established(In(After(cfg.mix, c, |Encode(frames, xinu)|), XinuAfterAll(frames, xinu), []),
                                Put(cfg.mix, s.output, Pongs(frames)), s.log + Events(frames)))
  {
    hide Encode, Parse, Put, Pongs, After, Crypt, XinuAfterAll, AllShort, Prompt, Events, ReceiveAll, NonEmpty;
    hide State.Shaped;
    var plain := Encode(frames, xinu);
    AnyCut(cfg, s, chunks);
    CryptTwice(cfg.mix, c, plain);
    InStep(frames, xinu);
    assert [] + plain == plain;
    var p := Parse(plain, xinu);
    assert Receive(cfg, s, Concat(chunks)) == Handled(cfg.mix, After(cfg.mix, c, |plain|), s.output, p, s.log);
    DownIsNoFrame(s.log, p.frames, frames);
  }

  //////////////////////////////////////////////////////////////////////////
  // The whole conversation.
  //////////////////////////////////////////////////////////////////////////

  /** What a supernode sends: its seed and mangled encryption type in the clear, then
      its network name and frames encrypted. */
  function ServerStream(m: Mixers, seed: bv32, encType: bv32, name: seq<byte>, frames: seq<Frame>): seq<byte>
    requires Supported(encType)
  {
    PacketBuffer.Net32(seed) + PacketBuffer.Net32(Mangle(m, seed, encType)) +
    Crypt(m, Init(m, seed, encType, NoKey()).value, name + [0] + Encode(frames, XINU))
  }

  /** The stream's clear part gives the seed and the type back. */
  lemma ClearPart(m: Mixers, seed: bv32, encType: bv32, rest: seq<byte>)
    ensures var s := PacketBuffer.Net32(seed) + PacketBuffer.Net32(Mangle(m, seed, encType)) + rest;
            ServerSeed(s) == seed && ServerType(m, s) == encType && s[8..] == rest
  {
    hide Mangle, PacketBuffer.FromNet32;
    var a, b := PacketBuffer.Net32(seed), PacketBuffer.Net32(Mangle(m, seed, encType));
    var s := a + b + rest;
    assert s[..4] == a && s[4..8] == b && s[8..] == rest;
    hide PacketBuffer.Net32;
    PacketBuffer.Net32RoundTrip(seed);
    PacketBuffer.Net32RoundTrip(Mangle(m, seed, encType));
    MangleInvolutes(m, seed, encType);
  }

  lemma {:induction false} NameEnds(name: seq<byte>, rest: seq<byte>)
    requires 0 !in name
    ensures var buf := name + [0] + rest;
            0 in buf && NameLength(buf) == |name| && buf[..|name|] == name && buf[|name| + 1..] == rest
  {
    var buf := name + [0] + rest;
    assert buf[|name|] == 0;
    if name != [] {
      assert name == [name[0]] + name[1..];
      NameEnds(name[1..], rest);
      assert buf[1..] == name[1..] + [0] + rest;
    }
  }

  lemma {:induction false} DecryptedStream(m: Mixers, c: State, plain: seq<byte>)
    requires c.Shaped()
    ensures Take(m, In(c, XINU, []), Crypt(m, c, plain)) == In(After(m, c, |plain|), XINU, plain)
  {
    hide Crypt, After;
    CryptTwice(m, c, plain);
    assert [] + plain == plain;
  }

  /** The handshake takes the eight clear bytes and decrypts the others. */
  lemma {:induction false} Greeted(cfg: Config, out: bv32, sent: seq<byte>, log: seq<Event>, seed: bv32, encType: bv32,
                plain: seq<byte>)
    requires Supported(encType)
    ensures var c := Init(cfg.mix, seed, encType, NoKey()).value;
            var s := PacketBuffer.Net32(seed) + PacketBuffer.Net32(Mangle(cfg.mix, seed, encType)) +
                     Crypt(cfg.mix, c, plain);
            var o := Put(cfg.mix, Out(Init(cfg.mix, Xor(out, seed), encType, NoKey()).value, XINU, sent), OwnName());
            Receive(cfg, Handshaking(out, [], sent, log), s) ==
            NetName(cfg, In(After(cfg.mix, c, |plain|), XINU, plain), o, log)
  {
    hide Init, Mangle, PacketBuffer.Net32, ServerSeed, ServerType, Supported, NetName, Take, Put, Crypt, After, Xor;
    var c := Init(cfg.mix, seed, encType, NoKey()).value;
    var s := PacketBuffer.Net32(seed) + PacketBuffer.Net32(Mangle(cfg.mix, seed, encType)) + Crypt(cfg.mix, c, plain);
    FourBytes(seed);
    FourBytes(Mangle(cfg.mix, seed, encType));
    ClearPart(cfg.mix, seed, encType, Crypt(cfg.mix, c, plain));
    DecryptedStream(cfg.mix, c, plain);
    assert [] + s == s;
  }

  lemma FourBytes(v: bv32)
    ensures |PacketBuffer.Net32(v)| == 4
  {
  }

  /** The session is established, has delivered the frames and nothing else, has
      nothing left to wait with, and is in step with a sender in the state c. */
  predicate Heard(r: Session, log: seq<Event>, frames: seq<Frame>, c: State) {
    r.Established? && r.log == log + [Up] + Events(frames) && r.input == In(c, XinuAfterAll(frames, XINU), [])
  }

  lemma {:induction false} NamedAndDecoded(cfg: Config, cipher: State, o: Out, log: seq<Event>, name: seq<byte>,
                                           frames: seq<Frame>)
    requires cipher.Shaped() && o.cipher.Shaped() && 0 !in name
    ensures Heard(NetName(cfg, In(cipher, XINU, name + [0] + Encode(frames, XINU)), o, log), log, frames, cipher) <==>
            ValidName(name) && AllShort(frames) && Prompt(frames)
  {
    hide Encode, Put, Pongs, AllShort, Prompt, Events, State.Shaped, ValidName, NameLength, PutFrame, XinuAfterAll;
    NameEnds(name, Encode(frames, XINU));
    InStep(frames, XINU);
    DownIsNoFrame(log + [Up], Parse(Encode(frames, XINU), XINU).frames, frames);
  }

  /** The server's cipher when it has sent its name and the frames. */
  function ServerCipher(m: Mixers, seed: bv32, encType: bv32, name: seq<byte>, frames: seq<Frame>): State
    requires Supported(encType)
  {
    After(m, Init(m, seed, encType, NoKey()).value, |name| + 1 + |Encode(frames, XINU)|)
  }

  lemma {:induction false} WholeStreamOnce(cfg: Config, out: bv32, sent: seq<byte>, log: seq<Event>, seed: bv32,
                                           encType: bv32, name: seq<byte>, frames: seq<Frame>)
    requires Supported(encType) && 0 !in name
    ensures Heard(Receive(cfg, Handshaking(out, [], sent, log), ServerStream(cfg.mix, seed, encType, name, frames)),
                  log, frames, ServerCipher(cfg.mix, seed, encType, name, frames)) <==>
            ValidName(name) && AllShort(frames) && Prompt(frames)
  {
    hide Encode, Put, AllShort, Prompt, ValidName, Heard, Init, Mangle, PacketBuffer.Net32, Supported, Receive;
    hide NetName, Xor, After, Crypt, Session.Valid, State.Shaped;
    var c := Init(cfg.mix, seed, encType, NoKey()).value;
    var plain := name + [0] + Encode(frames, XINU);
    Greeted(cfg, out, sent, log, seed, encType, plain);
    NamedAndDecoded(cfg, After(cfg.mix, c, |plain|),
                    Put(cfg.mix, Out(Init(cfg.mix, Xor(out, seed), encType, NoKey()).value, XINU, sent), OwnName()),
                    log, name, frames);
  }

  /** However a supernode's whole stream is cut, the session ends established and in
      step, with its frames delivered in order, if and only if its name is a known one
      and the frames fit and do not end in an empty message. */
  lemma {:induction false} WholeStream(cfg: Config, out: bv32, sent: seq<byte>, log: seq<Event>, seed: bv32,
                                       encType: bv32, name: seq<byte>, frames: seq<Frame>, chunks: seq<seq<byte>>)
    requires Supported(encType) && 0 !in name
    requires NonEmpty(chunks) && Concat(chunks) == ServerStream(cfg.mix, seed, encType, name, frames)
    ensures Heard(ReceiveAll(cfg, Handshaking(out, [], sent, log), chunks), log, frames,
                  ServerCipher(cfg.mix, seed, encType, name, frames)) <==>
            ValidName(name) && AllShort(frames) && Prompt(frames)
  {
    hide Encode, AllShort, Prompt, ValidName, Heard, Init, Mangle, Supported, Receive, ReceiveAll, Crypt, NonEmpty;
    assert |Concat(chunks)| >= 8;
    assert chunks != [];
    hide ServerStream, ServerCipher;
    AnyCut(cfg, Handshaking(out, [], sent, log), chunks);
    WholeStreamOnce(cfg, out, sent, log, seed, encType, name, frames);
  }

  //////////////////////////////////////////////////////////////////////////
  // What the server gets.
  //////////////////////////////////////////////////////////////////////////

  /** What a server that knows both seeds makes of the bytes behind the first packet. */
  function Deciphered(m: Mixers, out: bv32, seed: bv32, encType: bv32, s: seq<byte>): seq<byte>
    requires Supported(encType)
  {
    Crypt(m, Init(m, out ^ seed, encType, NoKey()).value, s)
  }

  /** Every byte the session has written. */
  function AllSent(s: Session): seq<byte> {
    match s
    case Handshaking(_, _, sent, _) => sent
    case WaitingNetName(_, o, _) => o.sent
    case Established(_, o, _) => o.sent
    case Disconnected(sent, _) => sent
  }

  /** The session has written one string under a cipher, and has the cipher behind it. */
  predicate HasWritten(m: Mixers, r: Session, c: State, sent: seq<byte>, plain: seq<byte>)
    requires c.Shaped()
  {
    |AllSent(r)| >= |sent| && AllSent(r)[..|sent|] == sent && Crypt(m, c, AllSent(r)[|sent|..]) == plain &&
    (r.Established? ==> r.output.cipher == After(m, c, |plain|))
  }

  lemma {:induction false} PutIsWritten(m: Mixers, r: Session, o: Out, plain: seq<byte>)
    requires o.cipher.Shaped() && AllSent(r) == Put(m, o, plain).sent
    requires r.Established? ==> r.output.cipher == Put(m, o, plain).cipher
    ensures HasWritten(m, r, o.cipher, o.sent, plain)
  {
    hide Crypt, After, State.Shaped;
    var c := Crypt(m, o.cipher, plain);
    assert (o.sent + c)[..|o.sent|] == o.sent && (o.sent + c)[|o.sent|..] == c;
    CryptTwice(m, o.cipher, plain);
  }

  /** The frames a client writes to a server of this name with these frames. */
  function Told(cfg: Config, name: seq<byte>, frames: seq<Frame>): seq<byte> {
    if ValidName(name)
    then FrameBytes(Message(0x02, cfg.info), 0x51) + Pongs(Parse(Encode(frames, 0x51), 0x51).frames)
    else []
  }

  lemma {:induction false} NameAndInfo(m: Mixers, o: Out, f: Frame, pongs: seq<byte>)
    requires o.cipher.Shaped()
    ensures var p, q := Put(m, PutFrame(m, Put(m, o, OwnName()), f), pongs),
                        Put(m, o, [0x4b, 0x61, 0x5a, 0x61, 0x41, 0] + (FrameBytes(f, o.xinu) + pongs));
            p.sent == q.sent && p.cipher == q.cipher && p.xinu == XinuAfter(f, o.xinu)
  {
    hide Crypt, After, State.Shaped, FrameBytes, XinuAfter;
    var name, bytes := OwnName(), FrameBytes(f, o.xinu);
    var o1 := Put(m, o, name);
    var o2 := Put(m, o1, bytes);
    PutSum(m, o1, bytes, pongs);
    PutSum(m, o, name, bytes + pongs);
  }

  lemma {:induction false} NamedAndTold(cfg: Config, cipher: State, o: Out, log: seq<Event>, name: seq<byte>,
                                        frames: seq<Frame>)
    requires cipher.Shaped() && o.cipher.Shaped() && o.xinu == XINU && 0 !in name
    ensures var r := NetName(cfg, In(cipher, XINU, name + [0] + Encode(frames, XINU)), Put(cfg.mix, o, OwnName()), log);
            HasWritten(cfg.mix, r, o.cipher, o.sent, [0x4b, 0x61, 0x5a, 0x61, 0x41, 0] + Told(cfg, name, frames)) &&
            (r.Established? ==> r.output.xinu == XinuAfter(Message(0x02, cfg.info), 0x51))
  {
    hide Encode, Put, Pongs, State.Shaped, ValidName, NameLength, PutFrame, FrameBytes, XinuAfter, HasWritten, Parse;
    hide OwnName, Events;
    var r := NetName(cfg, In(cipher, XINU, name + [0] + Encode(frames, XINU)), Put(cfg.mix, o, OwnName()), log);
    NameEnds(name, Encode(frames, XINU));
    var plain := [0x4b, 0x61, 0x5a, 0x61, 0x41, 0] + Told(cfg, name, frames);
    if ValidName(name) {
      NameAndInfo(cfg.mix, o, Info(cfg), Pongs(Parse(Encode(frames, XINU), XINU).frames));
    } else {
      ToldNothing(cfg, name, frames);
    }
    PutIsWritten(cfg.mix, r, o, plain);
  }

  lemma ToldNothing(cfg: Config, name: seq<byte>, frames: seq<Frame>)
    requires !ValidName(name)
    ensures OwnName() == [0x4b, 0x61, 0x5a, 0x61, 0x41, 0] + Told(cfg, name, frames)
  {
  }

  /** A server that knows both seeds decrypts what the client has written behind the
      first packet: its name KaZaA, and to a known name the node info and a pong for
      every ping found. The client's sending cipher is then the server's. */
  lemma {:induction false} ServerReads(cfg: Config, out: bv32, sent: seq<byte>, log: seq<Event>, seed: bv32,
                                       encType: bv32, name: seq<byte>, frames: seq<Frame>, chunks: seq<seq<byte>>)
    requires Supported(encType) && 0 !in name
    requires NonEmpty(chunks) && Concat(chunks) == ServerStream(cfg.mix, seed, encType, name, frames)
    ensures var r := ReceiveAll(cfg, Handshaking(out, [], sent, log), chunks);
            var plain := [0x4b, 0x61, 0x5a, 0x61, 0x41, 0] + Told(cfg, name, frames);
            |AllSent(r)| >= |sent| && AllSent(r)[..|sent|] == sent &&
            Deciphered(cfg.mix, out, seed, encType, AllSent(r)[|sent|..]) == plain &&
            (r.Established? ==>
               r.output.cipher == After(cfg.mix, Init(cfg.mix, out ^ seed, encType, NoKey()).value, |plain|) &&
               r.output.xinu == XinuAfter(Message(0x02, cfg.info), 0x51))
  {
    hide Encode, Init, Mangle, Supported, Receive, ReceiveAll, Crypt, NonEmpty, After, Told, NetName, XinuAfter;
    hide State.Shaped, Put, PacketBuffer.Net32;
    var plain := name + [0] + Encode(frames, XINU);
    FourBytes(seed);
    FourBytes(Mangle(cfg.mix, seed, encType));
    assert |Concat(chunks)| >= 8;
    assert chunks != [];
    AnyCut(cfg, Handshaking(out, [], sent, log), chunks);
    Greeted(cfg, out, sent, log, seed, encType, plain);
    var c := Init(cfg.mix, seed, encType, NoKey()).value;
    NamedAndTold(cfg, After(cfg.mix, c, |plain|), Out(Init(cfg.mix, out ^ seed, encType, NoKey()).value, XINU, sent),
                 log, name, frames);
  }

  /** When every frame fits and the last is not an empty message, those are all pings. */
  lemma {:induction false} EveryPingAnswered(cfg: Config, name: seq<byte>, frames: seq<Frame>)
    requires ValidName(name) && AllShort(frames) && Prompt(frames)
    ensures Told(cfg, name, frames) == FrameBytes(Message(0x02, cfg.info), 0x51) + Pongs(frames)
  {
    hide Encode, Parse, Pongs, AllShort, Prompt, FrameBytes, ValidName;
    InStep(frames, 0x51);
  }
}
