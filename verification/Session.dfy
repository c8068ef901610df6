/** fst_session.c: the session object, whose buffers, ciphers and counters the
    receive loop updates in place. Every method computes a step of Protocol. */
module SessionObject {
  import opened Bytes
  import opened Frames
  import opened CipherState
  import opened StreamCipher
  import opened Protocol
  import opened PB = PacketBuffer

  datatype Stage = SessNew | SessHandshaking | SessWaitingNetName | SessEstablished | SessDisconnected

  class Session {
    const cfg: Config
    const inCipher: Cipher
    const outCipher: Cipher
    const inPacket: Packet
    var stage: Stage
    var inXinu: bv32
    var outXinu: bv32
    var sent: seq<byte>
    var log: seq<Event>

    /** The parts share no memory. */
    ghost predicate Apart()
      reads inPacket
    {
      inCipher != outCipher && inCipher.pad16 != outCipher.pad16 &&
      inCipher.pad != outCipher.pad && inCipher.pad != outCipher.lookup &&
      inCipher.lookup != outCipher.pad && inCipher.lookup != outCipher.lookup &&
      inPacket.data != inCipher.pad && inPacket.data != inCipher.lookup &&
      inPacket.data != outCipher.pad && inPacket.data != outCipher.lookup
    }

    ghost predicate Intact()
      reads inPacket, inCipher, outCipher
    {
      Apart() && inPacket.Valid() && inCipher.Valid() && outCipher.Valid() &&
      inCipher.mix == cfg.mix == outCipher.mix
    }

    ghost function Input(): In
      reads this`inXinu, inPacket, inPacket.data, inCipher, inCipher.pad, inCipher.lookup, inCipher.pad16
      requires inCipher.Valid() && inPacket.Valid()
    {
      In(inCipher.Value(), inXinu, inPacket.Contents())
    }

    ghost function Output(): Out
      reads this`outXinu, this`sent, outCipher, outCipher.pad, outCipher.lookup, outCipher.pad16
      requires outCipher.Valid()
    {
      Out(outCipher.Value(), outXinu, sent)
    }

    /** The session as Protocol sees it. */
    ghost function Value(): Protocol.Session
      reads this, inPacket, inPacket.data
      reads inCipher, inCipher.pad, inCipher.lookup, inCipher.pad16
      reads outCipher, outCipher.pad, outCipher.lookup, outCipher.pad16
      requires Intact() && stage != SessNew
    {
      match stage
      case SessHandshaking => Handshaking(outCipher.seed, inPacket.Contents(), sent, log)
      case SessWaitingNetName => WaitingNetName(Input(), Output(), log)
      case SessEstablished => Established(Input(), Output(), log)
      case SessDisconnected => Disconnected(sent, log)
    }

    /** Nothing has been made of the ciphers yet. */
    ghost predicate Unused()
      reads this`inXinu, this`outXinu, inCipher.pad16, outCipher.pad16
    {
      inXinu == outXinu == XINU && inCipher.pad16[..] == outCipher.pad16[..] == NoKey()
    }

    ghost predicate Valid()
      reads this, inPacket, inPacket.data
      reads inCipher, inCipher.pad, inCipher.lookup, inCipher.pad16
      reads outCipher, outCipher.pad, outCipher.lookup, outCipher.pad16
    {
      Intact() && stage != SessNew && Value().Valid() &&
      (stage != SessDisconnected ==> inPacket.readPos == 0) && (stage == SessHandshaking ==> Unused())
    }

    /** fst_session_create. */
    constructor (cfg: Config)
      ensures Intact() && Unused() && this.cfg == cfg && inXinu == outXinu == 0x51
      ensures fresh(inPacket) && fresh(inPacket.data) && fresh(inCipher.Repr()) && fresh(outCipher.Repr())
      ensures stage == SessNew && inPacket.readPos == 0 && inPacket.Contents() == [] && sent == [] && log == []
    {
      var i := new Cipher(cfg.mix);
      var o := new Cipher(cfg.mix);
      var p := new Packet();
      this.cfg := cfg;
      inCipher, outCipher, inPacket := i, o, p;
      stage := SessNew;
      inXinu, outXinu := XINU, XINU;
      sent, log := [], [];
      new;
      hide Cipher.Valid, Packet.Valid, Packet.Contents;
    }

    /** session_connected: the first packet asks for encryption type 0x29. */
    method Connected()
      requires Intact() && Unused() && stage == SessNew
      requires inPacket.readPos == 0 && inPacket.Contents() == [] && sent == [] && log == []
      modifies this, outCipher
      ensures Valid()
      ensures var seed: bv32 := 0xFACB1238;
              Value() == Handshaking(seed, [], Net32(0xFA00B62B) + Net32(seed) + Net32(Mangle(cfg.mix, seed, 0x29)), [])
    {
      hide Net32, Mangle, Packet.Valid, Packet.Contents, Cipher.Value;
      stage := SessHandshaking;
      outCipher.encType := 0x29;
      outCipher.seed := 0xFACB1238;
      var encoded := MangleEncType(cfg.mix, outCipher.seed, outCipher.encType);
      sent := Net32(0xFA00B62B) + Net32(outCipher.seed) + Net32(encoded);
    }

    method Disconnect()
      modifies this`stage, this`log
      ensures stage == SessDisconnected && log == old(log) + [Down]
    {
      stage := SessDisconnected;
      log := log + [Down];
    }

    //////////////////////////////////////////////////////////////////////////
    // Sending.
    //////////////////////////////////////////////////////////////////////////

    /** Encrypts a packet and hands it to the connection. */
    method Send(bytes: seq<byte>)
      requires outCipher.Valid() && outCipher.mix == cfg.mix
      modifies this`sent, outCipher, outCipher.pad, outCipher.pad16
      ensures outCipher.Valid() && Output() == Put(cfg.mix, old(Output()), bytes)
    {
      hide Crypt, After, Cipher.Value, Cipher.Valid;
      var packet := Holding(bytes);
      outCipher.Crypt(packet.data, packet.used);
      sent := sent + packet.data[..packet.used];
    }

    method PutHeader(packet: Packet, order: Order, kind: u16, size: nat)
      requires packet.Valid()
      modifies packet, packet.data
      ensures packet.Valid() && fresh({packet.data} - {old(packet.data)})
      ensures packet.Contents() == old(packet.Contents()) + Header(order, kind, size)
    {
      hide Lo, Hi, Packet.Contents, Packet.Unread, Packet.Valid;
      var loLen, hiLen, loType, hiType := Lo(size), Hi(size), Lo(kind), Hi(kind);
      match order {
        case TypeFirst => packet.Write([loType, hiType, hiLen, loLen]);
        case TypeSplit => packet.Write([hiType, hiLen, loType, loLen]);
        case LengthInside => packet.Write([hiType, loLen, hiLen, loType]);
      }
    }

    /** The packet fst_session_send_message builds, header first. */
    method BuildMessage(kind: u16, payload: seq<byte>) returns (bytes: seq<byte>)
      ensures bytes == FrameBytes(Message(kind, payload), outXinu) && OnWire(bytes, kind, payload, Xtype(outXinu))
    {
      MessageOnWire(kind, payload, outXinu);
      hide OnWire, OrderOf, Header, Packet.Contents, Packet.Unread, Packet.Valid;
      var packet := new Packet();
      packet.Write([0x4b]);
      PutHeader(packet, OrderOf(outXinu), kind, |payload|);
      packet.Write(payload);
      bytes := packet.Bytes();
    }

    /** fst_session_send_message: nothing is sent before the session is established. */
    method SendMessage(kind: u16, payload: seq<byte>) returns (ok: bool)
      requires outCipher.Valid() && outCipher.mix == cfg.mix && kind < 0xff
      modifies this`sent, this`outXinu, outCipher, outCipher.pad, outCipher.pad16
      ensures outCipher.Valid() && ok == (stage == SessEstablished)
      ensures Output() == if ok then PutFrame(cfg.mix, old(Output()), Message(kind, payload)) else old(Output())
    {
      if stage != SessEstablished {
        return false;
      }
      hide FrameBytes, Put, Twist, Cipher.Value, Cipher.Valid;
      var bytes := BuildMessage(kind, payload);
      Send(bytes);
      outXinu := Twist(outXinu, kind, |payload|);
      ok := true;
    }

    /** session_send_ping and session_send_pong. */
    method SendControl(f: Frame)
      requires outCipher.Valid() && outCipher.mix == cfg.mix && !f.Message?
      modifies this`sent, outCipher, outCipher.pad, outCipher.pad16
      ensures outCipher.Valid() && Output() == PutFrame(cfg.mix, old(Output()), f)
    {
      hide Put, Cipher.Value, Cipher.Valid;
      Send(if f == Ping then [0x50] else [0x52]);
    }

    //////////////////////////////////////////////////////////////////////////
    // Established.
    //////////////////////////////////////////////////////////////////////////

    /** The buffer, the state and the log after a turn that found this. */
    twostate predicate Took(found: Found)
      reads this, inPacket, inPacket.data
      requires old(inPacket.Valid())
    {
      inPacket.Valid() && inPacket.data == old(inPacket.data) && inPacket.readPos == 0 &&
      match found
      case Got(f, n) =>
        n <= |old(inPacket.Contents())| && inPacket.Contents() == old(inPacket.Contents())[n..] &&
        inXinu == XinuAfter(f, old(inXinu)) && log == old(log) + [Received(f)]
      case _ =>
        inPacket.Contents() == old(inPacket.Contents()) && inXinu == old(inXinu) && log == old(log)
    }

    /** The four header bytes, in the order the state asks for. */
    method ReadHeader(order: Order) returns (kind: u16, size: u16)
      requires inPacket.Valid() && |inPacket.Unread()| >= 4
      modifies inPacket`readPos
      ensures inPacket.Valid() && inPacket.Contents() == old(inPacket.Contents())
      ensures inPacket.readPos == old(inPacket.readPos) + 4
      ensures var h := old(inPacket.Unread())[..4]; kind == HeaderKind(order, h) && size == HeaderSize(order, h)
    {
      hide Word;
      ghost var h := inPacket.Unread()[..4];
      var b0 := inPacket.GetUint8();
      var b1 := inPacket.GetUint8();
      var b2 := inPacket.GetUint8();
      var b3 := inPacket.GetUint8();
      assert h == [b0, b1, b2, b3];
      match order {
        case TypeFirst => kind, size := Word(b1, b0), Word(b2, b3);
        case TypeSplit => kind, size := Word(b0, b2), Word(b1, b3);
        case LengthInside => kind, size := Word(b0, b3), Word(b2, b1);
      }
    }

    /** A 0x4B whose type byte has been read: the message, when it is complete. */
    method TakeMessage() returns (more: bool)
      requires inPacket.Valid() && inPacket.readPos == 1 && inPacket.Contents()[0] == 0x4b
      modifies this`inXinu, this`log, inPacket, inPacket.data
      ensures var found := Find(old(inPacket.Contents()), old(inXinu));
              !found.Strange? && (more <==> found.Got?) && Took(found)
      ensures var buf, x := old(inPacket.Contents()), Xtype(old(inXinu));
              (more <==> |buf| >= 6 && |buf| >= 5 + LengthAt(buf, x)) &&
              (more ==> log == old(log) + [Received(Message(TypeAt(buf, x), buf[5..5 + LengthAt(buf, x)]))])
    {
      hide OrderOf, HeaderKind, HeaderSize, Twist, TypeAt, LengthAt;
      ghost var buf := inPacket.Contents();
      MessageTaken(buf, inXinu);
      if inPacket.used - inPacket.readPos < 5 {
        inPacket.Rewind();
        return false;
      }
      assert inPacket.Unread()[..4] == buf[1..5];
      var kind, size := ReadHeader(OrderOf(inXinu));
      if inPacket.used - inPacket.readPos < size {
        inPacket.Rewind();
        return false;
      }
      TakePayload(kind, size);
      more := true;
    }

    /** The rest of a complete message: the callback gets a copy of the payload. */
    method TakePayload(kind: u16, size: u16)
      requires inPacket.Valid() && inPacket.readPos == 5 && size <= |inPacket.Unread()|
      modifies this`inXinu, this`log, inPacket, inPacket.data
      ensures inPacket.Valid() && inPacket.data == old(inPacket.data) && inPacket.readPos == 0
      ensures inXinu == Twist(old(inXinu), kind, size)
      ensures var buf := old(inPacket.Contents());
              inPacket.Contents() == buf[5 + size..] &&
              log == old(log) + [Received(Message(kind, buf[5..5 + size]))]
    {
      hide Twist;
      ghost var buf := inPacket.Contents();
      assert inPacket.Unread() == buf[5..];
      inXinu := Twist(inXinu, kind, size);
      var packet := inPacket.CreateCopy(size);
      assert packet.Contents() == buf[5..][..size] == buf[5..5 + size];
      assert inPacket.Unread() == buf[5..][size..] == buf[5 + size..];
      inPacket.Truncate();
      log := log + [Received(Message(kind, packet.data[..packet.used]))];
    }

    /** A frame of one byte, taken off the buffer. */
    method Control(f: Frame)
      requires inPacket.Valid() && inPacket.readPos == 1 && !f.Message?
      modifies this`log, inPacket, inPacket.data
      ensures Took(Got(f, 1))
    {
      assert inPacket.Unread() == inPacket.Contents()[1..];
      inPacket.Truncate();
      log := log + [Received(f)];
    }

    lemma FindsControl(buf: seq<byte>, xinu: bv32)
      requires buf != []
      ensures buf[0] == 0x50 ==> Find(buf, xinu) == Got(Ping, 1)
      ensures buf[0] == 0x52 ==> Find(buf, xinu) == Got(Pong, 1)
      ensures buf[0] == 0x4b ==> Find(buf, xinu).Got? ==> Find(buf, xinu).frame.Message?
      ensures buf[0] !in {0x50, 0x52, 0x4b} <==> Find(buf, xinu) == Strange
    {
      hide OrderOf, HeaderKind, HeaderSize;
    }

    /** A turn of the parse loop, but for the answer to a ping. */
    method TakeOff() returns (more: bool, kind: byte, ghost found: Found)
      requires inPacket.Valid() && inPacket.readPos == 0 && inPacket.used > 0
      modifies this`inXinu, this`log, this`stage, inPacket, inPacket.data
      ensures found == Find(old(inPacket.Contents()), old(inXinu)) && (more <==> found.Got?)
      ensures kind == 0x50 <==> found.Got? && found.frame == Ping
      ensures found != Strange ==> stage == old(stage) && Took(found)
      ensures found == Strange ==>
                stage == SessDisconnected && log == old(log) + [Down] && inXinu == old(inXinu) &&
                inPacket.Valid() && inPacket.data == old(inPacket.data)
    {
      assert XinuAfter(Ping, inXinu) == XinuAfter(Pong, inXinu) == inXinu;
      hide Find, XinuAfter;
      ghost var buf := inPacket.Contents();
      FindsControl(buf, inXinu);
      found := Find(buf, inXinu);
      kind := inPacket.GetUint8();
      if kind == 0x50 {
        Control(Ping);
        more := true;
      } else if kind == 0x52 {
        Control(Pong);
        more := true;
      } else if kind == 0x4b {
        more := TakeMessage();
      } else {
        Disconnect();
        more := false;
      }
    }

    ghost predicate Decoding()
      reads this, inPacket, inCipher, outCipher
    {
      Intact() && stage == SessEstablished && inPacket.readPos == 0
    }

    lemma PongPut(m: Mixers, o: Out)
      requires o.cipher.Shaped()
      ensures PutFrame(m, o, Pong) == Put(m, o, [0x52])
    {
      hide Crypt, After;
    }

    /** One turn of the parse loop. */
    method TakeFrame() returns (more: bool)
      requires Decoding() && inPacket.used > 0
      modifies this, inPacket, inPacket.data, outCipher, outCipher.pad, outCipher.pad16
      ensures Intact() && inPacket.data == old(inPacket.data)
      ensures more ==> Decoding()
      ensures !more ==> Valid()
      ensures more <==> Find(old(Input().buf), old(inXinu)).Got?
      ensures Value() == Turn(cfg.mix, old(Input()), old(Output()), old(log))
    {
      hide Find, XinuAfter, Put, PutFrame, Cipher.Value, Cipher.Valid, Packet.Contents, Packet.Valid;
      hide State.Shaped, Crypt, After, Session.Unused;
      PongPut(cfg.mix, Output());
      var kind;
      ghost var found;
      more, kind, found := TakeOff();
      assert inCipher.Value() == old(inCipher.Value()) && Output() == old(Output());
      if more && kind == 0x50 {
        SendControl(Pong);
      }
    }

    /** The session once everything in the buffer is decoded. */
    ghost function Decoded(): Protocol.Session
      reads this, inPacket, inPacket.data
      reads inCipher, inCipher.pad, inCipher.lookup, inCipher.pad16
      reads outCipher, outCipher.pad, outCipher.lookup, outCipher.pad16
      requires Intact()
    {
      Decode(cfg.mix, Input(), Output(), log)
    }

    /** A turn brings the session closer to where decoding ends. */
    method TakeTurn() returns (more: bool)
      requires Decoding() && inPacket.used > 0
      modifies this, inPacket, inPacket.data, outCipher, outCipher.pad, outCipher.pad16
      ensures Intact() && inPacket.data == old(inPacket.data)
      ensures more ==> Decoding() && inPacket.used < old(inPacket.used) && Decoded() == old(Decoded())
      ensures !more ==> Valid() && Value() == old(Decoded())
    {
      ghost var i, o, l := Input(), Output(), log;
      DecodeTurn(cfg.mix, i, o, l);
      hide Decode, Find, XinuAfter, Cipher.Value, Cipher.Valid, Put, Apart, Unused;
      more := TakeFrame();
      assert more ==> Established(Input(), Output(), log) == Turn(cfg.mix, i, o, l);
    }

    /** The parse loop. */
    method DecodePackets()
      requires Decoding()
      modifies this, inPacket, inPacket.data, outCipher, outCipher.pad, outCipher.pad16
      ensures Valid() && inPacket.data == old(inPacket.data)
      ensures Value() == old(Decoded())
    {
      hide Decode, Cipher.Value, Cipher.Valid, Apart, Unused;
      while inPacket.readPos < inPacket.used
        invariant Decoding() && inPacket.data == old(inPacket.data)
        invariant Decoded() == old(Decoded())
        decreases inPacket.used
      {
        var more := TakeTurn();
        if !more {
          return;
        }
      }
      DecodeEmpty(cfg.mix, Input(), Output(), log);
    }

    lemma DecodeEmpty(m: Mixers, i: In, o: Out, log: seq<Event>)
      requires i.cipher.Shaped() && o.cipher.Shaped() && i.buf == []
      ensures Decode(m, i, o, log) == Established(i, o, log)
    {
      DecodeTurn(m, i, o, log);
    }

    //////////////////////////////////////////////////////////////////////////
    // Waiting for the network name.
    //////////////////////////////////////////////////////////////////////////

    /** Reads up to the terminator, or through everything when there is none. */
    method ScanName() returns (c: byte)
      requires inPacket.Valid() && inPacket.readPos == 0
      modifies inPacket`readPos
      ensures inPacket.Valid() && inPacket.Contents() == old(inPacket.Contents())
      ensures c == 0 <==> 0 in inPacket.Contents()
      ensures c == 0 ==> inPacket.readPos == NameLength(inPacket.Contents()) + 1
    {
      c := 0x61;
      while inPacket.readPos < inPacket.used
        invariant inPacket.Valid() && inPacket.Contents() == old(inPacket.Contents())
        invariant c != 0 && 0 !in inPacket.Contents()[..inPacket.readPos]
      {
        ghost var n := inPacket.readPos;
        c := inPacket.GetUint8();
        assert inPacket.Contents()[..n + 1] == inPacket.Contents()[..n] + [c];
        if c == 0 {
          NameLengthIs(inPacket.Contents(), n);
          return;
        }
      }
      assert inPacket.Contents()[..inPacket.readPos] == inPacket.Contents();
    }

    lemma {:induction false} NameLengthIs(buf: seq<byte>, n: nat)
      requires n < |buf| && buf[n] == 0 && 0 !in buf[..n]
      ensures 0 in buf && NameLength(buf) == n
    {
      if n > 0 {
        assert buf[0] == buf[..n][0] && buf[1..][..n - 1] == buf[..n][1..];
        NameLengthIs(buf[1..], n - 1);
      }
    }

    /** strcasecmp with each valid name in turn. */
    method IsValidName(name: seq<byte>) returns (known: bool)
      ensures known <==> ValidName(name)
    {
      hide Lowered, ValidNames;
      var names, i := ValidNames(), 0;
      while i < |names|
        invariant i <= |names| && Lowered(name) !in names[..i]
      {
        if Lowered(name) == names[i] {
          return true;
        }
        assert names[..i + 1] == names[..i] + [names[i]];
        i := i + 1;
      }
      assert names[..i] == names;
      known := false;
    }

    /** A complete name: what follows it moves to the front when it is valid. */
    method TakeName() returns (known: bool)
      requires inPacket.Valid() && 0 in inPacket.Contents()
      requires inPacket.readPos == NameLength(inPacket.Contents()) + 1
      modifies inPacket, inPacket.data
      ensures inPacket.Valid() && inPacket.data == old(inPacket.data)
      ensures var buf := old(inPacket.Contents()); var n := NameLength(buf);
              (known <==> ValidName(buf[..n])) &&
              (known ==> inPacket.Contents() == buf[n + 1..] && inPacket.readPos == 0)
    {
      hide NameLength, ValidName;
      ghost var buf := inPacket.Contents();
      assert inPacket.data[..inPacket.readPos - 1] == buf[..inPacket.readPos - 1];
      assert inPacket.Unread() == buf[inPacket.readPos..];
      known := IsValidName(inPacket.data[..inPacket.readPos - 1]);
      if known {
        inPacket.Truncate();
      }
    }

    /** The session once the name in the buffer has been looked at. */
    ghost function Named(): Protocol.Session
      reads this, inPacket, inPacket.data
      reads inCipher, inCipher.pad, inCipher.lookup, inCipher.pad16
      reads outCipher, outCipher.pad, outCipher.lookup, outCipher.pad16
      requires Intact()
    {
      NetName(cfg, Input(), Output(), log)
    }

    /** The name has been read: the session is established, or ends. */
    method CheckName() returns (go: bool)
      requires Intact() && stage == SessWaitingNetName && 0 in Input().buf
      requires inPacket.readPos == NameLength(Input().buf) + 1
      modifies this, inPacket, inPacket.data, outCipher, outCipher.pad, outCipher.pad16
      ensures Intact() && inPacket.data == old(inPacket.data)
      ensures go ==> Decoding() && Decoded() == old(Named())
      ensures !go ==> Valid() && Value() == old(Named())
    {
      hide NameLength, ValidName, Decode, PutFrame, Cipher.Value, Cipher.Valid, Packet.Valid, Packet.Contents, Unused;
      go := TakeName();
      assert Output() == old(Output()) && inCipher.Value() == old(inCipher.Value());
      if !go {
        Disconnect();
        return;
      }
      Welcome();
    }

    /** The session is established: the node info goes out, the owner is told. */
    method Welcome()
      requires outCipher.Valid() && outCipher.mix == cfg.mix
      modifies this`stage, this`log, this`sent, this`outXinu, outCipher, outCipher.pad, outCipher.pad16
      ensures outCipher.Valid() && stage == SessEstablished && log == old(log) + [Up]
      ensures Output() == PutFrame(cfg.mix, old(Output()), Info(cfg))
    {
      hide PutFrame, Cipher.Value, Cipher.Valid;
      stage := SessEstablished;
      var ok := SendMessage(0x02, cfg.info);
      log := log + [Up];
    }

    method ReadNetName() returns (go: bool)
      requires Intact() && stage == SessWaitingNetName && inPacket.readPos == 0
      modifies this, inPacket, inPacket.data, outCipher, outCipher.pad, outCipher.pad16
      ensures Intact() && inPacket.data == old(inPacket.data)
      ensures go ==> Decoding() && Decoded() == old(Named())
      ensures !go ==> Valid() && Value() == old(Named())
    {
      hide NameLength, Decode, Cipher.Value, Cipher.Valid, Packet.Valid, Packet.Contents, Unused;
      var c := ScanName();
      assert Output() == old(Output()) && Input() == old(Input());
      if c != 0 {
        inPacket.Rewind();
        return false;
      }
      hide NetName;
      go := CheckName();
    }

    //////////////////////////////////////////////////////////////////////////
    // Handshaking.
    //////////////////////////////////////////////////////////////////////////

    ghost function OutStart(seed: bv32, buf: seq<byte>): Option<State>
      requires |buf| >= 8
    {
      Init(cfg.mix, Xor(seed, ServerSeed(buf)), ServerType(cfg.mix, buf), NoKey())
    }

    ghost function InStart(buf: seq<byte>): Option<State>
      requires |buf| >= 8
    {
      Init(cfg.mix, ServerSeed(buf), ServerType(cfg.mix, buf), NoKey())
    }

    /** The seed and the encryption type, in the clear. */
    method ReadKeys() returns (seed: bv32, encType: bv32)
      requires inPacket.Valid() && inPacket.readPos == 0 && |inPacket.Contents()| >= 8
      modifies inPacket`readPos
      ensures inPacket.Valid() && inPacket.Contents() == old(inPacket.Contents()) && inPacket.readPos == 8
      ensures seed == ServerSeed(inPacket.Contents()) && encType == ServerType(cfg.mix, inPacket.Contents())
    {
      hide FromNet32, Mangle;
      ghost var buf := inPacket.Contents();
      assert inPacket.Unread()[..4] == buf[..4] && inPacket.Unread()[4..][..4] == buf[4..8];
      seed := inPacket.GetNet32();
      encType := inPacket.GetNet32();
      encType := MangleEncType(cfg.mix, seed, encType);
    }

    /** session_do_handshake. */
    method DoHandshake() returns (ok: bool)
      requires Intact() && Unused() && inPacket.readPos == 0 && |inPacket.Contents()| >= 8
      modifies this`sent, inPacket`readPos
      modifies inCipher, inCipher.pad, inCipher.lookup, inCipher.pad16
      modifies outCipher, outCipher.pad, outCipher.lookup, outCipher.pad16
      ensures Intact() && inPacket.Contents() == old(inPacket.Contents())
      ensures ok <==> OutStart(old(outCipher.seed), old(inPacket.Contents())).Some?
      ensures ok <==> InStart(old(inPacket.Contents())).Some?
      ensures !ok ==> sent == old(sent)
      ensures ok ==> inPacket.readPos == 8 && inCipher.Value() == InStart(old(inPacket.Contents())).value
      ensures ok ==>
                var c := OutStart(old(outCipher.seed), old(inPacket.Contents())).value;
                Output() == Put(cfg.mix, Out(c, XINU, old(sent)), OwnName())
    {
      hide Init, ServerSeed, ServerType, Packet.Contents, Packet.Valid, Cipher.Value, Put;
      var seed, encType := ReadKeys();
      outCipher.seed := Xor(outCipher.seed, seed);
      outCipher.encType := encType;
      ok := outCipher.Init(outCipher.seed, outCipher.encType);
      if !ok {
        return;
      }
      ok := inCipher.Init(seed, encType);
      if !ok {
        return;
      }
      Send(OwnName());
    }

    /** fst_packet_decrypt. */
    method Decrypt(packet: Packet)
      requires packet.Valid() && inCipher.Valid() && inCipher.mix == cfg.mix
      requires packet.data != inCipher.pad && packet.data != inCipher.lookup
      modifies packet.data, inCipher, inCipher.pad, inCipher.pad16
      ensures packet.Valid() && inCipher.Valid()
      ensures packet.Contents() == Crypt(cfg.mix, old(inCipher.Value()), old(packet.Contents()))
      ensures inCipher.Value() == After(cfg.mix, old(inCipher.Value()), |old(packet.Contents())|)
      ensures packet.Unread() == packet.Contents()[packet.readPos..]
    {
      hide Crypt, After, Cipher.Value, Cipher.Valid;
      inCipher.Crypt(packet.data, packet.used);
      assert packet.data[packet.readPos..packet.used] == packet.data[..packet.used][packet.readPos..];
    }

    /** The handshake, and the rest of the buffer decrypted where it is. */
    method Greet() returns (go: bool)
      requires Intact() && Unused() && inPacket.readPos == 0 && |inPacket.Contents()| >= 8
      modifies this, inPacket, inPacket.data
      modifies inCipher, inCipher.pad, inCipher.lookup, inCipher.pad16
      modifies outCipher, outCipher.pad, outCipher.lookup, outCipher.pad16
      ensures Intact() && inPacket.data == old(inPacket.data)
      ensures go ==> stage == SessWaitingNetName && inPacket.readPos == 0 &&
                     Named() == Handshake(cfg, old(outCipher.seed), old(inPacket.Contents()), old(sent), old(log))
      ensures !go ==> Valid() &&
                      Value() == Handshake(cfg, old(outCipher.seed), old(inPacket.Contents()), old(sent), old(log))
    {
      hide Init, ServerSeed, ServerType, Packet.Valid, Cipher.Value, Put, Crypt, After, NetName;
      ghost var buf := inPacket.Contents();
      go := DoHandshake();
      if !go {
        Disconnect();
        return;
      }
      assert inPacket.Unread() == buf[8..];
      inPacket.Truncate();
      Decrypt(inPacket);
      stage := SessWaitingNetName;
      assert Input() == Take(cfg.mix, In(InStart(buf).value, XINU, []), buf[8..]);
    }

    //////////////////////////////////////////////////////////////////////////
    // session_decrypt_packet.
    //////////////////////////////////////////////////////////////////////////

    /** Waiting for the name first if need be, then decoding. */
    method Proceed()
      requires Intact() && inPacket.readPos == 0
      requires stage == SessWaitingNetName || stage == SessEstablished
      modifies this, inPacket, inPacket.data, outCipher, outCipher.pad, outCipher.pad16
      ensures Valid() && inPacket.data == old(inPacket.data)
      ensures Value() == if old(stage) == SessWaitingNetName then old(Named()) else old(Decoded())
    {
      hide Named, Decoded, Value, Apart, Cipher.Valid, Packet.Valid;
      if stage == SessWaitingNetName {
        var go := ReadNetName();
        if !go {
          return;
        }
      }
      DecodePackets();
    }

    /** What has been received, decrypted and put behind what there was. */
    method Absorb(packet: Packet)
      requires Intact() && packet.Valid() && packet.readPos == 0 && packet != inPacket
      requires packet.data != inCipher.pad && packet.data != inCipher.lookup && packet.data != inPacket.data
      modifies packet.data, inPacket, inPacket.data, inCipher, inCipher.pad, inCipher.pad16
      ensures Intact() && (inPacket.data == old(inPacket.data) || fresh(inPacket.data))
      ensures inPacket.readPos == old(inPacket.readPos)
      ensures Input() == Take(cfg.mix, old(Input()), old(packet.Contents()))
    {
      hide Crypt, After, Cipher.Value, Cipher.Valid;
      Decrypt(packet);
      inPacket.Append(packet);
    }

    /** More of the clear bytes: the handshake begins when there are eight. */
    method Gather(packet: Packet) returns (go: bool)
      requires Valid() && stage == SessHandshaking && packet.Valid() && packet.readPos == 0
      requires packet.Contents() != [] && packet != inPacket && packet.data != inPacket.data
      modifies this, inPacket, inPacket.data
      modifies inCipher, inCipher.pad, inCipher.lookup, inCipher.pad16
      modifies outCipher, outCipher.pad, outCipher.lookup, outCipher.pad16
      ensures Intact() && (inPacket.data == old(inPacket.data) || fresh(inPacket.data))
      ensures go ==> stage == SessWaitingNetName && inPacket.readPos == 0 &&
                     Named() == Protocol.Receive(cfg, old(Value()), old(packet.Contents()))
      ensures !go ==> Valid() && Value() == Protocol.Receive(cfg, old(Value()), old(packet.Contents()))
    {
      hide Handshake, Cipher.Value, Cipher.Valid, Named;
      ghost var buf := inPacket.Contents();
      inPacket.Append(packet);
      assert inPacket.Contents() == buf + packet.Contents();
      if inPacket.used < 8 {
        return false;
      }
      go := Greet();
    }

    /** The peer has closed the connection. */
    method HangUp()
      requires Valid() && stage != SessDisconnected
      modifies this`stage, this`log
      ensures Valid() && Value() == Hangup(old(Value()))
    {
      hide Cipher.Value, Cipher.Valid, Packet.Valid, Packet.Contents;
      Disconnect();
    }

    /** Chunks after the first eight bytes. */
    method AbsorbAndProceed(packet: Packet)
      requires Valid() && (stage == SessWaitingNetName || stage == SessEstablished)
      requires packet.Valid() && packet.readPos == 0 && packet != inPacket && packet.Contents() != []
      requires packet.data != inCipher.pad && packet.data != inCipher.lookup && packet.data != inPacket.data
      requires packet.data != outCipher.pad && packet.data != outCipher.lookup
      modifies this, packet.data, inPacket, inPacket.data, inCipher, inCipher.pad, inCipher.pad16
      modifies outCipher, outCipher.pad, outCipher.pad16
      ensures Valid() && (inPacket.data == old(inPacket.data) || fresh(inPacket.data))
      ensures Value() == Protocol.Receive(cfg, old(Value()), old(packet.Contents()))
    {
      hide Take, Cipher.Value, Cipher.Valid, Packet.Valid, Packet.Contents, NetName, Decode;
      Absorb(packet);
      assert Output() == old(Output());
      Proceed();
    }

    /** session_decrypt_packet, with the chunk the connection supplies. */
    method Receive(chunk: seq<byte>)
      requires Valid() && |chunk| <= 1024
      modifies this, inPacket, inPacket.data
      modifies inCipher, inCipher.pad, inCipher.lookup, inCipher.pad16
      modifies outCipher, outCipher.pad, outCipher.lookup, outCipher.pad16
      ensures Valid() && (inPacket.data == old(inPacket.data) || fresh(inPacket.data))
      ensures Value() == Protocol.Receive(cfg, old(Value()), chunk)
    {
      if stage == SessDisconnected {
        return;
      }
      hide Value, Named, Cipher.Value, Cipher.Valid, Packet.Valid, Packet.Contents, Unused;
      var packet := new Packet();
      var ok := packet.Recv(chunk);
      assert packet.Contents() == [] + chunk == chunk;
      if !ok {
        HangUp();
        return;
      }
      hide Protocol.Receive;
      if stage == SessHandshaking {
        var go := Gather(packet);
        if go {
          Proceed();
        }
      } else {
        AbsorbAndProceed(packet);
      }
    }
  }

  /** Receiving a stream in any chunks leaves the session as Protocol says. */
  method ReceiveChunks(s: Session, chunks: seq<seq<byte>>)
    requires s.Valid() && forall c :: c in chunks ==> |c| <= 1024
    modifies s, s.inPacket, s.inPacket.data
    modifies s.inCipher, s.inCipher.pad, s.inCipher.lookup, s.inCipher.pad16
    modifies s.outCipher, s.outCipher.pad, s.outCipher.lookup, s.outCipher.pad16
    ensures s.Valid() && s.Value() == ReceiveAll(s.cfg, old(s.Value()), chunks)
  {
    hide Session.Value, Protocol.Receive, Session.Intact, Session.Unused, ReceiveAll;
    NoChunks(s.cfg, s.Value());
    ghost var s0 := s.Value();
    for i := 0 to |chunks|
      invariant s.Valid() && ReceiveAll(s.cfg, s0, chunks[..i]) == s.Value()
      invariant s.inPacket.data == old(s.inPacket.data) || fresh(s.inPacket.data)
    {
      s.Receive(chunks[i]);
      ReceiveLast(s.cfg, s0, chunks[..i], chunks[i]);
      assert chunks[..i + 1] == chunks[..i] + [chunks[i]];
    }
    assert chunks[..|chunks|] == chunks;
  }

  lemma NoChunks(cfg: Config, s: Protocol.Session)
    requires s.Valid()
    ensures ReceiveAll(cfg, s, []) == s
  {
  }

  lemma {:induction false} ReceiveLast(cfg: Config, s: Protocol.Session, chunks: seq<seq<byte>>, last: seq<byte>)
    requires s.Valid()
    ensures ReceiveAll(cfg, s, chunks + [last]) == Protocol.Receive(cfg, ReceiveAll(cfg, s, chunks), last)
    decreases |chunks|
  {
    hide Protocol.Receive;
    if chunks == [] {
      assert ([] + [last])[1..] == [];
      assert ReceiveAll(cfg, Protocol.Receive(cfg, s, last), []) == Protocol.Receive(cfg, s, last);
    } else {
      ReceiveLast(cfg, Protocol.Receive(cfg, s, chunks[0]), chunks[1..], last);
      assert (chunks + [last])[1..] == chunks[1..] + [last];
    }
  }
}
