/** Two sessions talking: everything one of them does between two states against
    what the other one makes of it. */
module Conversation {
  import opened Bytes
  import opened Frames
  import opened CipherState
  import opened Protocol
  import opened Delivery

  /** What happens to an established session. */
  datatype Op = Arrive(chunk: seq<byte>) | SendMessage(kind: u16, payload: seq<byte>) | SendPing

  /** fst_session_send_message and session_send_ping do nothing but write. */
  function Step(cfg: Config, s: Session, op: Op): (r: Session)
    requires s.Valid()
    ensures r.Valid()
  {
    match op
    case Arrive(chunk) => Receive(cfg, s, chunk)
    case SendMessage(kind, payload) =>
      if s.Established? then Established(s.input, PutFrame(cfg.mix, s.output, Message(kind, payload)), s.log) else s
    case SendPing =>
      if s.Established? then Established(s.input, PutFrame(cfg.mix, s.output, Ping), s.log) else s
  }

  function Run(cfg: Config, s: Session, ops: seq<Op>): (r: Session)
    requires s.Valid()
    ensures r.Valid()
    decreases |ops|
  {
    if ops == [] then s else Run(cfg, Step(cfg, s, ops[0]), ops[1..])
  }

  /** A pong for every ping. */
  function Answers(frames: seq<Frame>): seq<Frame> {
    if frames == [] then []
    else (if frames[0] == Ping then [Pong] else []) + Answers(frames[1..])
  }

  /** The frames an established session writes when this happens to it. */
  function Writes(cfg: Config, s: Session, op: Op): seq<Frame>
    requires s.Valid() && s.Established?
  {
    match op
    case Arrive(chunk) => Answers(Parse(Take(cfg.mix, s.input, chunk).buf, s.input.xinu).frames)
    case SendMessage(kind, payload) => [Message(kind, payload)]
    case SendPing => [Ping]
  }

  function WritesAll(cfg: Config, s: Session, ops: seq<Op>): seq<Frame>
    requires s.Valid()
    decreases |ops|
  {
    if ops == [] || !s.Established? then []
    else Writes(cfg, s, ops[0]) + WritesAll(cfg, Step(cfg, s, ops[0]), ops[1..])
  }

  /** The sending side after these frames. */
  function Written(m: Mixers, o: Out, frames: seq<Frame>): (r: Out)
    requires o.cipher.Shaped()
    ensures r.cipher.Shaped()
  {
    Put(m, o, Encode(frames, o.xinu)).(xinu := XinuAfterAll(frames, o.xinu))
  }

  lemma {:induction false} EncodeSum(a: seq<Frame>, b: seq<Frame>, xinu: bv32)
    ensures Encode(a + b, xinu) == Encode(a, xinu) + Encode(b, XinuAfterAll(a, xinu))
    ensures XinuAfterAll(a + b, xinu) == XinuAfterAll(b, XinuAfterAll(a, xinu))
  {
    hide FrameBytes, XinuAfter;
    if a == [] {
      assert a + b == b;
    } else {
      var x := XinuAfter(a[0], xinu);
      EncodeSum(a[1..], b, x);
      assert (a + b)[1..] == a[1..] + b;
      SumAssociates(FrameBytes(a[0], xinu), Encode(a[1..], x), Encode(b, XinuAfterAll(a[1..], x)));
    }
  }

  lemma {:induction false} WrittenSum(m: Mixers, o: Out, a: seq<Frame>, b: seq<Frame>)
    requires o.cipher.Shaped()
    ensures Written(m, Written(m, o, a), b) == Written(m, o, a + b)
  {
    hide Encode, XinuAfterAll, After, Crypt, State.Shaped;
    EncodeSum(a, b, o.xinu);
    PutSum(m, o, Encode(a, o.xinu), Encode(b, XinuAfterAll(a, o.xinu)));
  }

  lemma WrittenOne(m: Mixers, o: Out, f: Frame)
    requires o.cipher.Shaped()
    ensures PutFrame(m, o, f) == Written(m, o, [f])
  {
    hide FrameBytes, XinuAfter, After, Crypt;
    var x := XinuAfter(f, o.xinu);
    assert [f][1..] == [];
    assert Encode([], x) == [] && XinuAfterAll([], x) == x;
    assert FrameBytes(f, o.xinu) + [] == FrameBytes(f, o.xinu);
  }

  /** Pongs are frames like any others, and leave the state alone. */
  lemma {:induction false} PongsAreFrames(frames: seq<Frame>, xinu: bv32)
    ensures Encode(Answers(frames), xinu) == Pongs(frames) && XinuAfterAll(Answers(frames), xinu) == xinu
  {
    if frames != [] {
      PongsAreFrames(frames[1..], xinu);
      var rest := Answers(frames[1..]);
      if frames[0] == Ping {
        assert ([Pong] + rest)[1..] == rest;
      } else {
        assert [] + rest == rest;
        assert [] + Pongs(frames[1..]) == Pongs(frames[1..]);
      }
    }
  }

  /** One step writes its frames, or ends the session. */
  lemma {:induction false} StepWrites(cfg: Config, s: Session, op: Op)
    requires s.Valid() && s.Established?
    ensures var r := Step(cfg, s, op);
            r.Disconnected? || (r.Established? && r.output == Written(cfg.mix, s.output, Writes(cfg, s, op)))
  {
    hide Put, PutFrame, Written, Parse, Answers, Pongs, Take, Encode;
    match op
    case Arrive(chunk) =>
      if chunk != [] {
        var frames := Parse(Take(cfg.mix, s.input, chunk).buf, s.input.xinu).frames;
        assert Take(cfg.mix, s.input, chunk).xinu == s.input.xinu by {
          TakeKeepsXinu(cfg.mix, s.input, chunk);
        }
        PongsWritten(cfg.mix, s.output, frames);
      }
    case SendMessage(kind, payload) => WrittenOne(cfg.mix, s.output, Message(kind, payload));
    case SendPing => WrittenOne(cfg.mix, s.output, Ping);
  }

  lemma TakeKeepsXinu(m: Mixers, i: In, chunk: seq<byte>)
    requires i.cipher.Shaped()
    ensures Take(m, i, chunk).xinu == i.xinu
  {
  }

  lemma {:induction false} PongsWritten(m: Mixers, o: Out, frames: seq<Frame>)
    requires o.cipher.Shaped()
    ensures Put(m, o, Pongs(frames)) == Written(m, o, Answers(frames))
  {
    hide Pongs, Answers, Encode, XinuAfterAll, After, Crypt;
    PongsAreFrames(frames, o.xinu);
  }

  lemma {:induction false} DownForever(cfg: Config, s: Session, ops: seq<Op>)
    requires s.Disconnected?
    ensures Run(cfg, s, ops) == s
    decreases |ops|
  {
    if ops != [] {
      DownForever(cfg, s, ops[1..]);
    }
  }

  /** Over every run, what an established session has written is its frames in the
      order they were written, under one cipher. */
  lemma {:induction false} RunWrites(cfg: Config, s: Session, ops: seq<Op>)
    requires s.Valid() && s.Established? && Run(cfg, s, ops).Established?
    ensures Run(cfg, s, ops).output == Written(cfg.mix, s.output, WritesAll(cfg, s, ops))
    decreases |ops|
  {
    hide Step, Written, Writes, State.Shaped;
    if ops == [] {
      WrittenNothing(cfg.mix, s.output);
    } else {
      StepWrites(cfg, s, ops[0]);
      var r := Step(cfg, s, ops[0]);
      if r.Disconnected? {
        DownForever(cfg, r, ops[1..]);
      } else {
        RunWrites(cfg, r, ops[1..]);
        WrittenSum(cfg.mix, s.output, Writes(cfg, s, ops[0]), WritesAll(cfg, r, ops[1..]));
      }
    }
  }

  lemma WrittenNothing(m: Mixers, o: Out)
    requires o.cipher.Shaped()
    ensures Written(m, o, []) == o
  {
    PutNothing(m, o);
  }

  /** The other end, from when it knows the writer's states: it hears exactly what was
      written if and only if every message written fits its header and the last frame
      is not an empty message, and then it has the writer's states again. */
  lemma {:induction false} PeerHears(cfg: Config, s: Session, ops: seq<Op>, peer: Session, chunks: seq<seq<byte>>)
    requires s.Valid() && s.Established? && Run(cfg, s, ops).Established?
    requires Listens(peer, s.output.cipher, s.output.xinu)
    requires NonEmpty(chunks) && Concat(chunks) != []
    requires Run(cfg, s, ops).output.sent == s.output.sent + Concat(chunks)
    ensures var r, frames, heard := Run(cfg, s, ops), WritesAll(cfg, s, ops), ReceiveAll(cfg, peer, chunks);
            (heard.log == peer.log + Events(frames) <==> AllShort(frames) && Prompt(frames)) &&
            (AllShort(frames) && Prompt(frames) ==> Listens(heard, r.output.cipher, r.output.xinu))
  {
    hide Run, WritesAll, Encode, After, XinuAfterAll, AllShort, Prompt, Events, ReceiveAll, NonEmpty, State.Shaped;
    hide Pongs;
    var frames, plain := WritesAll(cfg, s, ops), Encode(WritesAll(cfg, s, ops), s.output.xinu);
    RunWrites(cfg, s, ops);
    var c := Crypt(cfg.mix, s.output.cipher, plain);
    assert |c| == |plain|;
    hide Crypt;
    assert (s.output.sent + c)[|s.output.sent|..] == c;
    assert (s.output.sent + Concat(chunks))[|s.output.sent|..] == Concat(chunks);
    assert chunks != [];
    Delivered(cfg, peer, s.output.cipher, s.output.xinu, frames, chunks);
  }
}
