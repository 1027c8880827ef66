/** Both ends of the serial link put together. */
module Link {
  import opened Basics
  import opened Framing
  import opened HostBuffer
  import opened Microcontroller
  import opened BoardRuns
  import SequenceNumbers

  /** The command frames the byte-at-a-time assembler completes. */
  function Completed(ins: seq<Input>): (ps: seq<Packet>)
    ensures forall p :: p in ps ==> p.sync == SYNC
    decreases |ins|
  {
    if ins == [] then [] else
      var a, i := After(Init(ins)), ins[|ins| - 1];
      Completed(Init(ins)) + (if Completes(a, i.c) then [FrameOf(Feed(a, i.c))] else [])
  }

  /** Per completed command: its echo, then its replies. */
  function Traffic(ins: seq<Input>): (ps: seq<Packet>)
    ensures forall p :: p in ps ==> p.sync == SYNC
    decreases |ins|
  {
    if ins == [] then [] else
      var a, i := After(Init(ins)), ins[|ins| - 1];
      Traffic(Init(ins)) + (if Completes(a, i.c) then Exchange(FrameOf(Feed(a, i.c)), i.readings) else [])
  }

  function Exchange(f: Packet, r: Readings): (ps: seq<Packet>)
    requires f.sync == SYNC
    ensures forall p :: p in ps ==> p.sync == SYNC && p.seqNo == f.seqNo
  {
    [f] + Replies(f, r)
  }

  /** What one byte does to a frame under construction. */
  lemma FeedOne(a: Assembler, c: byte)
    requires a.received < FRAME_SIZE
    ensures Frames(Partial(a) + [c]) == if Completes(a, c) then [FrameOf(Feed(a, c))] else []
    ensures FrameTail(Partial(a) + [c]) == Partial(Consume(a, c))
  {
    var s := Partial(a) + [c];
    if a.received == 0 {
      assert s == [c] && DropToSync([]) == [];
    } else if Completes(a, c) {
      assert s == Wire(FrameOf(Feed(a, c)));
      assert s[FRAME_SIZE..] == [];
    } else {
      assert s == Partial(Consume(a, c));
      assert DropToSync(s) == s;
    }
  }

  /** On every byte stream the assembler completes exactly the stream's frames, and what it holds
      is the stream's unfinished tail. */
  lemma {:induction false} AssemblerFindsFrames(ins: seq<Input>)
    ensures Completed(ins) == Frames(Bytes(ins))
    ensures Partial(After(ins)) == FrameTail(Bytes(ins))
    decreases |ins|
  {
    if ins == [] {
    } else {
      AssemblerFindsFrames(Init(ins));
      FramesAppend(Bytes(Init(ins)), [ins[|ins| - 1].c]);
      FeedOne(After(Init(ins)), ins[|ins| - 1].c);
    }
  }

  /** The two framers agree: whatever the stream and however it is cut into reads, the host has
      served exactly the frames the assembler completed before the last byte. */
  lemma {:induction false} FramersAgree(ins: seq<Input>, chunks: seq<seq<byte>>)
    requires Flatten(chunks) == Bytes(ins)
    requires forall c :: c in chunks ==> |c| <= 74
    ensures ServeAll([], chunks) == Completed(Init(ins))
  {
    HostServesAllButLastByte(chunks);
    AssemblerFindsFrames(Init(ins));
    assert ins != [] ==> Init(Bytes(ins)) == Bytes(Init(ins));
  }

  /** So they agree on every frame exactly when the stream does not end with one. */
  lemma {:induction false} FramersAgreeOnAll(ins: seq<Input>, chunks: seq<seq<byte>>)
    requires Flatten(chunks) == Bytes(ins)
    requires forall c :: c in chunks ==> |c| <= 74
    ensures ServeAll([], chunks) == Completed(ins)
       <==> ins == [] || !Completes(After(Init(ins)), ins[|ins| - 1].c)
  {
    FramersAgree(ins, chunks);
    if ins != [] {
      assert |Completed(ins)| == |Completed(Init(ins))|
               + (if Completes(After(Init(ins)), ins[|ins| - 1].c) then 1 else 0);
    }
  }

  /** What one byte puts on the line, seen by a framer that is in step with the assembler. */
  lemma AnswerIsFramed(a: Assembler, i: Input)
    requires a.received < FRAME_SIZE
    ensures Frames(Partial(a) + Answer(a, i))
         == if Completes(a, i.c) then Exchange(FrameOf(Feed(a, i.c)), i.readings) else []
    ensures FrameTail(Partial(a) + Answer(a, i)) == Partial(Consume(a, i.c))
    ensures Completes(a, i.c) ==>
      Frames(Partial(a) + Init(Answer(a, i))) == Init(Exchange(FrameOf(Feed(a, i.c)), i.readings))
  {
    if Completes(a, i.c) {
      var ps := Exchange(FrameOf(Feed(a, i.c)), i.readings);
      assert ps[1..] == Replies(ps[0], i.readings);
      assert Partial(a) + Answer(a, i) == WireAll(ps);
      assert Partial(a) + Init(Answer(a, i)) == Init(WireAll(ps));
      FramesOfCutWire(ps);
      assert WireAll(ps) == WireAll(ps) + [];
      FramesOfWire(ps, []);
    } else {
      FeedOne(a, i.c);
    }
  }

  /** Echoes and replies never disturb the framing, even when the commands arrive amid noise: the
      outgoing line carries exactly the exchanges, and its framing stays in step with the input's. */
  lemma {:induction false} OutputIsTraffic(ins: seq<Input>)
    ensures Frames(Output(ins)) == Traffic(ins)
    ensures FrameTail(Output(ins)) == Partial(After(ins))
    decreases |ins|
  {
    if ins == [] {
    } else {
      var a, i := After(Init(ins)), ins[|ins| - 1];
      OutputIsTraffic(Init(ins));
      FramesAppend(Output(Init(ins)), Answer(a, i));
      AnswerIsFramed(a, i);
    }
  }

  lemma InitAppend<T>(s: seq<T>, t: seq<T>)
    requires t != []
    ensures Init(s + t) == s + Init(t)
  {}

  /** Without its last byte, the output lacks exactly the final frame of an exchange it ends with. */
  lemma {:induction false} OutputCutShort(ins: seq<Input>)
    requires ins != []
    ensures Frames(Init(Output(ins)))
         == if Completes(After(Init(ins)), ins[|ins| - 1].c) then Init(Traffic(ins)) else Traffic(ins)
  {
    var a, i := After(Init(ins)), ins[|ins| - 1];
    var x := Output(Init(ins));
    OutputIsTraffic(Init(ins));
    InitAppend(x, Answer(a, i));
    FramesAppend(x, Init(Answer(a, i)));
    if Completes(a, i.c) {
      AnswerIsFramed(a, i);
      InitAppend(Traffic(Init(ins)), Exchange(FrameOf(Feed(a, i.c)), i.readings));
    } else {
      assert Init(Answer(a, i)) == [];
      assert x + [] == x;
      assert Traffic(ins) == Traffic(Init(ins));
    }
  }

  /** Round trip over the whole link, for every stream of bytes sent to the microcontroller and every
      way its answers are cut into reads: the host serves each command's echo and replies in order,
      holding back only the final frame when nothing follows it. */
  lemma {:induction false} EchoAndReplyRoundTrip(ins: seq<Input>, chunks: seq<seq<byte>>)
    requires Flatten(chunks) == Output(ins)
    requires forall c :: c in chunks ==> |c| <= 74
    ensures ServeAll([], chunks)
         == if ins != [] && Completes(After(Init(ins)), ins[|ins| - 1].c) then Init(Traffic(ins)) else Traffic(ins)
  {
    HostServesAllButLastByte(chunks);
    if ins != [] {
      OutputCutShort(ins);
    }
  }

  /** A stream of whole frames is taken apart into those frames, the last one by the last byte. */
  lemma {:induction false} WholeFramesComplete(ins: seq<Input>, sent: seq<Packet>)
    requires forall p :: p in sent ==> p.sync == SYNC
    requires Bytes(ins) == WireAll(sent)
    ensures Completed(ins) == sent
    ensures ins != [] ==> Completes(After(Init(ins)), ins[|ins| - 1].c)
  {
    AssemblerFindsFrames(ins);
    assert WireAll(sent) + [] == WireAll(sent);
    FramesOfWire(sent, []);
    if ins != [] {
      FramesOfCutWire(sent);
      AssemblerFindsFrames(Init(ins));
      assert Bytes(ins)[..|ins| - 1] == Bytes(Init(ins));
    }
  }

  /** The readings of the passes that answered a command. */
  function Answering(ins: seq<Input>): seq<Readings>
    decreases |ins|
  {
    if ins == [] then [] else
      var a, i := After(Init(ins)), ins[|ins| - 1];
      Answering(Init(ins)) + (if Completes(a, i.c) then [i.readings] else [])
  }

  /** The frames that answer a sequence of commands: each one's echo, then its replies. */
  function Exchanges(sent: seq<Packet>, rs: seq<Readings>): seq<Packet>
    requires |sent| == |rs| && forall p :: p in sent ==> p.sync == SYNC
    decreases |sent|
  {
    if sent == [] then [] else
      Exchanges(Init(sent), Init(rs)) + Exchange(sent[|sent| - 1], rs[|rs| - 1])
  }

  lemma ExchangesSnoc(sent: seq<Packet>, rs: seq<Readings>, f: Packet, r: Readings)
    requires |sent| == |rs| && f.sync == SYNC && forall p :: p in sent ==> p.sync == SYNC
    ensures Exchanges(sent + [f], rs + [r]) == Exchanges(sent, rs) + Exchange(f, r)
  {
    assert Init(sent + [f]) == sent && Init(rs + [r]) == rs;
  }

  /** The traffic answers the completed commands, one after another. */
  lemma {:induction false} TrafficAnswersCommands(ins: seq<Input>)
    ensures |Answering(ins)| == |Completed(ins)|
    ensures Traffic(ins) == Exchanges(Completed(ins), Answering(ins))
    decreases |ins|
  {
    if ins == [] {
    } else {
      var a, i := After(Init(ins)), ins[|ins| - 1];
      TrafficAnswersCommands(Init(ins));
      if Completes(a, i.c) {
        ExchangesSnoc(Completed(Init(ins)), Answering(Init(ins)), FrameOf(Feed(a, i.c)), i.readings);
      } else {
        assert Completed(ins) == Completed(Init(ins)) && Answering(ins) == Answering(Init(ins));
        assert Traffic(ins) == Traffic(Init(ins));
      }
    }
  }

  lemma {:induction false} HeardAll(es: seq<BoardEvent>, sent: seq<Packet>)
    requires HeardInTime(es) && !Waiting(es)
    requires forall p :: p in sent ==> p.sync == SYNC
    requires Intact(es) == WireAll(sent)
    ensures Completed(Run(es).heard) == sent
    ensures var heard := Run(es).heard; heard != [] ==> Completes(After(Init(heard)), heard[|heard| - 1].c)
  {
    NothingMissed(es);
    WholeFramesComplete(Run(es).heard, sent);
  }

  /** The same for the board as it runs. The transmit queue has room at each pass, every arriving byte is
      taken in time, and nothing more arrives until the sending hardware has been ready, and a pass has
      come, once for each byte queued. Then a host that sent whole command frames and has read what is on
      the line gets each one's echo and replies, in order, all but the final frame. */
  lemma {:induction false} WholeLink(es: seq<BoardEvent>, sent: seq<Packet>, rs: seq<Readings>,
                                     all: seq<BoardEvent>, chunks: seq<seq<byte>>)
    requires RoomThroughout(es) && HeardInTime(es) && !Waiting(es)
    requires forall p :: p in sent ==> p.sync == SYNC
    requires Intact(es) == WireAll(sent)
    requires all == WithRounds(es, rs) && |rs| >= |Run(es).tx|
    requires Flatten(chunks) == Run(all).line
    requires forall c :: c in chunks ==> |c| <= 74
    ensures |Answering(Run(es).heard)| == |sent|
    ensures ServeAll([], chunks) == Init(Exchanges(sent, Answering(Run(es).heard)))
  {
    var heard := Run(es).heard;
    RoundsSend(es, rs);
    assert Run(es).tx[..|Run(es).tx|] == Run(es).tx;
    LineIsOutput(es);
    HeardAll(es, sent);
    TrafficAnswersCommands(heard);
    EchoAndReplyRoundTrip(heard, chunks);
  }

  /** At any moment of such a run, with bytes still queued on the board: the host has served the
      beginning of those answers, and what it lacks is in the queue, but for the one frame held back. */
  lemma {:induction false} WholeLinkSoFar(es: seq<BoardEvent>, chunks: seq<seq<byte>>)
    requires RoomThroughout(es)
    requires Flatten(chunks) == Run(es).line
    requires forall c :: c in chunks ==> |c| <= 74
    ensures var heard, served := Run(es).heard, ServeAll([], chunks);
            && |Answering(heard)| == |Completed(heard)|
            && served <= Exchanges(Completed(heard), Answering(heard))
            && FRAME_SIZE * (|Exchanges(Completed(heard), Answering(heard))| - |served|) <= |Run(es).tx| + FRAME_SIZE
  {
    var b := Run(es);
    LineIsOutput(es);
    OutputIsTraffic(b.heard);
    TrafficAnswersCommands(b.heard);
    HostServesAllButLastByte(chunks);
    FramesOfCutLine(b.line, b.tx);
  }

  /** Without a line's last byte, and without what is queued behind it, only the end of its frames is missing. */
  lemma FramesOfCutLine(line: seq<byte>, tx: seq<byte>)
    ensures Frames(Init(line)) <= Frames(line + tx)
    ensures FRAME_SIZE * (|Frames(line + tx)| - |Frames(Init(line))|) <= |tx| + FRAME_SIZE
  {
    if line == [] {
      assert [] + (line + tx) == line + tx;
      FramesOfPrefix([], line + tx);
    } else {
      var last := [line[|line| - 1]];
      assert line + tx == Init(line) + (last + tx);
      FramesOfPrefix(Init(line), last + tx);
    }
  }

  // ---------------------------------------------------------------- who answers a waiting request

  /** Serving a whole exchange frees the command's number and no other, and stores its last frame. */
  lemma ExchangeAnswers(t: SequenceNumbers.Table, f: Packet, r: Readings)
    requires t.Valid() && f.sync == SYNC
    ensures var t' := SequenceNumbers.StoreAll(t, Exchange(f, r));
            && t' == SequenceNumbers.Store(t, Exchange(f, r)[|Exchange(f, r)| - 1])
            && !t'.locked[f.seqNo]
            && forall n: byte :: n != f.seqNo ==> t'.locked[n] == t.locked[n] && t'.incoming[n] == t.incoming[n]
  {
    LastStoreWins(t, Exchange(f, r), f.seqNo);
  }

  lemma {:induction false} LastStoreWins(t: SequenceNumbers.Table, ps: seq<Packet>, n: byte)
    requires t.Valid() && ps != []
    requires forall k :: 0 <= k < |ps| ==> ps[k].seqNo == n
    ensures SequenceNumbers.StoreAll(t, ps) == SequenceNumbers.Store(t, ps[|ps| - 1])
    decreases |ps|
  {
    var t1 := SequenceNumbers.Store(t, ps[0]);
    if |ps| == 1 {
      assert ps[1..] == [];
    } else {
      var last := ps[|ps| - 1];
      LastStoreWins(t1, ps[1..], n);
      assert t.incoming[n := ps[0]][n := last] == t.incoming[n := last];
      assert t.locked[n := false][n := false] == t.locked[n := false];
    }
  }

  /** But the echo comes first: as soon as it is served the number is free, and a waiter who looks
      then reads back its own command. */
  lemma EchoFreesTheWaiter(t: SequenceNumbers.Table, f: Packet, r: Readings)
    requires t.Valid() && f.sync == SYNC && t.locked[f.seqNo]
    ensures var t' := SequenceNumbers.StoreAll(t, Exchange(f, r)[..1]);
            !t'.locked[f.seqNo] && t'.incoming[f.seqNo] == f
  {
    assert Exchange(f, r)[..1] == [f] && [f][1..] == [];
  }
}
