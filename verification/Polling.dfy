/** Polling the sensors over the link: what the host holds back of each answer, and what it commits. */
module Polling {
  import opened Basics
  import opened Framing
  import opened HostBuffer
  import opened Link
  import opened Microcontroller
  import Host
  import Odometry

  // ---------------------------------------------------------------- polling the sensors

  /** A command frame as five bytes heard in five passes. */
  function Spelled(p: Packet, rs: seq<Readings>): seq<Input>
    requires |rs| == FRAME_SIZE
  {
    [Input(p.sync, rs[0]), Input(p.seqNo, rs[1]), Input(p.command, rs[2]), Input(p.data0, rs[3]), Input(p.data1, rs[4])]
  }

  lemma TrafficGrows(ins: seq<Input>, i: Input)
    ensures After(ins + [i]) == Consume(After(ins), i.c)
    ensures Traffic(ins + [i]) == Traffic(ins)
              + (if Completes(After(ins), i.c) then Exchange(FrameOf(Feed(After(ins), i.c)), i.readings) else [])
  {
    assert Init(ins + [i]) == ins;
  }

  lemma {:induction false} SpelledTraffic(ins: seq<Input>, p: Packet, rs: seq<Readings>)
    requires |rs| == FRAME_SIZE && p.sync == SYNC && After(ins).received == 0
    ensures Traffic(ins + Spelled(p, rs)) == Traffic(ins) + Exchange(p, rs[4])
    ensures var all := ins + Spelled(p, rs);
            Completes(After(Init(all)), all[|all| - 1].c)
  {
    var s := Spelled(p, rs);
    var i1 := ins + [s[0]];
    var i2 := i1 + [s[1]];
    var i3 := i2 + [s[2]];
    var i4 := i3 + [s[3]];
    TrafficGrows(ins, s[0]);
    TrafficGrows(i1, s[1]);
    TrafficGrows(i2, s[2]);
    TrafficGrows(i3, s[3]);
    TrafficGrows(i4, s[4]);
    assert ins + s == i4 + [s[4]];
    assert Traffic(i4) == Traffic(ins);
    assert FrameOf(Feed(After(i4), s[4].c)) == p;
    InitAppend(i4, [s[4]]);
  }

  /** A poll's last reply, the right encoder, stays in the host's ring, and the next byte that arrives,
      whatever it is, releases it. */
  lemma {:induction false} PollIsHeldBack(ins: seq<Input>, p: Packet, rs: seq<Readings>, chunks: seq<seq<byte>>,
                                          next: byte)
    requires |rs| == FRAME_SIZE && p.sync == SYNC && p.command == CMD_GET_SENSOR_DATA
    requires After(ins).received == 0
    requires Flatten(chunks) == Output(ins + Spelled(p, rs))
    requires forall c :: c in chunks ==> |c| <= 74
    ensures ServeAll([], chunks) == Traffic(ins) + [p, SensorReply(p.seqNo, rs[4]), LeftReply(p.seqNo, rs[4])]
    ensures KeepAll([], chunks) == Wire(RightReply(p.seqNo, rs[4]))
    ensures ServeAll([], chunks + [[next]]) == ServeAll([], chunks) + [RightReply(p.seqNo, rs[4])]
  {
    var all := ins + Spelled(p, rs);
    PollTraffic(ins, p, rs);
    EchoAndReplyRoundTrip(all, chunks);
    OutputIsTraffic(all);
    HeldThenReleased(chunks, RightReply(p.seqNo, rs[4]), next);
  }

  lemma PollTraffic(ins: seq<Input>, p: Packet, rs: seq<Readings>)
    requires |rs| == FRAME_SIZE && p.sync == SYNC && p.command == CMD_GET_SENSOR_DATA
    requires After(ins).received == 0
    ensures var all, served := ins + Spelled(p, rs),
                               Traffic(ins) + [p, SensorReply(p.seqNo, rs[4]), LeftReply(p.seqNo, rs[4])];
            && Completes(After(Init(all)), all[|all| - 1].c)
            && Init(Traffic(all)) == served && Traffic(all) == served + [RightReply(p.seqNo, rs[4])]
  {
    SpelledTraffic(ins, p, rs);
    PollExchange(p, rs[4]);
    InitAppend(Traffic(ins), Exchange(p, rs[4]));
  }

  /** A frame at the end of the stream that has not been served is what the ring holds; one more byte
      has it served. */
  lemma HeldThenReleased(chunks: seq<seq<byte>>, f: Packet, next: byte)
    requires forall c :: c in chunks ==> |c| <= 74
    requires Frames(Flatten(chunks)) == ServeAll([], chunks) + [f]
    ensures KeepAll([], chunks) == Wire(f)
    ensures ServeAll([], chunks + [[next]]) == ServeAll([], chunks) + [f]
  {
    HostServesAllButLastByte(chunks);
    ShortReadsFit([], chunks);
    SameRest(ServeAll([], chunks), Frames(KeepAll([], chunks)), [f]);
    OnlyFrame(KeepAll([], chunks), f);
    FlattenSnoc(chunks, [next]);
    HostServesAllButLastByte(chunks + [[next]]);
    assert Init(Flatten(chunks) + [next]) == Flatten(chunks);
  }

  lemma SameRest<T>(a: seq<T>, x: seq<T>, y: seq<T>)
    requires a + x == a + y
    ensures x == y
  {
    assert x == (a + x)[|a|..] && y == (a + y)[|a|..];
  }

  /** Five bytes or fewer that hold a frame are that frame. */
  lemma OnlyFrame(s: seq<byte>, f: Packet)
    requires |s| <= FRAME_SIZE && Frames(s) == [f]
    ensures s == Wire(f)
  {
    var t := DropToSync(s);
    DropToSyncIsSuffix(s);
    assert |t| == FRAME_SIZE && t == s && PacketAt(t) == f;
  }

  lemma {:induction false} FlattenSnoc<T>(chunks: seq<seq<T>>, c: seq<T>)
    ensures Flatten(chunks + [c]) == Flatten(chunks) + c
  {
    if chunks == [] {
      assert chunks + [c] == [c] && [c][1..] == [];
    } else {
      assert (chunks + [c])[1..] == chunks[1..] + [c];
      FlattenSnoc(chunks[1..], c);
    }
  }

  lemma PollExchange(p: Packet, r: Readings)
    requires p.sync == SYNC && p.command == CMD_GET_SENSOR_DATA
    ensures Init(Exchange(p, r)) == [p, SensorReply(p.seqNo, r), LeftReply(p.seqNo, r)]
    ensures Exchange(p, r) == Init(Exchange(p, r)) + [RightReply(p.seqNo, r)]
  {}

  function ByteSwapped(w: word): word { w / 256 + 256 * (w % 256) }

  lemma AbsorbExchange(n: Odometry.RobotState, p: Packet, r: Readings, now: uint32)
    requires p.sync == SYNC && p.command == CMD_GET_SENSOR_DATA
    ensures var n' := Odometry.AbsorbAll(n, Init(Exchange(p, r)), now);
            && n'.validLeft && n'.validIr && n'.validRight == n.validRight
            && n'.left == ByteSwapped(r.leftTicks) && n'.irBank == IrBank(r)
    ensures Odometry.AbsorbAll(n, Exchange(p, r), now)
         == Odometry.Absorb(Odometry.AbsorbAll(n, Init(Exchange(p, r)), now), RightReply(p.seqNo, r), now)
  {
    var a, b, c, d := p, SensorReply(p.seqNo, r), LeftReply(p.seqNo, r), RightReply(p.seqNo, r);
    assert Exchange(p, r) == [a] + [b] + [c] + [d] && Init(Exchange(p, r)) == [a] + [b] + [c];
    assert Odometry.AbsorbAll(n, [], now) == n && [] + [a] == [a];
    Odometry.AbsorbAllSnoc(n, [], a, now);
    Odometry.AbsorbAllSnoc(n, [a], b, now);
    Odometry.AbsorbAllSnoc(n, [a] + [b], c, now);
    Odometry.AbsorbAllSnoc(n, [a] + [b] + [c], d, now);
  }

  /** Hence a poll after anything but a poll never commits by itself, however its frames, and those held
      back before them, are spread over calls of recv: as long as its last reply is held back, no state is
      committed and the current one changes at most in its pose. The call that serves that reply
      completes the state, with the tick counts' bytes swapped, and commits it unless the sanity check
      stands against it. */
  lemma {:induction false} PollCompletesOneByteLate(t: Odometry.Track, es: seq<Odometry.Event>, held: seq<Packet>,
                                                    p: Packet, r: Readings,
                                                    now: uint32, sane: bool, move: Odometry.Kinematics)
    requires p.sync == SYNC && p.command == CMD_GET_SENSOR_DATA
    requires !t.next.validRight && forall f :: f in held ==> f.command != CMD_RIGHT_ENCODER
    requires Odometry.PacketsOf(es) == held + Init(Exchange(p, r))
    ensures Odometry.NeverCommits(t, es, move)
    ensures var t1 := Odometry.Run(t, es, move);
            var last := Odometry.Poll([RightReply(p.seqNo, r)], now, sane);
            var n := Odometry.Collected(t1, last.packets, now).next;
            && t1.previous == t.previous && t1.current == t.current.(pose := t1.current.pose)
            && HeldOver(t1.next, r) && t1.next.validLeft && t1.next.validIr
            && n.SensorsComplete() && n.irBank == IrBank(r)
            && n.left == ByteSwapped(r.leftTicks) && n.right == ByteSwapped(r.rightTicks)
            && Odometry.StepCommits(t1, last) == (sane || !t1.current.validPos)
  {
    var n0 := Odometry.AbsorbAll(t.next, held, now);
    PollExchange(p, r);
    Odometry.NoCommitWithoutReading(t, es, move, 0xB6);
    Odometry.PollsGather(t, es, move, now);
    Odometry.AbsorbAllAppend(t.next, held, Init(Exchange(p, r)), now);
    AbsorbExchange(n0, p, r, now);
    var last := RightReply(p.seqNo, r);
    var t1 := Odometry.Run(t, es, move);
    Odometry.AbsorbAllSnoc(t1.next, [], last, now);
    assert [] + [last] == [last];
    Odometry.AbsorbAgrees(t1.next, Odometry.AbsorbAll(n0, Init(Exchange(p, r)), now), last, now, now);
  }

  /** A state under construction between polls: the right encoder is missing, and what there is of the
      left and the infrared readings is the last poll's. */
  ghost predicate HeldOver(n: Odometry.RobotState, r: Readings) {
    && !n.validRight
    && (n.validLeft ==> n.left == ByteSwapped(r.leftTicks))
    && (n.validIr ==> n.irBank == IrBank(r))
  }

  /** A committed state with one poll's right count and, of the left count and the infrared readings,
      those of the same poll or of the next one, the tick counts' bytes swapped. */
  ghost predicate Pairs(c: Odometry.RobotState, right: Readings, left: Readings, ir: Readings) {
    c == c.(validPos := true, right := ByteSwapped(right.rightTicks), left := ByteSwapped(left.leftTicks),
            irBank := IrBank(ir))
  }

  /** What the call that serves the last reply makes of the states. */
  lemma PollOutcome(t: Odometry.Track, es: seq<Odometry.Event>, held: seq<Packet>, p: Packet, r: Readings,
                    now: uint32, sane: bool, move: Odometry.Kinematics)
    requires p.sync == SYNC && p.command == CMD_GET_SENSOR_DATA
    requires !t.next.validRight && forall f :: f in held ==> f.command != CMD_RIGHT_ENCODER
    requires forall e :: e in es ==> e.Poll?
    requires Odometry.PacketsOf(es) == held + Init(Exchange(p, r))
    ensures var t1 := Odometry.Run(t, es, move);
            var t2 := Odometry.Step(t1, Odometry.Poll([RightReply(p.seqNo, r)], now, sane), move);
            && t1.current == t.current && t1.previous == t.previous
            && if sane || !t.current.validPos then t2.previous == t.current && Pairs(t2.current, r, r, r)
               else t2.current == t.current
  {
    PollCompletesOneByteLate(t, es, held, p, r, now, sane, move);
    Odometry.CurrentStays(t, es, move);
  }

  /** The same seen from the host's whole end. The ring is empty or holds back a frame of another kind, as
      after a motor command. The answer to a poll, cut into reads of at most 74 bytes with calls that
      block in between, commits nothing and leaves the last reply in the ring. */
  lemma {:induction false} FirstPollOverReads(h: Host.HostState, held: seq<Packet>, rs: seq<Host.Read>,
                                              p: Packet, r: Readings, move: Odometry.Kinematics)
    requires Host.InRing(h) && h.pending == WireAll(held) && |held| <= 1 && !h.track.next.validRight
    requires forall f :: f in held ==> f.sync == SYNC && f.command != CMD_RIGHT_ENCODER
    requires p.sync == SYNC && p.command == CMD_GET_SENSOR_DATA && InShortReads(rs, Exchange(p, r))
    ensures var h1, es := Host.AfterReads(h, rs, move), Host.Polls(h.pending, Host.Acknowledged(rs));
            && h1.track == Odometry.Run(h.track, es, move) && Odometry.PacketsOf(es) == held + Init(Exchange(p, r))
            && Host.CommitsOf(h, rs, move) == []
            && h1.track.current == h.track.current && h1.track.previous == h.track.previous
            && h1.pending == Wire(RightReply(p.seqNo, r)) && HeldOver(h1.track.next, r)
  {
    var es := Host.Polls(h.pending, Host.Acknowledged(rs));
    PollExchange(p, r);
    AnswerOverReads(h, held, rs, Exchange(p, r), move);
    PollCompletesOneByteLate(h.track, es, held, p, r, 0, true, move);
    Odometry.CurrentStays(h.track, es, move);
    Odometry.NeverCommitsNothing(h.track, es, move);
  }

  /** One more byte, whatever it is, commits the readings, or has them rejected as insane. */
  lemma {:induction false} PollOverReads(h: Host.HostState, held: seq<Packet>, rs: seq<Host.Read>,
                                         p: Packet, r: Readings, more: Host.Read, move: Odometry.Kinematics)
    requires Host.InRing(h) && h.pending == WireAll(held) && |held| <= 1 && !h.track.next.validRight
    requires forall f :: f in held ==> f.sync == SYNC && f.command != CMD_RIGHT_ENCODER
    requires p.sync == SYNC && p.command == CMD_GET_SENSOR_DATA && InShortReads(rs, Exchange(p, r))
    requires |more.chunk| == 1 && !more.wouldBlock
    ensures var h1 := Host.AfterReads(h, rs, move);
            var t2 := Host.AfterRead(h1, more, move).track;
            && h1.track.current == h.track.current && h1.track.previous == h.track.previous
            && h1.pending == Wire(RightReply(p.seqNo, r))
            && if more.sane || !h.track.current.validPos
               then t2.previous == h.track.current && Pairs(t2.current, r, r, r)
               else t2.current == h.track.current
  {
    var es, last := Host.Polls(h.pending, Host.Acknowledged(rs)), RightReply(p.seqNo, r);
    var h1 := Host.AfterReads(h, rs, move);
    FirstPollOverReads(h, held, rs, p, r, move);
    PollOutcome(h.track, es, held, p, r, more.now, more.sane, move);
    ReleasesFrame(last, more.chunk);
    Host.AcknowledgedRead(h1, more, move);
  }

  /** The answer is read in full, in reads of at most 74 bytes with calls that block in between. */
  ghost predicate InShortReads(calls: seq<Host.Read>, ps: seq<Packet>) {
    && (forall read :: read in calls ==> |read.chunk| <= 74)
    && Flatten(Host.Chunks(Host.Acknowledged(calls))) == WireAll(ps)
  }

  /** Frames that arrive in short reads behind a frame held back are served but for the last, which is
      held back in its turn. */
  lemma AnswerOverReads(h: Host.HostState, held: seq<Packet>, rs: seq<Host.Read>, ps: seq<Packet>,
                        move: Odometry.Kinematics)
    requires Host.InRing(h) && h.pending == WireAll(held) && |held| <= 1
    requires forall f :: f in held + ps ==> f.sync == SYNC
    requires forall read :: read in rs ==> |read.chunk| <= 74
    requires ps != [] && Flatten(Host.Chunks(Host.Acknowledged(rs))) == WireAll(ps)
    ensures var h1, es := Host.AfterReads(h, rs, move), Host.Polls(h.pending, Host.Acknowledged(rs));
            && h1.pending == Wire(ps[|ps| - 1])
            && h1.track == Odometry.Run(h.track, es, move)
            && Odometry.PacketsOf(es) == held + Init(ps)
            && Host.CommitsOf(h, rs, move) == Odometry.Committals(h.track, es, move)
  {
    var heard := Host.Acknowledged(rs);
    WireAllLength(held);
    Host.ShortReadsHaveRoom(h.pending, rs);
    Host.ReadsServeTheStream(h, rs, move);
    Host.PollsServeAll(h.pending, heard);
    Host.CommitsAreCommittals(h, rs, move);
    Host.ChunksAreShort(heard);
    WireOverReads(held, ps, Host.Chunks(heard));
  }

  lemma WireOverReads(held: seq<Packet>, ps: seq<Packet>, chunks: seq<seq<byte>>)
    requires |held| <= 1 && ps != [] && forall f :: f in held + ps ==> f.sync == SYNC
    requires forall c :: c in chunks ==> |c| <= 74
    requires Flatten(chunks) == WireAll(ps)
    ensures ServeAll(WireAll(held), chunks) == held + Init(ps)
    ensures KeepAll(WireAll(held), chunks) == Wire(ps[|ps| - 1])
  {
    var all := held + ps;
    WireAllLength(held);
    WireAllAppend(held, ps);
    ShortReadsFit(WireAll(held), chunks);
    ChunkingIndependence(WireAll(held), chunks);
    HostIsOneByteBehind(WireAll(all));
    FramesOfCutWire(all);
    InitAppend(held, ps);
    LastIsLeft(all);
    LeftIsFrame(KeepAll(WireAll(held), chunks), Leftover(WireAll(all)), all[|all| - 1]);
  }

  lemma LastIsLeft(all: seq<Packet>)
    requires all != [] && forall f :: f in all ==> f.sync == SYNC
    ensures Frames(Leftover(WireAll(all))) == [all[|all| - 1]]
  {
    FramesOfAll(all);
    FramesOfCutWire(all);
    InitAndLast(all);
    HeldBackFrame(WireAll(all), Init(all), all[|all| - 1]);
  }

  lemma InitAndLast(all: seq<Packet>)
    requires all != []
    ensures all == Init(all) + [all[|all| - 1]]
  {}

  lemma FramesOfAll(all: seq<Packet>)
    requires forall f :: f in all ==> f.sync == SYNC
    ensures Frames(WireAll(all)) == all
  {
    assert WireAll(all) + [] == WireAll(all);
    FramesOfWire(all, []);
  }

  lemma HeldBackFrame(s: seq<byte>, ps: seq<Packet>, f: Packet)
    requires Frames(s) == ps + [f] && Frames(Init(s)) == ps
    ensures Frames(Leftover(s)) == [f]
  {
    HeldBack(s);
    HostIsOneByteBehind(s);
    SameRest(ps, Frames(Leftover(s)), [f]);
  }

  lemma LeftIsFrame(kept: seq<byte>, left: seq<byte>, f: Packet)
    requires |kept| <= FRAME_SIZE && DropToSync(kept) == DropToSync(left) && Frames(left) == [f]
    ensures kept == Wire(f)
  {
    NoiseIsInvisible(kept);
    NoiseIsInvisible(left);
    OnlyFrame(kept, f);
  }

  // ---------------------------------------------------------------- polls one after another

  /** What the host serves during a poll that follows a poll. */
  function PollPackets(m: byte, r0: Readings, p: Packet, r: Readings): seq<Packet> {
    [RightReply(m, r0), p, SensorReply(p.seqNo, r), LeftReply(p.seqNo, r)]
  }

  /** What the i-th of them does to a state. */
  lemma AbsorbPollPacket(n: Odometry.RobotState, m: byte, r0: Readings, p: Packet, r: Readings, i: nat, now: uint32)
    requires p.command == CMD_GET_SENSOR_DATA && 1 <= i <= 4
    ensures var n' := Odometry.Absorb(n, PollPackets(m, r0, p, r)[i - 1], now);
            && n'.validRight == (n.validRight || i == 1)
            && n'.right == (if i == 1 then ByteSwapped(r0.rightTicks) else n.right)
            && n'.validIr == (n.validIr || i == 3) && n'.irBank == (if i == 3 then IrBank(r) else n.irBank)
            && n'.validLeft == (n.validLeft || i == 4)
            && n'.left == (if i == 4 then ByteSwapped(r.leftTicks) else n.left)
  {}

  /** What packets j to i - 1 of them leave in a state. */
  lemma {:induction false} AbsorbSlice(n: Odometry.RobotState, m: byte, r0: Readings, p: Packet, r: Readings,
                                       j: nat, i: nat, now: uint32)
    requires p.command == CMD_GET_SENSOR_DATA && j <= i <= 4
    ensures var n' := Odometry.AbsorbAll(n, PollPackets(m, r0, p, r)[j..i], now);
            && n'.validRight == (n.validRight || j < 1 <= i)
            && n'.right == (if j < 1 <= i then ByteSwapped(r0.rightTicks) else n.right)
            && n'.validIr == (n.validIr || j < 3 <= i) && n'.irBank == (if j < 3 <= i then IrBank(r) else n.irBank)
            && n'.validLeft == (n.validLeft || j < 4 <= i)
            && n'.left == (if j < 4 <= i then ByteSwapped(r.leftTicks) else n.left)
    decreases i
  {
    var ps := PollPackets(m, r0, p, r);
    if i == j {
      assert Odometry.AbsorbAll(n, ps[j..i], now) == n;
    } else {
      AbsorbSlice(n, m, r0, p, r, j, i - 1, now);
      SliceSnoc(n, ps, j, i, now);
      AbsorbPollPacket(Odometry.AbsorbAll(n, ps[j..i - 1], now), m, r0, p, r, i, now);
    }
  }

  lemma SliceSnoc(n: Odometry.RobotState, ps: seq<Packet>, j: nat, i: nat, now: uint32)
    requires j < i <= |ps|
    ensures Odometry.AbsorbAll(n, ps[j..i], now)
         == Odometry.Absorb(Odometry.AbsorbAll(n, ps[j..i - 1], now), ps[i - 1], now)
  {
    assert ps[j..i] == ps[j..i - 1] + [ps[i - 1]];
    Odometry.AbsorbAllSnoc(n, ps[j..i - 1], ps[i - 1], now);
  }

  /** How many of them a state between polls needs to become complete. */
  function Needed(n: Odometry.RobotState): nat {
    if !n.validLeft then 4 else if !n.validIr then 3 else 1
  }

  /** A poll that follows a poll, over any calls of recv that the sanity check lets pass: there is exactly
      one commit, in the call k that serves the last packet needed. Its right count is the former poll's.
      Its left count, and its infrared readings, are the former poll's if the call ends before the new
      ones are served, and the new poll's otherwise. */
  lemma {:induction false} OneCommitPerPoll(t: Odometry.Track, es: seq<Odometry.Event>, m: byte, r0: Readings,
                                            p: Packet, r: Readings, move: Odometry.Kinematics)
    returns (k: nat, j: nat)
    requires p.command == CMD_GET_SENSOR_DATA && Odometry.Sane(es) && HeldOver(t.next, r0)
    requires Odometry.PacketsOf(es) == PollPackets(m, r0, p, r)
    ensures k < |es| && j == |Odometry.PacketsOf(es[..k + 1])| <= 4
    ensures |Odometry.PacketsOf(es[..k])| < Needed(t.next) <= j
    ensures var t' := Odometry.Run(t, es, move);
            && |Odometry.Committals(t, es, move)| == 1
            && Odometry.SameButPose(t'.current, Odometry.Committals(t, es, move)[0])
            && Odometry.SameButPose(t'.previous, t.current)
            && Pairs(t'.current, r0, if j < 4 then r0 else r, if j < 3 then r0 else r)
            && HeldOver(t'.next, r) && t'.next.validLeft == (j < 4) && t'.next.validIr == (j < 3)
  {
    var ps := PollPackets(m, r0, p, r);
    assert ps[0..4] == ps;
    AbsorbSlice(t.next, m, r0, p, r, 0, 4, 0);
    k := Odometry.OneCommit(t, es, move, 0);
    j := |Odometry.PacketsOf(es[..k + 1])|;
    var i := |Odometry.PacketsOf(es[..k])|;
    Slices(ps, Odometry.PacketsOf(es[..k]), Odometry.PacketsOf(es[..k + 1]), Odometry.PacketsOf(es[k + 1..]));
    AbsorbSlice(t.next, m, r0, p, r, 0, i, 0);
    AbsorbSlice(t.next, m, r0, p, r, 0, j, 0);
    AbsorbSlice(Odometry.FRESH, m, r0, p, r, j, 4, 0);
  }

  lemma Slices(all: seq<Packet>, a: seq<Packet>, b: seq<Packet>, c: seq<Packet>)
    requires a <= b && all == b + c
    ensures a == all[0..|a|] && b == all[0..|b|] && c == all[|b|..|all|]
  {}

  /** A poll, its readings, and the calls of recv that read its answer. */
  datatype Answered = Answered(poll: Packet, readings: Readings, calls: seq<Host.Read>)

  ghost predicate IsAnswered(a: Answered) {
    && a.poll.sync == SYNC && a.poll.command == CMD_GET_SENSOR_DATA
    && InShortReads(a.calls, Exchange(a.poll, a.readings)) && forall read :: read in a.calls ==> read.sane
  }

  lemma AnswerBehindReply(h: Host.HostState, m: byte, r0: Readings, a: Answered, move: Odometry.Kinematics)
    requires Host.InRing(h) && h.pending == Wire(RightReply(m, r0)) && IsAnswered(a)
    ensures var h', es := Host.AfterReads(h, a.calls, move), Host.Polls(h.pending, Host.Acknowledged(a.calls));
            && h'.track == Odometry.Run(h.track, es, move)
            && h'.pending == Wire(RightReply(a.poll.seqNo, a.readings))
            && Host.CommitsOf(h, a.calls, move) == Odometry.Committals(h.track, es, move)
            && Odometry.PacketsOf(es) == PollPackets(m, r0, a.poll, a.readings) && Odometry.Sane(es)
  {
    BehindReply(m, r0, a.poll, a.readings);
    AnswerOverReads(h, [RightReply(m, r0)], a.calls, Exchange(a.poll, a.readings), move);
    Host.SaneReadsAreSane(h.pending, Host.Acknowledged(a.calls));
  }

  lemma BehindReply(m: byte, r0: Readings, p: Packet, r: Readings)
    requires p.sync == SYNC && p.command == CMD_GET_SENSOR_DATA
    ensures WireAll([RightReply(m, r0)]) == Wire(RightReply(m, r0))
    ensures [RightReply(m, r0)] + Init(Exchange(p, r)) == PollPackets(m, r0, p, r)
    ensures Exchange(p, r) != [] && Exchange(p, r)[|Exchange(p, r)| - 1] == RightReply(p.seqNo, r)
  {
    PollExchange(p, r);
  }

  /** A poll that finds the former poll's last reply in the ring: one commit, which may mix the two polls,
      and the new last reply stays in the ring. */
  lemma {:induction false} PollAfterPoll(h: Host.HostState, m: byte, r0: Readings, a: Answered,
                                         move: Odometry.Kinematics) returns (k: nat, j: nat)
    requires Host.InRing(h) && h.pending == Wire(RightReply(m, r0)) && HeldOver(h.track.next, r0) && IsAnswered(a)
    ensures var es := Host.Polls(h.pending, Host.Acknowledged(a.calls));
            && k < |es| && j == |Odometry.PacketsOf(es[..k + 1])| <= 4
            && |Odometry.PacketsOf(es[..k])| < Needed(h.track.next) <= j
    ensures var h' := Host.AfterReads(h, a.calls, move);
            && Host.CommitsOf(h, a.calls, move) == [h'.track.current] && h'.track.previous == h.track.current
            && Pairs(h'.track.current, r0, if j < 4 then r0 else a.readings, if j < 3 then r0 else a.readings)
            && h'.pending == Wire(RightReply(a.poll.seqNo, a.readings)) && HeldOver(h'.track.next, a.readings)
  {
    var es := Host.Polls(h.pending, Host.Acknowledged(a.calls));
    AnswerBehindReply(h, m, r0, a, move);
    k, j := OneCommitPerPoll(h.track, es, m, r0, a.poll, a.readings, move);
    Odometry.LastCommittal(h.track, es, move);
  }

  /** One commit per poll: the right count of poll k with the left count and the infrared readings of
      poll k or k + 1, and never the left count of the later with the infrared readings of the earlier. */
  ghost predicate PairsUp(c: Odometry.RobotState, former: Readings, latter: Readings) {
    Pairs(c, former, former, former) || Pairs(c, former, former, latter) || Pairs(c, former, latter, latter)
  }

  function AllCalls(answers: seq<Answered>): seq<Host.Read> {
    if answers == [] then [] else answers[0].calls + AllCalls(answers[1..])
  }

  ghost predicate PairUpInTurn(cs: seq<Odometry.RobotState>, r0: Readings, answers: seq<Answered>)
    decreases |answers|
  {
    && |cs| == |answers|
    && (answers != [] ==>
          PairsUp(cs[0], r0, answers[0].readings) && PairUpInTurn(cs[1..], answers[0].readings, answers[1..]))
  }

  /** Over any number of polls, each answered before the next one is sent. */
  lemma {:induction false} PollAfterPolls(h: Host.HostState, m: byte, r0: Readings, answers: seq<Answered>,
                                          move: Odometry.Kinematics)
    requires Host.InRing(h) && h.pending == Wire(RightReply(m, r0)) && HeldOver(h.track.next, r0)
    requires forall a :: a in answers ==> IsAnswered(a)
    ensures PairUpInTurn(Host.CommitsOf(h, AllCalls(answers), move), r0, answers)
    decreases |answers|
  {
    if answers == [] {
    } else {
      var a, rest := answers[0], answers[1..];
      var h' := Host.AfterReads(h, a.calls, move);
      assert a in answers;
      var k, j := PollAfterPoll(h, m, r0, a, move);
      PollAfterPolls(h', a.poll.seqNo, a.readings, rest, move);
      Host.ReadsAppend(h, a.calls, AllCalls(rest), move);
      var c, cs := h'.track.current, Host.CommitsOf(h', AllCalls(rest), move);
      assert ([c] + cs)[1..] == cs;
    }
  }

  /** The program from power-up: a motor command, then polls, each answered before the next one is sent.
      The first poll commits nothing; every later one commits once. */
  lemma {:induction false} PollingFromPowerUp(h: Host.HostState, motor: Packet, r: Readings, calls: seq<Host.Read>,
                                              first: Answered, answers: seq<Answered>, move: Odometry.Kinematics)
    requires Host.InRing(h) && h.pending == [] && h.track == Odometry.START
    requires motor.sync == SYNC && motor.command == CMD_MOTORS && InShortReads(calls, Exchange(motor, r))
    requires IsAnswered(first) && forall a :: a in answers ==> IsAnswered(a)
    ensures PairUpInTurn(Host.CommitsOf(h, calls + (first.calls + AllCalls(answers)), move), first.readings, answers)
  {
    var h1 := Host.AfterReads(h, calls, move);
    MotorOverReads(h, motor, r, calls, move);
    PollingAfterMotor(h1, Packet(SYNC, motor.seqNo, CMD_MOTORS, 0, 0), first, answers, move);
    Host.ReadsAppend(h, calls, first.calls + AllCalls(answers), move);
    var later := Host.CommitsOf(h1, first.calls + AllCalls(answers), move);
    assert [] + later == later;
  }

  lemma PollingAfterMotor(h: Host.HostState, ack: Packet, first: Answered, answers: seq<Answered>,
                          move: Odometry.Kinematics)
    requires Host.InRing(h) && h.pending == Wire(ack) && !h.track.next.validRight
    requires ack.sync == SYNC && ack.command == CMD_MOTORS
    requires IsAnswered(first) && forall a :: a in answers ==> IsAnswered(a)
    ensures PairUpInTurn(Host.CommitsOf(h, first.calls + AllCalls(answers), move), first.readings, answers)
  {
    var h1 := Host.AfterReads(h, first.calls, move);
    assert WireAll([ack]) == Wire(ack);
    FirstPollOverReads(h, [ack], first.calls, first.poll, first.readings, move);
    PollAfterPolls(h1, first.poll.seqNo, first.readings, answers, move);
    Host.ReadsAppend(h, first.calls, AllCalls(answers), move);
    var later := Host.CommitsOf(h1, AllCalls(answers), move);
    assert [] + later == later;
  }

  lemma MotorExchange(motor: Packet, r: Readings)
    requires motor.sync == SYNC && motor.command == CMD_MOTORS
    ensures Exchange(motor, r) == [motor, Packet(SYNC, motor.seqNo, CMD_MOTORS, 0, 0)]
    ensures [] + Init(Exchange(motor, r)) == [motor]
  {}

  lemma MotorOverReads(h: Host.HostState, motor: Packet, r: Readings, calls: seq<Host.Read>, move: Odometry.Kinematics)
    requires Host.InRing(h) && h.pending == [] && !h.track.next.validRight
    requires motor.sync == SYNC && motor.command == CMD_MOTORS && InShortReads(calls, Exchange(motor, r))
    ensures var h' := Host.AfterReads(h, calls, move);
            && h'.pending == Wire(Packet(SYNC, motor.seqNo, CMD_MOTORS, 0, 0))
            && !h'.track.next.validRight && Host.CommitsOf(h, calls, move) == []
  {
    var es := Host.Polls(h.pending, Host.Acknowledged(calls));
    MotorExchange(motor, r);
    assert WireAll([]) == [];
    AnswerOverReads(h, [], calls, Exchange(motor, r), move);
    Odometry.NoCommitWithoutReading(h.track, es, move, 0xB6);
    Odometry.NeverCommitsNothing(h.track, es, move);
  }

  /** The mixing does occur: one read of a poll's whole answer pairs the former poll's right count with
      the new left count and infrared readings. */
  lemma {:induction false} OneReadMixes(h: Host.HostState, m: byte, r0: Readings, a: Answered,
                                        move: Odometry.Kinematics)
    requires Host.InRing(h) && h.pending == Wire(RightReply(m, r0)) && HeldOver(h.track.next, r0) && IsAnswered(a)
    requires |a.calls| == 1 && !a.calls[0].wouldBlock
    ensures Pairs(Host.AfterRead(h, a.calls[0], move).track.current, r0, a.readings, a.readings)
  {
    var es := Host.Polls(h.pending, Host.Acknowledged(a.calls));
    assert a.calls == [a.calls[0]];
    assert [a.calls[0]][1..] == [];
    AnswerBehindReply(h, m, r0, a, move);
    var k, j := PollAfterPoll(h, m, r0, a, move);
    PollsAtMost(h.pending, Host.Acknowledged(a.calls));
    assert |es| <= 1 && es[..k + 1] == es;
  }

  lemma {:induction false} PollsAtMost(pending: seq<byte>, rs: seq<Host.Read>)
    ensures |Host.Polls(pending, rs)| <= |rs|
    decreases |rs|
  {
    if rs == [] {
    } else {
      PollsAtMost(Keep(pending, rs[0].chunk), rs[1..]);
    }
  }

  /** And one byte read on its own first keeps a poll's readings together. */
  lemma OneByteKeepsTogether(h: Host.HostState, m: byte, r0: Readings, c: Host.Read, move: Odometry.Kinematics)
    requires Host.InRing(h) && h.pending == Wire(RightReply(m, r0)) && HeldOver(h.track.next, r0)
    requires h.track.next.validLeft && h.track.next.validIr
    requires |c.chunk| == 1 && !c.wouldBlock && c.sane
    ensures Pairs(Host.AfterRead(h, c, move).track.current, r0, r0, r0)
  {
    ReleasesFrame(RightReply(m, r0), c.chunk);
    Host.AcknowledgedRead(h, c, move);
    var n := h.track.next;
    assert [RightReply(m, r0)][1..] == [];
    assert Odometry.AbsorbAll(n, [RightReply(m, r0)], c.now) == Odometry.Absorb(n, RightReply(m, r0), c.now);
  }

  lemma ReleasesFrame(f: Packet, chunk: seq<byte>)
    requires f.sync == SYNC && |chunk| == 1
    ensures Serve(Wire(f), chunk) == [f]
  {
    var s := Wire(f) + chunk;
    assert DropToSync(s) == s && |s[FRAME_SIZE..]| == 1;
    assert Drained(s) == [PacketAt(s)] + Drained(s[FRAME_SIZE..]);
  }

  /** The microcontroller sends the high byte first, the host reads the low byte first: a count
      survives the link exactly when its two bytes are equal. */
  lemma TicksSurviveOnlyIfSymmetric(w: word)
    ensures ByteSwapped(w) == w <==> w / 256 == w % 256
  {}

  /** The bytes that answer a poll and a motor command: the command's own five, then the replies. */
  lemma AnswersOnTheLine(f: Packet, r: Readings)
    requires f.sync == SYNC
    ensures f.command == 0xB0 ==>
      WireAll(Exchange(f, r)) == [0xAA, f.seqNo, 0xB0, f.data0, f.data1]
                               + [0xAA, f.seqNo, 0xB1, IrBank(r), 0]
                               + [0xAA, f.seqNo, 0xB7, r.leftTicks / 256, r.leftTicks % 256]
                               + [0xAA, f.seqNo, 0xB6, r.rightTicks / 256, r.rightTicks % 256]
    ensures f.command == 0x01 ==>
      WireAll(Exchange(f, r)) == [0xAA, f.seqNo, 0x01, f.data0, f.data1] + [0xAA, f.seqNo, 0x01, 0, 0]
  {
    if f.command == 0xB0 {
      assert Exchange(f, r) == [f] + [SensorReply(f.seqNo, r)] + [LeftReply(f.seqNo, r)] + [RightReply(f.seqNo, r)];
      WireAllAppend([f] + [SensorReply(f.seqNo, r)] + [LeftReply(f.seqNo, r)], [RightReply(f.seqNo, r)]);
      WireAllAppend([f] + [SensorReply(f.seqNo, r)], [LeftReply(f.seqNo, r)]);
      WireAllAppend([f], [SensorReply(f.seqNo, r)]);
    } else if f.command == 0x01 {
      MotorExchange(f, r);
      WireAllAppend([f], [Packet(SYNC, f.seqNo, CMD_MOTORS, 0, 0)]);
      assert Exchange(f, r) == [f] + [Packet(SYNC, f.seqNo, CMD_MOTORS, 0, 0)];
    }
  }

  // ---------------------------------------------------------------- a request for one reading

  /** The state holds the reading the packet bears. */
  ghost predicate Files(n: Odometry.RobotState, q: Packet) {
    Odometry.Held(n, q.command) == Some(Odometry.Borne(q, q.command))
  }

  /** A direct request for one reading: its echo has the reply's command, and the host files the data
      bytes it sent itself as a valid reading until the reply comes. */
  lemma EchoIsFiled(n: Odometry.RobotState, f: Packet, r: Readings, now: uint32)
    requires f.sync == SYNC && f.command in {CMD_BATTERY, CMD_SENSOR, CMD_RIGHT_ENCODER, CMD_LEFT_ENCODER}
    ensures |Exchange(f, r)| == 2 && Exchange(f, r)[1].command == f.command
    ensures Files(Odometry.AbsorbAll(n, Exchange(f, r)[..1], now), f)
    ensures Files(Odometry.AbsorbAll(n, Exchange(f, r), now), Exchange(f, r)[1])
  {
    var ps := Exchange(f, r);
    assert ps[..1] == [f] && [] + [f] == [f] && ps == [f] + [ps[1]];
    Odometry.AbsorbAllSnoc(n, [], f, now);
    Odometry.AbsorbAllSnoc(n, [f], ps[1], now);
  }

  function Newer(p: Option<Packet>, q: Option<Packet>): Option<Packet> { if p.Some? then p else q }

  function Kind(p: Packet, command: int): Option<Packet> { if p.command == command then Some(p) else None }

  lemma ReadingOfTwo(a: Packet, b: Packet, command: int)
    ensures Odometry.Reading([a], command) == Kind(a, command)
    ensures Odometry.Reading([a, b], command) == Newer(Kind(b, command), Kind(a, command))
  {
    Odometry.ReadingSnoc([], a, command);
    Odometry.ReadingSnoc([a], b, command);
    assert [] + [a] == [a] && [a] + [b] == [a, b];
  }

  lemma ReadingOfFour(a: Packet, b: Packet, c: Packet, d: Packet, command: int)
    ensures Odometry.Reading([a, b, c, d], command)
         == Newer(Newer(Kind(d, command), Kind(c, command)), Newer(Kind(b, command), Kind(a, command)))
  {
    ReadingOfTwo(a, b, command);
    ReadingOfTwo(c, d, command);
    Odometry.ReadingAppend([a, b], [c, d], command);
    assert [a, b] + [c, d] == [a, b, c, d];
  }

  /** The latest reading of a kind in the answer to a command. */
  lemma ReadingInExchange(f: Packet, r: Readings, command: int)
    requires f.sync == SYNC && command in {CMD_BATTERY, CMD_SENSOR, CMD_RIGHT_ENCODER, CMD_LEFT_ENCODER}
    ensures var p := Odometry.Reading(Exchange(f, r), command);
            if f.command == command || (f.command == CMD_GET_SENSOR_DATA && command != CMD_BATTERY)
            then p == Some(if command == CMD_BATTERY then Packet(SYNC, f.seqNo, CMD_BATTERY, r.battery, 0)
                           else if command == CMD_SENSOR then SensorReply(f.seqNo, r)
                           else if command == CMD_RIGHT_ENCODER then RightReply(f.seqNo, r)
                           else LeftReply(f.seqNo, r))
            else p == None
  {
    var ps := Exchange(f, r);
    if |ps| == 4 {
      assert ps == [ps[0], ps[1], ps[2], ps[3]];
      ReadingOfFour(ps[0], ps[1], ps[2], ps[3], command);
    } else if |ps| == 2 {
      assert ps == [ps[0], ps[1]];
      ReadingOfTwo(ps[0], ps[1], command);
    } else {
      assert ps == [ps[0]];
      ReadingOfTwo(ps[0], ps[0], command);
    }
  }

  /** What the host knows after the whole answer to any command at all: the readings it asked for, as the
      board measured them in the pass that answered, the tick counts' bytes swapped, and nothing new of
      the others. */
  lemma ExchangeMeasures(n: Odometry.RobotState, f: Packet, r: Readings, now: uint32)
    requires f.sync == SYNC
    ensures var n', everything := Odometry.AbsorbAll(n, Exchange(f, r), now), f.command == 0xB0;
            && n'.battery == (if f.command == 0x02 then r.battery else n.battery)
            && n'.irBank == (if f.command == 0xB1 || everything then IrBank(r) else n.irBank)
            && n'.right == (if f.command == 0xB6 || everything then ByteSwapped(r.rightTicks) else n.right)
            && n'.left == (if f.command == 0xB7 || everything then ByteSwapped(r.leftTicks) else n.left)
            && n'.validBattery == (n.validBattery || f.command == 0x02)
            && n'.validIr == (n.validIr || f.command == 0xB1 || everything)
            && n'.validRight == (n.validRight || f.command == 0xB6 || everything)
            && n'.validLeft == (n.validLeft || f.command == 0xB7 || everything)
  {
    Odometry.EncodersAreLatest(n, Exchange(f, r), now);
    Odometry.SensorsAreLatest(n, Exchange(f, r), now);
    ReadingInExchange(f, r, CMD_BATTERY);
    ReadingInExchange(f, r, CMD_SENSOR);
    ReadingInExchange(f, r, CMD_RIGHT_ENCODER);
    ReadingInExchange(f, r, CMD_LEFT_ENCODER);
  }
}
