/** The host's end of the link: the singleton that reads the serial port, parses frames, tracks
    sequence numbers, and integrates the encoders. */
module Host {
  import opened Basics
  import opened Framing
  import opened HostBuffer
  import opened Odometry
  import SequenceNumbers

  /** The cell k places after cell i, which is (i + k) % RING_SIZE. */
  function Slot(i: nat, k: nat): (j: nat)
    requires i < RING_SIZE && k <= RING_SIZE
    ensures j < RING_SIZE
  {
    if i + k < RING_SIZE then i + k else i + k - RING_SIZE
  }

  /** How many cells lie from start up to end, which is (end - start + RING_SIZE) % RING_SIZE. */
  function Distance(start: nat, end: nat): (n: nat)
    requires start < RING_SIZE && end < RING_SIZE
    ensures n < RING_SIZE
  {
    if start <= end then end - start else end - start + RING_SIZE
  }

  lemma RingArithmeticIsModular(i: nat, k: nat)
    requires i < RING_SIZE && k <= RING_SIZE
    ensures Slot(i, k) == (i + k) % RING_SIZE
    ensures k < RING_SIZE ==> Distance(i, k) == (k - i + RING_SIZE) % RING_SIZE
  {}

  /** The count the source asks read() for is the number of cells up to the array's end, at least one. */
  lemma ReadStaysInside(end: nat)
    requires end < RING_SIZE
    ensures (RING_SIZE * 2 - end - 1) % RING_SIZE + 1 == RING_SIZE - end
  {}

  /** n bytes of a ring, starting at index start. */
  function Window(ring: seq<byte>, start: nat, n: nat): (w: seq<byte>)
    requires |ring| == RING_SIZE && start < RING_SIZE && n <= RING_SIZE
    ensures |w| == n
  {
    if start + n <= RING_SIZE then ring[start..start + n] else ring[start..] + ring[..start + n - RING_SIZE]
  }

  /** The ring's cells after a read of chunk at index end. */
  function Overlaid(ring: seq<byte>, end: nat, chunk: seq<byte>): (r: seq<byte>)
    requires |ring| == RING_SIZE && end + |chunk| <= RING_SIZE
    ensures |r| == RING_SIZE
  {
    ring[..end] + chunk + ring[end + |chunk|..]
  }

  /** Advancing the end index past a read appends the chunk, or wraps and forgets 80 bytes. */
  lemma ReadFillsWindow(ring: seq<byte>, start: nat, end: nat, chunk: seq<byte>)
    requires |ring| == RING_SIZE && start < RING_SIZE && end < RING_SIZE
    requires end + |chunk| <= RING_SIZE
    ensures Window(Overlaid(ring, end, chunk), start, Distance(start, Slot(end, |chunk|)))
         == Buffered(Window(ring, start, Distance(start, end)), chunk)
  {
    var n, n' := Distance(start, end), Distance(start, Slot(end, |chunk|));
    var before, after := Window(ring, start, n), Window(Overlaid(ring, end, chunk), start, n');
    if n + |chunk| < RING_SIZE {
      assert n' == n + |chunk|;
      forall k | 0 <= k < n' ensures after[k] == (before + chunk)[k] {
        assert k < n ==> before[k] == ring[Slot(start, k)];
      }
    } else {
      assert n' == n + |chunk| - RING_SIZE;
      forall k | 0 <= k < n' ensures after[k] == (before + chunk)[RING_SIZE..][k] {}
    }
  }

  /** What is pending after a read whose bytes are never acknowledged: they land in the free cells
      and, if there are too few of those, over the oldest pending bytes. */
  function Overwritten(pending: seq<byte>, chunk: seq<byte>): (r: seq<byte>)
    requires |pending| <= RING_SIZE && |chunk| <= RING_SIZE
    ensures |r| == |pending|
  {
    var excess := |pending| + |chunk| - RING_SIZE;
    if excess <= 0 then pending else chunk[|chunk| - excess..] + pending[excess..]
  }

  lemma ReadUnderWindow(ring: seq<byte>, start: nat, end: nat, chunk: seq<byte>)
    requires |ring| == RING_SIZE && start < RING_SIZE && end < RING_SIZE
    requires end + |chunk| <= RING_SIZE
    ensures Window(Overlaid(ring, end, chunk), start, Distance(start, end))
         == Overwritten(Window(ring, start, Distance(start, end)), chunk)
  {
    if start <= end {
      ReadBehind(ring, start, end, chunk);
    } else if end + |chunk| <= start {
      ReadBeside(ring, start, end, chunk);
    } else {
      ReadOverOldest(ring, start, end, chunk);
    }
  }

  lemma OverlaidUpTo(ring: seq<byte>, start: nat, end: nat, chunk: seq<byte>)
    requires |ring| == RING_SIZE && start <= end && end + |chunk| <= RING_SIZE
    ensures Overlaid(ring, end, chunk)[start..end] == ring[start..end]
  {}

  /** The pending bytes do not wrap around, and the read lands behind them. */
  lemma ReadBehind(ring: seq<byte>, start: nat, end: nat, chunk: seq<byte>)
    requires |ring| == RING_SIZE && start <= end < RING_SIZE && end + |chunk| <= RING_SIZE
    ensures Window(Overlaid(ring, end, chunk), start, Distance(start, end))
         == Overwritten(Window(ring, start, Distance(start, end)), chunk)
  {
    OverlaidUpTo(ring, start, end, chunk);
  }

  /** They wrap around, and the read stays in the gap. */
  lemma ReadBeside(ring: seq<byte>, start: nat, end: nat, chunk: seq<byte>)
    requires |ring| == RING_SIZE && end < start < RING_SIZE && end + |chunk| <= start
    ensures Window(Overlaid(ring, end, chunk), start, Distance(start, end))
         == Overwritten(Window(ring, start, Distance(start, end)), chunk)
  {
    var after := Overlaid(ring, end, chunk);
    WrappedWindow(ring, start, end);
    WrappedWindow(after, start, end);
    OverlaidUpTo(ring, 0, end, chunk);
    assert after[start..] == ring[start..];
  }

  lemma OverlaidFrom(ring: seq<byte>, start: nat, end: nat, chunk: seq<byte>)
    requires |ring| == RING_SIZE && end < start < end + |chunk| <= RING_SIZE
    ensures Overlaid(ring, end, chunk)[start..] == chunk[start - end..] + ring[end + |chunk|..]
  {}

  lemma OverwriteOldest(oldest: seq<byte>, newest: seq<byte>, chunk: seq<byte>, excess: nat)
    requires |oldest| + |newest| + |chunk| == RING_SIZE + excess && 0 < excess <= |oldest| && excess <= |chunk|
    ensures Overwritten(oldest + newest, chunk) == chunk[|chunk| - excess..] + oldest[excess..] + newest
  {
    assert (oldest + newest)[excess..] == oldest[excess..] + newest;
  }

  lemma WrappedWindow(ring: seq<byte>, start: nat, end: nat)
    requires |ring| == RING_SIZE && end < start < RING_SIZE
    ensures Window(ring, start, Distance(start, end)) == ring[start..] + ring[..end]
  {}

  /** The pending bytes wrap around, and the read reaches into the oldest of them. */
  lemma ReadOverOldest(ring: seq<byte>, start: nat, end: nat, chunk: seq<byte>)
    requires |ring| == RING_SIZE && end < start < end + |chunk| <= RING_SIZE
    requires start < RING_SIZE
    ensures Window(Overlaid(ring, end, chunk), start, Distance(start, end))
         == Overwritten(Window(ring, start, Distance(start, end)), chunk)
  {
    var after, excess := Overlaid(ring, end, chunk), end + |chunk| - start;
    OverlaidFrom(ring, start, end, chunk);
    WrappedWindow(ring, start, end);
    WrappedWindow(after, start, end);
    OverwriteOldest(ring[start..], ring[..end], chunk, excess);
    assert after[..end] == ring[..end];
    assert ring[start..][excess..] == ring[end + |chunk|..];
  }

  lemma WindowDrop(ring: seq<byte>, start: nat, n: nat, d: nat)
    requires |ring| == RING_SIZE && start < RING_SIZE && d <= n <= RING_SIZE
    ensures Window(ring, Slot(start, d), n - d) == Window(ring, start, n)[d..]
  {
    if start + n <= RING_SIZE {
      assert ring[start..start + n][d..] == ring[start + d..start + n];
    } else if start + d < RING_SIZE {
      assert (ring[start..] + ring[..start + n - RING_SIZE])[d..] == ring[start + d..] + ring[..start + n - RING_SIZE];
    } else {
      var e := start + d - RING_SIZE;
      assert (ring[start..] + ring[..start + n - RING_SIZE])[d..] == ring[..start + n - RING_SIZE][e..];
      assert ring[..start + n - RING_SIZE][e..] == ring[e..start + n - RING_SIZE];
    }
  }

  /** What the rest of the program can observe of the host's end of the link. */
  datatype HostState = HostState(pending: seq<byte>, track: Track, numbers: SequenceNumbers.Table)

  function Served(h: HostState, t: seq<byte>, now: uint32): HostState
    requires h.numbers.Valid() && |t| >= FRAME_SIZE
  {
    var p := PacketAt(t);
    HostState(t[FRAME_SIZE..], h.track.(next := Absorb(h.track.next, p, now)), SequenceNumbers.Store(h.numbers, p))
  }

  /** The drain loop, turn by turn. */
  function DrainLoop(h: HostState, now: uint32): HostState
    requires h.numbers.Valid()
    decreases |h.pending|
  {
    if |h.pending| <= FRAME_SIZE then h else
      var t := DropToSync(h.pending);
      if |t| <= FRAME_SIZE then h.(pending := t) else DrainLoop(Served(h, t, now), now)
  }

  /** The loop serves exactly the packets of Drained, in order, and keeps Leftover. */
  lemma {:induction false} DrainLoopServesDrained(h: HostState, now: uint32)
    requires h.numbers.Valid()
    ensures var ps := Drained(h.pending);
            DrainLoop(h, now) == HostState(Leftover(h.pending), Collected(h.track, ps, now),
                                           SequenceNumbers.StoreAll(h.numbers, ps))
    decreases |h.pending|
  {
    var t := DropToSync(h.pending);
    if |h.pending| <= FRAME_SIZE || |t| <= FRAME_SIZE {
    } else {
      DrainLoopServesDrained(Served(h, t, now), now);
    }
  }

  function Received(h: HostState, chunk: seq<byte>, now: uint32, sane: bool, move: Kinematics): HostState
    requires h.numbers.Valid()
  {
    var d := DrainLoop(h.(pending := Buffered(h.pending, chunk)), now);
    d.(track := Settle(d.track, sane, move))
  }

  /** A call of recv that reads bytes serves Serve's packets to all three consumers. */
  lemma ReceivedIsServe(h: HostState, chunk: seq<byte>, now: uint32, sane: bool, move: Kinematics)
    requires h.numbers.Valid() && chunk != []
    ensures var ps := Serve(h.pending, chunk);
            Received(h, chunk, now, sane, move)
              == HostState(Keep(h.pending, chunk), Step(h.track, Poll(ps, now, sane), move),
                           SequenceNumbers.StoreAll(h.numbers, ps))
  {
    DrainLoopServesDrained(h.(pending := Buffered(h.pending, chunk)), now);
  }

  lemma WindowAt(ring: seq<byte>, start: nat, n: nat, k: nat)
    requires |ring| == RING_SIZE && start < RING_SIZE && k < n <= RING_SIZE
    ensures Window(ring, start, n)[k] == ring[Slot(start, k)]
  {}

  /** The five bytes packetize picks out of the ring are the first five pending ones. */
  lemma FirstFive(ring: seq<byte>, start: nat, n: nat)
    requires |ring| == RING_SIZE && start < RING_SIZE && FRAME_SIZE <= n <= RING_SIZE
    ensures PacketAt(Window(ring, start, n)) == PacketIn(ring, start)
  {
    WindowAt(ring, start, n, 0);
    WindowAt(ring, start, n, 1);
    WindowAt(ring, start, n, 2);
    WindowAt(ring, start, n, 3);
    WindowAt(ring, start, n, 4);
  }

  function PacketIn(ring: seq<byte>, start: nat): Packet
    requires |ring| == RING_SIZE && start < RING_SIZE
  {
    Packet(ring[Slot(start, 0)], ring[Slot(start, 1)], ring[Slot(start, 2)], ring[Slot(start, 3)], ring[Slot(start, 4)])
  }

  // ---------------------------------------------------------------- runs of recv

  /** What one read() can bring. */
  type Chunk = c: seq<byte> | |c| <= RING_SIZE

  /** One call of recv: what read() put into the ring, and whether errno says it would block. */
  datatype Read = Read(chunk: Chunk, wouldBlock: bool, now: uint32, sane: bool)

  ghost predicate InRing(h: HostState) {
    h.numbers.Valid() && |h.pending| <= RING_SIZE
  }

  function AfterRead(h: HostState, r: Read, move: Kinematics): (h': HostState)
    requires InRing(h)
    ensures InRing(h')
  {
    if r.wouldBlock || r.chunk == [] then h.(pending := Overwritten(h.pending, r.chunk)) else
      ReceivedIsServe(h, r.chunk, r.now, r.sane, move);
      Received(h, r.chunk, r.now, r.sane, move)
  }

  function AfterReads(h: HostState, rs: seq<Read>, move: Kinematics): (h': HostState)
    requires InRing(h)
    ensures InRing(h')
    decreases |rs|
  {
    if rs == [] then h else AfterReads(AfterRead(h, rs[0], move), rs[1..], move)
  }

  /** The reads whose bytes recv acknowledges. */
  function Acknowledged(rs: seq<Read>): (a: seq<Read>)
    ensures forall r :: r in a ==> r in rs && !r.wouldBlock
  {
    if rs == [] then [] else (if rs[0].wouldBlock then [] else [rs[0]]) + Acknowledged(rs[1..])
  }

  function Chunks(rs: seq<Read>): seq<seq<byte>> {
    if rs == [] then [] else [rs[0].chunk] + Chunks(rs[1..])
  }

  /** The bytes that are not acknowledged find room beside the pending ones. */
  ghost predicate RoomBeside(pending: seq<byte>, rs: seq<Read>)
    decreases |rs|
  {
    rs != [] ==>
      if rs[0].wouldBlock then |pending| + |rs[0].chunk| <= RING_SIZE && RoomBeside(pending, rs[1..])
      else RoomBeside(Keep(pending, rs[0].chunk), rs[1..])
  }

  lemma {:induction false} ChunksAreShort(rs: seq<Read>)
    requires forall r :: r in rs ==> |r.chunk| <= 74
    ensures forall c :: c in Chunks(rs) ==> |c| <= 74
  {
    if rs == [] {
    } else {
      assert rs[0] in rs;
      ChunksAreShort(rs[1..]);
    }
  }

  /** Reads of at most 74 bytes need no further condition. */
  lemma {:induction false} ShortReadsHaveRoom(pending: seq<byte>, rs: seq<Read>)
    requires |pending| <= FRAME_SIZE && forall r :: r in rs ==> |r.chunk| <= 74
    ensures RoomBeside(pending, rs) && Fits(pending, Chunks(Acknowledged(rs)))
    decreases |rs|
  {
    ChunksAreShort(Acknowledged(rs));
    ShortReadsFit(pending, Chunks(Acknowledged(rs)));
    if rs == [] {
    } else {
      assert rs[0] in rs;
      ShortReadsHaveRoom(if rs[0].wouldBlock then pending else Keep(pending, rs[0].chunk), rs[1..]);
    }
  }

  /** Bytes that arrive with a call told it would block are lost: the run goes on as if neither they
      nor the call had ever been. */
  lemma {:induction false} BlockedReadsVanish(h: HostState, rs: seq<Read>, move: Kinematics)
    requires InRing(h)
    requires RoomBeside(h.pending, rs)
    ensures AfterReads(h, rs, move) == AfterReads(h, Acknowledged(rs), move)
    decreases |rs|
  {
    if rs == [] {
    } else {
      var next := AfterRead(h, rs[0], move);
      if rs[0].wouldBlock {
        assert next == h;
        assert [] + Acknowledged(rs[1..]) == Acknowledged(rs[1..]);
      } else {
        AcknowledgedRead(h, rs[0], move);
        assert Acknowledged(rs)[1..] == Acknowledged(rs[1..]);
      }
      BlockedReadsVanish(next, rs[1..], move);
    }
  }

  /** One acknowledged read, with or without bytes. */
  lemma AcknowledgedRead(h: HostState, r: Read, move: Kinematics)
    requires InRing(h) && !r.wouldBlock
    ensures var h' := AfterRead(h, r, move);
            && h'.pending == Keep(h.pending, r.chunk)
            && h'.numbers == SequenceNumbers.StoreAll(h.numbers, Serve(h.pending, r.chunk))
            && h'.track == (if r.chunk == [] then h.track
                            else Step(h.track, Poll(Serve(h.pending, r.chunk), r.now, r.sane), move))
  {
    if r.chunk != [] {
      ReceivedIsServe(h, r.chunk, r.now, r.sane, move);
    }
  }

  /** The polls the odometry sees: one per acknowledged read that brought bytes. */
  function Polls(pending: seq<byte>, rs: seq<Read>): (es: seq<Event>)
    ensures forall e :: e in es ==> e.Poll?
    decreases |rs|
  {
    if rs == [] then [] else
      var r := rs[0];
      (if r.chunk == [] then [] else [Poll(Serve(pending, r.chunk), r.now, r.sane)])
        + Polls(Keep(pending, r.chunk), rs[1..])
  }

  /** Over a whole run of calls, each sequence number ends up with the replies that the acknowledged
      bytes carry, however the stream was cut; the odometry makes one run of polls. */
  lemma {:induction false} ReadsServeTheStream(h: HostState, rs: seq<Read>, move: Kinematics)
    requires InRing(h) && |h.pending| <= FRAME_SIZE
    requires RoomBeside(h.pending, rs) && Fits(h.pending, Chunks(Acknowledged(rs)))
    ensures var h', heard := AfterReads(h, rs, move), Acknowledged(rs);
            && h'.pending == KeepAll(h.pending, Chunks(heard))
            && h'.numbers == SequenceNumbers.StoreAll(h.numbers, Drained(h.pending + Flatten(Chunks(heard))))
            && h'.track == Run(h.track, Polls(h.pending, heard), move)
  {
    BlockedReadsVanish(h, rs, move);
    ReadsServeAll(h, Acknowledged(rs), move);
    ChunkingIndependence(h.pending, Chunks(Acknowledged(rs)));
  }

  lemma {:induction false} ReadsServeAll(h: HostState, rs: seq<Read>, move: Kinematics)
    requires InRing(h) && forall r :: r in rs ==> !r.wouldBlock
    ensures var h' := AfterReads(h, rs, move);
            && h'.pending == KeepAll(h.pending, Chunks(rs))
            && h'.numbers == SequenceNumbers.StoreAll(h.numbers, ServeAll(h.pending, Chunks(rs)))
            && h'.track == Run(h.track, Polls(h.pending, rs), move)
    decreases |rs|
  {
    if rs == [] {
    } else {
      var r, rest := rs[0], rs[1..];
      var next := AfterRead(h, r, move);
      assert Chunks(rs)[0] == r.chunk && Chunks(rs)[1..] == Chunks(rest);
      AcknowledgedRead(h, r, move);
      ReadsServeAll(next, rest, move);
      SequenceNumbers.StoreAllAppend(h.numbers, Serve(h.pending, r.chunk), ServeAll(next.pending, Chunks(rest)));
      if r.chunk == [] {
        assert [] + Polls(next.pending, rest) == Polls(next.pending, rest);
      } else {
        RunCons(h.track, Poll(Serve(h.pending, r.chunk), r.now, r.sane), Polls(next.pending, rest), move);
      }
    }
  }

  lemma {:induction false} PacketsCons(e: Event, es: seq<Event>)
    ensures PacketsOf([e] + es) == (if e.Poll? then e.packets else []) + PacketsOf(es)
    decreases |es|
  {
    var all := [e] + es;
    if es == [] {
      assert all[..0] == [] && PacketsOf([]) == [];
    } else {
      assert all[..|es|] == [e] + es[..|es| - 1];
      PacketsCons(e, es[..|es| - 1]);
    }
  }

  /** The polls serve the odometry every packet of the stream, in order. */
  lemma {:induction false} PollsServeAll(pending: seq<byte>, rs: seq<Read>)
    ensures PacketsOf(Polls(pending, rs)) == ServeAll(pending, Chunks(rs))
    decreases |rs|
  {
    if rs == [] {
    } else {
      var r, next := rs[0], Keep(pending, rs[0].chunk);
      assert Chunks(rs)[0] == r.chunk && Chunks(rs)[1..] == Chunks(rs[1..]);
      PollsServeAll(next, rs[1..]);
      if r.chunk == [] {
        assert [] + Polls(next, rs[1..]) == Polls(next, rs[1..]);
      } else {
        PacketsCons(Poll(Serve(pending, r.chunk), r.now, r.sane), Polls(next, rs[1..]));
      }
    }
  }

  /** The calls of a run that commit a state, and the states they commit. */
  predicate CommitsAt(h: HostState, r: Read) {
    !r.wouldBlock && r.chunk != [] && StepCommits(h.track, Poll(Serve(h.pending, r.chunk), r.now, r.sane))
  }

  function CommitsOf(h: HostState, rs: seq<Read>, move: Kinematics): seq<RobotState>
    requires InRing(h)
    decreases |rs|
  {
    if rs == [] then [] else
      var next := AfterRead(h, rs[0], move);
      (if CommitsAt(h, rs[0]) then [next.track.current] else []) + CommitsOf(next, rs[1..], move)
  }

  lemma {:induction false} ReadsAppend(h: HostState, a: seq<Read>, b: seq<Read>, move: Kinematics)
    requires InRing(h)
    ensures AfterReads(h, a + b, move) == AfterReads(AfterReads(h, a, move), b, move)
    ensures CommitsOf(h, a + b, move) == CommitsOf(h, a, move) + CommitsOf(AfterReads(h, a, move), b, move)
    decreases |a|
  {
    if a == [] {
      assert a + b == b;
    } else {
      var next := AfterRead(h, a[0], move);
      var here := if CommitsAt(h, a[0]) then [next.track.current] else [];
      assert (a + b)[0] == a[0] && (a + b)[1..] == a[1..] + b;
      ReadsAppend(next, a[1..], b, move);
      assert CommitsOf(h, a + b, move) == here + CommitsOf(next, a[1..] + b, move);
    }
  }

  /** They are the commits of the odometry's run of polls. */
  lemma {:induction false} CommitsAreCommittals(h: HostState, rs: seq<Read>, move: Kinematics)
    requires InRing(h)
    requires RoomBeside(h.pending, rs)
    ensures CommitsOf(h, rs, move) == Committals(h.track, Polls(h.pending, Acknowledged(rs)), move)
    decreases |rs|
  {
    if rs == [] {
    } else {
      var r, rest := rs[0], rs[1..];
      var next := AfterRead(h, r, move);
      if r.wouldBlock {
        assert next == h;
        CommitsAreCommittals(h, rest, move);
        assert [] + Acknowledged(rest) == Acknowledged(rest);
      } else {
        AcknowledgedRead(h, r, move);
        CommitsAreCommittals(next, rest, move);
        assert Acknowledged(rs) == [r] + Acknowledged(rest);
        PollsCons(h, r, Acknowledged(rest), move);
      }
    }
  }

  lemma PollsCons(h: HostState, r: Read, rest: seq<Read>, move: Kinematics)
    requires InRing(h) && !r.wouldBlock
    ensures var next := AfterRead(h, r, move);
            Committals(h.track, Polls(h.pending, [r] + rest), move)
              == (if CommitsAt(h, r) then [next.track.current] else [])
                 + Committals(next.track, Polls(next.pending, rest), move)
  {
    var next := AfterRead(h, r, move);
    var later := Polls(next.pending, rest);
    AcknowledgedRead(h, r, move);
    assert ([r] + rest)[1..] == rest;
    if r.chunk == [] {
      assert [] + later == later;
    } else {
      var e := Poll(Serve(h.pending, r.chunk), r.now, r.sane);
      RunAppend(h.track, [e], later, move);
      OneEvent(h.track, e, move);
    }
  }

  lemma OneEvent(t: Track, e: Event, move: Kinematics)
    ensures Run(t, [e], move) == Step(t, e, move)
    ensures Committals(t, [e], move) == if StepCommits(t, e) then [Step(t, e, move).current] else []
  {
    RunSnoc(t, [], e, move);
    assert [] + [e] == [e];
  }

  lemma {:induction false} SaneReadsAreSane(pending: seq<byte>, rs: seq<Read>)
    requires forall r :: r in rs ==> r.sane
    ensures Sane(Polls(pending, rs))
    decreases |rs|
  {
    if rs == [] {
    } else {
      assert rs[0] in rs;
      SaneReadsAreSane(Keep(pending, rs[0].chunk), rs[1..]);
    }
  }

  class Minotaur {
    const minosBuffer: array<byte>
    var minosBufferStart: int
    var minosBufferEnd: int
    var connected: bool
    var minosSeq: byte
    const commandLocks: array<bool>
    const minosIncoming: array<Packet>
    var currentState: RobotState
    var nextState: RobotState
    var previousState: RobotState

    ghost predicate Valid()
      reads this
    {
      && minosBuffer.Length == RING_SIZE
      && 0 <= minosBufferStart < RING_SIZE
      && 0 <= minosBufferEnd < RING_SIZE
      && commandLocks.Length == SequenceNumbers.NUMBERS
      && minosIncoming.Length == SequenceNumbers.NUMBERS
    }

    function Occupied(): (n: nat)
      requires Valid()
      reads this
      ensures n < RING_SIZE
    {
      Distance(minosBufferStart, minosBufferEnd)
    }

    /** The bytes read and not yet consumed, oldest first. */
    ghost function Pending(): (s: seq<byte>)
      requires Valid()
      reads this, minosBuffer
      ensures |s| == Occupied()
    {
      Window(minosBuffer[..], minosBufferStart, Occupied())
    }

    ghost function Numbers(): SequenceNumbers.Table
      requires Valid()
      reads this, commandLocks, minosIncoming
    {
      SequenceNumbers.Table(minosSeq, commandLocks[..], minosIncoming[..])
    }

    ghost function Tracked(): Track
      reads this
    {
      Track(currentState, nextState, previousState)
    }

    ghost function Observed(): HostState
      requires Valid()
      reads this, minosBuffer, commandLocks, minosIncoming
    {
      HostState(Pending(), Tracked(), Numbers())
    }

    constructor (port: bool)
      ensures Valid() && fresh(minosBuffer) && fresh(commandLocks) && fresh(minosIncoming)
      ensures Pending() == [] && Tracked() == START && connected == port
      ensures SequenceNumbers.Unlocked(Numbers()) && minosSeq == 0
    {
      minosBuffer := new byte[RING_SIZE](_ => 0);
      minosBufferStart, minosBufferEnd := 0, 0;
      minosSeq, connected := 0, port;
      commandLocks := new bool[SequenceNumbers.NUMBERS](_ => false);
      minosIncoming := new Packet[SequenceNumbers.NUMBERS](_ => Packet(0, 0, 0, 0, 0));
      currentState, nextState, previousState := FRESH, FRESH, FRESH;
    }

    /** Increment the sequence number until it is free. */
    method NextSequence()
      requires Valid()
      requires SequenceNumbers.HasFree(commandLocks[..])
      modifies this`minosSeq
      ensures minosSeq == SequenceNumbers.NextFree(commandLocks[..], old(minosSeq)) && !commandLocks[minosSeq]
    {
      ghost var locked := commandLocks[..];
      ghost var last, fuel := minosSeq, SequenceNumbers.NUMBERS - 1;
      SequenceNumbers.NextFreeIsFirstFree(locked, last);
      minosSeq := (minosSeq + 1) % 256;
      while commandLocks[minosSeq]
        invariant fuel >= 0 && commandLocks[..] == locked
        invariant minosSeq == SequenceNumbers.Ahead(last, 1)
        invariant SequenceNumbers.Search(locked, last, fuel) == SequenceNumbers.NextFree(locked, old(minosSeq))
        decreases fuel
      {
        last, fuel := minosSeq, fuel - 1;
        minosSeq := (minosSeq + 1) % 256;
      }
    }

    /** Pick a number, take its lock if a reply is awaited, write the frame. None stands for the
        exception raised when the port is not open. */
    method SendPacket(command: byte, data: word, waitResponse: bool)
      returns (sent: Option<byte>, wire: seq<byte>)
      requires Valid()
      requires connected ==> SequenceNumbers.HasFree(commandLocks[..])
      modifies this`minosSeq, commandLocks
      ensures Valid()
      ensures !connected ==> sent == None && wire == [] && Numbers() == old(Numbers())
      ensures connected ==>
        && Numbers() == SequenceNumbers.Allocate(old(Numbers()), waitResponse)
        && sent == Some(minosSeq)
        && wire == [0xAA, minosSeq, command, data % 256, data / 256]
        && wire == Wire(Packet(SYNC, minosSeq, command, data % 256, data / 256))
    {
      if !connected {
        return None, [];
      }
      NextSequence();
      ghost var locked := commandLocks[..];
      if waitResponse {
        commandLocks[minosSeq] := true;
      }
      assert commandLocks[..] == locked[minosSeq := waitResponse];
      sent := Some(minosSeq);
      wire := [SYNC, minosSeq, command, data % 256, data / 256];
    }

    /** getpacket's lock call returns only once the number is free. */
    method GetPacket(n: byte) returns (p: Packet)
      requires Valid() && !commandLocks[n]
      ensures p == Numbers().incoming[n]
    {
      p := minosIncoming[n];
    }

    method DropOutOfSync()
      requires Valid()
      modifies this`minosBufferStart
      ensures Valid() && Pending() == DropToSync(old(Pending()))
    {
      while minosBuffer[minosBufferStart] != SYNC && minosBufferStart != minosBufferEnd
        invariant Valid()
        invariant DropToSync(Pending()) == DropToSync(old(Pending()))
        decreases Occupied()
      {
        Consume(1);
      }
      assert Pending() != [] ==> Pending()[0] == minosBuffer[minosBufferStart];
    }

    method ReadFrame() returns (ret: Packet)
      requires Valid()
      ensures ret == PacketIn(minosBuffer[..], minosBufferStart)
    {
      ret := Packet(
        minosBuffer[Slot(minosBufferStart, 0)],
        minosBuffer[Slot(minosBufferStart, 1)],
        minosBuffer[Slot(minosBufferStart, 2)],
        minosBuffer[Slot(minosBufferStart, 3)],
        minosBuffer[Slot(minosBufferStart, 4)]);
    }

    method Consume(n: nat)
      requires Valid() && n <= Occupied()
      modifies this`minosBufferStart
      ensures Valid() && Pending() == old(Pending())[n..]
    {
      WindowDrop(minosBuffer[..], minosBufferStart, Occupied(), n);
      minosBufferStart := Slot(minosBufferStart, n);
    }

    /** Store a frame under its number, then free the number. */
    method StoreReply(ret: Packet)
      requires Valid()
      modifies commandLocks, minosIncoming
      ensures Numbers() == SequenceNumbers.Store(old(Numbers()), ret)
    {
      minosIncoming[ret.seqNo] := ret;
      commandLocks[ret.seqNo] := false;
    }

    /** Take the five oldest bytes as a frame; with fewer the source throws, here None. */
    method Packetize() returns (r: Option<Packet>)
      requires Valid()
      modifies this`minosBufferStart, commandLocks, minosIncoming
      ensures Valid()
      ensures |old(Pending())| < FRAME_SIZE ==>
        r == None && Pending() == old(Pending()) && Numbers() == old(Numbers())
      ensures |old(Pending())| >= FRAME_SIZE ==>
        && r == Some(PacketAt(old(Pending())))
        && Pending() == old(Pending())[FRAME_SIZE..]
        && Numbers() == SequenceNumbers.Store(old(Numbers()), r.value)
    {
      if Occupied() < FRAME_SIZE {
        return None;
      }
      FirstFive(minosBuffer[..], minosBufferStart, Occupied());
      var ret := ReadFrame();
      Consume(FRAME_SIZE);
      StoreReply(ret);
      r := Some(ret);
    }

    method Dispatch(packet: Packet, now: uint32)
      modifies this`nextState
      ensures nextState == Absorb(old(nextState), packet, now)
    {
      match packet.command {
        case 0x02 | 0x03 | 0xB1 | 0xB6 | 0xB7 =>
          if !nextState.validTs {
            nextState := nextState.(timestamp := now, validTs := true);
          }
        case _ =>
      }
      match packet.command {
        case 0x02 => nextState := nextState.(battery := packet.data0, validBattery := true);
        case 0xB1 => nextState := nextState.(irBank := packet.data0, validIr := true);
        case 0xB6 => nextState := nextState.(right := Word(packet), validRight := true);
        case 0xB7 => nextState := nextState.(left := Word(packet), validLeft := true);
        case _ =>
      }
    }

    /** The two encoder differences, unwrapped. */
    method Differences() returns (leftDiff: int, rightDiff: int)
      ensures Motion(leftDiff, rightDiff) == MotionOf(currentState, nextState)
    {
      leftDiff, rightDiff := 0, 0;
      if currentState.validTs {
        leftDiff := nextState.left - currentState.left;
        rightDiff := nextState.right - currentState.right;
      }
      if rightDiff > 32768 {
        rightDiff := rightDiff - 65536;
      } else if rightDiff < -32768 {
        rightDiff := rightDiff + 65536;
      }
      if leftDiff > 32768 {
        leftDiff := leftDiff - 65536;
      } else if leftDiff < -32768 {
        leftDiff := leftDiff + 65536;
      }
    }

    method CommitIfComplete(sane: bool, move: Kinematics)
      modifies this`currentState, this`nextState, this`previousState
      ensures Tracked() == Settle(old(Tracked()), sane, move)
    {
      if nextState.validLeft && nextState.validRight && nextState.validIr {
        var leftDiff, rightDiff := Differences();
        if sane || !currentState.validPos {
          nextState := nextState.(pose := move(currentState.pose, Motion(leftDiff, rightDiff)), validPos := true);
        } else {
          nextState := nextState.(validPos := false);
        }
        if nextState.validPos {
          previousState := currentState;
          currentState := nextState;
          nextState := FRESH;
        }
      }
    }

    /** One turn of the drain loop: skip noise, then serve a packet if more than five bytes remain. */
    method ServeOne(now: uint32) returns (packet: Option<Packet>)
      requires Valid() && Occupied() > FRAME_SIZE
      modifies this`minosBufferStart, this`nextState, commandLocks, minosIncoming
      ensures Valid()
      ensures var t := DropToSync(old(Pending()));
              if |t| <= FRAME_SIZE
              then packet == None && Observed() == old(Observed()).(pending := t)
              else packet == Some(PacketAt(t)) && Observed() == Served(old(Observed()), t, now)
    {
      DropOutOfSync();
      packet := None;
      if Occupied() > FRAME_SIZE {
        packet := Packetize();
        Dispatch(packet.value, now);
      }
    }

    /** The drain loop of recv. */
    method Drain(now: uint32) returns (served: bool)
      requires Valid()
      modifies this`minosBufferStart, this`nextState, commandLocks, minosIncoming
      ensures Valid()
      ensures Observed() == DrainLoop(old(Observed()), now)
      ensures served == (Drained(old(Pending())) != [])
    {
      served := false;
      while Occupied() > FRAME_SIZE
        invariant Valid()
        invariant DrainLoop(Observed(), now) == DrainLoop(old(Observed()), now)
        invariant (served || Drained(Pending()) != []) == (Drained(old(Pending())) != [])
        decreases Occupied()
      {
        var packet := ServeOne(now);
        if packet.Some? {
          served := true;
        }
      }
    }

    /** What would be pending if the end index stood at a given cell. */
    ghost function PendingUpTo(end: nat): seq<byte>
      requires Valid() && end < RING_SIZE
      reads this, minosBuffer
    {
      Window(minosBuffer[..], minosBufferStart, Distance(minosBufferStart, end))
    }

    /** Advance the end index past the bytes read, then serve and settle. */
    method Accept(n: nat, now: uint32, sane: bool, move: Kinematics) returns (served: bool)
      requires Valid() && minosBufferEnd + n <= RING_SIZE
      modifies this`minosBufferStart, this`minosBufferEnd, commandLocks, minosIncoming
      modifies this`currentState, this`nextState, this`previousState
      ensures Valid()
      ensures var h := DrainLoop(old(Observed()).(pending := old(PendingUpTo(Slot(minosBufferEnd, n)))), now);
              Observed() == h.(track := Settle(h.track, sane, move))
      ensures served == (Drained(old(PendingUpTo(Slot(minosBufferEnd, n)))) != [])
    {
      minosBufferEnd := Slot(minosBufferEnd, n);
      served := Drain(now);
      CommitIfComplete(sane, move);
    }

    /** read(): the kernel copies the chunk to the end index, never past the array's last cell. */
    method Read(chunk: seq<byte>)
      requires Valid() && minosBufferEnd + |chunk| <= RING_SIZE
      modifies minosBuffer
      ensures Valid() && Pending() == Overwritten(old(Pending()), chunk)
      ensures PendingUpTo(Slot(minosBufferEnd, |chunk|)) == Buffered(old(Pending()), chunk)
    {
      ghost var ring := minosBuffer[..];
      forall k | 0 <= k < |chunk| {
        minosBuffer[minosBufferEnd + k] := chunk[k];
      }
      assert minosBuffer[..] == Overlaid(ring, minosBufferEnd, chunk);
      ReadFillsWindow(ring, minosBufferStart, minosBufferEnd, chunk);
      ReadUnderWindow(ring, minosBufferStart, minosBufferEnd, chunk);
    }

    /** The camera may correct the pose of an older state, and nothing else of it. */
    method SuggestState(sugg: RobotState)
      modifies this`currentState
      ensures forall move: Kinematics {:trigger Step(old(Tracked()), Suggest(sugg), move)} ::
        Tracked() == Step(old(Tracked()), Suggest(sugg), move)
    {
      if sugg.timestamp > currentState.timestamp && sugg.validPos {
        currentState := currentState.(pose := sugg.pose);
      }
    }

    /** One call of recv. The chunk is what read() put into the ring, empty on end of file or error;
        wouldBlock is errno's verdict, which is looked at even when bytes were read. */
    method Recv(chunk: seq<byte>, wouldBlock: bool, now: uint32, sane: bool, move: Kinematics)
      returns (served: bool)
      requires Valid() && minosBufferEnd + |chunk| <= RING_SIZE
      modifies this`minosBufferStart, this`minosBufferEnd, minosBuffer, commandLocks, minosIncoming
      modifies this`currentState, this`nextState, this`previousState
      ensures Valid()
      ensures wouldBlock || chunk == [] ==>
        !served && Observed() == old(Observed()).(pending := Overwritten(old(Pending()), chunk))
      ensures !wouldBlock && chunk != [] ==>
        && served == (Serve(old(Pending()), chunk) != [])
        && Observed() == Received(old(Observed()), chunk, now, sane, move)
    {
      Read(chunk);
      if wouldBlock || |chunk| <= 0 {
        return false;
      }
      served := Accept(|chunk|, now, sane, move);
    }
  }
}
