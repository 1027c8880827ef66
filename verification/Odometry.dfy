/** How the host collects partial sensor state, unwraps the 16-bit encoder counts, and commits. */
module Odometry {
  import opened Basics
  import opened Framing

  datatype Pose = Pose(x: real, y: real, orient: real)

  datatype RobotState = RobotState(
    timestamp: uint32, pose: Pose, left: word, right: word, irBank: byte, battery: byte,
    validTs: bool, validPos: bool, validLeft: bool, validRight: bool, validIr: bool, validBattery: bool)
  {
    predicate SensorsComplete() { validLeft && validRight && validIr }
  }

  const FRESH := RobotState(0, Pose(0.0, 0.0, 0.0), 0, 0, 0, 0, false, false, false, false, false, false)

  /** The two data bytes read as the host's little-endian 16-bit integer. */
  function Word(p: Packet): word { p.data0 + 256 * p.data1 }

  // ---------------------------------------------------------------- collecting packets

  /** The first packet of a kind that stamps gives the state under construction its time. */
  function Stamp(n: RobotState, p: Packet, now: uint32): RobotState {
    if p.command in {0x02, 0x03, 0xB1, 0xB6, 0xB7} && !n.validTs
    then n.(timestamp := now, validTs := true) else n
  }

  /** A reading goes into its own field and makes it valid. */
  function Record(n: RobotState, p: Packet): RobotState {
    n.(battery := if p.command == 0x02 then p.data0 else n.battery,
       irBank := if p.command == 0xB1 then p.data0 else n.irBank,
       right := if p.command == 0xB6 then Word(p) else n.right,
       left := if p.command == 0xB7 then Word(p) else n.left,
       validBattery := n.validBattery || p.command == 0x02,
       validIr := n.validIr || p.command == 0xB1,
       validRight := n.validRight || p.command == 0xB6,
       validLeft := n.validLeft || p.command == 0xB7)
  }

  function Absorb(n: RobotState, p: Packet, now: uint32): RobotState {
    Record(Stamp(n, p, now), p)
  }

  function AbsorbAll(n: RobotState, ps: seq<Packet>, now: uint32): RobotState
    decreases |ps|
  {
    if ps == [] then n else AbsorbAll(Absorb(n, ps[0], now), ps[1..], now)
  }

  lemma {:induction false} AbsorbAllSnoc(n: RobotState, ps: seq<Packet>, p: Packet, now: uint32)
    ensures AbsorbAll(n, ps + [p], now) == Absorb(AbsorbAll(n, ps, now), p, now)
    decreases |ps|
  {
    if ps == [] {
      assert AbsorbAll(Absorb(n, p, now), ([] + [p])[1..], now) == Absorb(n, p, now);
    } else {
      assert (ps + [p])[1..] == ps[1..] + [p];
      AbsorbAllSnoc(Absorb(n, ps[0], now), ps[1..], p, now);
    }
  }

  /** The last of the packets with one of the given commands. */
  function Latest(ps: seq<Packet>, commands: set<int>): Option<Packet>
    decreases |ps|
  {
    if ps == [] then None
    else if ps[|ps| - 1].command in commands then Some(ps[|ps| - 1])
    else Latest(ps[..|ps| - 1], commands)
  }

  function Reading(ps: seq<Packet>, command: int): Option<Packet> { Latest(ps, {command}) }

  const STAMPED := {0x02, 0x03, 0xB1, 0xB6, 0xB7}

  lemma AbsorbOne(n: RobotState, ps: seq<Packet>, now: uint32)
    requires ps != []
    ensures AbsorbAll(n, ps, now) == Absorb(AbsorbAll(n, ps[..|ps| - 1], now), ps[|ps| - 1], now)
  {
    assert ps == ps[..|ps| - 1] + [ps[|ps| - 1]];
    AbsorbAllSnoc(n, ps[..|ps| - 1], ps[|ps| - 1], now);
  }

  /** Whatever else arrives in between, a state holds the latest reading of each kind and is valid in
      it once one arrived. */
  lemma {:induction false} EncodersAreLatest(n: RobotState, ps: seq<Packet>, now: uint32)
    ensures var n', left, right := AbsorbAll(n, ps, now), Reading(ps, 0xB7), Reading(ps, 0xB6);
            && n'.left == (if left.Some? then Word(left.value) else n.left)
            && n'.right == (if right.Some? then Word(right.value) else n.right)
            && n'.validLeft == (n.validLeft || left.Some?) && n'.validRight == (n.validRight || right.Some?)
    decreases |ps|
  {
    if ps == [] {
    } else {
      var init := ps[..|ps| - 1];
      AbsorbOne(n, ps, now);
      EncodersAreLatest(n, init, now);
    }
  }

  lemma {:induction false} SensorsAreLatest(n: RobotState, ps: seq<Packet>, now: uint32)
    ensures var n', ir, battery := AbsorbAll(n, ps, now), Reading(ps, 0xB1), Reading(ps, 0x02);
            && n'.irBank == (if ir.Some? then ir.value.data0 else n.irBank)
            && n'.battery == (if battery.Some? then battery.value.data0 else n.battery)
            && n'.validIr == (n.validIr || ir.Some?) && n'.validBattery == (n.validBattery || battery.Some?)
    decreases |ps|
  {
    if ps == [] {
    } else {
      var init := ps[..|ps| - 1];
      AbsorbOne(n, ps, now);
      SensorsAreLatest(n, init, now);
    }
  }

  /** The state carries the time of the first packet of a kind that stamps: the four readings, and the
      echo of 0x03, which bears none. */
  lemma {:induction false} StampIsFirst(n: RobotState, ps: seq<Packet>, now: uint32)
    ensures var n', any := AbsorbAll(n, ps, now), Latest(ps, STAMPED);
            && n'.validTs == (n.validTs || any.Some?)
            && n'.timestamp == (if !n.validTs && any.Some? then now else n.timestamp)
            && n'.pose == n.pose && n'.validPos == n.validPos
    decreases |ps|
  {
    if ps == [] {
    } else {
      var init := ps[..|ps| - 1];
      AbsorbOne(n, ps, now);
      StampIsFirst(n, init, now);
    }
  }

  /** The packets of one call, with what the clock shows at each of them. */
  function AbsorbTimed(n: RobotState, ps: seq<Packet>, clock: seq<uint32>): RobotState
    requires |ps| == |clock|
    decreases |ps|
  {
    if ps == [] then n else AbsorbTimed(Absorb(n, ps[0], clock[0]), ps[1..], clock[1..])
  }

  lemma {:induction false} StampedIgnoresClock(n: RobotState, ps: seq<Packet>, clock: seq<uint32>, now: uint32)
    requires n.validTs && |ps| == |clock|
    ensures AbsorbTimed(n, ps, clock) == AbsorbAll(n, ps, now)
    decreases |ps|
  {
    if ps == [] {
    } else {
      StampedIgnoresClock(Absorb(n, ps[0], now), ps[1..], clock[1..], now);
    }
  }

  /** The clock is read at a packet, but at most once in a call, so one value stands for the call. */
  lemma {:induction false} OneClockReading(n: RobotState, ps: seq<Packet>, clock: seq<uint32>) returns (now: uint32)
    requires |ps| == |clock|
    ensures AbsorbTimed(n, ps, clock) == AbsorbAll(n, ps, now)
    ensures ps != [] ==> now in clock
    decreases |ps|
  {
    if ps == [] {
      now := 0;
    } else if n.validTs || ps[0].command in STAMPED {
      now := clock[0];
      StampedIgnoresClock(Absorb(n, ps[0], now), ps[1..], clock[1..], now);
    } else if |ps| == 1 {
      now := clock[0];
    } else {
      now := OneClockReading(Absorb(n, ps[0], clock[0]), ps[1..], clock[1..]);
    }
  }

  // ---------------------------------------------------------------- unwrapping and committing

  /** The whole counter turns to add to a difference of counts. */
  function Turns(d: int): int {
    if d > 32768 then -1 else if d < -32768 then 1 else 0
  }

  /** A difference of two 16-bit counts, read as a movement of at most half a turn of the counter. */
  function Unwrap(d: int): (u: int)
    requires -WORD < d < WORD
    ensures -32768 <= u <= 32768 && u == d + WORD * Turns(d)
  {
    if d > 32768 then d - WORD else if d < -32768 then d + WORD else d
  }

  datatype Motion = Motion(left: int, right: int)

  function MotionOf(current: RobotState, next: RobotState): Motion {
    if current.validTs then Motion(Unwrap(next.left - current.left), Unwrap(next.right - current.right))
    else Motion(0, 0)
  }

  /** The pose update: any function of the old pose and the two tick differences. */
  type Kinematics = (Pose, Motion) -> Pose

  datatype Track = Track(current: RobotState, next: RobotState, previous: RobotState)

  const START := Track(FRESH, FRESH, FRESH)

  predicate Commits(t: Track, sane: bool) {
    t.next.SensorsComplete() && (sane || !t.current.validPos)
  }

  /** The end of recv: commit a complete state that passes the sanity check, else keep collecting. */
  function Settle(t: Track, sane: bool, move: Kinematics): Track {
    if Commits(t, sane) then
      Track(t.next.(pose := move(t.current.pose, MotionOf(t.current, t.next)), validPos := true), FRESH, t.current)
    else if t.next.SensorsComplete() then t.(next := t.next.(validPos := false))
    else t
  }

  datatype Event =
    | Poll(packets: seq<Packet>, now: uint32, sane: bool)
    | Suggest(state: RobotState)

  function Collected(t: Track, packets: seq<Packet>, now: uint32): Track {
    t.(next := AbsorbAll(t.next, packets, now))
  }

  function Suggested(current: RobotState, s: RobotState): RobotState {
    if s.timestamp > current.timestamp && s.validPos then current.(pose := s.pose) else current
  }

  function Step(t: Track, e: Event, move: Kinematics): Track {
    match e
    case Poll(packets, now, sane) => Settle(Collected(t, packets, now), sane, move)
    case Suggest(s) => t.(current := Suggested(t.current, s))
  }

  predicate StepCommits(t: Track, e: Event) {
    e.Poll? && Commits(Collected(t, e.packets, e.now), e.sane)
  }

  function Run(t: Track, es: seq<Event>, move: Kinematics): Track
    decreases |es|
  {
    if es == [] then t else Step(Run(t, es[..|es| - 1], move), es[|es| - 1], move)
  }

  lemma {:induction false} RunCons(t: Track, e: Event, es: seq<Event>, move: Kinematics)
    ensures Run(t, [e] + es, move) == Run(Step(t, e, move), es, move)
    decreases |es|
  {
    var all := [e] + es;
    if es == [] {
      assert all[..0] == [];
    } else {
      assert all[..|es|] == [e] + es[..|es| - 1];
      RunCons(t, e, es[..|es| - 1], move);
    }
  }

  // ---------------------------------------------------------------- the commit invariant

  ghost predicate NextOk(n: RobotState) {
    && !n.validPos
    && (n.validLeft || n.validRight || n.validIr || n.validBattery ==> n.validTs)
  }

  ghost predicate Committed(s: RobotState) {
    s == s.(validTs := true, validPos := true, validLeft := true, validRight := true, validIr := true)
  }

  /** Never committed: fresh but for a pose the camera may have suggested. */
  ghost predicate Untouched(s: RobotState) {
    s == FRESH.(pose := s.pose)
  }

  ghost predicate Invariant(t: Track) {
    && NextOk(t.next)
    && (Untouched(t.current) || Committed(t.current))
    && (Untouched(t.previous) || Committed(t.previous))
    && (Committed(t.previous) ==> Committed(t.current))
  }

  lemma {:induction false} AbsorbKeeps(n: RobotState, ps: seq<Packet>, now: uint32)
    requires NextOk(n)
    ensures NextOk(AbsorbAll(n, ps, now))
    decreases |ps|
  {
    if ps == [] {
    } else {
      AbsorbKeeps(Absorb(n, ps[0], now), ps[1..], now);
    }
  }

  /** Over every run from power-up, however packets, clocks, sanity verdicts and suggestions fall. */
  lemma {:induction false} EveryRunKeepsInvariant(es: seq<Event>, move: Kinematics)
    ensures Invariant(Run(START, es, move))
    decreases |es|
  {
    if es == [] {
    } else {
      EveryRunKeepsInvariant(es[..|es| - 1], move);
      var t, e := Run(START, es[..|es| - 1], move), es[|es| - 1];
      if e.Poll? {
        AbsorbKeeps(t.next, e.packets, e.now);
      }
    }
  }

  /** A commit moves the whole collected state into current and the replaced state into previous;
      anything else leaves previous alone and changes nothing of current but the pose. */
  lemma OnlyCommitsReplaceTheState(t: Track, e: Event, move: Kinematics)
    requires Invariant(t)
    ensures var t' := Step(t, e, move);
            if StepCommits(t, e)
            then t'.previous == t.current && t'.next == FRESH && Committed(t'.current)
                 && t'.current == AbsorbAll(t.next, e.packets, e.now).(pose := t'.current.pose, validPos := true)
            else t'.previous == t.previous && t'.current == t.current.(pose := t'.current.pose)
                 && (e.Suggest? ==> t'.next == t.next)
                 && (e.Poll? ==> t'.current == t.current && t'.next == AbsorbAll(t.next, e.packets, e.now))
  {
    if e.Poll? {
      AbsorbKeeps(t.next, e.packets, e.now);
    }
  }

  // ---------------------------------------------------------------- what a commit waits for

  /** The packets a run's polls serve, in order. */
  function PacketsOf(es: seq<Event>): seq<Packet>
    decreases |es|
  {
    if es == [] then [] else
      PacketsOf(es[..|es| - 1]) + (if es[|es| - 1].Poll? then es[|es| - 1].packets else [])
  }

  /** One of the three readings a commit waits for is missing. */
  predicate Lacks(n: RobotState, command: int) {
    || (command == 0xB7 && !n.validLeft)
    || (command == 0xB6 && !n.validRight)
    || (command == 0xB1 && !n.validIr)
  }

  /** No event of the run commits. */
  ghost predicate NeverCommits(t: Track, es: seq<Event>, move: Kinematics)
    decreases |es|
  {
    es != [] ==>
      var init := es[..|es| - 1];
      NeverCommits(t, init, move) && !StepCommits(Run(t, init, move), es[|es| - 1])
  }

  lemma {:induction false} StillLacks(n: RobotState, ps: seq<Packet>, now: uint32, command: int)
    requires Lacks(n, command) && forall p :: p in ps ==> p.command != command
    ensures Lacks(AbsorbAll(n, ps, now), command)
    decreases |ps|
  {
    if ps == [] {
    } else {
      StillLacks(Absorb(n, ps[0], now), ps[1..], now, command);
    }
  }

  /** Until a missing reading arrives nothing is committed, however the other packets are spread over
      polls: the current state changes at most in its pose, and only where the camera suggests one. */
  lemma {:induction false} NoCommitWithoutReading(t: Track, es: seq<Event>, move: Kinematics, command: int)
    requires Lacks(t.next, command)
    requires forall p :: p in PacketsOf(es) ==> p.command != command
    ensures NeverCommits(t, es, move)
    ensures var t' := Run(t, es, move);
            && Lacks(t'.next, command) && t'.previous == t.previous
            && t'.current == t.current.(pose := t'.current.pose)
            && ((forall e :: e in es ==> e.Poll?) ==> t'.current == t.current)
    decreases |es|
  {
    if es == [] {
    } else {
      var init, e := es[..|es| - 1], es[|es| - 1];
      NoCommitWithoutReading(t, init, move, command);
      if e.Poll? {
        StillLacks(Run(t, init, move).next, e.packets, e.now, command);
      }
    }
  }

  /** The same readings, perhaps stamped or placed differently. */
  ghost predicate SameReadings(a: RobotState, b: RobotState) {
    a == b.(timestamp := a.timestamp, pose := a.pose, validTs := a.validTs, validPos := a.validPos)
  }

  lemma StampKeepsReadings(n: RobotState, p: Packet, now: uint32)
    ensures SameReadings(Stamp(n, p, now), n)
  {}

  lemma RecordAgrees(a: RobotState, b: RobotState, p: Packet)
    requires SameReadings(a, b)
    ensures SameReadings(Record(a, p), Record(b, p))
  {}

  lemma AbsorbAgrees(a: RobotState, b: RobotState, p: Packet, now: uint32, later: uint32)
    requires SameReadings(a, b)
    ensures SameReadings(Absorb(a, p, now), Absorb(b, p, later))
  {
    StampKeepsReadings(a, p, now);
    StampKeepsReadings(b, p, later);
    RecordAgrees(Stamp(a, p, now), Stamp(b, p, later), p);
  }

  lemma {:induction false} AbsorbAllAgrees(a: RobotState, b: RobotState, ps: seq<Packet>, now: uint32, later: uint32)
    requires SameReadings(a, b)
    ensures SameReadings(AbsorbAll(a, ps, now), AbsorbAll(b, ps, later))
    decreases |ps|
  {
    if ps == [] {
    } else {
      AbsorbAgrees(a, b, ps[0], now, later);
      AbsorbAllAgrees(Absorb(a, ps[0], now), Absorb(b, ps[0], later), ps[1..], now, later);
    }
  }

  lemma {:induction false} AbsorbAllAppend(n: RobotState, ps: seq<Packet>, qs: seq<Packet>, now: uint32)
    ensures AbsorbAll(n, ps + qs, now) == AbsorbAll(AbsorbAll(n, ps, now), qs, now)
    decreases |ps|
  {
    if ps == [] {
      assert ps + qs == qs;
    } else {
      assert (ps + qs)[1..] == ps[1..] + qs;
      AbsorbAllAppend(Absorb(n, ps[0], now), ps[1..], qs, now);
    }
  }

  /** While nothing is committed the state under construction gathers the readings of all polls. */
  lemma {:induction false} PollsGather(t: Track, es: seq<Event>, move: Kinematics, now: uint32)
    requires NeverCommits(t, es, move)
    ensures SameReadings(Run(t, es, move).next, AbsorbAll(t.next, PacketsOf(es), now))
    decreases |es|
  {
    if es == [] {
    } else {
      var init, e := es[..|es| - 1], es[|es| - 1];
      PollsGather(t, init, move, now);
      if e.Poll? {
        AbsorbAllAppend(t.next, PacketsOf(init), e.packets, now);
        AbsorbAllAgrees(Run(t, init, move).next, AbsorbAll(t.next, PacketsOf(init), now), e.packets, e.now, now);
      } else {
        assert PacketsOf(es) == PacketsOf(init);
      }
    }
  }

  /** The clock of the first poll of the run that serves a packet that stamps. */
  function FirstStamp(es: seq<Event>): Option<uint32>
    decreases |es|
  {
    if es == [] then None else
      var e, before := es[|es| - 1], FirstStamp(es[..|es| - 1]);
      if before.None? && e.Poll? && Latest(e.packets, STAMPED).Some? then Some(e.now) else before
  }

  /** Until something is committed, rejections by the sanity check or not, the state under construction
      keeps the time of the first poll that stamped it. */
  lemma {:induction false} StampOverRuns(t: Track, es: seq<Event>, move: Kinematics)
    requires NeverCommits(t, es, move)
    ensures var n, first := Run(t, es, move).next, FirstStamp(es);
            && n.validTs == (t.next.validTs || first.Some?)
            && n.timestamp == (if !t.next.validTs && first.Some? then first.value else t.next.timestamp)
    decreases |es|
  {
    if es == [] {
    } else {
      var init, e := es[..|es| - 1], es[|es| - 1];
      StampOverRuns(t, init, move);
      if e.Poll? {
        StampIsFirst(Run(t, init, move).next, e.packets, e.now);
      }
    }
  }

  // ---------------------------------------------------------------- the states a run commits

  /** The states a run commits, in order. */
  function Committals(t: Track, es: seq<Event>, move: Kinematics): seq<RobotState>
    decreases |es|
  {
    if es == [] then [] else
      var init := es[..|es| - 1];
      var before := Run(t, init, move);
      Committals(t, init, move) +
        (if StepCommits(before, es[|es| - 1]) then [Step(before, es[|es| - 1], move).current] else [])
  }

  lemma RunSnoc(t: Track, es: seq<Event>, e: Event, move: Kinematics)
    ensures var before := Run(t, es, move);
            && Run(t, es + [e], move) == Step(before, e, move)
            && PacketsOf(es + [e]) == PacketsOf(es) + (if e.Poll? then e.packets else [])
            && Committals(t, es + [e], move)
               == Committals(t, es, move) + (if StepCommits(before, e) then [Step(before, e, move).current] else [])
            && NeverCommits(t, es + [e], move) == (NeverCommits(t, es, move) && !StepCommits(before, e))
  {
    assert (es + [e])[..|es + [e]| - 1] == es;
  }

  lemma {:induction false} RunAppend(t: Track, es: seq<Event>, fs: seq<Event>, move: Kinematics)
    ensures var mid := Run(t, es, move);
            && Run(t, es + fs, move) == Run(mid, fs, move)
            && PacketsOf(es + fs) == PacketsOf(es) + PacketsOf(fs)
            && Committals(t, es + fs, move) == Committals(t, es, move) + Committals(mid, fs, move)
    decreases |fs|
  {
    if fs == [] {
      assert es + fs == es;
    } else {
      var init, e := fs[..|fs| - 1], fs[|fs| - 1];
      assert es + fs == (es + init) + [e] && fs == init + [e];
      RunAppend(t, es, init, move);
      RunSnoc(t, es + init, e, move);
      RunSnoc(Run(t, es, move), init, e, move);
    }
  }

  lemma {:induction false} NeverCommitsNothing(t: Track, es: seq<Event>, move: Kinematics)
    requires NeverCommits(t, es, move)
    ensures Committals(t, es, move) == []
    decreases |es|
  {
    if es == [] {
    } else {
      NeverCommitsNothing(t, es[..|es| - 1], move);
    }
  }

  lemma {:induction false} FirstCommit(t: Track, es: seq<Event>, move: Kinematics) returns (k: nat)
    requires !NeverCommits(t, es, move)
    ensures k < |es| && NeverCommits(t, es[..k], move) && StepCommits(Run(t, es[..k], move), es[k])
    decreases |es|
  {
    var init := es[..|es| - 1];
    if NeverCommits(t, init, move) {
      k := |es| - 1;
    } else {
      k := FirstCommit(t, init, move);
      assert es[..k] == init[..k];
    }
  }

  /** The sanity check never stands against a commit. */
  ghost predicate Sane(es: seq<Event>) {
    forall e :: e in es && e.Poll? ==> e.sane
  }

  /** Without a rejection, a state that is complete has been committed. */
  lemma {:induction false} SaneIsIncomplete(t: Track, es: seq<Event>, move: Kinematics)
    requires Sane(es) && NeverCommits(t, es, move) && !t.next.SensorsComplete()
    ensures !Run(t, es, move).next.SensorsComplete()
    decreases |es|
  {
    if es == [] {
    } else {
      assert es[|es| - 1] in es;
      SaneIsIncomplete(t, es[..|es| - 1], move);
    }
  }

  /** A commit takes what all polls so far have gathered. */
  lemma CommitTakesGathered(t: Track, es: seq<Event>, e: Event, move: Kinematics, now: uint32)
    requires NeverCommits(t, es, move) && StepCommits(Run(t, es, move), e)
    ensures var t' := Step(Run(t, es, move), e, move);
            && SameReadings(t'.current, AbsorbAll(t.next, PacketsOf(es + [e]), now))
            && t'.current.validPos && t'.next == FRESH
  {
    var before := Run(t, es, move);
    RunSnoc(t, es, e, move);
    PollsGather(t, es, move, now);
    AbsorbAllAppend(t.next, PacketsOf(es), e.packets, now);
    AbsorbAllAgrees(before.next, AbsorbAll(t.next, PacketsOf(es), now), e.packets, e.now, now);
  }

  lemma SplitAt(es: seq<Event>, k: nat)
    requires k < |es|
    ensures es == (es[..k] + [es[k]]) + es[k + 1..] && es[..k + 1] == es[..k] + [es[k]]
  {}

  /** Of the packets only the first is a right encoder. Then over any run without a rejection there is
      one commit, in the first call k by whose end all three readings have been gathered. It takes what
      was gathered by then; the packets after that are gathered for the next commit. */
  lemma {:induction false} OneCommit(t: Track, es: seq<Event>, move: Kinematics, now: uint32) returns (k: nat)
    requires Sane(es) && Lacks(t.next, 0xB6) && PacketsOf(es) != []
    requires forall i :: 0 < i < |PacketsOf(es)| ==> PacketsOf(es)[i].command != 0xB6
    requires AbsorbAll(t.next, PacketsOf(es), now).SensorsComplete()
    ensures k < |es|
    ensures !AbsorbAll(t.next, PacketsOf(es[..k]), now).SensorsComplete()
    ensures AbsorbAll(t.next, PacketsOf(es[..k + 1]), now).SensorsComplete()
    ensures PacketsOf(es[..k]) <= PacketsOf(es[..k + 1]) && PacketsOf(es[..k + 1]) != []
    ensures PacketsOf(es) == PacketsOf(es[..k + 1]) + PacketsOf(es[k + 1..])
    ensures var t' := Run(t, es, move);
            && |Committals(t, es, move)| == 1 && SameButPose(t'.current, Committals(t, es, move)[0])
            && t'.current.validPos && SameButPose(t'.previous, t.current)
            && SameReadings(t'.current, AbsorbAll(t.next, PacketsOf(es[..k + 1]), now))
            && SameReadings(t'.next, AbsorbAll(FRESH, PacketsOf(es[k + 1..]), now))
  {
    SomeCommit(t, es, move, now);
    k := FirstCommit(t, es, move);
    var before, after := es[..k], es[k + 1..];
    SplitAt(es, k);
    NotYetComplete(t, before, move, now);
    CommitTakesGathered(t, before, es[k], move, now);
    RunSnoc(t, before, es[k], move);
    RunAppend(t, es[..k + 1], after, move);
    NeverCommitsNothing(t, before, move);
    var mid := Run(t, es[..k + 1], move);
    RightIsFirst(t, es[..k + 1], after, now);
    NoCommitWithoutReading(mid, after, move, 0xB6);
    NeverCommitsNothing(mid, after, move);
    PollsGather(mid, after, move, now);
    CurrentStays(t, before, move);
    CurrentStays(mid, after, move);
  }

  /** Where only polls happen, the current state is the last one committed, the previous one the one before. */
  lemma {:induction false} LastCommittal(t: Track, es: seq<Event>, move: Kinematics)
    requires forall e :: e in es ==> e.Poll?
    ensures var t', cs := Run(t, es, move), Committals(t, es, move);
            && t'.current == (if cs == [] then t.current else cs[|cs| - 1])
            && t'.previous == (if cs == [] then t.previous else if |cs| == 1 then t.current else cs[|cs| - 2])
    decreases |es|
  {
    if es == [] {
    } else {
      assert es[|es| - 1] in es;
      LastCommittal(t, es[..|es| - 1], move);
    }
  }

  lemma SomeCommit(t: Track, es: seq<Event>, move: Kinematics, now: uint32)
    requires Sane(es) && !t.next.SensorsComplete() && AbsorbAll(t.next, PacketsOf(es), now).SensorsComplete()
    ensures !NeverCommits(t, es, move)
  {
    if NeverCommits(t, es, move) {
      PollsGather(t, es, move, now);
      SaneIsIncomplete(t, es, move);
    }
  }

  lemma NotYetComplete(t: Track, es: seq<Event>, move: Kinematics, now: uint32)
    requires Sane(es) && Lacks(t.next, 0xB6) && NeverCommits(t, es, move)
    ensures !AbsorbAll(t.next, PacketsOf(es), now).SensorsComplete()
  {
    PollsGather(t, es, move, now);
    SaneIsIncomplete(t, es, move);
  }

  ghost predicate SameButPose(a: RobotState, b: RobotState) { a == b.(pose := a.pose) }

  lemma {:induction false} CurrentStays(t: Track, es: seq<Event>, move: Kinematics)
    requires NeverCommits(t, es, move)
    ensures var t' := Run(t, es, move);
            && SameButPose(t'.current, t.current) && t'.previous == t.previous
            && ((forall e :: e in es ==> e.Poll?) ==> t'.current == t.current)
    decreases |es|
  {
    if es == [] {
    } else {
      assert es[|es| - 1] in es;
      CurrentStays(t, es[..|es| - 1], move);
    }
  }

  /** Packets without the right encoder leave it missing, so it came before a commit. */
  lemma RightIsFirst(t: Track, es: seq<Event>, fs: seq<Event>, now: uint32)
    requires Lacks(t.next, 0xB6) && AbsorbAll(t.next, PacketsOf(es), now).SensorsComplete()
    requires forall i :: 0 < i < |PacketsOf(es) + PacketsOf(fs)| ==> (PacketsOf(es) + PacketsOf(fs))[i].command != 0xB6
    ensures PacketsOf(es) != [] && forall p :: p in PacketsOf(fs) ==> p.command != 0xB6
  {
    assert AbsorbAll(t.next, [], now) == t.next;
    var all := PacketsOf(es) + PacketsOf(fs);
    forall p | p in PacketsOf(fs) ensures p.command != 0xB6 {
      var i :| 0 <= i < |PacketsOf(fs)| && PacketsOf(fs)[i] == p;
      assert all[|PacketsOf(es)| + i] == p;
    }
  }

  // ---------------------------------------------------------------- what a committed state holds

  /** The reading of a kind that a state holds as valid. */
  function Held(n: RobotState, command: int): Option<int> {
    if command == 0x02 && n.validBattery then Some(n.battery)
    else if command == 0xB1 && n.validIr then Some(n.irBank)
    else if command == 0xB6 && n.validRight then Some(n.right)
    else if command == 0xB7 && n.validLeft then Some(n.left)
    else None
  }

  /** The reading of that kind that a packet bears. */
  function Borne(p: Packet, command: int): int {
    if command == 0x02 || command == 0xB1 then p.data0 else Word(p)
  }

  /** Each valid reading is the latest of its kind among the packets. */
  ghost predicate FromLatest(n: RobotState, ps: seq<Packet>) {
    forall command :: Held(n, command).Some? ==>
      Reading(ps, command).Some? && Held(n, command).value == Borne(Reading(ps, command).value, command)
  }

  lemma ReadingSnoc(ps: seq<Packet>, p: Packet, command: int)
    ensures Reading(ps + [p], command) == if p.command == command then Some(p) else Reading(ps, command)
  {
    assert (ps + [p])[..|ps + [p]| - 1] == ps;
  }

  lemma {:induction false} ReadingAppend(ps: seq<Packet>, qs: seq<Packet>, command: int)
    ensures Reading(ps + qs, command)
         == if Reading(qs, command).Some? then Reading(qs, command) else Reading(ps, command)
    decreases |qs|
  {
    if qs == [] {
      assert ps + qs == ps;
    } else {
      var init, q := qs[..|qs| - 1], qs[|qs| - 1];
      assert ps + qs == (ps + init) + [q] && qs == init + [q];
      ReadingAppend(ps, init, command);
      ReadingSnoc(ps + init, q, command);
      ReadingSnoc(init, q, command);
    }
  }

  lemma HeldNext(n: RobotState, p: Packet, now: uint32, command: int)
    ensures Held(Absorb(n, p, now), command)
         == if p.command == command && command in {0x02, 0xB1, 0xB6, 0xB7} then Some(Borne(p, command))
            else Held(n, command)
  {}

  lemma LatestNext(n: RobotState, ps: seq<Packet>, p: Packet, now: uint32)
    requires FromLatest(n, ps)
    ensures FromLatest(Absorb(n, p, now), ps + [p])
  {
    forall command | Held(Absorb(n, p, now), command).Some?
      ensures var q := Reading(ps + [p], command);
              q.Some? && Held(Absorb(n, p, now), command).value == Borne(q.value, command)
    {
      HeldNext(n, p, now, command);
      ReadingSnoc(ps, p, command);
    }
  }

  lemma {:induction false} AbsorbAllLatest(n: RobotState, ps: seq<Packet>, qs: seq<Packet>, now: uint32)
    requires FromLatest(n, ps)
    ensures FromLatest(AbsorbAll(n, qs, now), ps + qs)
    decreases |qs|
  {
    if qs == [] {
      assert ps + qs == ps;
    } else {
      LatestNext(n, ps, qs[0], now);
      AbsorbAllLatest(Absorb(n, qs[0], now), ps + [qs[0]], qs[1..], now);
      assert ps + [qs[0]] + qs[1..] == ps + qs;
    }
  }

  lemma {:induction false} NextIsLatest(es: seq<Event>, move: Kinematics)
    ensures FromLatest(Run(START, es, move).next, PacketsOf(es))
    decreases |es|
  {
    if es == [] {
    } else {
      var init, e := es[..|es| - 1], es[|es| - 1];
      NextIsLatest(init, move);
      if e.Poll? {
        AbsorbAllLatest(Run(START, init, move).next, PacketsOf(init), e.packets, e.now);
      } else {
        assert PacketsOf(es) == PacketsOf(init);
      }
    }
  }

  /** Over every run from power-up, whatever was rejected or suggested: a committed state holds the
      latest reading of each kind that any poll has served. */
  lemma CommitsHoldTheLatest(es: seq<Event>, e: Event, move: Kinematics)
    requires StepCommits(Run(START, es, move), e)
    ensures var c, ps := Step(Run(START, es, move), e, move).current, PacketsOf(es + [e]);
            FromLatest(c, ps) && c.SensorsComplete() && c.validPos
  {
    NextIsLatest(es, move);
    RunSnoc(START, es, e, move);
    AbsorbAllLatest(Run(START, es, move).next, PacketsOf(es), e.packets, e.now);
  }

  // ---------------------------------------------------------------- conservation of motion

  datatype Sample = Sample(left: word, right: word)

  /** The encoder samples a run commits, in order, and the motion handed to each pose update. */
  function Samples(t: Track, es: seq<Event>, move: Kinematics): (r: seq<Sample>)
    decreases |es|
  {
    if es == [] then [] else
      var init := es[..|es| - 1];
      var before := Run(t, init, move);
      Samples(t, init, move) +
        (if StepCommits(before, es[|es| - 1])
         then var c := Step(before, es[|es| - 1], move).current; [Sample(c.left, c.right)] else [])
  }

  function Motions(t: Track, es: seq<Event>, move: Kinematics): (r: seq<Motion>)
    decreases |es|
  {
    if es == [] then [] else
      var init := es[..|es| - 1];
      var before := Run(t, init, move);
      Motions(t, init, move) +
        (if StepCommits(before, es[|es| - 1])
         then [MotionOf(before.current, Collected(before, es[|es| - 1].packets, es[|es| - 1].now).next)] else [])
  }

  function Total(ms: seq<Motion>): Motion {
    if ms == [] then Motion(0, 0) else
      var t := Total(ms[..|ms| - 1]);
      Motion(t.left + ms[|ms| - 1].left, t.right + ms[|ms| - 1].right)
  }

  lemma TotalAppend(ms: seq<Motion>, m: Motion)
    ensures Total(ms + [m]) == Motion(Total(ms).left + m.left, Total(ms).right + m.right)
  {
    assert (ms + [m])[..|ms + [m]| - 1] == ms;
  }

  /** The last committed sample is always the baseline of the next difference, whatever was rejected. */
  lemma {:induction false} BaselineIsLastCommit(es: seq<Event>, move: Kinematics)
    ensures var c := Run(START, es, move).current;
            var s := Samples(START, es, move);
            && |s| == |Motions(START, es, move)|
            && (if s == [] then Untouched(c) else Committed(c) && s[|s| - 1] == Sample(c.left, c.right))
    decreases |es|
  {
    if es == [] {
    } else {
      var init := es[..|es| - 1];
      BaselineIsLastCommit(init, move);
      EveryRunKeepsInvariant(init, move);
      OnlyCommitsReplaceTheState(Run(START, init, move), es[|es| - 1], move);
    }
  }

  function Between(a: Sample, b: Sample): Motion {
    Motion(Unwrap(b.left - a.left), Unwrap(b.right - a.right))
  }

  function Unwrapped(samples: seq<Sample>): seq<Motion>
    decreases |samples|
  {
    var n := |samples|;
    if n == 0 then [] else
      Unwrapped(samples[..n - 1]) +
        [if n == 1 then Motion(0, 0) else Between(samples[n - 2], samples[n - 1])]
  }

  lemma UnwrappedAppend(samples: seq<Sample>, s: Sample)
    ensures Unwrapped(samples + [s]) == Unwrapped(samples)
              + [if samples == [] then Motion(0, 0) else Between(samples[|samples| - 1], s)]
  {
    assert (samples + [s])[..|samples + [s]| - 1] == samples;
  }

  /** The k-th motion is the unwrapped difference of commits k-1 and k; the first one is zero. */
  lemma {:induction false} MotionsFollowSamples(es: seq<Event>, move: Kinematics)
    ensures |Samples(START, es, move)| == |Motions(START, es, move)|
    ensures Motions(START, es, move) == Unwrapped(Samples(START, es, move))
    decreases |es|
  {
    if es == [] {
    } else {
      var init, e := es[..|es| - 1], es[|es| - 1];
      var before := Run(START, init, move);
      MotionsFollowSamples(init, move);
      BaselineIsLastCommit(init, move);
      EveryRunKeepsInvariant(init, move);
      if StepCommits(before, e) {
        var s, next := Samples(START, init, move), Collected(before, e.packets, e.now).next;
        var latest := Sample(next.left, next.right);
        UnwrappedAppend(s, latest);
        assert Samples(START, es, move) == s + [latest];
        assert MotionOf(before.current, next)
            == if s == [] then Motion(0, 0) else Between(s[|s| - 1], latest);
        assert Motions(START, es, move) == Motions(START, init, move) + [MotionOf(before.current, next)];
      } else {
        assert Samples(START, es, move) == Samples(START, init, move);
      }
    }
  }

  ghost predicate Congruent(a: int, b: int) { (a - b) % WORD == 0 }

  /** A motion from first to last, but for i and j whole turns of the counters. */
  ghost predicate UpToTurns(m: Motion, first: Sample, last: Sample, i: int, j: int) {
    m == Motion(last.left - first.left + WORD * i, last.right - first.right + WORD * j)
  }

  lemma AddBetween(m: Motion, first: Sample, before: Sample, last: Sample, i: int, j: int) returns (i': int, j': int)
    requires UpToTurns(m, first, before, i, j)
    ensures var b := Between(before, last); UpToTurns(Motion(m.left + b.left, m.right + b.right), first, last, i', j')
  {
    i' := i + Turns(last.left - before.left);
    j' := j + Turns(last.right - before.right);
  }

  lemma TotalNext(samples: seq<Sample>, last: Sample)
    ensures var m := if samples == [] then Motion(0, 0) else Between(samples[|samples| - 1], last);
            var t := Total(Unwrapped(samples));
            Total(Unwrapped(samples + [last])) == Motion(t.left + m.left, t.right + m.right)
  {
    var m := if samples == [] then Motion(0, 0) else Between(samples[|samples| - 1], last);
    UnwrappedAppend(samples, last);
    TotalAppend(Unwrapped(samples), m);
  }

  /** Modulo the counter's width no motion is ever lost or invented. */
  lemma {:induction false} UnwrappedTelescopes(samples: seq<Sample>) returns (i: int, j: int)
    requires samples != []
    ensures UpToTurns(Total(Unwrapped(samples)), samples[0], samples[|samples| - 1], i, j)
    decreases |samples|
  {
    var n := |samples| - 1;
    var s, last := samples[..n], samples[n];
    assert samples == s + [last];
    TotalNext(s, last);
    if n == 0 {
      i, j := 0, 0;
      assert Total(Unwrapped([])) == Motion(0, 0);
    } else {
      i, j := UnwrappedTelescopes(s);
      i, j := AddBetween(Total(Unwrapped(s)), samples[0], s[n - 1], last, i, j);
    }
  }

  lemma {:induction false} MotionIsConserved(es: seq<Event>, move: Kinematics)
    requires Samples(START, es, move) != []
    ensures var s := Samples(START, es, move);
            var total, last := Total(Motions(START, es, move)), s[|s| - 1];
            && Congruent(total.left, last.left - s[0].left)
            && Congruent(total.right, last.right - s[0].right)
  {
    MotionsFollowSamples(es, move);
    var i, j := UnwrappedTelescopes(Samples(START, es, move));
  }

  /** Exactly when one difference is right: the wheel moved less than half a turn of the counter,
      or exactly half a turn and the counter did not wrap on the way. */
  lemma UnwrapExact(before: int, after: int)
    ensures Unwrap(after % WORD - before % WORD) == after - before
       <==> -32768 < after - before < 32768
            || ((after - before == 32768 || after - before == -32768) && after / WORD == before / WORD)
  {
    var d := after - before;
    assert d == (after % WORD - before % WORD) + WORD * (after / WORD - before / WORD);
  }

  /** True, unbounded wheel positions in ticks. */
  datatype Wheels = Wheels(left: int, right: int)

  ghost predicate Sampled(s: Sample, w: Wheels) {
    s.left == w.left % WORD && s.right == w.right % WORD
  }

  ghost predicate Near(a: int, b: int) { -32768 < b - a < 32768 }

  ghost predicate Steady(truth: seq<Wheels>) {
    forall j, k :: 0 <= j && k == j + 1 < |truth| ==>
      Near(truth[j].left, truth[k].left) && Near(truth[j].right, truth[k].right)
  }

  /** If the wheels never move half a counter turn between commits, the motions handed to the pose
      update add up to the true displacement, no matter how many states were rejected in between. */
  lemma {:induction false} TrueDisplacement(es: seq<Event>, move: Kinematics, truth: seq<Wheels>)
    requires var s := Samples(START, es, move); |s| == |truth| && s != []
    requires forall k :: 0 <= k < |truth| ==> Sampled(Samples(START, es, move)[k], truth[k])
    requires Steady(truth)
    ensures Total(Motions(START, es, move))
         == Motion(truth[|truth| - 1].left - truth[0].left, truth[|truth| - 1].right - truth[0].right)
  {
    MotionsFollowSamples(es, move);
    UnwrappedIsTrue(Samples(START, es, move), truth);
  }

  lemma BetweenIsTrue(a: Sample, b: Sample, from: Wheels, to: Wheels)
    requires Sampled(a, from) && Sampled(b, to)
    requires Near(from.left, to.left) && Near(from.right, to.right)
    ensures Between(a, b) == Motion(to.left - from.left, to.right - from.right)
  {
    UnwrapExact(from.left, to.left);
    UnwrapExact(from.right, to.right);
  }

  lemma {:induction false} UnwrappedIsTrue(samples: seq<Sample>, truth: seq<Wheels>)
    requires |samples| == |truth| && samples != []
    requires forall k :: 0 <= k < |truth| ==> Sampled(samples[k], truth[k])
    requires Steady(truth)
    ensures Total(Unwrapped(samples))
         == Motion(truth[|truth| - 1].left - truth[0].left, truth[|truth| - 1].right - truth[0].right)
    decreases |samples|
  {
    var n := |samples| - 1;
    var s := samples[..n];
    assert samples == s + [samples[n]];
    UnwrappedAppend(s, samples[n]);
    if n == 0 {
      TotalAppend([], Motion(0, 0));
      assert Unwrapped(samples) == [] + [Motion(0, 0)];
    } else {
      UnwrappedIsTrue(s, truth[..n]);
      BetweenIsTrue(s[n - 1], samples[n], truth[n - 1], truth[n]);
      TotalAppend(Unwrapped(s), Between(s[n - 1], samples[n]));
    }
  }
}
