/** Which polls' readings a committed state pairs, however reads fall and whatever is rejected. */
module Pairing {
  import opened Basics
  import opened Framing
  import opened Link
  import opened Microcontroller
  import opened Polling
  import Odometry

  /** The latest reading of each kind that a commit waits for. */
  datatype Newest = Newest(right: Option<Packet>, left: Option<Packet>, ir: Option<Packet>)

  const NOTHING := Newest(None, None, None)

  function NewestOf(ps: seq<Packet>): Newest {
    Newest(Odometry.Reading(ps, 0xB6), Odometry.Reading(ps, 0xB7), Odometry.Reading(ps, 0xB1))
  }

  function Either(later: Option<Packet>, earlier: Option<Packet>): Option<Packet> {
    if later.Some? then later else earlier
  }

  function Over(later: Newest, earlier: Newest): Newest {
    Newest(Either(later.right, earlier.right), Either(later.left, earlier.left), Either(later.ir, earlier.ir))
  }

  lemma NewestAppend(ps: seq<Packet>, qs: seq<Packet>)
    ensures NewestOf(ps + qs) == Over(NewestOf(qs), NewestOf(ps))
  {
    Odometry.ReadingAppend(ps, qs, 0xB6);
    Odometry.ReadingAppend(ps, qs, 0xB7);
    Odometry.ReadingAppend(ps, qs, 0xB1);
  }

  /** Of the first j frames that answer a poll. */
  function NewestIn(p: Packet, r: Readings, j: nat): Newest {
    Newest(if j >= 4 then Some(RightReply(p.seqNo, r)) else None,
           if j >= 3 then Some(LeftReply(p.seqNo, r)) else None,
           if j >= 2 then Some(SensorReply(p.seqNo, r)) else None)
  }

  lemma NewestSnoc(ps: seq<Packet>, q: Packet)
    ensures NewestOf(ps + [q]) == Newest(if q.command == 0xB6 then Some(q) else NewestOf(ps).right,
                                         if q.command == 0xB7 then Some(q) else NewestOf(ps).left,
                                         if q.command == 0xB1 then Some(q) else NewestOf(ps).ir)
  {
    Odometry.ReadingSnoc(ps, q, 0xB6);
    Odometry.ReadingSnoc(ps, q, 0xB7);
    Odometry.ReadingSnoc(ps, q, 0xB1);
  }

  lemma {:induction false} NewestOfFirst(all: seq<Packet>, p: Packet, r: Readings, j: nat)
    requires p.command == CMD_GET_SENSOR_DATA && j <= 4
    requires all == [p, SensorReply(p.seqNo, r), LeftReply(p.seqNo, r), RightReply(p.seqNo, r)]
    ensures NewestOf(all[..j]) == NewestIn(p, r, j)
    decreases j
  {
    if j == 0 {
    } else {
      NewestOfFirst(all, p, r, j - 1);
      NewestSnoc(all[..j - 1], all[j - 1]);
      assert all[..j] == all[..j - 1] + [all[j - 1]];
    }
  }

  lemma NewestOfExchange(p: Packet, r: Readings, j: nat)
    requires p.sync == SYNC && p.command == CMD_GET_SENSOR_DATA && j <= |Exchange(p, r)|
    ensures |Exchange(p, r)| == 4 && NewestOf(Exchange(p, r)[..j]) == NewestIn(p, r, j)
  {
    NewestOfFirst(Exchange(p, r), p, r, j);
  }

  ghost predicate AllPolls(sent: seq<Packet>) {
    forall p :: p in sent ==> p.sync == SYNC && p.command == CMD_GET_SENSOR_DATA
  }

  /** The packets end j frames into the answer to the poll after poll i. */
  ghost predicate NewestArePolls(n: Newest, sent: seq<Packet>, rs: seq<Readings>, i: nat, j: nat)
    requires |sent| == |rs|
  {
    && i < |sent| && j < 4 && (j > 0 ==> i + 1 < |sent|)
    && n == Over(if j == 0 then NOTHING else NewestIn(sent[i + 1], rs[i + 1], j), NewestIn(sent[i], rs[i], 4))
  }

  /** After a whole answer, its readings are the latest. */
  lemma AfterExchange(before: seq<Packet>, p: Packet, r: Readings)
    requires p.sync == SYNC && p.command == CMD_GET_SENSOR_DATA
    ensures NewestOf(before + Exchange(p, r)) == NewestIn(p, r, 4)
  {
    NewestOfExchange(p, r, |Exchange(p, r)|);
    assert Exchange(p, r)[..4] == Exchange(p, r);
    NewestAppend(before, Exchange(p, r));
  }

  lemma LastExchange(pre: seq<Packet>, sent: seq<Packet>, rs: seq<Readings>)
    requires |sent| == |rs| && sent != [] && forall p :: p in sent ==> p.sync == SYNC
    ensures pre + Exchanges(sent, rs)
         == (pre + Exchanges(Init(sent), Init(rs))) + Exchange(sent[|sent| - 1], rs[|rs| - 1])
  {}

  lemma TakeFromTwo<T>(a: seq<T>, b: seq<T>, n: nat)
    requires n <= |a| + |b|
    ensures (a + b)[..n] == if n <= |a| then a[..n] else a + b[..n - |a|]
  {}

  /** What the traffic before the last poll's answer leaves. */
  function BeforeLast(sent: seq<Packet>, rs: seq<Readings>): Newest
    requires |sent| == |rs| && sent != []
  {
    if |sent| == 1 then NOTHING else NewestIn(sent[|sent| - 2], rs[|rs| - 2], 4)
  }

  lemma NewestBeforeLast(pre: seq<Packet>, sent: seq<Packet>, rs: seq<Readings>)
    requires |sent| == |rs| && sent != [] && AllPolls(sent) && NewestOf(pre) == NOTHING
    ensures NewestOf(pre + Exchanges(Init(sent), Init(rs))) == BeforeLast(sent, rs)
  {
    if |sent| == 1 {
      assert pre + Exchanges(Init(sent), Init(rs)) == pre;
    } else {
      var last := |sent| - 2;
      assert Init(sent)[last] == sent[last] && Init(rs)[last] == rs[last];
      LastExchange(pre, Init(sent), Init(rs));
      AfterExchange(pre + Exchanges(Init(Init(sent)), Init(Init(rs))), sent[last], rs[last]);
    }
  }

  ghost predicate ArePolls(n: Newest, sent: seq<Packet>, rs: seq<Readings>)
    requires |sent| == |rs|
  {
    exists i, j :: NewestArePolls(n, sent, rs, i, j)
  }

  lemma PlaceInLast(n: Newest, sent: seq<Packet>, rs: seq<Readings>, m: nat)
    requires |sent| == |rs| && sent != [] && 0 < m <= 4 && n.right.Some?
    requires n == Over(NewestIn(sent[|sent| - 1], rs[|rs| - 1], m), BeforeLast(sent, rs))
    ensures ArePolls(n, sent, rs)
  {
    if m == 4 {
      assert NewestArePolls(n, sent, rs, |sent| - 1, 0);
    } else {
      assert NewestArePolls(n, sent, rs, |sent| - 2, m);
    }
  }

  lemma NoneBefore(ps: seq<Packet>, n: nat)
    requires n <= |ps| && NewestOf(ps).right == None
    ensures NewestOf(ps[..n]).right == None
  {
    assert ps == ps[..n] + ps[n..];
    NewestAppend(ps[..n], ps[n..]);
  }

  lemma PlaceEarlier(n: Newest, sent: seq<Packet>, rs: seq<Readings>)
    requires |sent| == |rs| && sent != [] && ArePolls(n, Init(sent), Init(rs))
    ensures ArePolls(n, sent, rs)
  {
    var i, j :| NewestArePolls(n, Init(sent), Init(rs), i, j);
    assert NewestArePolls(n, sent, rs, i, j);
  }

  /** Any beginning of the traffic of polls that holds a right encoder at all ends j frames into the
      answer to the poll after some poll i. */
  lemma {:induction false} NewestInTraffic(pre: seq<Packet>, sent: seq<Packet>, rs: seq<Readings>, n: nat)
    requires |sent| == |rs| && AllPolls(sent) && NewestOf(pre) == NOTHING && n <= |pre + Exchanges(sent, rs)|
    requires NewestOf((pre + Exchanges(sent, rs))[..n]).right.Some?
    ensures ArePolls(NewestOf((pre + Exchanges(sent, rs))[..n]), sent, rs)
    decreases |sent|
  {
    if sent == [] {
      assert pre + Exchanges(sent, rs) == pre;
      NoneBefore(pre, n);
    } else {
      var before := pre + Exchanges(Init(sent), Init(rs));
      var p, r := sent[|sent| - 1], rs[|rs| - 1];
      assert p in sent;
      LastExchange(pre, sent, rs);
      TakeFromTwo(before, Exchange(p, r), n);
      if n <= |before| {
        NewestInTraffic(pre, Init(sent), Init(rs), n);
        PlaceEarlier(NewestOf(before[..n]), sent, rs);
      } else {
        var m := n - |before|;
        NewestBeforeLast(pre, sent, rs);
        NewestOfExchange(p, r, m);
        NewestAppend(before, Exchange(p, r)[..m]);
        PlaceInLast(NewestOf(before + Exchange(p, r)[..m]), sent, rs, m);
      }
    }
  }

  /** The right count of some poll i, with the left count and infrared readings of poll i or i + 1. */
  ghost predicate PairsNeighbours(c: Odometry.RobotState, rs: seq<Readings>) {
    exists i: nat :: i < |rs| && PairsUp(c, rs[i], rs[if i + 1 < |rs| then i + 1 else i])
  }

  lemma LatestPairUp(c: Odometry.RobotState, ps: seq<Packet>, pre: seq<Packet>, sent: seq<Packet>, rs: seq<Readings>)
    requires |sent| == |rs| && AllPolls(sent) && NewestOf(pre) == NOTHING && ps <= pre + Exchanges(sent, rs)
    requires Odometry.FromLatest(c, ps) && c.SensorsComplete() && c.validPos
    ensures PairsNeighbours(c, rs)
  {
    assert ps == (pre + Exchanges(sent, rs))[..|ps|];
    NewestInTraffic(pre, sent, rs, |ps|);
    var i, j :| NewestArePolls(NewestOf(ps), sent, rs, i, j);
    NewestPairUp(c, ps, sent, rs, i, j);
  }

  lemma CommitPairsNeighbours(es: seq<Odometry.Event>, e: Odometry.Event, move: Odometry.Kinematics,
                              pre: seq<Packet>, sent: seq<Packet>, rs: seq<Readings>)
    requires |sent| == |rs| && AllPolls(sent) && NewestOf(pre) == NOTHING
    requires Odometry.PacketsOf(es + [e]) <= pre + Exchanges(sent, rs)
    ensures var before := Odometry.Run(Odometry.START, es, move);
            Odometry.StepCommits(before, e) ==> PairsNeighbours(Odometry.Step(before, e, move).current, rs)
  {
    var before := Odometry.Run(Odometry.START, es, move);
    if Odometry.StepCommits(before, e) {
      Odometry.CommitsHoldTheLatest(es, e, move);
      LatestPairUp(Odometry.Step(before, e, move).current, Odometry.PacketsOf(es + [e]), pre, sent, rs);
    }
  }

  /** Whatever the sanity check rejects, the camera suggests, and the reads hold: over every run from
      power-up that has served some beginning of the traffic of polls, every commit pairs neighbours. */
  lemma {:induction false} CommitsPairNeighbours(es: seq<Odometry.Event>, move: Odometry.Kinematics,
                                                 pre: seq<Packet>, sent: seq<Packet>, rs: seq<Readings>)
    requires |sent| == |rs| && AllPolls(sent) && NewestOf(pre) == NOTHING
    requires Odometry.PacketsOf(es) <= pre + Exchanges(sent, rs)
    ensures forall c :: c in Odometry.Committals(Odometry.START, es, move) ==> PairsNeighbours(c, rs)
    decreases |es|
  {
    if es == [] {
    } else {
      var init, e := es[..|es| - 1], es[|es| - 1];
      assert es == init + [e];
      Odometry.RunSnoc(Odometry.START, init, e, move);
      CommitsPairNeighbours(init, move, pre, sent, rs);
      CommitPairsNeighbours(init, e, move, pre, sent, rs);
    }
  }

  lemma NewestPairUp(c: Odometry.RobotState, ps: seq<Packet>, sent: seq<Packet>, rs: seq<Readings>, i: nat, j: nat)
    requires |sent| == |rs| && NewestArePolls(NewestOf(ps), sent, rs, i, j)
    requires Odometry.FromLatest(c, ps) && c.SensorsComplete() && c.validPos
    ensures PairsUp(c, rs[i], rs[if i + 1 < |rs| then i + 1 else i])
  {}
}
