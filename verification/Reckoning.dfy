/** The pose over whole runs: which commits happen, which motions they add, and which suggestions count. */
module Reckoning {
  import opened Basics
  import opened Framing
  import opened Odometry

  // ---------------------------------------------------------------- which polls commit

  /** How many events of a run from power-up go up to its last commit. */
  function LastCommit(es: seq<Event>, move: Kinematics): (k: nat)
    ensures k <= |es|
    decreases |es|
  {
    if es == [] then 0
    else if StepCommits(Run(START, Init(es), move), es[|es| - 1]) then |es|
    else LastCommit(Init(es), move)
  }

  lemma RunsOn(es: seq<Event>, k: nat, move: Kinematics)
    requires k <= |es|
    ensures Run(START, es, move) == Run(Run(START, es[..k], move), es[k..], move)
  {
    assert es == es[..k] + es[k..];
    RunAppend(START, es[..k], es[k..], move);
  }

  lemma LaterEvents(es: seq<Event>, k: nat)
    requires k < |es|
    ensures Init(es)[..k] == es[..k] && es[k..] == Init(es)[k..] + [es[|es| - 1]]
  {}

  lemma {:induction false} QuietSinceCommit(es: seq<Event>, move: Kinematics)
    ensures var k := LastCommit(es, move);
            Run(START, es[..k], move).next == FRESH && NeverCommits(Run(START, es[..k], move), es[k..], move)
    decreases |es|
  {
    var k := LastCommit(es, move);
    if k == |es| {
      assert es[..k] == es && es[k..] == [];
    } else {
      QuietSinceCommit(Init(es), move);
      LaterEvents(es, k);
      RunsOn(Init(es), k, move);
      RunSnoc(Run(START, es[..k], move), Init(es)[k..], es[|es| - 1], move);
    }
  }

  /** The state under construction holds what the polls since the last commit have served. */
  lemma GatheredSinceCommit(es: seq<Event>, move: Kinematics)
    ensures SameReadings(Run(START, es, move).next, AbsorbAll(FRESH, PacketsOf(es[LastCommit(es, move)..]), 0))
  {
    var k := LastCommit(es, move);
    QuietSinceCommit(es, move);
    RunsOn(es, k, move);
    PollsGather(Run(START, es[..k], move), es[k..], move, 0);
  }

  lemma {:induction false} PlacedOnceCommitted(es: seq<Event>, move: Kinematics)
    ensures Run(START, es, move).current.validPos <==> Committals(START, es, move) != []
    decreases |es|
  {
    if es == [] {
    } else {
      PlacedOnceCommitted(Init(es), move);
    }
  }

  /** Which polls commit, over every run: exactly those by whose end all three readings have been served
      since the last commit, unless the sanity check stands against it, which it can do only once
      something has been committed. */
  lemma CommitsExactly(es: seq<Event>, since: seq<Event>, ps: seq<Packet>, now: uint32, sane: bool, move: Kinematics)
    requires since == es[LastCommit(es, move)..]
    ensures var served := PacketsOf(since) + ps;
            StepCommits(Run(START, es, move), Poll(ps, now, sane))
            <==> && Reading(served, 0xB7).Some? && Reading(served, 0xB6).Some? && Reading(served, 0xB1).Some?
                 && (sane || Committals(START, es, move) == [])
  {
    var before := PacketsOf(since);
    var n := Run(START, es, move).next;
    GatheredSinceCommit(es, move);
    PlacedOnceCommitted(es, move);
    AbsorbAllAgrees(n, AbsorbAll(FRESH, before, 0), ps, now, 0);
    AbsorbAllAppend(FRESH, before, ps, 0);
    EncodersAreLatest(FRESH, before + ps, 0);
    SensorsAreLatest(FRESH, before + ps, 0);
  }

  // ---------------------------------------------------------------- which suggestions count

  /** The timestamp of the last committed state, 0 before any. */
  function CommitTime(es: seq<Event>, move: Kinematics): uint32 {
    var cs := Committals(START, es, move);
    if cs == [] then 0 else cs[|cs| - 1].timestamp
  }

  lemma {:induction false} CurrentTime(es: seq<Event>, move: Kinematics)
    ensures Run(START, es, move).current.timestamp == CommitTime(es, move)
    decreases |es|
  {
    if es == [] {
    } else {
      CurrentTime(Init(es), move);
    }
  }

  /** A suggestion counts if its position is valid and it is newer than the last commit. */
  predicate Counts(es: seq<Event>, s: RobotState, move: Kinematics) {
    s.validPos && s.timestamp > CommitTime(es, move)
  }

  /** After every run a suggestion that counts replaces the pose; nothing else changes, and one that
      does not count changes nothing. */
  lemma SuggestionReplacesPose(es: seq<Event>, s: RobotState, move: Kinematics)
    ensures var t, t' := Run(START, es, move), Run(START, es + [Suggest(s)], move);
            t' == if Counts(es, s, move) then t.(current := t.current.(pose := s.pose)) else t
  {
    CurrentTime(es, move);
    RunSnoc(START, es, Suggest(s), move);
  }

  // ---------------------------------------------------------------- the pose itself

  /** A pose after a list of motions. */
  function Moved(pose: Pose, ms: seq<Motion>, move: Kinematics): Pose
    decreases |ms|
  {
    if ms == [] then pose else move(Moved(pose, Init(ms), move), ms[|ms| - 1])
  }

  /** How many events of a run go up to the last suggestion that counts. */
  function LastSuggestion(es: seq<Event>, move: Kinematics): (k: nat)
    ensures k <= |es| && (k > 0 ==> es[k - 1].Suggest?)
    decreases |es|
  {
    if es == [] then 0
    else if es[|es| - 1].Suggest? && Counts(Init(es), es[|es| - 1].state, move) then |es|
    else LastSuggestion(Init(es), move)
  }

  /** The pose the motions start from: the last suggestion that counts, or that of power-up. */
  function Origin(es: seq<Event>, move: Kinematics): Pose {
    var k := LastSuggestion(es, move);
    if k == 0 then FRESH.pose else es[k - 1].state.pose
  }

  ghost predicate Reckoned(es: seq<Event>, move: Kinematics) {
    var all, before := Motions(START, es, move), |Motions(START, es[..LastSuggestion(es, move)], move)|;
    before <= |all| && Run(START, es, move).current.pose == Moved(Origin(es, move), all[before..], move)
  }

  lemma MovedSnoc(pose: Pose, ms: seq<Motion>, from: nat, m: Motion, move: Kinematics)
    requires from <= |ms|
    ensures Moved(pose, (ms + [m])[from..], move) == move(Moved(pose, ms[from..], move), m)
  {
    assert (ms + [m])[from..] == ms[from..] + [m];
  }

  lemma SuggestedPose(es: seq<Event>, move: Kinematics)
    requires es != [] && LastSuggestion(es, move) == |es|
    ensures Run(START, es, move).current.pose == Origin(es, move)
  {
    CurrentTime(Init(es), move);
  }

  lemma SuggestionReckoned(es: seq<Event>, move: Kinematics)
    requires es != [] && LastSuggestion(es, move) == |es|
    ensures Reckoned(es, move)
  {
    SuggestedPose(es, move);
    assert es[..|es|] == es;
  }

  lemma LaterOrigin(es: seq<Event>, move: Kinematics)
    requires es != [] && LastSuggestion(es, move) < |es|
    ensures var k := LastSuggestion(Init(es), move);
            LastSuggestion(es, move) == k && Origin(es, move) == Origin(Init(es), move) && Init(es)[..k] == es[..k]
  {
    var k := LastSuggestion(Init(es), move);
    SamePrefix(es, k);
    assert LastSuggestion(es, move) == k;
  }

  lemma SamePrefix(es: seq<Event>, k: nat)
    requires k < |es|
    ensures Init(es)[..k] == es[..k] && (k > 0 ==> Init(es)[k - 1] == es[k - 1])
  {}

  lemma CommitReckoned(es: seq<Event>, move: Kinematics)
    requires es != [] && StepCommits(Run(START, Init(es), move), es[|es| - 1]) && Reckoned(Init(es), move)
    ensures Reckoned(es, move)
  {
    var t, e := Run(START, Init(es), move), es[|es| - 1];
    var ms, m := Motions(START, Init(es), move), MotionOf(t.current, Collected(t, e.packets, e.now).next);
    LaterOrigin(es, move);
    assert Motions(START, es, move) == ms + [m];
    MovedSnoc(Origin(es, move), ms, |Motions(START, es[..LastSuggestion(es, move)], move)|, m, move);
  }

  lemma OtherReckoned(es: seq<Event>, move: Kinematics)
    requires es != [] && LastSuggestion(es, move) < |es| && Reckoned(Init(es), move)
    requires !StepCommits(Run(START, Init(es), move), es[|es| - 1])
    ensures Reckoned(es, move)
  {
    CurrentTime(Init(es), move);
    LaterOrigin(es, move);
    assert Motions(START, es, move) == Motions(START, Init(es), move);
    assert Run(START, es, move).current == Run(START, Init(es), move).current;
  }

  lemma {:induction false} ReckonedThroughout(es: seq<Event>, move: Kinematics)
    ensures Reckoned(es, move)
    decreases |es|
  {
    if es == [] {
    } else {
      ReckonedThroughout(Init(es), move);
      if LastSuggestion(es, move) == |es| {
        SuggestionReckoned(es, move);
      } else if StepCommits(Run(START, Init(es), move), es[|es| - 1]) {
        CommitReckoned(es, move);
      } else {
        OtherReckoned(es, move);
      }
    }
  }

  /** Dead reckoning, over every run from power-up: the pose is that of the last suggestion that counted,
      moved on by the unwrapped differences of the samples committed since, left and right, in order. */
  lemma PoseIsReckoned(es: seq<Event>, before: seq<Event>, move: Kinematics)
    requires before == es[..LastSuggestion(es, move)]
    ensures var ms, n := Unwrapped(Samples(START, es, move)), |Samples(START, before, move)|;
            n <= |ms| && Run(START, es, move).current.pose == Moved(Origin(es, move), ms[n..], move)
  {
    ReckonedThroughout(es, move);
    MotionsFollowSamples(es, move);
    MotionsFollowSamples(before, move);
  }

  /** Without a suggestion every committed sample has moved the pose once. */
  lemma {:induction false} PollsMovePose(es: seq<Event>, move: Kinematics)
    requires forall e :: e in es ==> e.Poll?
    ensures Run(START, es, move).current.pose == Moved(FRESH.pose, Unwrapped(Samples(START, es, move)), move)
  {
    NoSuggestion(es, move);
    assert es[..0] == [];
    PoseIsReckoned(es, [], move);
    assert Unwrapped(Samples(START, es, move))[0..] == Unwrapped(Samples(START, es, move));
  }

  lemma {:induction false} NoSuggestion(es: seq<Event>, move: Kinematics)
    requires forall e :: e in es ==> e.Poll?
    ensures LastSuggestion(es, move) == 0
    decreases |es|
  {
    if es == [] {
    } else {
      assert es[|es| - 1] in es;
      NoSuggestion(Init(es), move);
    }
  }
}
