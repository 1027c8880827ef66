/** The command queue with its periodic entries, and the thread that consumes it. */
module Scheduler {
  import opened Basics

  type Command = int

  datatype Periodic = Periodic(period: int, next: int, count: nat, cmd: Command)

  function NewPeriodic(cmd: Command, period: int): Periodic {
    Periodic(period, 0, 0, cmd)
  }

  predicate Due(p: Periodic, now: int) { now - p.next >= 0 }

  /** A due entry fires once. One that never fired (next is still 0) starts its schedule now. */
  function Fire(p: Periodic, now: int): Periodic {
    if !Due(p, now) then p
    else p.(next := (if p.next == 0 then now else p.next) + p.period, count := p.count + 1)
  }

  function FireAll(ps: seq<Periodic>, now: int): (r: seq<Periodic>)
    ensures |r| == |ps|
  {
    if ps == [] then [] else FireAll(Init(ps), now) + [Fire(ps[|ps| - 1], now)]
  }

  /** The commands a call of gen_periodic pushes, in the entries' order. */
  function Fired(ps: seq<Periodic>, now: int): seq<Command> {
    if ps == [] then [] else
      Fired(Init(ps), now) + (if Due(ps[|ps| - 1], now) then [ps[|ps| - 1].cmd] else [])
  }

  // ---------------------------------------------------------------- one entry over all calls

  /** The entry after calls of gen_periodic at the given times. */
  function Calls(p: Periodic, times: seq<int>): Periodic
    decreases |times|
  {
    if times == [] then p else Fire(Calls(p, Init(times)), times[|times| - 1])
  }

  /** A clock that starts at zero or later and never runs backward. */
  ghost predicate Clock(times: seq<int>) {
    && (forall i :: 0 <= i < |times| ==> times[i] >= 0)
    && (forall i, j :: 0 <= i < j < |times| ==> times[i] <= times[j])
  }

  /** Firings the schedule allows by a given time: one at the start and one per period since. */
  function Allowed(start: int, period: int, now: int): int
    requires period > 0
  {
    (now - start) / period + 1
  }

  /** Firings an entry owes: those allowed less those made. */
  function Owed(start: int, period: int, fired: int, now: int): int
    requires period > 0
  {
    Allowed(start, period, now) - fired
  }

  /** On schedule: the k-th firing is due at start + k * period. */
  ghost predicate OnSchedule(p: Periodic, start: int) {
    p.count >= 1 && p.next == start + p.count * p.period && p.next > 0
  }

  lemma FireKeepsSchedule(p: Periodic, start: int, now: int)
    requires p.period > 0 && OnSchedule(p, start)
    ensures OnSchedule(Fire(p, now), start) && Fire(p, now).period == p.period && Fire(p, now).cmd == p.cmd
    ensures Fire(p, now).count == p.count + (if Due(p, now) then 1 else 0)
  {
    assert (p.count + 1) * p.period == p.count * p.period + p.period;
  }

  /** After its first call an entry is forever on the schedule that call's time set. */
  lemma {:induction false} AlwaysOnSchedule(cmd: Command, period: int, times: seq<int>)
    requires period > 0 && Clock(times) && times != []
    ensures var p := Calls(NewPeriodic(cmd, period), times);
            OnSchedule(p, times[0]) && p.period == period && p.cmd == cmd && p.count <= |times|
    decreases |times|
  {
    var before := Calls(NewPeriodic(cmd, period), Init(times));
    if |times| == 1 {
      assert Init(times) == [];
      assert before == NewPeriodic(cmd, period);
    } else {
      AlwaysOnSchedule(cmd, period, Init(times));
      FireKeepsSchedule(before, times[0], times[|times| - 1]);
    }
  }

  lemma {:induction false} DivAtLeast(x: int, d: int, n: int)
    requires d > 0
    ensures x / d >= n <==> x >= n * d
  {
    var q, r := x / d, x % d;
    assert x == q * d + r;
    if q >= n {
      assert q * d >= n * d;
    } else {
      assert (q + 1) * d == q * d + d;
      assert n * d >= (q + 1) * d;
    }
  }

  /** An entry owes nothing exactly when its next firing lies in the future. */
  lemma {:induction false} OwesIffDue(p: Periodic, start: int, now: int)
    requires p.period > 0 && OnSchedule(p, start)
    ensures Owed(start, p.period, p.count, now) >= 1 <==> Due(p, now)
  {
    DivAtLeast(now - start, p.period, p.count);
  }

  /** It never fires early: at no time has it fired more often than its schedule allows. */
  lemma {:induction false} NeverEarly(cmd: Command, period: int, times: seq<int>)
    requires period > 0 && Clock(times) && times != []
    ensures Owed(times[0], period, Calls(NewPeriodic(cmd, period), times).count, times[|times| - 1]) >= 0
    decreases |times|
  {
    var n := |times| - 1;
    var p := Calls(NewPeriodic(cmd, period), Init(times));
    AlwaysOnSchedule(cmd, period, times);
    if n == 0 {
      assert p == NewPeriodic(cmd, period);
    } else {
      AlwaysOnSchedule(cmd, period, Init(times));
      NeverEarly(cmd, period, Init(times));
      LaterOwesMore(p, times[0], times[n - 1], times[n]);
      OwesIffDue(p, times[0], times[n]);
    }
  }

  lemma {:induction false} LaterOwesMore(p: Periodic, start: int, t: int, now: int)
    requires p.period > 0 && t <= now
    ensures Owed(start, p.period, p.count, t) <= Owed(start, p.period, p.count, now)
    ensures now - t <= p.period ==> Owed(start, p.period, p.count, now) <= Owed(start, p.period, p.count, t) + 1
  {
    DivAtLeast(now - start, p.period, (t - start) / p.period);
    DivAtLeast(t - start, p.period, (t - start) / p.period);
    var q := (now - start) / p.period - 1;
    DivAtLeast(now - start, p.period, q + 1);
    DivAtLeast(t - start, p.period, q);
    assert (q + 1) * p.period == q * p.period + p.period;
  }

  ghost predicate Prompt(times: seq<int>, period: int) {
    forall i, j :: 0 <= i && j == i + 1 < |times| ==> times[j] - times[i] <= period
  }

  /** Called at least once per period, it owes nothing after any call: it has fired exactly once per
      period since its first call. */
  lemma {:induction false} NothingOwed(cmd: Command, period: int, times: seq<int>)
    requires period > 0 && Clock(times) && times != [] && Prompt(times, period)
    ensures Owed(times[0], period, Calls(NewPeriodic(cmd, period), times).count, times[|times| - 1]) == 0
    decreases |times|
  {
    var n := |times| - 1;
    var p := Calls(NewPeriodic(cmd, period), Init(times));
    AlwaysOnSchedule(cmd, period, times);
    if n == 0 {
      assert p == NewPeriodic(cmd, period);
    } else {
      AlwaysOnSchedule(cmd, period, Init(times));
      NothingOwed(cmd, period, Init(times));
      LaterOwesMore(p, times[0], times[n - 1], times[n]);
      OwesIffDue(p, times[0], times[n]);
    }
  }

  /** The entries after the loop has dealt with the first i. */
  function Progress(ps: seq<Periodic>, i: nat, now: int): (r: seq<Periodic>)
    requires i <= |ps|
    ensures |r| == |ps|
  {
    if i == 0 then ps else Progress(ps, i - 1, now)[i - 1 := Fire(ps[i - 1], now)]
  }

  /** The commands pushed by then. */
  function PushedBy(ps: seq<Periodic>, i: nat, now: int): seq<Command>
    requires i <= |ps|
  {
    if i == 0 then [] else PushedBy(ps, i - 1, now) + (if Due(ps[i - 1], now) then [ps[i - 1].cmd] else [])
  }

  lemma ReplaceNext(done: seq<Periodic>, ps: seq<Periodic>, i: nat, p: Periodic)
    requires i == |done| < |ps|
    ensures (done + ps[i..])[i := p] == (done + [p]) + ps[i + 1..]
  {}

  lemma {:induction false} ProgressIsFireAll(ps: seq<Periodic>, i: nat, now: int)
    requires i <= |ps|
    ensures Progress(ps, i, now) == FireAll(ps[..i], now) + ps[i..]
    ensures PushedBy(ps, i, now) == Fired(ps[..i], now)
  {
    if i == 0 {
      assert ps[..0] == [];
    } else {
      ProgressIsFireAll(ps, i - 1, now);
      assert Init(ps[..i]) == ps[..i - 1] && ps[..i][i - 1] == ps[i - 1];
      ReplaceNext(FireAll(ps[..i - 1], now), ps, i - 1, Fire(ps[i - 1], now));
    }
  }

  lemma {:induction false} ProgressLeavesRest(ps: seq<Periodic>, i: nat, k: nat, now: int)
    requires i <= k < |ps|
    ensures Progress(ps, i, now)[k] == ps[k]
  {
    if i == 0 {
    } else {
      ProgressLeavesRest(ps, i - 1, k, now);
    }
  }

  // ---------------------------------------------------------------- the queue

  class CommandQueue {
    var q: seq<Command>
    var perCmds: seq<Periodic>

    constructor ()
      ensures q == [] && perCmds == []
    {
      q, perCmds := [], [];
    }

    method Front() returns (c: Command)
      requires q != []
      ensures c == q[0]
    {
      c := q[0];
    }

    method Pop()
      requires q != []
      modifies this`q
      ensures q == old(q)[1..]
    {
      q := q[1..];
    }

    method Push(c: Command)
      modifies this`q
      ensures q == old(q) + [c]
    {
      q := q + [c];
    }

    /** The body of gen_periodic's loop. */
    method FireEntry(i: nat, now: int)
      requires i < |perCmds|
      modifies this
      ensures perCmds == old(perCmds)[i := Fire(old(perCmds)[i], now)]
      ensures q == old(q) + (if Due(old(perCmds)[i], now) then [old(perCmds)[i].cmd] else [])
    {
      var it := perCmds[i];
      if now - it.next >= 0 {
        Push(it.cmd);
        if it.next == 0 {
          it := it.(next := now);
        }
        it := it.(next := it.next + it.period, count := it.count + 1);
      }
      perCmds := perCmds[i := it];
    }

    method GenPeriodic(now: int)
      modifies this
      ensures perCmds == FireAll(old(perCmds), now)
      ensures q == old(q) + Fired(old(perCmds), now)
    {
      ghost var before, queued := perCmds, q;
      for i := 0 to |perCmds|
        invariant perCmds == Progress(before, i, now)
        invariant q == queued + PushedBy(before, i, now)
      {
        ProgressLeavesRest(before, i, i, now);
        FireEntry(i, now);
      }
      ProgressIsFireAll(before, |before|, now);
      assert before[..|before|] == before;
    }

    method AddPeriodic(c: Command, per: int)
      modifies this`perCmds
      ensures perCmds == old(perCmds) + [NewPeriodic(c, per)]
    {
      var p := Periodic(per, 0, 0, c);
      perCmds := perCmds + [p];
    }
  }

  lemma {:induction false} FireAllAt(ps: seq<Periodic>, now: int, i: nat)
    requires i < |ps|
    ensures FireAll(ps, now)[i] == Fire(ps[i], now)
  {
    if i == |ps| - 1 {
    } else {
      FireAllAt(Init(ps), now, i);
    }
  }

  /** The positions of the due entries. */
  function DuePositions(ps: seq<Periodic>, now: int): seq<nat> {
    if ps == [] then [] else
      DuePositions(Init(ps), now) + (if Due(ps[|ps| - 1], now) then [|ps| - 1] else [])
  }

  lemma {:induction false} FiredLength(ps: seq<Periodic>, now: int)
    ensures |Fired(ps, now)| == |DuePositions(ps, now)|
  {
    if ps == [] {
    } else {
      FiredLength(Init(ps), now);
    }
  }

  lemma {:induction false} FiredAt(ps: seq<Periodic>, now: int, k: nat)
    requires k < |DuePositions(ps, now)| == |Fired(ps, now)|
    ensures var i := DuePositions(ps, now)[k];
            i < |ps| && Due(ps[i], now) && Fired(ps, now)[k] == ps[i].cmd
    decreases |ps|
  {
    FiredLength(Init(ps), now);
    if k == |DuePositions(Init(ps), now)| {
    } else {
      FiredAt(Init(ps), now, k);
    }
  }

  lemma {:induction false} DueInOrder(ps: seq<Periodic>, now: int, j: nat, k: nat)
    requires j < k < |DuePositions(ps, now)|
    ensures DuePositions(ps, now)[j] < DuePositions(ps, now)[k]
    decreases |ps|
  {
    if k < |DuePositions(Init(ps), now)| {
      DueInOrder(Init(ps), now, j, k);
    } else {
      FiredLength(Init(ps), now);
      FiredAt(Init(ps), now, j);
    }
  }

  lemma {:induction false} DueIsListed(ps: seq<Periodic>, now: int, i: nat)
    requires i < |ps| && Due(ps[i], now)
    ensures i in DuePositions(ps, now)
    decreases |ps|
  {
    if i == |ps| - 1 {
    } else {
      DueIsListed(Init(ps), now, i);
    }
  }

  /** Every entry of a queue lives its own life: a call of gen_periodic does to each what it would do
      to it alone, and pushes the commands of exactly the due ones, in the entries' order. */
  lemma {:induction false} EntriesAreIndependent(ps: seq<Periodic>, now: int)
    ensures forall i :: 0 <= i < |ps| ==> FireAll(ps, now)[i] == Fire(ps[i], now)
    ensures var due := DuePositions(ps, now);
            && (forall i :: 0 <= i < |ps| && Due(ps[i], now) ==> i in due)
            && (forall j, k :: 0 <= j < k < |due| ==> due[j] < due[k])
            && |Fired(ps, now)| == |due|
            && forall k :: 0 <= k < |due| ==>
                 due[k] < |ps| && Due(ps[due[k]], now) && Fired(ps, now)[k] == ps[due[k]].cmd
  {
    var due := DuePositions(ps, now);
    FiredLength(ps, now);
    forall i | 0 <= i < |ps| ensures FireAll(ps, now)[i] == Fire(ps[i], now) {
      FireAllAt(ps, now, i);
    }
    forall i | 0 <= i < |ps| && Due(ps[i], now) ensures i in due {
      DueIsListed(ps, now, i);
    }
    forall j, k | 0 <= j < k < |due| ensures due[j] < due[k] {
      DueInOrder(ps, now, j, k);
    }
    forall k | 0 <= k < |due|
      ensures due[k] < |ps| && Due(ps[due[k]], now) && Fired(ps, now)[k] == ps[due[k]].cmd
    {
      FiredAt(ps, now, k);
    }
  }

  // ---------------------------------------------------------------- the consumer thread

  const KEEP_ALIVE: Command := 0
  const SWAP_DEPTH: Command := 1
  const OVERFLOW := 100

  /** What happens around one turn of the loop: commands other threads pushed since the last turn,
      commands pushed while one executes, and the clock when periodic entries are generated. */
  datatype Turn = Turn(arrivals: seq<Command>, during: seq<Command>, now: int)

  datatype Loop = Loop(q: seq<Command>, perCmds: seq<Periodic>, executed: seq<Command>, pushed: seq<Command>,
                       overflow: bool)

  function Pushed(l: Loop, cs: seq<Command>): Loop {
    l.(q := l.q + cs, pushed := l.pushed + cs)
  }

  function Executed(l: Loop): Loop
    requires l.q != []
  {
    l.(q := l.q[1..], executed := l.executed + [l.q[0]])
  }

  function AfterCommand(l: Loop, t: Turn): Loop {
    if l.q == [] then l else Pushed(Executed(l), t.during)
  }

  function TakeTurn(l: Loop, t: Turn): Loop {
    if l.overflow then l else
      var l1 := Pushed(l, t.arrivals);
      if |l1.q| > OVERFLOW then l1.(overflow := true) else
        var l2 := AfterCommand(l1, t);
        Pushed(l2, Fired(l2.perCmds, t.now)).(perCmds := FireAll(l2.perCmds, t.now))
  }

  function Turns(l: Loop, ts: seq<Turn>): Loop
    decreases |ts|
  {
    if ts == [] then l else TakeTurn(Turns(l, Init(ts)), ts[|ts| - 1])
  }

  /** Every command pushed is executed or still queued, in the order of the pushes, whatever the
      clock and the other threads do and whether or not the loop overflows. */
  lemma {:induction false} NothingLostInOrder(l: Loop, ts: seq<Turn>)
    requires l.pushed == l.executed + l.q
    ensures var r := Turns(l, ts); r.pushed == r.executed + r.q
    decreases |ts|
  {
    if ts == [] {
    } else {
      NothingLostInOrder(l, Init(ts));
      var b, t := Turns(l, Init(ts)), ts[|ts| - 1];
      PushKeepsOrder(b, t.arrivals);
      var l2 := AfterCommand(Pushed(b, t.arrivals), t);
      CommandKeepsOrder(Pushed(b, t.arrivals), t);
      PushKeepsOrder(l2, Fired(l2.perCmds, t.now));
    }
  }

  lemma CommandKeepsOrder(l: Loop, t: Turn)
    requires l.pushed == l.executed + l.q
    ensures var r := AfterCommand(l, t); r.pushed == r.executed + r.q
  {
    if l.q != [] {
      assert Executed(l).executed + Executed(l).q == l.executed + l.q;
      PushKeepsOrder(Executed(l), t.during);
    }
  }

  function Clocks(ts: seq<Turn>): (times: seq<int>)
    ensures |times| == |ts|
  {
    if ts == [] then [] else Clocks(Init(ts)) + [ts[|ts| - 1].now]
  }

  /** As long as the loop runs, each periodic entry keeps the schedule it would keep alone. */
  lemma {:induction false} LoopKeepsSchedules(l: Loop, ts: seq<Turn>, i: nat)
    requires i < |l.perCmds| && !Turns(l, ts).overflow
    ensures |Turns(l, ts).perCmds| == |l.perCmds|
    ensures Turns(l, ts).perCmds[i] == Calls(l.perCmds[i], Clocks(ts))
    decreases |ts|
  {
    if ts == [] {
    } else {
      var before, t := Turns(l, Init(ts)), ts[|ts| - 1];
      TurnFires(before, t);
      LoopKeepsSchedules(l, Init(ts), i);
      FireAllAt(before.perCmds, t.now, i);
      assert Init(Clocks(ts)) == Clocks(Init(ts));
    }
  }

  lemma TurnFires(l: Loop, t: Turn)
    requires !TakeTurn(l, t).overflow
    ensures !l.overflow && TakeTurn(l, t).perCmds == FireAll(l.perCmds, t.now)
  {}

  lemma PushKeepsOrder(l: Loop, cs: seq<Command>)
    requires l.pushed == l.executed + l.q
    ensures Pushed(l, cs).pushed == Pushed(l, cs).executed + Pushed(l, cs).q
  {
    assert l.executed + l.q + cs == l.executed + (l.q + cs);
  }

  // ---------------------------------------------------------------- every command gets its turn

  /** A turn throws exactly when more than 100 commands are queued after its arrivals. Otherwise it
      executes the oldest one, if there is any, and what is pushed meanwhile queues up behind the rest. */
  lemma TurnExecutes(l: Loop, t: Turn)
    requires !l.overflow
    ensures var q, r := l.q + t.arrivals, TakeTurn(l, t);
            && (r.overflow <==> |q| > 100)
            && r.executed == (if 1 <= |q| <= 100 then l.executed + [q[0]] else l.executed)
            && r.q == (if |q| > 100 then q
                       else if q == [] then Fired(l.perCmds, t.now)
                       else q[1..] + t.during + Fired(l.perCmds, t.now))
  {}

  lemma OneMoreExecuted(q: seq<Command>, n: nat, executed: seq<Command>, before: seq<Command>, rest: seq<Command>)
    requires n < |q| && executed == before + q[..n] && q[n..] <= rest
    ensures rest[0] == q[n] && executed + [rest[0]] == before + q[..n + 1] && q[n + 1..] <= rest[1..]
  {
    assert rest[0] == q[n..][0];
    assert q[n + 1..] == q[n..][1..];
  }

  /** While nothing overflows, every turn executes one of the commands that were queued at the start,
      oldest first, until all have been executed; the others wait in front of all that came later. */
  lemma {:induction false} ExecutedInTime(l: Loop, ts: seq<Turn>)
    requires !Turns(l, ts).overflow
    ensures var r := Turns(l, ts);
            if |ts| <= |l.q| then r.executed == l.executed + l.q[..|ts|] && l.q[|ts|..] <= r.q
            else l.executed + l.q <= r.executed
    decreases |ts|
  {
    if ts == [] {
      assert l.executed + [] == l.executed;
    } else {
      var b, t := Turns(l, Init(ts)), ts[|ts| - 1];
      TurnFires(b, t);
      ExecutedInTime(l, Init(ts));
      TurnExecutes(b, t);
      if |ts| <= |l.q| {
        OneMoreExecuted(l.q, |ts| - 1, b.executed, l.executed, b.q + t.arrivals);
      } else if |ts| - 1 == |l.q| {
        assert l.q[..|ts| - 1] == l.q;
      }
    }
  }

  lemma FirstOf(q: seq<Command>, n: nat, k: nat)
    requires k < n <= |q|
    ensures q[..n][k] == q[k]
  {}

  lemma PlaceOf(all: seq<Command>, before: seq<Command>, q: seq<Command>, k: nat)
    requires k < |q| && before + q <= all
    ensures |before| + k < |all| && all[|before| + k] == q[k]
  {
    assert all[|before| + k] == (before + q)[|before| + k];
  }

  /** A command at place k of the queue has been executed after k + 1 turns. */
  lemma ExecutedAt(l: Loop, ts: seq<Turn>, k: nat)
    requires k < |l.q| && k < |ts| && !Turns(l, ts).overflow
    ensures var at := |l.executed| + k; at < |Turns(l, ts).executed| && Turns(l, ts).executed[at] == l.q[k]
  {
    ExecutedInTime(l, ts);
    var executed := Turns(l, ts).executed;
    if |ts| <= |l.q| {
      FirstOf(l.q, |ts|, k);
      PlaceOf(executed, l.executed, l.q[..|ts|], k);
    } else {
      PlaceOf(executed, l.executed, l.q, k);
    }
  }

  ghost predicate TooMany(l: Loop, ts: seq<Turn>, i: nat) {
    i < |ts| && |Turns(l, ts[..i]).q + ts[i].arrivals| > 100
  }

  lemma TooManyThrows(l: Loop, ts: seq<Turn>, i: nat)
    requires TooMany(l, ts, i)
    ensures Turns(l, ts).overflow
  {
    TurnsSnoc(l, ts, i);
    if !Turns(l, ts[..i]).overflow {
      TurnExecutes(Turns(l, ts[..i]), ts[i]);
    }
    Stuck(l, ts, i + 1);
  }

  lemma {:induction false} ThrownBy(l: Loop, ts: seq<Turn>) returns (i: nat)
    requires !l.overflow && Turns(l, ts).overflow
    ensures TooMany(l, ts, i)
    decreases |ts|
  {
    i := |ts| - 1;
    if Turns(l, Init(ts)).overflow {
      i := ThrownBy(l, Init(ts));
      assert Init(ts)[..i] == ts[..i];
    } else {
      TurnExecutes(Turns(l, Init(ts)), ts[i]);
    }
  }

  /** The loop throws exactly if some turn finds more than 100 commands. */
  lemma OverflowsIff(l: Loop, ts: seq<Turn>)
    requires !l.overflow
    ensures Turns(l, ts).overflow <==> exists i: nat :: TooMany(l, ts, i)
  {
    if Turns(l, ts).overflow {
      var i := ThrownBy(l, ts);
    } else {
      forall i: nat | TooMany(l, ts, i) ensures false {
        TooManyThrows(l, ts, i);
      }
    }
  }

  // ---------------------------------------------------------------- schedule and queue together

  function Occurrences(s: seq<Command>, c: Command): nat { multiset(s)[c] }

  /** What a turn pushes that is not periodic. */
  function FromOthersIn(l: Loop, t: Turn): seq<Command> {
    if l.overflow then []
    else if |l.q + t.arrivals| > OVERFLOW || l.q + t.arrivals == [] then t.arrivals
    else t.arrivals + t.during
  }

  function FromOthers(l: Loop, ts: seq<Turn>): seq<Command>
    decreases |ts|
  {
    if ts == [] then [] else FromOthers(l, Init(ts)) + FromOthersIn(Turns(l, Init(ts)), ts[|ts| - 1])
  }

  /** Entry i is the only one with its command. */
  ghost predicate Alone(ps: seq<Periodic>, i: nat) {
    i < |ps| && forall k :: 0 <= k < |ps| && k != i ==> ps[k].cmd != ps[i].cmd
  }

  lemma {:induction false} FiredOnlyOthers(ps: seq<Periodic>, now: int, c: Command)
    requires forall k :: 0 <= k < |ps| ==> ps[k].cmd != c
    ensures Occurrences(Fired(ps, now), c) == 0
  {
    if ps == [] {
    } else {
      FiredOnlyOthers(Init(ps), now, c);
    }
  }

  lemma {:induction false} FiredOnce(ps: seq<Periodic>, now: int, i: nat)
    requires Alone(ps, i)
    ensures Occurrences(Fired(ps, now), ps[i].cmd) == if Due(ps[i], now) then 1 else 0
    decreases |ps|
  {
    if i == |ps| - 1 {
      FiredOnlyOthers(Init(ps), now, ps[i].cmd);
    } else {
      FiredOnce(Init(ps), now, i);
    }
  }

  lemma FireAllKeepsAlone(ps: seq<Periodic>, now: int, i: nat)
    requires Alone(ps, i)
    ensures Alone(FireAll(ps, now), i) && FireAll(ps, now)[i] == Fire(ps[i], now)
  {
    forall k | 0 <= k < |ps| ensures FireAll(ps, now)[k] == Fire(ps[k], now) {
      FireAllAt(ps, now, k);
    }
  }

  lemma {:induction false} TurnPushes(l: Loop, t: Turn, i: nat)
    requires Alone(l.perCmds, i)
    ensures var r, c := TakeTurn(l, t), l.perCmds[i].cmd;
            && Alone(r.perCmds, i) && r.perCmds[i].cmd == c
            && Occurrences(r.pushed, c) + l.perCmds[i].count
               == Occurrences(l.pushed, c) + Occurrences(FromOthersIn(l, t), c) + r.perCmds[i].count
  {
    var others, fired := FromOthersIn(l, t), Fired(l.perCmds, t.now);
    FiredOnce(l.perCmds, t.now, i);
    FireAllKeepsAlone(l.perCmds, t.now, i);
    WhatTurnPushes(l, t);
    OccursInBoth(l.pushed, others, l.perCmds[i].cmd);
    OccursInBoth(l.pushed + others, fired, l.perCmds[i].cmd);
  }

  lemma OccursInBoth(a: seq<Command>, b: seq<Command>, c: Command)
    ensures Occurrences(a + b, c) == Occurrences(a, c) + Occurrences(b, c)
  {}

  lemma WhatTurnPushes(l: Loop, t: Turn)
    ensures var r, others := TakeTurn(l, t), FromOthersIn(l, t);
            if r.overflow then r.pushed == l.pushed + others && r.perCmds == l.perCmds
            else r.pushed == l.pushed + others + Fired(l.perCmds, t.now) && r.perCmds == FireAll(l.perCmds, t.now)
  {}

  /** Over every run: what is pushed under an entry's command is what others pushed and one per firing. */
  lemma {:induction false} OnePushPerFiring(l: Loop, ts: seq<Turn>, i: nat)
    requires Alone(l.perCmds, i)
    ensures var r, c := Turns(l, ts), l.perCmds[i].cmd;
            && Alone(r.perCmds, i) && r.perCmds[i].cmd == c
            && Occurrences(r.pushed, c) + l.perCmds[i].count
               == Occurrences(l.pushed, c) + Occurrences(FromOthers(l, ts), c) + r.perCmds[i].count
    decreases |ts|
  {
    if ts == [] {
    } else {
      OnePushPerFiring(l, Init(ts), i);
      TurnPushes(Turns(l, Init(ts)), ts[|ts| - 1], i);
    }
  }

  const PERIODIC := [NewPeriodic(KEEP_ALIVE, 100), NewPeriodic(SWAP_DEPTH, 99)]

  function StartOf(q: seq<Command>): Loop { Loop(q, PERIODIC, [], q, false) }

  /** An entry alone: it fires at most as often as its schedule allows, and exactly that often when it
      is called at least once per period. */
  lemma FiringsOnTime(cmd: Command, period: int, times: seq<int>)
    requires period > 0 && Clock(times) && times != []
    ensures var n, allowed := Calls(NewPeriodic(cmd, period), times).count,
                              Allowed(times[0], period, times[|times| - 1]);
            1 <= n <= allowed && (Prompt(times, period) ==> n == allowed)
  {
    AlwaysOnSchedule(cmd, period, times);
    NeverEarly(cmd, period, times);
    if Prompt(times, period) {
      NothingOwed(cmd, period, times);
    }
  }

  lemma OwnEntry(i: nat)
    requires i < |PERIODIC|
    ensures Alone(PERIODIC, i) && PERIODIC[i].count == 0
    ensures PERIODIC[i] == NewPeriodic(PERIODIC[i].cmd, PERIODIC[i].period) && PERIODIC[i].period > 0
  {}

  lemma OwnPushes(q: seq<Command>, ts: seq<Turn>, i: nat)
    requires i < |PERIODIC|
    ensures var l, c := Turns(StartOf(q), ts), PERIODIC[i].cmd;
            && i < |l.perCmds|
            && Occurrences(l.executed + l.q, c)
               == Occurrences(q, c) + Occurrences(FromOthers(StartOf(q), ts), c) + l.perCmds[i].count
  {
    OwnEntry(i);
    OnePushPerFiring(StartOf(q), ts, i);
    NothingLostInOrder(StartOf(q), ts);
  }

  lemma OwnFirings(q: seq<Command>, ts: seq<Turn>, i: nat)
    requires i < |PERIODIC| && !Turns(StartOf(q), ts).overflow
    ensures var l, p := Turns(StartOf(q), ts), PERIODIC[i];
            i < |l.perCmds| && l.perCmds[i] == Calls(NewPeriodic(p.cmd, p.period), Clocks(ts))
  {
    OwnEntry(i);
    LoopKeepsSchedules(StartOf(q), ts, i);
  }

  /** The thread's own keep-alives and depth swaps: beyond those others push, it has executed or queued
      one per firing, at most as many as the time since its first turn allows, and exactly that many
      when its turns are at most a period apart. */
  lemma PeriodicCommandsArrive(q: seq<Command>, ts: seq<Turn>, i: nat)
    requires i < |PERIODIC| && ts != [] && Clock(Clocks(ts))
    requires !Turns(StartOf(q), ts).overflow
    ensures var l, times := Turns(StartOf(q), ts), Clocks(ts);
            var cmd, period := if i == 0 then KEEP_ALIVE else SWAP_DEPTH, if i == 0 then 100 else 99;
            var allowed := Allowed(times[0], period, times[|times| - 1]);
            && i < |l.perCmds|
            && Occurrences(l.executed + l.q, cmd)
               == Occurrences(q, cmd) + Occurrences(FromOthers(StartOf(q), ts), cmd) + l.perCmds[i].count
            && 1 <= l.perCmds[i].count <= allowed
            && (Prompt(times, period) ==> l.perCmds[i].count == allowed)
  {
    OwnEntry(i);
    OwnPushes(q, ts, i);
    OwnFirings(q, ts, i);
    FiringsOnTime(PERIODIC[i].cmd, PERIODIC[i].period, Clocks(ts));
  }

  /** The loop until quit, or until it throws. */
  method RunTurns(queue: CommandQueue, turns: seq<Turn>) returns (executed: seq<Command>, overflow: bool)
    modifies queue
    ensures var l := Turns(Loop(old(queue.q), old(queue.perCmds), [], old(queue.q), false), turns);
            overflow == l.overflow && executed == l.executed && queue.q == l.q && queue.perCmds == l.perCmds
  {
    executed, overflow := [], false;
    ghost var pushed := queue.q;
    ghost var start := Loop(queue.q, queue.perCmds, [], queue.q, false);
    for i := 0 to |turns|
      invariant !overflow
      invariant Turns(start, turns[..i]) == Loop(queue.q, queue.perCmds, executed, pushed, false)
    {
      TurnsSnoc(start, turns, i);
      executed, overflow, pushed := OneTurn(queue, turns[i], executed, pushed);
      if overflow {
        Stuck(start, turns, i + 1);
        return;
      }
    }
    assert turns[..|turns|] == turns;
  }

  lemma TurnsSnoc(l: Loop, ts: seq<Turn>, i: nat)
    requires i < |ts|
    ensures Turns(l, ts[..i + 1]) == TakeTurn(Turns(l, ts[..i]), ts[i])
  {
    assert Init(ts[..i + 1]) == ts[..i];
  }

  /** The commands executed until the queue is empty, each of which may push more. */
  function Emptied(q: seq<Command>, during: seq<seq<Command>>): seq<Command>
    decreases |q| + |Flatten(during)|
  {
    if q == [] then []
    else if during == [] then [q[0]] + Emptied(q[1..], [])
    else [q[0]] + Emptied(q[1..] + during[0], during[1..])
  }

  lemma FlattenPrefix(during: seq<seq<Command>>, n: nat)
    requires n < |during|
    ensures Flatten(during[..n + 1]) == during[0] + Flatten(during[1..][..n])
  {
    assert during[..n + 1][1..] == during[1..][..n];
  }

  lemma Requeued(q: seq<Command>, pushed: seq<Command>, more: seq<Command>)
    requires q != []
    ensures [q[0]] + (q[1..] + pushed + more) == q + (pushed + more)
  {
    assert q == [q[0]] + q[1..];
  }

  /** They are the queue, followed by everything they pushed, in order. */
  lemma {:induction false} EmptiedInOrder(q: seq<Command>, during: seq<seq<Command>>)
    ensures var all := Emptied(q, during);
            all == q + Flatten(during[..if |all| < |during| then |all| else |during|])
    decreases |q| + |Flatten(during)|
  {
    if q == [] {
    } else if during == [] {
      EmptiedInOrder(q[1..], []);
    } else {
      var rest := during[1..];
      EmptiedInOrder(q[1..] + during[0], rest);
      var more := Emptied(q[1..] + during[0], rest);
      var n := if |more| < |rest| then |more| else |rest|;
      FlattenPrefix(during, n);
      Requeued(q, during[0], Flatten(rest[..n]));
    }
  }

  /** Execute whatever is still queued, and whatever that pushes. */
  method Drain(queue: CommandQueue, during: seq<seq<Command>>) returns (executed: seq<Command>)
    modifies queue`q
    ensures executed == Emptied(old(queue.q), during) && queue.q == []
  {
    executed := [];
    var rest := during;
    while queue.q != []
      invariant executed + Emptied(queue.q, rest) == Emptied(old(queue.q), during)
      decreases |queue.q| + |Flatten(rest)|
    {
      var cmd := queue.Front();
      queue.Pop();
      executed := executed + [cmd];
      if rest != [] {
        queue.q, rest := queue.q + rest[0], rest[1..];
      }
    }
  }

  /** The thread that consumes the queue: two periodic commands, one depth swap of its own, the loop,
      and on a normal exit the commands left over. */
  method MainCommandQueue(queue: CommandQueue, turns: seq<Turn>, during: seq<seq<Command>>)
    returns (actions: seq<Command>, overflow: bool)
    requires queue.perCmds == []
    modifies queue
    ensures var l := Turns(StartOf(old(queue.q)), turns);
            && overflow == l.overflow && queue.perCmds == l.perCmds
            && actions == [SWAP_DEPTH] + l.executed + (if overflow then [] else Emptied(l.q, during))
            && queue.q == (if overflow then l.q else [])
  {
    queue.AddPeriodic(KEEP_ALIVE, 100);
    queue.AddPeriodic(SWAP_DEPTH, 99);
    assert queue.perCmds == PERIODIC;
    actions := [SWAP_DEPTH];
    var executed, rest;
    executed, overflow := RunTurns(queue, turns);
    actions := actions + executed;
    if !overflow {
      rest := Drain(queue, during);
      actions := actions + rest;
    }
  }

  lemma {:induction false} Stuck(l: Loop, ts: seq<Turn>, i: nat)
    requires i <= |ts| && Turns(l, ts[..i]).overflow
    ensures Turns(l, ts) == Turns(l, ts[..i])
    decreases |ts|
  {
    if i < |ts| {
      assert Init(ts)[..i] == ts[..i];
      Stuck(l, Init(ts), i);
    } else {
      assert ts[..i] == ts;
    }
  }

  /** One turn of the loop body. */
  method OneTurn(queue: CommandQueue, t: Turn, executed0: seq<Command>, ghost pushed0: seq<Command>)
    returns (executed: seq<Command>, overflow: bool, ghost pushed: seq<Command>)
    modifies queue
    ensures Loop(queue.q, queue.perCmds, executed, pushed, overflow)
         == TakeTurn(Loop(old(queue.q), old(queue.perCmds), executed0, pushed0, false), t)
  {
    executed, overflow := executed0, false;
    queue.q := queue.q + t.arrivals;
    pushed := pushed0 + t.arrivals;
    if |queue.q| > 100 {
      overflow := true;
      return;
    }
    if |queue.q| > 0 {
      var cmd := queue.Front();
      queue.Pop();
      executed := executed + [cmd];
      queue.q := queue.q + t.during;
      pushed := pushed + t.during;
    }
    pushed := pushed + Fired(queue.perCmds, t.now);
    queue.GenPeriodic(t.now);
  }
}
