/** The board over whole runs, told from its events alone: which bytes it hears and which it sends. */
module BoardRuns {
  import opened Basics
  import opened Framing
  import opened Microcontroller
  import CircularBuffer

  // ---------------------------------------------------------------- bytes in

  /** The bytes that reach the receive register without a parity or framing error. */
  function Intact(es: seq<BoardEvent>): seq<byte>
    decreases |es|
  {
    if es == [] then [] else
      Intact(Init(es)) + (if es[|es| - 1].RxInterrupt? && !es[|es| - 1].bad then [es[|es| - 1].c] else [])
  }

  /** One of them came after the last pass. */
  predicate Waiting(es: seq<BoardEvent>)
    ensures Waiting(es) ==> Intact(es) != []
    decreases |es|
  {
    es != [] && !es[|es| - 1].Pass? && ((es[|es| - 1].RxInterrupt? && !es[|es| - 1].bad) || Waiting(Init(es)))
  }

  /** A pass comes between any two of them. */
  ghost predicate HeardInTime(es: seq<BoardEvent>)
    decreases |es|
  {
    es != [] ==> HeardInTime(Init(es)) && (es[|es| - 1].RxInterrupt? && !es[|es| - 1].bad ==> !Waiting(Init(es)))
  }

  lemma {:induction false} WaitingIsReady(es: seq<BoardEvent>)
    ensures Run(es).readyToRec <==> Waiting(es)
    ensures Waiting(es) ==> Run(es).rxReg == Intact(es)[|Intact(es)| - 1]
    decreases |es|
  {
    if es == [] {
    } else {
      WaitingIsReady(Init(es));
      BetweenPasses(Init(es));
      if es[|es| - 1].Pass? {
        PassHears(Run(Init(es)), es[|es| - 1].readings);
      }
    }
  }

  /** All bytes that arrived intact have been heard, but for one that may wait in the register. */
  ghost predicate AllHeard(b: Board, intact: seq<byte>, waiting: bool) {
    && b.arrived == intact
    && Bytes(b.heard) == (if waiting then Init(intact) else intact)
  }

  lemma PassHearsAll(b: Board, r: Readings, intact: seq<byte>)
    requires b.rx == [] && b.asm.received < FRAME_SIZE && AllHeard(b, intact, b.readyToRec)
    requires b.readyToRec ==> intact != [] && b.rxReg == intact[|intact| - 1]
    ensures AllHeard(OnePass(b, r), intact, false)
  {
    PassHears(b, r);
    HeardGrows(b.heard, Input(b.rxReg, r));
  }

  /** Every byte that arrives intact, and no other, is heard, in order and by the next pass, whatever
      the transmit side does. */
  lemma {:induction false} NothingMissed(es: seq<BoardEvent>)
    requires HeardInTime(es)
    ensures Run(es).arrived == Intact(es)
    ensures Bytes(Run(es).heard) == if Waiting(es) then Init(Intact(es)) else Intact(es)
    decreases |es|
  {
    if es == [] {
    } else {
      NothingMissed(Init(es));
      WaitingIsReady(Init(es));
      BetweenPasses(Init(es));
      var b, e, intact := Run(Init(es)), es[|es| - 1], Intact(Init(es));
      match e
      case Pass(r) => PassHearsAll(b, r, intact);
      case TxInterrupt =>
      case RxInterrupt(c, bad) => assert Init(intact + [c]) == intact;
    }
  }

  // ---------------------------------------------------------------- bytes out

  /** What a pass does to the line, and to the queue if it hears nothing. */
  lemma PassSends(b: Board, r: Readings)
    requires b.rx == [] && b.asm.received < FRAME_SIZE
    ensures var b', sends := OnePass(b, r), b.readyToSend && b.tx != [];
            && b'.line == (if sends then b.line + [b.tx[0]] else b.line)
            && b'.readyToSend == (b.readyToSend && !sends)
            && (!b.readyToRec ==> b'.tx == (if sends then b.tx[1..] else b.tx))
  {}

  /** No byte has been sent since the last transmit interrupt, or since power-up. */
  predicate MaySend(es: seq<BoardEvent>)
    decreases |es|
  {
    es != [] ==> es[|es| - 1].TxInterrupt? || (MaySend(Init(es)) && Run(es).line == Run(Init(es)).line)
  }

  lemma LongerLine(b: Board, r: Readings)
    requires b.rx == [] && b.asm.received < FRAME_SIZE
    ensures OnePass(b, r).line == b.line <==> !(b.readyToSend && b.tx != [])
  {
    PassSends(b, r);
  }

  lemma {:induction false} MaySendIsReady(es: seq<BoardEvent>)
    ensures Run(es).readyToSend <==> MaySend(es)
    decreases |es|
  {
    if es == [] {
    } else {
      MaySendIsReady(Init(es));
      BetweenPasses(Init(es));
      if es[|es| - 1].Pass? {
        PassSends(Run(Init(es)), es[|es| - 1].readings);
        LongerLine(Run(Init(es)), es[|es| - 1].readings);
      }
    }
  }

  /** In every run a pass sends the oldest queued byte exactly when no byte was sent since the last
      transmit interrupt; nothing else ever reaches the line. */
  lemma SendsWhenItMay(es: seq<BoardEvent>)
    requires es != []
    ensures var init, e := Init(es), es[|es| - 1];
            var b := Run(init);
            Run(es).line == if e.Pass? && MaySend(init) && b.tx != [] then b.line + [b.tx[0]] else b.line
  {
    var init, e := Init(es), es[|es| - 1];
    MaySendIsReady(init);
    BetweenPasses(init);
    if e.Pass? {
      PassSends(Run(init), e.readings);
    }
  }

  function TxInterrupts(es: seq<BoardEvent>): nat
    decreases |es|
  {
    if es == [] then 0 else TxInterrupts(Init(es)) + (if es[|es| - 1].TxInterrupt? then 1 else 0)
  }

  /** The sending hardware is never overrun: one byte at power-up and one for each interrupt. */
  lemma {:induction false} SendsNoFaster(es: seq<BoardEvent>)
    ensures |Run(es).line| + (if MaySend(es) then 1 else 0) <= TxInterrupts(es) + 1
    decreases |es|
  {
    if es == [] {
    } else {
      SendsNoFaster(Init(es));
      SendsWhenItMay(es);
    }
  }

  /** A run, and then rounds of a transmit interrupt and a pass, without an arrival. */
  function WithRounds(es: seq<BoardEvent>, rs: seq<Readings>): seq<BoardEvent>
    decreases |rs|
  {
    if rs == [] then es else WithRounds(es, Init(rs)) + [TxInterrupt, Pass(rs[|rs| - 1])]
  }

  lemma OneRound(es: seq<BoardEvent>, r: Readings)
    requires !Waiting(es)
    ensures var b, after := Run(es), es + [TxInterrupt, Pass(r)];
            && !Waiting(after)
            && Run(after).line == (if b.tx == [] then b.line else b.line + [b.tx[0]])
            && Run(after).tx == (if b.tx == [] then [] else b.tx[1..])
            && Run(after).heard == b.heard
  {
    var ready := es + [TxInterrupt];
    assert Init(ready) == es && Init(ready + [Pass(r)]) == ready;
    assert es + [TxInterrupt, Pass(r)] == ready + [Pass(r)];
    BetweenPasses(ready);
    WaitingIsReady(ready);
    PassSends(Run(ready), r);
    PassHears(Run(ready), r);
  }

  /** The n oldest queued bytes, or all of them, have moved to the line. */
  ghost predicate SentOldest(b: Board, after: Board, n: nat) {
    var m := if n < |b.tx| then n else |b.tx|;
    after.line == b.line + b.tx[..m] && after.tx == b.tx[m..] && after.heard == b.heard
  }

  lemma SendsNext(b: Board, mid: Board, after: Board, n: nat)
    requires SentOldest(b, mid, n) && after.heard == mid.heard
    requires after.line == if mid.tx == [] then mid.line else mid.line + [mid.tx[0]]
    requires after.tx == if mid.tx == [] then [] else mid.tx[1..]
    ensures SentOldest(b, after, n + 1)
  {
    if n < |b.tx| {
      assert b.line + b.tx[..n] + [b.tx[n]] == b.line + b.tx[..n + 1];
    }
  }

  /** What is queued does get sent: n rounds put the n oldest queued bytes on the line, in order. */
  lemma {:induction false} RoundsSend(es: seq<BoardEvent>, rs: seq<Readings>)
    requires !Waiting(es)
    ensures !Waiting(WithRounds(es, rs)) && SentOldest(Run(es), Run(WithRounds(es, rs)), |rs|)
    decreases |rs|
  {
    if rs == [] {
      NothingSent(Run(es));
    } else {
      var before := WithRounds(es, Init(rs));
      RoundsSend(es, Init(rs));
      OneRound(before, rs[|rs| - 1]);
      SendsNext(Run(es), Run(before), Run(WithRounds(es, rs)), |rs| - 1);
    }
  }

  lemma NothingSent(b: Board)
    ensures SentOldest(b, b, 0)
  {
    assert b.line + [] == b.line;
  }

  // ---------------------------------------------------------------- without room

  /** b with bytes left out, the others in order. */
  ghost predicate Thinned(a: seq<byte>, b: seq<byte>)
    decreases |b|
  {
    if b == [] then a == [] else
      Thinned(a, Init(b)) || (a != [] && a[|a| - 1] == b[|b| - 1] && Thinned(Init(a), Init(b)))
  }

  lemma ThinnedNext(a: seq<byte>, b: seq<byte>, x: byte)
    requires Thinned(a, b)
    ensures Thinned(a, b + [x]) && Thinned(a + [x], b + [x])
  {
    assert Init(b + [x]) == b && Init(a + [x]) == a;
  }

  lemma AppendLast(a: seq<byte>, s: seq<byte>)
    requires s != []
    ensures a + s == a + Init(s) + [s[|s| - 1]]
  {}

  lemma {:induction false} ThinnedBoth(a: seq<byte>, b: seq<byte>, s: seq<byte>)
    requires Thinned(a, b)
    ensures Thinned(a + s, b + s)
    decreases |s|
  {
    if s == [] {
      assert a + s == a && b + s == b;
    } else {
      AppendLast(a, s);
      AppendLast(b, s);
      ThinnedBoth(a, b, Init(s));
      ThinnedNext(a + Init(s), b + Init(s), s[|s| - 1]);
    }
  }

  lemma {:induction false} ThinnedSkip(a: seq<byte>, b: seq<byte>, s: seq<byte>)
    requires Thinned(a, b)
    ensures Thinned(a, b + s)
    decreases |s|
  {
    if s == [] {
      assert b + s == b;
    } else {
      AppendLast(b, s);
      ThinnedSkip(a, b, Init(s));
      ThinnedNext(a, b + Init(s), s[|s| - 1]);
    }
  }

  lemma ThinnedAppend(a: seq<byte>, b: seq<byte>, s: seq<byte>, k: nat)
    requires Thinned(a, b) && k <= |s|
    ensures Thinned(a + s[..k], b + s)
  {
    ThinnedBoth(a, b, s[..k]);
    ThinnedSkip(a + s[..k], b + s[..k], s[k..]);
    assert b + s[..k] + s[k..] == b + s;
  }

  /** How many bytes of an answer a queue has room for. */
  function Fitting(tx: seq<byte>, s: seq<byte>): (k: nat)
    requires |tx| <= CircularBuffer.CAPACITY
    ensures k <= |s|
  {
    if |tx| + |s| <= CircularBuffer.CAPACITY then |s| else CircularBuffer.CAPACITY - |tx|
  }

  lemma ClippedAnswer(line: seq<byte>, tx: seq<byte>, c: byte, replies: seq<byte>)
    requires |tx| <= CircularBuffer.CAPACITY
    ensures var s := [c] + replies;
            line + CircularBuffer.Clip(CircularBuffer.Clip(tx + [c]) + replies) == line + tx + s[..Fitting(tx, s)]
    ensures line + CircularBuffer.Clip(tx + [c]) == line + tx + [c][..Fitting(tx, [c])]
  {
    CircularBuffer.ClipAppend(tx + [c], replies);
    assert tx + [c] + replies == tx + ([c] + replies);
  }

  /** One pass, room or not: the line and the queue grow by the beginning of the answer that fits. */
  lemma PassAddsBeginning(b: Board, r: Readings) returns (k: nat)
    requires b.rx == [] && b.asm.received < FRAME_SIZE && |b.tx| <= CircularBuffer.CAPACITY
    ensures var b', s := OnePass(b, r), if b.readyToRec then Answer(b.asm, Input(b.rxReg, r)) else [];
            k <= |s| && b'.line + b'.tx == b.line + b.tx + s[..k] && |b'.tx| <= CircularBuffer.CAPACITY
  {
    var sent := Transmit(b);
    assert sent.line + sent.tx == b.line + b.tx;
    k := 0;
    if b.readyToRec {
      var a := Feed(b.asm, b.rxReg);
      var replies := if a.received == FRAME_SIZE then WireAll(Replies(FrameOf(a), r)) else [];
      ClippedAnswer(sent.line, sent.tx, b.rxReg, replies);
      k := Fitting(sent.tx, [b.rxReg] + replies);
    }
  }

  lemma PassKeepsThinned(b: Board, r: Readings)
    requires b.rx == [] && b.asm == After(b.heard) && |b.tx| <= CircularBuffer.CAPACITY
    requires Thinned(b.line + b.tx, Output(b.heard))
    ensures var b' := OnePass(b, r);
            |b'.tx| <= CircularBuffer.CAPACITY && Thinned(b'.line + b'.tx, Output(b'.heard))
  {
    var s := if b.readyToRec then Answer(b.asm, Input(b.rxReg, r)) else [];
    var k := PassAddsBeginning(b, r);
    PassHears(b, r);
    HeardGrows(b.heard, Input(b.rxReg, r));
    ThinnedAppend(b.line + b.tx, Output(b.heard), s, k);
    assert !b.readyToRec ==> Output(b.heard) + s == Output(b.heard);
  }

  /** Over every run, room or not: what is sent and still queued is the answers to the bytes heard, in
      order, with bytes left out where the queue was full; nothing is invented or repeated. */
  lemma {:induction false} LineIsThinnedOutput(es: seq<BoardEvent>)
    ensures |Run(es).tx| <= CircularBuffer.CAPACITY && Thinned(Run(es).line + Run(es).tx, Output(Run(es).heard))
    decreases |es|
  {
    if es == [] {
    } else {
      LineIsThinnedOutput(Init(es));
      BetweenPasses(Init(es));
      if es[|es| - 1].Pass? {
        PassKeepsThinned(Run(Init(es)), es[|es| - 1].readings);
      }
    }
  }
}
