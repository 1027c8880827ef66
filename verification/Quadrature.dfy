/** The quadrature decoders of the microcontroller's timer interrupt, and what their ticks mean. */
module Quadrature {
  import opened Basics

  /** The four channel patterns in the order a wheel turning forward shows them, over and over. */
  function PhaseAt(position: int): byte
    decreases if position < 0 then 4 - position else position
  {
    if position >= 4 then PhaseAt(position - 4)
    else if position < 0 then PhaseAt(position + 4)
    else if position == 0 then 0x00
    else if position == 1 then 0x01
    else if position == 2 then 0x11
    else 0x10
  }

  function Code(ch1: bool, ch2: bool): byte {
    (if ch1 then 0x10 else 0x00) + (if ch2 then 0x01 else 0x00)
  }

  /** One decoder: the phase last seen and the 16-bit tick count. */
  datatype Decoder = Decoder(prev: byte, ticks: word)

  /** Where a pattern stands in that order. */
  function Index(phase: byte): int {
    match phase
    case 0x00 => 0
    case 0x01 => 1
    case 0x11 => 2
    case 0x10 => 3
    case _ => -1
  }

  /** Two phases one quarter-step apart, around the circle of four. */
  predicate Adjacent(a: byte, b: byte) {
    var d := Index(a) - Index(b);
    Index(a) >= 0 && Index(b) >= 0 && (d == 1 || d == -1 || d == 3 || d == -3)
  }

  /** A sample that is not one quarter-step away is ignored. */
  function NextPhase(prev: byte, sample: byte): byte {
    if Adjacent(prev, sample) then sample else prev
  }

  /** Only leaving phase 00 counts: one tick up when leaving forward, one down when leaving backward. */
  function Delta(prev: byte, sample: byte): int {
    if prev != PhaseAt(0) then 0
    else if sample == PhaseAt(1) then 1
    else if sample == PhaseAt(-1) then -1
    else 0
  }

  function Decode(d: Decoder, sample: byte): Decoder {
    Decoder(NextPhase(d.prev, sample), (d.ticks + Delta(d.prev, sample)) % WORD)
  }

  /** Both wheels' decoders, as the timer interrupt runs them. */
  class Encoders {
    var prevEncoderLeft: byte
    var prevEncoderRight: byte
    var leftTicks: word
    var rightTicks: word

    constructor ()
      ensures Left() == Right() == Decoder(0, 0)
    {
      prevEncoderLeft, prevEncoderRight, leftTicks, rightTicks := 0, 0, 0, 0;
    }

    function Left(): Decoder
      reads this
    {
      Decoder(prevEncoderLeft, leftTicks)
    }

    function Right(): Decoder
      reads this
    {
      Decoder(prevEncoderRight, rightTicks)
    }

    /** The two switch statements are written apart and differ, yet compute the same function. */
    method TimerInterrupt(rd10: bool, rd11: bool, rd8: bool, rd9: bool)
      modifies this
      ensures Left() == Decode(old(Left()), Code(rd10, rd11))
      ensures Right() == Decode(old(Right()), Code(rd8, rd9))
    {
      DecodeLeft(Code(rd10, rd11));
      DecodeRight(Code(rd8, rd9));
    }

    method DecodeLeft(currentState: byte)
      modifies this`prevEncoderLeft, this`leftTicks
      ensures Left() == Decode(old(Left()), currentState)
    {
      match prevEncoderLeft {
        case 0x00 =>
          if currentState == 0x01 {
            prevEncoderLeft := 0x01;
            leftTicks := (leftTicks + 1) % WORD;
          } else if currentState == 0x10 {
            prevEncoderLeft := 0x10;
            leftTicks := (leftTicks - 1) % WORD;
          }
        case 0x01 =>
          if currentState == 0x00 {
            prevEncoderLeft := 0x00;
          } else if currentState == 0x11 {
            prevEncoderLeft := 0x11;
          }
        case 0x11 =>
          if currentState == 0x10 {
            prevEncoderLeft := 0x10;
          } else if currentState == 0x01 {
            prevEncoderLeft := 0x01;
          }
        case 0x10 =>
          if currentState == 0x00 {
            prevEncoderLeft := 0x00;
          } else if currentState == 0x11 {
            prevEncoderLeft := 0x11;
          }
        case _ =>
      }
    }

    /** Counts before it stores the phase; its last case falls through into an empty default. */
    method DecodeRight(currentState: byte)
      modifies this`prevEncoderRight, this`rightTicks
      ensures Right() == Decode(old(Right()), currentState)
    {
      match prevEncoderRight {
        case 0x00 =>
          if currentState == 0x01 {
            rightTicks := (rightTicks + 1) % WORD;
            prevEncoderRight := 0x01;
          } else if currentState == 0x10 {
            rightTicks := (rightTicks - 1) % WORD;
            prevEncoderRight := 0x10;
          }
        case 0x01 =>
          if currentState == 0x00 {
            prevEncoderRight := 0x00;
          } else if currentState == 0x11 {
            prevEncoderRight := 0x11;
          }
        case 0x11 =>
          if currentState == 0x10 {
            prevEncoderRight := 0x10;
          } else if currentState == 0x01 {
            prevEncoderRight := 0x01;
          }
        case 0x10 =>
          if currentState == 0x00 {
            prevEncoderRight := 0x00;
          } else if currentState == 0x11 {
            prevEncoderRight := 0x11;
          }
        case _ =>
      }
    }
  }

  // ---------------------------------------------------------------- a wheel being turned

  /** Where the wheel is, in quarter-steps from the start, after its movements between samples. */
  function Position(moves: seq<int>): int
    decreases |moves|
  {
    if moves == [] then 0 else Position(Init(moves)) + moves[|moves| - 1]
  }

  /** A decoder that starts at phase 00 and samples the wheel after each movement. */
  function Run(moves: seq<int>): Decoder
    decreases |moves|
  {
    if moves == [] then Decoder(PhaseAt(0), 0) else Decode(Run(Init(moves)), PhaseAt(Position(moves)))
  }

  /** The phase that run ends with, and its ticks without the 16-bit wrap. */
  function Phase(moves: seq<int>): byte
    decreases |moves|
  {
    if moves == [] then PhaseAt(0) else NextPhase(Phase(Init(moves)), PhaseAt(Position(moves)))
  }

  function Count(moves: seq<int>): int
    decreases |moves|
  {
    if moves == [] then 0 else Count(Init(moves)) + Delta(Phase(Init(moves)), PhaseAt(Position(moves)))
  }

  lemma WrapAdd(count: int, d: int)
    ensures (count % WORD + d) % WORD == (count + d) % WORD
  {}

  /** The 16-bit counter is the true count modulo 65536. */
  lemma {:induction false} CounterWraps(moves: seq<int>)
    ensures Run(moves) == Decoder(Phase(moves), Count(moves) % WORD)
    decreases |moves|
  {
    if moves == [] {
    } else {
      var init, sample := Init(moves), PhaseAt(Position(moves));
      CounterWraps(init);
      assert Run(moves) == Decode(Run(init), sample);
      assert Phase(moves) == NextPhase(Phase(init), sample);
      assert Count(moves) == Count(init) + Delta(Phase(init), sample);
      WrapAdd(Count(init), Delta(Phase(init), sample));
    }
  }

  // ---------------------------------------------------------------- at most a quarter-step between samples

  type Move = m: int | -1 <= m <= 1

  lemma {:induction false} PhaseRepeats(p: int, turns: nat)
    ensures PhaseAt(p + 4 * turns) == PhaseAt(p) == PhaseAt(p - 4 * turns)
  {
    if turns == 0 {
    } else {
      PhaseRepeats(p, turns - 1);
      OneTurn(p + 4 * (turns - 1));
      OneTurn(p - 4 * turns);
    }
  }

  lemma OneTurn(p: int)
    ensures PhaseAt(p + 4) == PhaseAt(p)
  {}

  /** The phase depends on the quarter of the turn only. */
  lemma PhaseOfResidue(p: int)
    ensures PhaseAt(p) == PhaseAt(p % 4)
  {
    if p >= 0 {
      PhaseRepeats(p % 4, p / 4);
    } else {
      PhaseRepeats(p % 4, -(p / 4));
    }
  }

  lemma NextResidue(p: int, m: Move)
    ensures (p + m) % 4 == if m == 0 then p % 4
                           else if m == 1 then (if p % 4 == 3 then 0 else p % 4 + 1)
                           else (if p % 4 == 0 then 3 else p % 4 - 1)
  {}

  /** One movement, seen by a decoder in step with the wheel. */
  lemma WheelStep(p: int, m: Move)
    ensures NextPhase(PhaseAt(p), PhaseAt(p + m)) == PhaseAt(p + m)
    ensures Delta(PhaseAt(p), PhaseAt(p + m)) == if p % 4 == 0 then m else 0
  {
    PhaseOfResidue(p);
    PhaseOfResidue(p + m);
    NextResidue(p, m);
  }

  /** The decoder never loses the wheel. */
  lemma {:induction false} DecoderFollows(moves: seq<Move>)
    ensures Phase(moves) == PhaseAt(Position(moves))
    decreases |moves|
  {
    if moves == [] {
    } else {
      var init, m := Init(moves), moves[|moves| - 1];
      var p := Position(init);
      DecoderFollows(init);
      WheelStep(p, m);
      assert Position(moves) == p + m;
      assert Phase(moves) == NextPhase(Phase(init), PhaseAt(Position(moves)));
    }
  }

  /** Only a departure from phase 00 is counted. */
  lemma CountStep(moves: seq<Move>)
    requires moves != []
    ensures Count(moves) == Count(Init(moves))
                            + (if Position(Init(moves)) % 4 == 0 then moves[|moves| - 1] else 0)
  {
    var init, m := Init(moves), moves[|moves| - 1];
    var p := Position(init);
    DecoderFollows(init);
    WheelStep(p, m);
    assert Position(moves) == p + m;
    assert Count(moves) == Count(init) + Delta(Phase(init), PhaseAt(p + m));
  }

  /** Whole turns made when the wheel last showed phase 00, how far it has gone since, and how many
      departures from phase 00 came straight back: the forward ones minus the backward ones. */
  datatype Trip = Trip(turn: int, excursion: int, aborted: int)

  function Track(moves: seq<Move>): Trip
    decreases |moves|
  {
    if moves == [] then Trip(0, 0, 0) else
      var t := Track(Init(moves));
      var e := t.excursion + moves[|moves| - 1];
      if e == 4 then t.(turn := t.turn + 1, excursion := 0)
      else if e == -4 then t.(turn := t.turn - 1, excursion := 0)
      else if e == 0 then t.(excursion := 0, aborted := t.aborted + Sign(t.excursion))
      else t.(excursion := e)
  }

  function Sign(x: int): int { if x > 0 then 1 else if x < 0 then -1 else 0 }

  lemma {:induction false} TrackLocates(moves: seq<Move>)
    ensures var t := Track(moves); -4 < t.excursion < 4 && Position(moves) == 4 * t.turn + t.excursion
    decreases |moves|
  {
    if moves == [] {
    } else {
      TrackLocates(Init(moves));
    }
  }

  lemma AtTurn(turn: int, e: int)
    requires -4 < e < 4
    ensures (4 * turn + e) % 4 == 0 <==> e == 0
    ensures (4 * turn) / 4 == turn
  {}

  /** What the ticks are, for every way of turning the wheel: whole turns at the last phase 00, plus
      one for an excursion under way, plus an error for each excursion that was broken off. */
  lemma {:induction false} TicksExplained(moves: seq<Move>)
    ensures var t := Track(moves); Count(moves) == t.turn + t.aborted + Sign(t.excursion)
    decreases |moves|
  {
    if moves == [] {
    } else {
      TicksExplained(Init(moves));
      CountStep(moves);
      TrackLocates(Init(moves));
      AtTurn(Track(Init(moves)).turn, Track(Init(moves)).excursion);
    }
  }

  /** Back at phase 00, the ticks tell the turns exactly when broken-off excursions cancel out. */
  lemma {:induction false} TicksAreTurns(moves: seq<Move>)
    requires Position(moves) % 4 == 0
    ensures Count(moves) == Position(moves) / 4 <==> Track(moves).aborted == 0
  {
    var t := Track(moves);
    TrackLocates(moves);
    TicksExplained(moves);
    AtTurn(t.turn, t.excursion);
  }

  lemma RoundUp(turn: int, e: int)
    requires 0 <= e < 4
    ensures (4 * turn + e + 3) / 4 == turn + Sign(e)
  {}

  /** Turning one way only, a tick comes with the first quarter-step of each turn. */
  lemma {:induction false} Forward(moves: seq<Move>)
    requires forall k :: 0 <= k < |moves| ==> moves[k] >= 0
    ensures Position(moves) >= 0 && Count(moves) == (Position(moves) + 3) / 4
  {
    ForwardTrack(moves);
    TrackLocates(moves);
    TicksExplained(moves);
    RoundUp(Track(moves).turn, Track(moves).excursion);
  }

  lemma {:induction false} Backward(moves: seq<Move>)
    requires forall k :: 0 <= k < |moves| ==> moves[k] <= 0
    ensures Position(moves) <= 0 && Count(moves) == -((-Position(moves) + 3) / 4)
  {
    BackwardTrack([], moves);
    assert [] + moves == moves;
    TrackLocates(moves);
    TicksExplained(moves);
    RoundUp(-Track(moves).turn, -Track(moves).excursion);
  }

  lemma {:induction false} ForwardTrack(moves: seq<Move>)
    requires forall k :: 0 <= k < |moves| ==> moves[k] >= 0
    ensures var t := Track(moves); t.aborted == 0 && t.excursion >= 0 && t.turn >= 0
    decreases |moves|
  {
    if moves == [] {
    } else {
      ForwardTrack(Init(moves));
    }
  }

  /** Forward to a phase 00 and then only backward to the start: every tick is taken back. */
  lemma {:induction false} ThereAndBack(there: seq<Move>, back: seq<Move>)
    requires forall k :: 0 <= k < |there| ==> there[k] >= 0
    requires forall k :: 0 <= k < |back| ==> back[k] <= 0
    requires Position(there) % 4 == 0
    requires Position(there + back) == 0
    ensures Count(there + back) == 0
  {
    BackwardTrack(there, back);
    TrackLocates(there + back);
    TicksExplained(there + back);
  }

  lemma BackStep(moves: seq<Move>, m: Move)
    requires m <= 0 && Track(moves).aborted == 0 && Track(moves).excursion <= 0
    ensures var t := Track(moves + [m]);
            t.aborted == 0 && t.excursion <= 0 && t.turn <= Track(moves).turn
  {
    assert Init(moves + [m]) == moves;
  }

  lemma {:induction false} BackwardTrack(there: seq<Move>, back: seq<Move>)
    requires forall k :: 0 <= k < |there| ==> there[k] >= 0
    requires forall k :: 0 <= k < |back| ==> back[k] <= 0
    requires Position(there) % 4 == 0
    ensures var t := Track(there + back);
            t.aborted == 0 && t.excursion <= 0 && t.turn <= Track(there).turn
    decreases |back|
  {
    if back == [] {
      assert there + back == there;
      ForwardTrack(there);
      TrackLocates(there);
      AtTurn(Track(there).turn, Track(there).excursion);
    } else {
      assert there + back == (there + Init(back)) + [back[|back| - 1]];
      BackwardTrack(there, Init(back));
      BackStep(there + Init(back), back[|back| - 1]);
    }
  }

  function Rocking(n: nat): seq<Move> {
    if n == 0 then [] else Rocking(n - 1) + [1] + [-1]
  }

  /** The ticks do not measure position: rocking across the edge of phase 00 counts up for ever. */
  lemma RockingDrifts(n: nat)
    ensures Position(Rocking(n)) == 0 && Count(Rocking(n)) == n
  {
    RockingTrack(n);
    TrackLocates(Rocking(n));
    TicksExplained(Rocking(n));
  }

  lemma {:induction false} RockingTrack(n: nat)
    ensures Track(Rocking(n)) == Trip(0, 0, n)
  {
    if n == 0 {
    } else {
      RockingTrack(n - 1);
      var up := Rocking(n - 1) + [1];
      assert Init(up) == Rocking(n - 1) && Init(up + [-1]) == up;
      assert Track(up) == Trip(0, 1, n - 1);
    }
  }

  // ---------------------------------------------------------------- what the pins show

  /** The levels of a wheel's two channel lines. */
  datatype Pins = Pins(first: bool, second: bool)

  /** Turning forward the second line rises first, a quarter-step before the first one. */
  function PinsAt(p: int): Pins {
    Pins(p % 4 == 2 || p % 4 == 3, p % 4 == 1 || p % 4 == 2)
  }

  lemma PinsShowPhase(p: int)
    ensures Code(PinsAt(p).first, PinsAt(p).second) == PhaseAt(p)
  {
    PhaseOfResidue(p);
  }

  /** A decoder after interrupts that found these levels. */
  function Interrupts(samples: seq<Pins>): Decoder
    decreases |samples|
  {
    if samples == [] then Decoder(0, 0) else
      var s := samples[|samples| - 1];
      Decode(Interrupts(Init(samples)), Code(s.first, s.second))
  }

  function PinsOf(moves: seq<int>): seq<Pins>
    decreases |moves|
  {
    if moves == [] then [] else PinsOf(Init(moves)) + [PinsAt(Position(moves))]
  }

  /** All that is proved of runs holds of interrupts that read the pins. */
  lemma {:induction false} InterruptsRun(moves: seq<int>)
    ensures Interrupts(PinsOf(moves)) == Run(moves)
    decreases |moves|
  {
    if moves == [] {
    } else {
      InterruptsRun(Init(moves));
      assert Init(PinsOf(moves)) == PinsOf(Init(moves));
      PinsShowPhase(Position(moves));
    }
  }

  lemma TicksOnPins(moves: seq<int>, count: int)
    requires Count(moves) == count
    ensures Interrupts(PinsOf(moves)).ticks == count % WORD
  {
    InterruptsRun(moves);
    CounterWraps(moves);
  }

  /** A wheel that turns one way only, told from its pins: the interrupts count up when it turns forward. */
  lemma ForwardOnPins(moves: seq<Move>, p: int, count: int)
    requires forall k :: 0 <= k < |moves| ==> moves[k] >= 0
    requires p == Position(moves) && count == (p + 3) / 4
    ensures Interrupts(PinsOf(moves)).ticks == count % WORD
  {
    Forward(moves);
    TicksOnPins(moves, count);
  }

  /** And down when it turns backward. */
  lemma BackwardOnPins(moves: seq<Move>, p: int, count: int)
    requires forall k :: 0 <= k < |moves| ==> moves[k] <= 0
    requires p == Position(moves) && count == -((-p + 3) / 4)
    ensures Interrupts(PinsOf(moves)).ticks == count % WORD
  {
    Backward(moves);
    TicksOnPins(moves, count);
  }

  // ---------------------------------------------------------------- any movement between samples

  /** A difference of positions as a decoder can see it: two quarter-steps look like a bad sample and
      are ignored, three look like one the other way. */
  function Perceive(d: int): Move {
    match d % 4
    case 1 => 1
    case 3 => -1
    case _ => 0
  }

  /** How far the wheel is ahead of where the decoder takes it to be. */
  function Lag(moves: seq<int>): int
    decreases |moves|
  {
    if moves == [] then 0 else
      var d := Lag(Init(moves)) + moves[|moves| - 1];
      d - Perceive(d)
  }

  /** The quarter-steps a decoder takes the wheel to have made. */
  function Perceived(moves: seq<int>): seq<Move>
    decreases |moves|
  {
    if moves == [] then [] else
      Perceived(Init(moves)) + [Perceive(Lag(Init(moves)) + moves[|moves| - 1])]
  }

  lemma PositionSnoc(moves: seq<int>, m: int)
    ensures Position(moves + [m]) == Position(moves) + m
    ensures Phase(moves + [m]) == NextPhase(Phase(moves), PhaseAt(Position(moves) + m))
    ensures Count(moves + [m]) == Count(moves) + Delta(Phase(moves), PhaseAt(Position(moves) + m))
  {
    assert Init(moves + [m]) == moves;
  }

  lemma PerceivedSnoc(moves: seq<int>, m: int)
    ensures Lag(moves + [m]) == Lag(moves) + m - Perceive(Lag(moves) + m)
    ensures Perceived(moves + [m]) == Perceived(moves) + [Perceive(Lag(moves) + m)]
  {
    assert Init(moves + [m]) == moves;
  }

  lemma {:induction false} LagIsLag(moves: seq<int>)
    ensures Position(moves) == Position(Perceived(moves)) + Lag(moves)
    decreases |moves|
  {
    if moves == [] {
    } else {
      var init, m := Init(moves), moves[|moves| - 1];
      LagIsLag(init);
      assert moves == init + [m];
      PositionSnoc(init, m);
      PerceivedSnoc(init, m);
      PositionSnoc(Perceived(init), Perceive(Lag(init) + m));
    }
  }

  lemma Opposite(b: int)
    ensures NextPhase(PhaseAt(b), PhaseAt(b + 2)) == PhaseAt(b) && Delta(PhaseAt(b), PhaseAt(b + 2)) == 0
  {
    PhaseOfResidue(b);
    PhaseOfResidue(b + 2);
  }

  lemma PhaseAhead(b: int, d: int)
    ensures var m := if d % 4 == 3 then -1 else d % 4; PhaseAt(b + d) == PhaseAt(b + m)
  {
    var m := if d % 4 == 3 then -1 else d % 4;
    var turns := if d % 4 == 3 then d / 4 + 1 else d / 4;
    assert d == m + 4 * turns;
    if turns >= 0 {
      PhaseRepeats(b + m, turns);
    } else {
      PhaseRepeats(b + m, -turns);
    }
  }

  /** Any sample at all moves the decoder as the perceived quarter-step would. */
  lemma SampleStep(b: int, d: int)
    ensures NextPhase(PhaseAt(b), PhaseAt(b + d)) == NextPhase(PhaseAt(b), PhaseAt(b + Perceive(d)))
    ensures Delta(PhaseAt(b), PhaseAt(b + d)) == Delta(PhaseAt(b), PhaseAt(b + Perceive(d)))
  {
    PhaseAhead(b, d);
    if d % 4 == 2 {
      Opposite(b);
      WheelStep(b, 0);
    }
  }

  /** A sample at p, d ahead of b, moves on a decoder that takes the wheel to be at b. */
  lemma PerceivedStep(seen: seq<Move>, b: int, d: int, m: Move, p: int)
    requires b == Position(seen) && m == Perceive(d) && p == b + d
    ensures Phase(seen + [m]) == NextPhase(Phase(seen), PhaseAt(p))
    ensures Count(seen + [m]) == Count(seen) + Delta(Phase(seen), PhaseAt(p))
  {
    DecoderFollows(seen);
    PositionSnoc(seen, m);
    SampleStep(b, d);
  }

  lemma SampledAt(moves: seq<int>, m: int, p: int)
    requires p == Position(moves) + m
    ensures Phase(moves + [m]) == NextPhase(Phase(moves), PhaseAt(p))
    ensures Count(moves + [m]) == Count(moves) + Delta(Phase(moves), PhaseAt(p))
  {
    PositionSnoc(moves, m);
  }

  ghost predicate SameRuns(moves: seq<int>, seen: seq<int>) {
    Phase(moves) == Phase(seen) && Count(moves) == Count(seen)
  }

  lemma SameRunsNext(moves: seq<int>, step: int, seen: seq<Move>, b: int, d: int, p: int)
    requires SameRuns(moves, seen)
    requires b == Position(seen) && Position(moves) + step == p == b + d
    ensures SameRuns(moves + [step], seen + [Perceive(d)])
  {
    SampledAt(moves, step, p);
    PerceivedStep(seen, b, d, Perceive(d), p);
  }

  lemma PerceivedNext(moves: seq<int>) returns (seen: seq<Move>, b: int, d: int)
    requires moves != []
    ensures var init, step := Init(moves), moves[|moves| - 1];
            && moves == init + [step] && seen == Perceived(init) && Perceived(moves) == seen + [Perceive(d)]
            && b == Position(seen) && Position(init) + step == b + d
  {
    var init, step := Init(moves), moves[|moves| - 1];
    assert moves == init + [step];
    PerceivedSnoc(init, step);
    LagIsLag(init);
    seen, d := Perceived(init), Lag(init) + step;
    b := Position(seen);
  }

  lemma {:induction false} CountsAsPerceived(moves: seq<int>)
    ensures SameRuns(moves, Perceived(moves))
    decreases |moves|
  {
    if moves == [] {
    } else {
      var seen, b, d := PerceivedNext(moves);
      CountsAsPerceived(Init(moves));
      SameRunsNext(Init(moves), moves[|moves| - 1], seen, b, d, b + d);
    }
  }

  /** However the wheel moves between samples, the decoder does what it would do if the perceived
      quarter-steps were the real ones: all that is proved of them holds of every run. */
  lemma RunsAsPerceived(moves: seq<int>)
    ensures Run(moves) == Run(Perceived(moves))
  {
    CounterWraps(moves);
    CounterWraps(Perceived(moves));
    CountsAsPerceived(moves);
  }

  /** At every sample the decoder takes the wheel to be where it is. */
  ghost predicate KeepsUp(moves: seq<int>)
    decreases |moves|
  {
    moves != [] ==> KeepsUp(Init(moves)) && Position(Perceived(moves)) == Position(moves)
  }

  lemma PerceiveExact(m: int)
    ensures Perceive(m) == m <==> -1 <= m <= 1
  {}

  lemma InStep(moves: seq<int>)
    requires KeepsUp(moves)
    ensures Lag(moves) == 0
  {
    LagIsLag(moves);
  }

  lemma KeepsUpSnoc(moves: seq<int>, m: int)
    ensures KeepsUp(moves + [m]) <==> KeepsUp(moves) && -1 <= m <= 1
  {
    assert Init(moves + [m]) == moves;
    if KeepsUp(moves) {
      InStep(moves);
      LagIsLag(moves + [m]);
      PerceivedSnoc(moves, m);
      PerceiveExact(m);
    }
  }

  /** It keeps up exactly when the wheel never moves more than a quarter-step between two samples. */
  lemma {:induction false} KeepsUpIff(moves: seq<int>)
    ensures KeepsUp(moves) <==> forall k :: 0 <= k < |moves| ==> -1 <= moves[k] <= 1
    decreases |moves|
  {
    if moves == [] {
    } else {
      assert moves == Init(moves) + [moves[|moves| - 1]];
      KeepsUpSnoc(Init(moves), moves[|moves| - 1]);
      KeepsUpIff(Init(moves));
    }
  }

  lemma NextPerceived(moves: seq<int>, m: int)
    requires KeepsUp(moves)
    ensures Run(moves + [m]) == Run(Perceived(moves) + [Perceive(m)])
  {
    InStep(moves);
    PerceivedSnoc(moves, m);
    RunsAsPerceived(moves + [m]);
  }

  lemma RestingSample(seen: seq<Move>)
    ensures Run(seen + [0]) == Run(seen)
  {
    DecoderFollows(seen);
    PositionSnoc(seen, 0);
    WheelStep(Position(seen), 0);
    CounterWraps(seen);
    CounterWraps(seen + [0]);
  }

  lemma PerceivedAlike(moves: seq<int>, m: int, n: int)
    requires KeepsUp(moves) && Perceive(m) == Perceive(n)
    ensures Run(moves + [m]) == Run(moves + [n])
  {
    NextPerceived(moves, m);
    NextPerceived(moves, n);
  }

  lemma NothingPerceived(moves: seq<int>, m: int)
    requires KeepsUp(moves) && Perceive(m) == 0
    ensures Run(moves + [m]) == Run(moves)
  {
    RunsAsPerceived(moves);
    NextPerceived(moves, m);
    RestingSample(Perceived(moves));
  }

  /** A sample missed: two quarter-steps at once are not seen at all, three are seen as one the other way. */
  lemma SkippedSamples(moves: seq<int>)
    requires KeepsUp(moves)
    ensures Run(moves + [2]) == Run(moves) == Run(moves + [-2])
    ensures Run(moves + [3]) == Run(moves + [-1]) && Run(moves + [-3]) == Run(moves + [1])
  {
    NothingPerceived(moves, 2);
    NothingPerceived(moves, -2);
    PerceivedAlike(moves, 3, -1);
    PerceivedAlike(moves, -3, 1);
  }
}
