/** The microcontroller's main loop: it echoes every byte it hears, assembles command frames one
    byte at a time, and answers them through the transmit buffer. */
module Microcontroller {
  import opened Basics
  import opened Framing
  import opened CircularBuffer

  const CMD_MOTORS: byte := 0x01
  const CMD_BATTERY: byte := 0x02
  const CMD_GET_SENSOR_DATA: byte := 0xB0
  const CMD_SENSOR: byte := 0xB1
  const CMD_RIGHT_ENCODER: byte := 0xB6
  const CMD_LEFT_ENCODER: byte := 0xB7

  const READING_COMMANDS := {CMD_GET_SENSOR_DATA, CMD_RIGHT_ENCODER, CMD_LEFT_ENCODER, CMD_BATTERY, CMD_SENSOR}

  const SEN_MIN := 400
  const SEN_MAX := 1020

  /** The globals a pass of the main loop reads: ADC results, tick counts, battery level. */
  datatype Readings = Readings(
    sensor1: int, sensor2: int, sensor3: int, sensor4: int, sensor5: int,
    leftTicks: word, rightTicks: word, battery: byte)

  /** One bit per infrared sensor. */
  function IrBank(r: Readings): byte {
    (if r.sensor1 > SEN_MAX then 0x01 else 0) +
    (if r.sensor2 > SEN_MAX || r.sensor4 < SEN_MIN then 0x02 else 0) +
    (if r.sensor3 > SEN_MAX then 0x04 else 0) +
    (if r.sensor4 > SEN_MAX || r.sensor4 < SEN_MIN then 0x08 else 0) +
    (if r.sensor5 > SEN_MAX || r.sensor5 < SEN_MIN then 0x10 else 0)
  }

  /** What each bit says. Bit 1 belongs to sensor 2 but also reports sensor 4 too close. */
  lemma IrBankBits(r: Readings)
    ensures IrBank(r) % 2 == 1 <==> r.sensor1 > SEN_MAX
    ensures IrBank(r) / 2 % 2 == 1 <==> r.sensor2 > SEN_MAX || r.sensor4 < SEN_MIN
    ensures IrBank(r) / 4 % 2 == 1 <==> r.sensor3 > SEN_MAX
    ensures IrBank(r) / 8 % 2 == 1 <==> r.sensor4 > SEN_MAX || r.sensor4 < SEN_MIN
    ensures IrBank(r) / 16 == 1 <==> r.sensor5 > SEN_MAX || r.sensor5 < SEN_MIN
  {}

  // ---------------------------------------------------------------- the specification

  /** controlpacket: the frame under construction. */
  datatype Assembler = Assembler(received: nat, sequence: byte, command: byte, data1: byte, data2: byte)

  const IDLE := Assembler(0, 0, 0, 0, 0)

  function Feed(a: Assembler, c: byte): Assembler {
    match a.received
    case 0 => if c == SYNC then a.(received := 1) else a
    case 1 => a.(received := 2, sequence := c)
    case 2 => a.(received := 3, command := c)
    case 3 => a.(received := 4, data1 := c)
    case 4 => a.(received := 5, data2 := c)
    case _ => a
  }

  function FrameOf(a: Assembler): Packet {
    Packet(SYNC, a.sequence, a.command, a.data1, a.data2)
  }

  /** The bytes of the frame under construction. */
  function Partial(a: Assembler): seq<byte>
    requires a.received < FRAME_SIZE
  {
    Wire(FrameOf(a))[..a.received]
  }

  function SensorReply(n: byte, r: Readings): Packet { Packet(SYNC, n, CMD_SENSOR, IrBank(r), 0) }
  function LeftReply(n: byte, r: Readings): Packet {
    Packet(SYNC, n, CMD_LEFT_ENCODER, r.leftTicks / 256, r.leftTicks % 256)
  }
  function RightReply(n: byte, r: Readings): Packet {
    Packet(SYNC, n, CMD_RIGHT_ENCODER, r.rightTicks / 256, r.rightTicks % 256)
  }

  /** The frames sent back for a command frame; every one carries the command's sequence number. */
  function Replies(f: Packet, r: Readings): (ps: seq<Packet>)
    ensures |ps| <= 3
    ensures forall p :: p in ps ==> p.sync == SYNC && p.seqNo == f.seqNo
  {
    var n := f.seqNo;
    if f.command == CMD_GET_SENSOR_DATA then [SensorReply(n, r), LeftReply(n, r), RightReply(n, r)]
    else if f.command == CMD_RIGHT_ENCODER then [RightReply(n, r)]
    else if f.command == CMD_LEFT_ENCODER then [LeftReply(n, r)]
    else if f.command == CMD_BATTERY then [Packet(SYNC, n, CMD_BATTERY, r.battery, 0)]
    else if f.command == CMD_SENSOR then [SensorReply(n, r)]
    else if f.command == CMD_MOTORS then [Packet(SYNC, n, CMD_MOTORS, 0, 0)]
    else []
  }

  /** A byte heard, with the readings of the pass that took it. */
  datatype Input = Input(c: byte, readings: Readings)

  predicate Completes(a: Assembler, c: byte) { Feed(a, c).received == FRAME_SIZE }

  function Consume(a: Assembler, c: byte): Assembler {
    if Completes(a, c) then Feed(a, c).(received := 0) else Feed(a, c)
  }

  /** What a byte adds to the outgoing line: its echo, and the replies if it completes a frame. */
  function Answer(a: Assembler, i: Input): (s: seq<byte>) {
    [i.c] + (if Completes(a, i.c) then WireAll(Replies(FrameOf(Feed(a, i.c)), i.readings)) else [])
  }

  function After(ins: seq<Input>): (a: Assembler)
    ensures a.received < FRAME_SIZE
    decreases |ins|
  {
    if ins == [] then IDLE else Consume(After(Init(ins)), ins[|ins| - 1].c)
  }

  function Output(ins: seq<Input>): seq<byte>
    decreases |ins|
  {
    if ins == [] then [] else Output(Init(ins)) + Answer(After(Init(ins)), ins[|ins| - 1])
  }

  // ---------------------------------------------------------------- the board as a state machine

  datatype Board = Board(
    rx: seq<byte>, tx: seq<byte>, asm: Assembler,
    readyToSend: bool, readyToRec: bool, rxReg: byte,
    arrived: seq<byte>, heard: seq<Input>, line: seq<byte>)

  const POWER_UP := Board([], [], IDLE, true, false, 0, [], [], [])

  datatype BoardEvent =
    | TxInterrupt
    | RxInterrupt(c: byte, bad: bool)
    | Pass(readings: Readings)

  function Transmit(b: Board): Board {
    if b.readyToSend && b.tx != []
    then b.(readyToSend := false, tx := b.tx[1..], line := b.line + [b.tx[0]]) else b
  }

  function Receive(b: Board): Board {
    if b.readyToRec && |b.rx| < CAPACITY
    then b.(readyToRec := false, rx := b.rx + [b.rxReg]) else b
  }

  function Assemble(b: Board, r: Readings): Board {
    if b.rx == [] then b
    else b.(rx := b.rx[1..], tx := Clip(b.tx + [b.rx[0]]), asm := Feed(b.asm, b.rx[0]),
            heard := b.heard + [Input(b.rx[0], r)])
  }

  function Process(b: Board, r: Readings): Board {
    if b.asm.received != FRAME_SIZE then b
    else Queued(b, Replies(FrameOf(b.asm), r)).(asm := b.asm.(received := 0))
  }

  function OnePass(b: Board, r: Readings): Board {
    Process(Assemble(Receive(Transmit(b)), r), r)
  }

  function Step(b: Board, e: BoardEvent): Board {
    match e
    case TxInterrupt => b.(readyToSend := true)
    case RxInterrupt(c, bad) => if bad then b else b.(readyToRec := true, rxReg := c, arrived := b.arrived + [c])
    case Pass(r) => OnePass(b, r)
  }

  function Run(es: seq<BoardEvent>): Board
    decreases |es|
  {
    if es == [] then POWER_UP else Step(Run(Init(es)), es[|es| - 1])
  }

  /** The transmit buffer has 16 free cells, room for an echo and three replies. */
  predicate HasRoom(b: Board) { |b.tx| + 16 <= CAPACITY }

  ghost predicate RoomThroughout(es: seq<BoardEvent>)
    decreases |es|
  {
    es != [] ==> RoomThroughout(Init(es)) && (es[|es| - 1].Pass? ==> HasRoom(Run(Init(es))))
  }

  function Bytes(ins: seq<Input>): (s: seq<byte>)
    ensures |s| == |ins|
    decreases |ins|
  {
    if ins == [] then [] else Bytes(Init(ins)) + [ins[|ins| - 1].c]
  }

  lemma HeardGrows(heard: seq<Input>, i: Input)
    ensures After(heard + [i]) == Consume(After(heard), i.c)
    ensures Output(heard + [i]) == Output(heard) + Answer(After(heard), i)
    ensures Bytes(heard + [i]) == Bytes(heard) + [i.c]
  {
    assert Init(heard + [i]) == heard;
  }

  /** What a pass does to everything but the transmit side. */
  lemma PassHears(b: Board, r: Readings)
    requires b.rx == [] && b.asm.received < FRAME_SIZE
    ensures var b' := OnePass(b, r);
            && b'.rx == [] && !b'.readyToRec && b'.arrived == b.arrived
            && b'.asm == (if b.readyToRec then Consume(b.asm, b.rxReg) else b.asm)
            && b'.heard == (if b.readyToRec then b.heard + [Input(b.rxReg, r)] else b.heard)
  {}

  /** Every received byte is taken off the receive buffer in the very pass that put it there, and
      the assembler is never left holding a finished frame. */
  lemma {:induction false} BetweenPasses(es: seq<BoardEvent>)
    ensures var b := Run(es); b.rx == [] && b.asm == After(b.heard)
    decreases |es|
  {
    if es == [] {
    } else {
      BetweenPasses(Init(es));
      var b := Run(Init(es));
      if es[|es| - 1].Pass? {
        PassHears(b, es[|es| - 1].readings);
        HeardGrows(b.heard, Input(b.rxReg, es[|es| - 1].readings));
      }
    }
  }

  lemma RoomForAnswer(line: seq<byte>, tx: seq<byte>, c: byte, replies: seq<byte>)
    requires |tx| + 16 <= CAPACITY && |replies| <= 15
    ensures line + Clip(Clip(tx + [c]) + replies) == line + tx + ([c] + replies)
    ensures line + Clip(tx + [c]) == line + tx + [c]
  {}

  /** One pass with room: what was on the line or queued grows by exactly the answer to the byte taken. */
  lemma PassAnswers(b: Board, r: Readings)
    requires b.rx == [] && b.asm.received < FRAME_SIZE && HasRoom(b)
    ensures var b' := OnePass(b, r);
            b'.line + b'.tx == b.line + b.tx + (if b.readyToRec then Answer(b.asm, Input(b.rxReg, r)) else [])
  {
    var sent := Transmit(b);
    assert sent.line + sent.tx == b.line + b.tx;
    if b.readyToRec {
      var a := Feed(b.asm, b.rxReg);
      WireAllLength(Replies(FrameOf(a), r));
      if a.received == FRAME_SIZE {
        RoomForAnswer(sent.line, sent.tx, b.rxReg, WireAll(Replies(FrameOf(a), r)));
      } else {
        RoomForAnswer(sent.line, sent.tx, b.rxReg, []);
      }
    }
  }

  /** Over every run with room: the bytes sent and still queued are the answers to the bytes heard. */
  lemma {:induction false} LineIsOutput(es: seq<BoardEvent>)
    requires RoomThroughout(es)
    ensures Run(es).line + Run(es).tx == Output(Run(es).heard)
    decreases |es|
  {
    if es == [] {
    } else {
      var b, e := Run(Init(es)), es[|es| - 1];
      LineIsOutput(Init(es));
      BetweenPasses(Init(es));
      if e.Pass? {
        PassAnswers(b, e.readings);
        PassHears(b, e.readings);
        if b.readyToRec {
          HeardGrows(b.heard, Input(b.rxReg, e.readings));
        } else {
          assert Output(b.heard) + [] == Output(b.heard);
        }
      }
    }
  }

  // ---------------------------------------------------------------- the main loop itself

  function Queued(b: Board, replies: seq<Packet>): Board {
    b.(tx := Clip(b.tx + WireAll(replies)))
  }

  lemma ClipTwice(tx: seq<byte>, x: seq<byte>, y: seq<byte>)
    ensures Clip(Clip(tx + x) + y) == Clip(tx + (x + y))
  {
    ClipAppend(tx + x, y);
    assert (tx + x) + y == tx + (x + y);
  }

  lemma {:induction false} QueuedAppend(b: Board, ps: seq<Packet>, qs: seq<Packet>)
    ensures Queued(Queued(b, ps), qs) == Queued(b, ps + qs)
  {
    WireAllAppend(ps, qs);
    ClipTwice(b.tx, WireAll(ps), WireAll(qs));
  }

  lemma OtherReplies(f: Packet, r: Readings)
    ensures f.command !in READING_COMMANDS ==>
      Replies(f, r) == if f.command == CMD_MOTORS then [Packet(SYNC, f.seqNo, CMD_MOTORS, 0, 0)] else []
  {}

  lemma NothingQueued(b: Board)
    requires |b.tx| <= CAPACITY
    ensures Queued(b, []) == b
  {
    assert b.tx + [] == b.tx;
  }

  lemma FullStays(b: Board, ps: seq<Packet>)
    ensures |b.tx| == CAPACITY ==> Queued(b, ps) == b
  {
    if |b.tx| == CAPACITY {
      assert Clip(b.tx + WireAll(ps)) == b.tx;
    }
  }

  lemma ClipWire(queue: seq<byte>, p: Packet)
    ensures Clip(Clip(Clip(Clip(Clip(queue + [p.sync]) + [p.seqNo]) + [p.command]) + [p.data0]) + [p.data1])
         == Clip(queue + WireAll([p]))
  {
    ClipAppend(queue + [p.sync], [p.seqNo]);
    ClipAppend(queue + [p.sync] + [p.seqNo], [p.command]);
    ClipAppend(queue + [p.sync] + [p.seqNo] + [p.command], [p.data0]);
    ClipAppend(queue + [p.sync] + [p.seqNo] + [p.command] + [p.data0], [p.data1]);
    assert queue + [p.sync] + [p.seqNo] + [p.command] + [p.data0] + [p.data1] == queue + WireAll([p]);
  }

  class Micro {
    const tx: Buffer
    const rx: Buffer
    var bytesReceived: nat
    var sequence: byte
    var command: byte
    var data1: byte
    var data2: byte
    var readyToSend: bool
    var readyToRec: bool
    var rxReg: byte
    ghost var arrived: seq<byte>
    ghost var heard: seq<Input>
    ghost var line: seq<byte>

    ghost predicate Valid()
      reads this, tx, rx
    {
      tx != rx && tx.data != rx.data && tx.Valid() && rx.Valid()
    }

    ghost function Asm(): Assembler
      reads this
    {
      Assembler(bytesReceived, sequence, command, data1, data2)
    }

    ghost function Observed(): Board
      requires Valid()
      reads this, tx, rx, tx.data, rx.data
    {
      Board(rx.Contents(), tx.Contents(), Asm(), readyToSend, readyToRec, rxReg, arrived, heard, line)
    }

    constructor ()
      ensures Valid() && Observed() == POWER_UP
      ensures fresh(tx) && fresh(rx) && fresh(tx.data) && fresh(rx.data)
    {
      tx := new Buffer();
      rx := new Buffer();
      bytesReceived, sequence, command, data1, data2 := 0, 0, 0, 0, 0;
      readyToSend, readyToRec, rxReg := true, false, 0;
      arrived, heard, line := [], [], [];
    }

    method TxInterruptRoutine()
      requires Valid()
      modifies this`readyToSend
      ensures Valid() && Observed() == Step(old(Observed()), TxInterrupt)
    {
      readyToSend := true;
    }

    /** A byte reaches the receive register; one with a parity or framing error is ignored. */
    method RxInterruptRoutine(c: byte, bad: bool)
      requires Valid()
      modifies this`readyToRec, this`rxReg, this`arrived
      ensures Valid() && Observed() == Step(old(Observed()), RxInterrupt(c, bad))
    {
      if bad {
        return;
      }
      rxReg := c;
      arrived := arrived + [c];
      readyToRec := true;
    }

    method TransmitByte()
      requires Valid()
      modifies this`readyToSend, this`line, tx`head
      ensures Valid() && Observed() == Transmit(old(Observed()))
    {
      if readyToSend {
        var status := tx.GetStatus();
        if status != Empty {
          ghost var b := Observed();
          var c := tx.Pop();
          assert Observed() == b.(tx := b.tx[1..]);
          line := line + [c];
          readyToSend := false;
        }
      }
    }

    method ReceiveByte()
      requires Valid()
      modifies this`readyToRec, rx`tail, rx.data
      ensures Valid() && Observed() == Receive(old(Observed()))
    {
      if readyToRec {
        var status := rx.GetStatus();
        if status != Full {
          var _ := rx.Push(rxReg);
          readyToRec := false;
        }
      }
    }

    /** The switch that adds a byte to controlpacket. */
    method AddToPacket(c: byte)
      modifies this`bytesReceived, this`sequence, this`command, this`data1, this`data2
      ensures Asm() == Feed(old(Asm()), c)
    {
      match bytesReceived {
        case 0 =>
          if c == 0xAA {
            bytesReceived := 1;
          }
        case 1 =>
          sequence := c;
          bytesReceived := bytesReceived + 1;
        case 2 =>
          command := c;
          bytesReceived := bytesReceived + 1;
        case 3 =>
          data1 := c;
          bytesReceived := bytesReceived + 1;
        case 4 =>
          data2 := c;
          bytesReceived := bytesReceived + 1;
        case _ =>
      }
    }

    /** Move the oldest received byte from the receive buffer to the echo. */
    method EchoByte() returns (c: byte)
      requires Valid() && rx.Contents() != []
      modifies rx`head, tx`tail, tx.data
      ensures Valid() && c == old(rx.Contents()[0])
      ensures var b := old(Observed()); Observed() == b.(rx := b.rx[1..], tx := Clip(b.tx + [c]))
    {
      c := rx.Pop();
      var _ := tx.Push(c);
    }

    method HearByte(c: byte, ghost r: Readings)
      requires Valid()
      modifies this`bytesReceived, this`sequence, this`command, this`data1, this`data2, this`heard
      ensures Valid()
      ensures var b := old(Observed()); Observed() == b.(asm := Feed(b.asm, c), heard := b.heard + [Input(c, r)])
    {
      heard := heard + [Input(c, r)];
      AddToPacket(c);
    }

    method AssembleByte(ghost r: Readings)
      requires Valid()
      modifies this`bytesReceived, this`sequence, this`command, this`data1, this`data2, this`heard
      modifies rx`head, tx`tail, tx.data
      ensures Valid() && Observed() == Assemble(old(Observed()), r)
    {
      var status := rx.GetStatus();
      if status != Empty {
        var c := EchoByte();
        HearByte(c, r);
      }
    }

    /** Queue one reply frame; bytes that do not fit are dropped one by one. */
    method Reply(code: byte, first: byte, second: byte)
      requires Valid()
      modifies tx`tail, tx.data
      ensures Valid()
      ensures Observed() == Queued(old(Observed()), [Packet(SYNC, sequence, code, first, second)])
    {
      ghost var queue := tx.Contents();
      var _ := tx.Push(0xAA);
      var _ := tx.Push(sequence);
      var _ := tx.Push(code);
      var _ := tx.Push(first);
      var _ := tx.Push(second);
      ClipWire(queue, Packet(SYNC, sequence, code, first, second));
    }

    method SensorBits(r: Readings) returns (bits: byte)
      ensures bits == IrBank(r)
    {
      bits := 0;
      if r.sensor1 > SEN_MAX {
        bits := bits + 1;
      }
      if r.sensor2 > SEN_MAX || r.sensor4 < SEN_MIN {
        bits := bits + 0x2;
      }
      if r.sensor3 > SEN_MAX {
        bits := bits + 0x4;
      }
      if r.sensor4 > SEN_MAX || r.sensor4 < SEN_MIN {
        bits := bits + 0x8;
      }
      if r.sensor5 > SEN_MAX || r.sensor5 < SEN_MIN {
        bits := bits + 0x10;
      }
    }

    method ReplySensor(r: Readings)
      requires Valid()
      modifies tx`tail, tx.data
      ensures Valid() && Observed() == Queued(old(Observed()), [SensorReply(sequence, r)])
    {
      var bits := SensorBits(r);
      Reply(CMD_SENSOR, bits, 0);
    }

    method ReplyLeft(r: Readings)
      requires Valid()
      modifies tx`tail, tx.data
      ensures Valid() && Observed() == Queued(old(Observed()), [LeftReply(sequence, r)])
    {
      Reply(CMD_LEFT_ENCODER, r.leftTicks / 256, r.leftTicks % 256);
    }

    method ReplyRight(r: Readings)
      requires Valid()
      modifies tx`tail, tx.data
      ensures Valid() && Observed() == Queued(old(Observed()), [RightReply(sequence, r)])
    {
      Reply(CMD_RIGHT_ENCODER, r.rightTicks / 256, r.rightTicks % 256);
    }

    /** The k-th reply to a request for everything, skipped when the buffer is already full. */
    method ReplyUnlessFull(k: nat, r: Readings)
      requires Valid() && k < 3
      modifies tx`tail, tx.data
      ensures Valid()
      ensures Observed() == Queued(old(Observed()),
                [if k == 0 then SensorReply(sequence, r)
                 else if k == 1 then LeftReply(sequence, r) else RightReply(sequence, r)])
    {
      var status := tx.GetStatus();
      if status != Full {
        if k == 0 {
          ReplySensor(r);
        } else if k == 1 {
          ReplyLeft(r);
        } else {
          ReplyRight(r);
        }
      } else {
        FullStays(Observed(), [SensorReply(sequence, r)]);
        FullStays(Observed(), [LeftReply(sequence, r)]);
        FullStays(Observed(), [RightReply(sequence, r)]);
      }
    }

    /** The reply to a request for everything. */
    method ReplyAllSensors(r: Readings)
      requires Valid()
      modifies tx`tail, tx.data
      ensures Valid()
      ensures Observed() == Queued(old(Observed()),
                [SensorReply(sequence, r), LeftReply(sequence, r), RightReply(sequence, r)])
    {
      ghost var b := Observed();
      ghost var s, left, right := SensorReply(sequence, r), LeftReply(sequence, r), RightReply(sequence, r);
      QueuedAppend(b, [s], [left]);
      QueuedAppend(b, [s, left], [right]);
      assert [s] + [left] == [s, left] && [s, left] + [right] == [s, left, right];
      ReplyUnlessFull(0, r);
      ReplyUnlessFull(1, r);
      ReplyUnlessFull(2, r);
    }

    method AnswerEncoder(r: Readings)
      requires Valid()
      modifies this`bytesReceived, tx`tail, tx.data
      ensures Valid()
      ensures var b := old(Observed());
              Observed() == if b.asm.command == CMD_RIGHT_ENCODER || b.asm.command == CMD_LEFT_ENCODER
                            then Queued(b, Replies(FrameOf(b.asm), r)).(asm := b.asm.(received := 0)) else b
    {
      if command == CMD_RIGHT_ENCODER {
        ReplyRight(r);
        bytesReceived := 0;
      }
      if command == CMD_LEFT_ENCODER {
        ReplyLeft(r);
        bytesReceived := 0;
      }
    }

    /** A sensor command is answered here but not consumed yet. */
    method AnswerBatteryOrSensor(r: Readings)
      requires Valid()
      modifies this`bytesReceived, tx`tail, tx.data
      ensures Valid()
      ensures var b := old(Observed());
              Observed() == if b.asm.command == CMD_BATTERY
                            then Queued(b, Replies(FrameOf(b.asm), r)).(asm := b.asm.(received := 0))
                            else if b.asm.command == CMD_SENSOR then Queued(b, Replies(FrameOf(b.asm), r)) else b
    {
      ghost var replies := Replies(FrameOf(Asm()), r);
      if command == CMD_BATTERY {
        assert replies == [Packet(SYNC, sequence, CMD_BATTERY, r.battery, 0)];
        Reply(CMD_BATTERY, r.battery, 0x00);
        bytesReceived := 0;
      }
      if command == CMD_SENSOR {
        assert replies == [SensorReply(sequence, r)];
        ReplySensor(r);
      }
    }

    /** The first part of the command section: all commands but motor settings. */
    method AnswerReading(r: Readings)
      requires Valid()
      modifies this`bytesReceived, tx`tail, tx.data
      ensures Valid()
      ensures var b := old(Observed());
              Observed() == if b.asm.received == FRAME_SIZE && b.asm.command in READING_COMMANDS
                            then Queued(b, Replies(FrameOf(b.asm), r))
                                 .(asm := b.asm.(received := if b.asm.command == CMD_SENSOR then FRAME_SIZE else 0))
                            else b
    {
      if bytesReceived == 5 {
        if command == CMD_GET_SENSOR_DATA {
          assert Replies(FrameOf(Asm()), r)
              == [SensorReply(sequence, r), LeftReply(sequence, r), RightReply(sequence, r)];
          ReplyAllSensors(r);
          bytesReceived := 0;
        }
        AnswerEncoder(r);
        AnswerBatteryOrSensor(r);
      }
    }

    method AnswerMotors()
      requires Valid()
      modifies this`bytesReceived, tx`tail, tx.data
      ensures Valid()
      ensures var b := old(Observed());
              Observed() == if b.asm.received == FRAME_SIZE && b.asm.command == CMD_MOTORS
                            then Queued(b, [Packet(SYNC, sequence, CMD_MOTORS, 0, 0)]).(asm := b.asm.(received := 0))
                            else b
    {
      if bytesReceived == 5 && command == CMD_MOTORS {
        bytesReceived := 0;
        FullStays(Observed(), [Packet(SYNC, sequence, CMD_MOTORS, 0, 0)]);
        var status := tx.GetStatus();
        if status != Full {
          Reply(CMD_MOTORS, 0, 0);
        }
      }
    }

    /** The command section of the loop; every finished frame is consumed, answered or not. */
    method ProcessCommand(r: Readings)
      requires Valid()
      modifies this`bytesReceived, tx`tail, tx.data
      ensures Valid() && Observed() == Process(old(Observed()), r)
    {
      ghost var b := Observed();
      NothingQueued(b);
      OtherReplies(FrameOf(b.asm), r);
      AnswerReading(r);
      AnswerMotors();
      if bytesReceived == 5 {
        bytesReceived := 0;
      }
    }

    /** One turn of the main loop. */
    method LoopOnce(r: Readings)
      requires Valid()
      modifies this, tx, rx, tx.data, rx.data
      ensures Valid() && Observed() == Step(old(Observed()), Pass(r))
    {
      TransmitByte();
      ReceiveByte();
      AssembleByte(r);
      ProcessCommand(r);
    }
  }
}
