/** The microcontroller's 500-cell circular byte buffer, a bounded first-in first-out queue. */
module CircularBuffer {
  import opened Basics

  const MAX_BUFFSIZE := 500
  const CAPACITY := 499

  datatype Status = Empty | Normal | Full

  /** As much of s as fits: pushes on a full buffer are dropped. */
  function Clip(s: seq<byte>): (r: seq<byte>)
    ensures |r| <= CAPACITY
  {
    if |s| <= CAPACITY then s else s[..CAPACITY]
  }

  lemma ClipAppend(a: seq<byte>, b: seq<byte>)
    ensures Clip(Clip(a) + b) == Clip(a + b)
  {}

  /** The cell after cell i, which is (i + 1) % MAX_BUFFSIZE. */
  function Next(i: int): (j: int)
    requires 0 <= i < MAX_BUFFSIZE
    ensures 0 <= j < MAX_BUFFSIZE
  {
    if i + 1 == MAX_BUFFSIZE then 0 else i + 1
  }

  lemma NextIsModulo(i: int)
    requires 0 <= i < MAX_BUFFSIZE
    ensures Next(i) == (i + 1) % MAX_BUFFSIZE
  {}

  class Buffer {
    var head: int
    var tail: int
    const data: array<byte>

    ghost predicate Valid()
      reads this
    {
      data.Length == MAX_BUFFSIZE && 0 <= head < MAX_BUFFSIZE && 0 <= tail < MAX_BUFFSIZE
    }

    ghost function Contents(): (s: seq<byte>)
      requires Valid()
      reads this, data
      ensures |s| <= CAPACITY
    {
      if head <= tail then data[head..tail] else data[head..] + data[..tail]
    }

    constructor ()
      ensures Valid() && fresh(data) && Contents() == []
    {
      head, tail := 0, 0;
      data := new byte[MAX_BUFFSIZE](_ => 0);
    }

    method Push(c: byte) returns (r: Status)
      requires Valid()
      modifies this`tail, data
      ensures Valid() && Contents() == Clip(old(Contents()) + [c])
      ensures if |old(Contents())| < 499 then r == Normal && Contents() == old(Contents()) + [c]
              else r == Full && Contents() == old(Contents())
    {
      if Next(tail) == head {
        return Full;
      } else {
        data[tail] := c;
        tail := Next(tail);
      }
      return Normal;
    }

    /** On an empty buffer the result is BUFF_EMPTY, -1 as a char, which reads like a real 0xFF byte. */
    method Pop() returns (c: byte)
      requires Valid()
      modifies this`head
      ensures Valid()
      ensures old(Contents()) == [] ==> c == 0xFF && Contents() == []
      ensures old(Contents()) != [] ==> c == old(Contents())[0] && Contents() == old(Contents())[1..]
    {
      c := 0xFF;
      if head == tail {
        return 0xFF;
      } else {
        c := data[head];
        head := Next(head);
      }
    }

    method GetStatus() returns (r: Status)
      requires Valid()
      ensures (r == Empty <==> |Contents()| == 0) && (r == Full <==> |Contents()| == 499)
    {
      if head == tail {
        return Empty;
      } else if Next(tail) == head {
        return Full;
      } else {
        return Normal;
      }
    }
  }

  // ---------------------------------------------------------------- runs

  datatype Op = PushOp(c: byte) | PopOp

  /** The queue's contents, the bytes accepted, and the bytes popped, after a run of operations. */
  datatype History = History(contents: seq<byte>, accepted: seq<byte>, popped: seq<byte>)

  function Apply(h: History, op: Op): History {
    match op
    case PushOp(c) =>
      if |h.contents| == CAPACITY then h else History(Clip(h.contents + [c]), h.accepted + [c], h.popped)
    case PopOp =>
      if h.contents == [] then h else History(h.contents[1..], h.accepted, h.popped + [h.contents[0]])
  }

  function Run(ops: seq<Op>): History
    decreases |ops|
  {
    if ops == [] then History([], [], []) else Apply(Run(ops[..|ops| - 1]), ops[|ops| - 1])
  }

  /** Bytes leave in the order they entered, none lost, none invented, never more than 499 inside. */
  lemma {:induction false} FirstInFirstOut(ops: seq<Op>)
    ensures var h := Run(ops);
            h.accepted == h.popped + h.contents && |h.contents| <= CAPACITY
    decreases |ops|
  {
    if ops == [] {
    } else {
      FirstInFirstOut(ops[..|ops| - 1]);
      var h := Run(ops[..|ops| - 1]);
      if ops[|ops| - 1].PopOp? && h.contents != [] {
        assert h.contents == [h.contents[0]] + h.contents[1..];
      }
    }
  }
}
