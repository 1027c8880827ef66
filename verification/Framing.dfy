/** The byte stream both ends of the serial link agree on: 5-byte frames that start with 0xAA,
    with noise between them skipped byte by byte. */
module Framing {
  import opened Basics

  const SYNC: byte := 0xAA
  const FRAME_SIZE := 5

  datatype Packet = Packet(sync: byte, seqNo: byte, command: byte, data0: byte, data1: byte)

  function Wire(p: Packet): seq<byte> {
    [p.sync, p.seqNo, p.command, p.data0, p.data1]
  }

  function PacketAt(s: seq<byte>): Packet
    requires |s| >= FRAME_SIZE
  {
    Packet(s[0], s[1], s[2], s[3], s[4])
  }

  function WireAll(ps: seq<Packet>): seq<byte> {
    if ps == [] then [] else Wire(ps[0]) + WireAll(ps[1..])
  }

  /** What is left once the bytes before the first 0xAA are skipped. */
  function DropToSync(s: seq<byte>): (t: seq<byte>)
    ensures |t| <= |s|
    ensures t != [] ==> t[0] == SYNC
  {
    if s == [] || s[0] == SYNC then s else DropToSync(s[1..])
  }

  /** The frames of a stream: find a 0xAA, take five bytes, repeat. */
  function Frames(s: seq<byte>): seq<Packet>
    decreases |s|
  {
    var t := DropToSync(s);
    if |t| < FRAME_SIZE then [] else [PacketAt(t)] + Frames(t[FRAME_SIZE..])
  }

  /** The packets the host's drain loop takes out of a buffer. It wants more than five bytes. */
  function Drained(s: seq<byte>): seq<Packet>
    decreases |s|
  {
    if |s| <= FRAME_SIZE then [] else
      var t := DropToSync(s);
      if |t| <= FRAME_SIZE then [] else [PacketAt(t)] + Drained(t[FRAME_SIZE..])
  }

  /** The bytes the drain loop leaves in the buffer. */
  function Leftover(s: seq<byte>): (rest: seq<byte>)
    ensures |rest| <= FRAME_SIZE
    decreases |s|
  {
    if |s| <= FRAME_SIZE then s else
      var t := DropToSync(s);
      if |t| <= FRAME_SIZE then t else Leftover(t[FRAME_SIZE..])
  }

  /** The bytes of a frame begun but not finished when the stream ends. */
  function FrameTail(s: seq<byte>): (t: seq<byte>)
    ensures |t| < FRAME_SIZE
    decreases |s|
  {
    var t := DropToSync(s);
    if |t| < FRAME_SIZE then t else FrameTail(t[FRAME_SIZE..])
  }

  // ---------------------------------------------------------------- skipping noise

  lemma {:induction false} DropToSyncIsSuffix(s: seq<byte>)
    ensures DropToSync(s) == s[|s| - |DropToSync(s)|..]
    ensures SYNC !in s[..|s| - |DropToSync(s)|]
  {
    if s == [] || s[0] == SYNC {
    } else {
      DropToSyncIsSuffix(s[1..]);
      var n := |s| - |DropToSync(s)|;
      assert s[..n] == [s[0]] + s[1..][..n - 1];
    }
  }

  lemma {:induction false} DropToSyncSkips(noise: seq<byte>, s: seq<byte>)
    requires SYNC !in noise
    ensures DropToSync(noise + s) == DropToSync(s)
  {
    if noise == [] {
      assert noise + s == s;
    } else {
      assert (noise + s)[1..] == noise[1..] + s;
      DropToSyncSkips(noise[1..], s);
    }
  }

  lemma {:induction false} DropToSyncAppend(a: seq<byte>, b: seq<byte>)
    ensures DropToSync(a + b) == DropToSync(DropToSync(a) + b)
    ensures DropToSync(a) != [] ==> DropToSync(a + b) == DropToSync(a) + b
  {
    if a == [] || a[0] == SYNC {
    } else {
      assert (a + b)[1..] == a[1..] + b;
      DropToSyncAppend(a[1..], b);
    }
  }

  lemma DropToSyncInit(s: seq<byte>)
    ensures DropToSync(Init(s)) == Init(DropToSync(s))
  {
    if s != [] {
      assert s == Init(s) + [s[|s| - 1]];
      DropToSyncAppend(Init(s), [s[|s| - 1]]);
    }
  }

  /** Dropping leading noise first changes neither the frames nor, up to noise, the leftover. */
  lemma NoiseIsInvisible(s: seq<byte>)
    ensures Frames(DropToSync(s)) == Frames(s)
    ensures Drained(DropToSync(s)) == Drained(s)
    ensures DropToSync(Leftover(DropToSync(s))) == DropToSync(Leftover(s))
    ensures FrameTail(DropToSync(s)) == FrameTail(s)
  {
    assert DropToSync(DropToSync(s)) == DropToSync(s);
  }

  // ---------------------------------------------------------------- meaning of Frames

  /** A frame on the line together with the noise in front of it. */
  datatype Segment = Segment(noise: seq<byte>, frame: Packet)

  ghost predicate Clean(seg: Segment) {
    SYNC !in seg.noise && seg.frame.sync == SYNC
  }

  /** A tail that holds no complete frame. */
  ghost predicate Unfinished(tail: seq<byte>) {
    |DropToSync(tail)| < FRAME_SIZE
  }

  function Stream(segs: seq<Segment>, tail: seq<byte>): seq<byte> {
    if segs == [] then tail else segs[0].noise + (Wire(segs[0].frame) + Stream(segs[1..], tail))
  }

  function FramesIn(segs: seq<Segment>): seq<Packet> {
    if segs == [] then [] else [segs[0].frame] + FramesIn(segs[1..])
  }

  /** Whatever noise surrounds them, frames put on the line come out again, in order and no others. */
  lemma {:induction false} FramesRoundTrip(segs: seq<Segment>, tail: seq<byte>)
    requires forall seg :: seg in segs ==> Clean(seg)
    requires Unfinished(tail)
    ensures Frames(Stream(segs, tail)) == FramesIn(segs)
  {
    if segs == [] {
    } else {
      var rest := Stream(segs[1..], tail);
      var t := Wire(segs[0].frame) + rest;
      assert Clean(segs[0]);
      DropToSyncSkips(segs[0].noise, t);
      assert DropToSync(t) == t && t[FRAME_SIZE..] == rest;
      FramesRoundTrip(segs[1..], tail);
    }
  }

  /** And every byte stream is such a line, so FramesRoundTrip determines Frames completely. */
  lemma {:induction false} EveryStreamSegments(s: seq<byte>) returns (segs: seq<Segment>, tail: seq<byte>)
    ensures forall seg :: seg in segs ==> Clean(seg)
    ensures Unfinished(tail)
    ensures s == Stream(segs, tail)
    decreases |s|
  {
    var t := DropToSync(s);
    if |t| < FRAME_SIZE {
      segs, tail := [], s;
    } else {
      DropToSyncIsSuffix(s);
      var more;
      more, tail := EveryStreamSegments(t[FRAME_SIZE..]);
      var first := Segment(s[..|s| - |t|], PacketAt(t));
      segs := [first] + more;
      assert segs[1..] == more;
      assert t == Wire(first.frame) + t[FRAME_SIZE..];
      assert s == first.noise + t;
    }
  }

  /** A parse of a stretch of bytes: frames in order, and noise before, between and after them. */
  ghost predicate Parses(segs: seq<Segment>, noise: seq<byte>, ps: seq<Packet>, s: seq<byte>) {
    && (forall seg :: seg in segs ==> Clean(seg)) && SYNC !in noise
    && FramesIn(segs) == ps && Stream(segs, noise) == s
  }

  lemma ParsesCons(front: seq<byte>, frame: Packet, segs: seq<Segment>, noise: seq<byte>, ps: seq<Packet>, s: seq<byte>)
    requires SYNC !in front && frame.sync == SYNC && Parses(segs, noise, ps, s)
    ensures Parses([Segment(front, frame)] + segs, noise, [frame] + ps, front + (Wire(frame) + s))
  {
    assert ([Segment(front, frame)] + segs)[1..] == segs;
  }

  /** More noise in front. */
  lemma ParsesBehindNoise(front: seq<byte>, segs: seq<Segment>, noise: seq<byte>, ps: seq<Packet>, s: seq<byte>)
    returns (segs': seq<Segment>, noise': seq<byte>)
    requires SYNC !in front && Parses(segs, noise, ps, s)
    ensures Parses(segs', noise', ps, front + s)
  {
    if segs == [] {
      segs', noise' := [], front + noise;
    } else {
      var first, more := segs[0], Stream(segs[1..], noise);
      assert Clean(first);
      segs', noise' := [Segment(front + first.noise, first.frame)] + segs[1..], noise;
      ParsesCons(front + first.noise, first.frame, segs[1..], noise, ps[1..], more);
      assert (front + first.noise) + (Wire(first.frame) + more) == front + (first.noise + (Wire(first.frame) + more));
    }
  }

  /** Two parses one after the other are a parse: the noise that ends the first goes before the second. */
  lemma {:induction false} ParsesAppend(segs1: seq<Segment>, noise1: seq<byte>, ps1: seq<Packet>, s1: seq<byte>,
                                        segs2: seq<Segment>, noise2: seq<byte>, ps2: seq<Packet>, s2: seq<byte>)
    returns (segs: seq<Segment>, noise: seq<byte>)
    requires Parses(segs1, noise1, ps1, s1) && Parses(segs2, noise2, ps2, s2)
    ensures Parses(segs, noise, ps1 + ps2, s1 + s2)
    decreases |segs1|
  {
    if segs1 == [] {
      segs, noise := ParsesBehindNoise(noise1, segs2, noise2, ps2, s2);
      assert ps1 + ps2 == ps2;
    } else {
      var first, s1' := segs1[0], Stream(segs1[1..], noise1);
      var more;
      assert Clean(first);
      more, noise := ParsesAppend(segs1[1..], noise1, ps1[1..], s1', segs2, noise2, ps2, s2);
      segs := [first] + more;
      ParsesCons(first.noise, first.frame, more, noise, ps1[1..] + ps2, s1' + s2);
      assert ps1 + ps2 == [first.frame] + (ps1[1..] + ps2);
      assert s1 + s2 == first.noise + (Wire(first.frame) + (s1' + s2));
    }
  }

  lemma TakenThenLeft(s: seq<byte>, front: seq<byte>, t: seq<byte>, taken: seq<byte>, left: seq<byte>)
    requires s == front + t && |t| >= FRAME_SIZE && taken + left == t[FRAME_SIZE..]
    ensures front + (Wire(PacketAt(t)) + taken) + left == s
  {
    assert t == Wire(PacketAt(t)) + (taken + left);
  }

  lemma DrainParsesNext(front: seq<byte>, t: seq<byte>, segs: seq<Segment>, noise: seq<byte>, taken: seq<byte>)
    requires SYNC !in front && |t| > FRAME_SIZE && t[0] == SYNC
    requires Parses(segs, noise, Drained(t[FRAME_SIZE..]), taken)
    requires taken + Leftover(t[FRAME_SIZE..]) == t[FRAME_SIZE..]
    ensures var f := PacketAt(t);
            && Parses([Segment(front, f)] + segs, noise, Drained(front + t), front + (Wire(f) + taken))
            && front + (Wire(f) + taken) + Leftover(front + t) == front + t
  {
    var rest := t[FRAME_SIZE..];
    DropToSyncSkips(front, t);
    assert Drained(front + t) == [PacketAt(t)] + Drained(rest) && Leftover(front + t) == Leftover(rest);
    ParsesCons(front, PacketAt(t), segs, noise, Drained(rest), taken);
    TakenThenLeft(front + t, front, t, taken, Leftover(rest));
  }

  /** A drain parses exactly what it takes out: no byte leaves the buffer but in a packet or as noise. */
  lemma {:induction false} DrainParses(s: seq<byte>)
    returns (segs: seq<Segment>, noise: seq<byte>, taken: seq<byte>)
    ensures Parses(segs, noise, Drained(s), taken)
    ensures taken + Leftover(s) == s
    decreases |s|
  {
    var t := DropToSync(s);
    var front := s[..|s| - |t|];
    DropToSyncIsSuffix(s);
    assert s == front + t;
    if |s| <= FRAME_SIZE {
      segs, noise, taken := [], [], [];
    } else if |t| <= FRAME_SIZE {
      segs, noise, taken := [], front, front;
    } else {
      segs, noise, taken := DrainParses(t[FRAME_SIZE..]);
      DrainParsesNext(front, t, segs, noise, taken);
      segs, taken := [Segment(front, PacketAt(t))] + segs, front + (Wire(PacketAt(t)) + taken);
    }
  }

  /** How many sync bytes a stretch holds. */
  function Syncs(s: seq<byte>): nat { multiset(s)[SYNC] }

  lemma SyncsAppend(a: seq<byte>, b: seq<byte>)
    ensures Syncs(a + b) == Syncs(a) + Syncs(b)
  {}

  /** Every parse into the same frames accounts for the same number of sync bytes: those in the frames. */
  lemma {:induction false} ParsesCountsSyncs(segs: seq<Segment>, noise: seq<byte>, ps: seq<Packet>, s: seq<byte>)
    requires Parses(segs, noise, ps, s)
    ensures Syncs(s) == Syncs(WireAll(ps))
  {
    if segs == [] {
    } else {
      var first, rest := segs[0], Stream(segs[1..], noise);
      assert Clean(first);
      ParsesCountsSyncs(segs[1..], noise, ps[1..], rest);
      SyncsAppend(Wire(first.frame), rest);
      SyncsAppend(first.noise, Wire(first.frame) + rest);
      SyncsAppend(Wire(first.frame), WireAll(ps[1..]));
    }
  }

  lemma FramesOfNext(p: Packet, wire: seq<byte>, rest: seq<byte>)
    requires p.sync == SYNC && wire == Wire(p)
    ensures Frames(wire + rest) == [p] + Frames(rest)
    ensures FrameTail(wire + rest) == FrameTail(rest)
  {
    var t := wire + rest;
    assert DropToSync(t) == t && t[FRAME_SIZE..] == rest && PacketAt(t) == p;
  }

  lemma Associates<T>(a: seq<T>, b: seq<T>, c: seq<T>)
    ensures a + b + c == a + (b + c)
  {}

  /** A frame in front of bytes that hold the frames ps and then go on with tail. */
  lemma FramesPrepend(p: Packet, wire: seq<byte>, bytes: seq<byte>, ps: seq<Packet>, tail: seq<byte>)
    requires p.sync == SYNC && wire == Wire(p)
    requires Frames(bytes + tail) == ps + Frames(tail) && FrameTail(bytes + tail) == FrameTail(tail)
    ensures Frames(wire + bytes + tail) == [p] + ps + Frames(tail)
    ensures FrameTail(wire + bytes + tail) == FrameTail(tail)
  {
    FramesOfNext(p, wire, bytes + tail);
    Associates(wire, bytes, tail);
    Associates([p], ps, Frames(tail));
  }

  lemma {:induction false} FramesOfWire(ps: seq<Packet>, tail: seq<byte>)
    requires forall p :: p in ps ==> p.sync == SYNC
    ensures Frames(WireAll(ps) + tail) == ps + Frames(tail)
    ensures FrameTail(WireAll(ps) + tail) == FrameTail(tail)
  {
    if ps == [] {
      assert WireAll(ps) + tail == tail;
    } else {
      assert ps[0] in ps && ps == [ps[0]] + ps[1..];
      FramesOfWire(ps[1..], tail);
      FramesPrepend(ps[0], Wire(ps[0]), WireAll(ps[1..]), ps[1..], tail);
    }
  }

  /** Frames are found left to right: only the unfinished tail of a matters to what follows. */
  lemma {:induction false} FramesAppend(a: seq<byte>, b: seq<byte>)
    ensures Frames(a + b) == Frames(a) + Frames(FrameTail(a) + b)
    ensures FrameTail(a + b) == FrameTail(FrameTail(a) + b)
    decreases |a|
  {
    var t := DropToSync(a);
    DropToSyncAppend(a, b);
    if |t| < FRAME_SIZE {
      NoiseIsInvisible(a + b);
      NoiseIsInvisible(t + b);
    } else {
      assert DropToSync(a + b)[FRAME_SIZE..] == t[FRAME_SIZE..] + b;
      FramesAppend(t[FRAME_SIZE..], b);
    }
  }

  lemma {:induction false} FramesFit(s: seq<byte>)
    ensures FRAME_SIZE * |Frames(s)| <= |s|
    decreases |s|
  {
    var t := DropToSync(s);
    if |t| < FRAME_SIZE {
    } else {
      FramesFit(t[FRAME_SIZE..]);
    }
  }

  /** The frames of a stream's beginning begin the stream's frames; what is missing fits in the rest. */
  lemma FramesOfPrefix(a: seq<byte>, b: seq<byte>)
    ensures Frames(a) <= Frames(a + b)
    ensures FRAME_SIZE * (|Frames(a + b)| - |Frames(a)|) <= |b| + FRAME_SIZE - 1
  {
    FramesAppend(a, b);
    FramesFit(FrameTail(a) + b);
  }

  lemma {:induction false} WireAllLength(ps: seq<Packet>)
    ensures |WireAll(ps)| == FRAME_SIZE * |ps|
  {
    if ps == [] {
    } else {
      WireAllLength(ps[1..]);
    }
  }

  lemma {:induction false} WireAllAppend(ps: seq<Packet>, qs: seq<Packet>)
    ensures WireAll(ps + qs) == WireAll(ps) + WireAll(qs)
  {
    if ps == [] {
      assert ps + qs == qs;
    } else {
      assert (ps + qs)[1..] == ps[1..] + qs;
      WireAllAppend(ps[1..], qs);
    }
  }

  /** Without its very last byte, a run of whole frames loses exactly its last frame. */
  lemma {:induction false} FramesOfCutWire(ps: seq<Packet>)
    requires forall p :: p in ps ==> p.sync == SYNC
    ensures Frames(Init(WireAll(ps))) == Init(ps)
  {
    if |ps| > 1 {
      var t := Init(WireAll(ps));
      WireAllLength(ps[1..]);
      assert ps[0].sync == SYNC;
      assert t[FRAME_SIZE..] == Init(WireAll(ps[1..]));
      assert PacketAt(t) == ps[0];
      FramesOfCutWire(ps[1..]);
    } else if |ps| == 1 {
      assert WireAll(ps) == Wire(ps[0]);
    }
  }

  // ---------------------------------------------------------------- the host's drain loop

  /** The host is exactly one byte behind: it has taken out the frames of all bytes but the last. */
  lemma {:induction false} HostIsOneByteBehind(s: seq<byte>)
    ensures Drained(s) == Frames(Init(s))
    decreases |s|
  {
    if |s| <= FRAME_SIZE {
    } else {
      var t := DropToSync(s);
      DropToSyncInit(s);
      if |t| > FRAME_SIZE {
        assert Init(t)[FRAME_SIZE..] == Init(t[FRAME_SIZE..]);
        assert PacketAt(Init(t)) == PacketAt(t);
        HostIsOneByteBehind(t[FRAME_SIZE..]);
      }
    }
  }

  /** Frames of a stream = packets taken out + at most one frame held back whole in the buffer. */
  lemma {:induction false} HeldBack(s: seq<byte>)
    ensures Frames(s) == Drained(s) + Frames(Leftover(s))
    ensures |Frames(Leftover(s))| <= 1
    ensures |Frames(Leftover(s))| == 1 <==> |DropToSync(Leftover(s))| == FRAME_SIZE
    decreases |s|
  {
    var t := DropToSync(s);
    if |s| <= FRAME_SIZE || |t| <= FRAME_SIZE {
      NoiseIsInvisible(s);
      assert |t| == FRAME_SIZE ==> Frames(t[FRAME_SIZE..]) == [];
    } else {
      HeldBack(t[FRAME_SIZE..]);
    }
  }

  lemma {:induction false} LeftoverIsSuffix(s: seq<byte>)
    ensures |Leftover(s)| <= |s|
    ensures Leftover(s) == s[|s| - |Leftover(s)|..]
    decreases |s|
  {
    var t := DropToSync(s);
    if |s| <= FRAME_SIZE || |t| <= FRAME_SIZE {
      DropToSyncIsSuffix(s);
    } else {
      var rest := t[FRAME_SIZE..];
      DropToSyncIsSuffix(s);
      LeftoverIsSuffix(rest);
      assert rest == s[|s| - |rest|..];
      assert rest[|rest| - |Leftover(rest)|..] == s[|s| - |Leftover(rest)|..];
    }
  }

  /** One turn of the drain: s is some noise followed by t, which has a frame to take out. */
  lemma DrainTurn(s: seq<byte>, t: seq<byte>, rest: seq<byte>)
    requires t == DropToSync(s) && |t| > FRAME_SIZE && rest == t[FRAME_SIZE..]
    ensures Drained(s) == [PacketAt(t)] + Drained(rest) && Leftover(s) == Leftover(rest)
  {}

  lemma NextAfterFrame(t: seq<byte>, b: seq<byte>)
    requires |t| >= FRAME_SIZE
    ensures (t + b)[FRAME_SIZE..] == t[FRAME_SIZE..] + b && PacketAt(t + b) == PacketAt(t)
  {}

  lemma DrainAppendNoise(a: seq<byte>, b: seq<byte>)
    requires |a| > FRAME_SIZE >= |DropToSync(a)|
    ensures Drained(a + b) == Drained(a) + Drained(Leftover(a) + b)
    ensures DropToSync(Leftover(a + b)) == DropToSync(Leftover(Leftover(a) + b))
  {
    DropToSyncAppend(a, b);
    NoiseIsInvisible(a + b);
    NoiseIsInvisible(DropToSync(a) + b);
  }

  /** Draining after a and again after b takes out what one drain after a + b takes out. */
  lemma {:induction false} DrainAppend(a: seq<byte>, b: seq<byte>)
    ensures Drained(a + b) == Drained(a) + Drained(Leftover(a) + b)
    ensures DropToSync(Leftover(a + b)) == DropToSync(Leftover(Leftover(a) + b))
    decreases |a|
  {
    var t := DropToSync(a);
    if |a| <= FRAME_SIZE {
    } else if |t| <= FRAME_SIZE {
      DrainAppendNoise(a, b);
    } else {
      var rest := t[FRAME_SIZE..];
      DropToSyncAppend(a, b);
      NextAfterFrame(t, b);
      DrainTurn(a, t, rest);
      DrainTurn(a + b, t + b, rest + b);
      DrainAppend(rest, b);
    }
  }
}
