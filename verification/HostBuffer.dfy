/** What the host's 80-byte receive ring holds between calls of recv, as plain sequences. */
module HostBuffer {
  import opened Basics
  import opened Framing

  const RING_SIZE := 80

  /** The ring after a read. A read that fills the ring to 80 bytes or more wraps the end index
      past the start index, and the ring then forgets exactly its 80 oldest bytes. */
  function Buffered(pending: seq<byte>, chunk: seq<byte>): seq<byte> {
    var all := pending + chunk;
    if |all| < RING_SIZE then all else all[RING_SIZE..]
  }

  /** The packets one call of recv serves, and the bytes it keeps. */
  function Serve(pending: seq<byte>, chunk: seq<byte>): seq<Packet> {
    if chunk == [] then [] else Drained(Buffered(pending, chunk))
  }

  function Keep(pending: seq<byte>, chunk: seq<byte>): seq<byte> {
    if chunk == [] then pending else Leftover(Buffered(pending, chunk))
  }

  function ServeAll(pending: seq<byte>, chunks: seq<seq<byte>>): seq<Packet>
    decreases |chunks|
  {
    if chunks == [] then []
    else Serve(pending, chunks[0]) + ServeAll(Keep(pending, chunks[0]), chunks[1..])
  }

  function KeepAll(pending: seq<byte>, chunks: seq<seq<byte>>): seq<byte>
    decreases |chunks|
  {
    if chunks == [] then pending else KeepAll(Keep(pending, chunks[0]), chunks[1..])
  }

  /** No read of the run fills the ring. */
  ghost predicate Fits(pending: seq<byte>, chunks: seq<seq<byte>>)
    decreases |chunks|
  {
    chunks != [] ==>
      |pending| + |chunks[0]| < RING_SIZE && Fits(Keep(pending, chunks[0]), chunks[1..])
  }

  /** At most five bytes survive a drain, so reads of at most 74 bytes always fit. */
  lemma {:induction false} ShortReadsFit(pending: seq<byte>, chunks: seq<seq<byte>>)
    requires |pending| <= FRAME_SIZE
    requires forall c :: c in chunks ==> |c| <= 74
    ensures Fits(pending, chunks)
    ensures |KeepAll(pending, chunks)| <= FRAME_SIZE
    decreases |chunks|
  {
    if chunks == [] {
    } else {
      assert chunks[0] in chunks;
      ShortReadsFit(Keep(pending, chunks[0]), chunks[1..]);
    }
  }

  /** 74 is the best possible bound: one byte more on top of a held-back frame loses all 80 bytes. */
  lemma SeventyFiveLosesEverything(pending: seq<byte>, chunk: seq<byte>)
    requires |pending| == FRAME_SIZE && |chunk| == 75
    ensures !Fits(pending, [chunk])
    ensures Serve(pending, chunk) == [] && Keep(pending, chunk) == []
  {
    assert Buffered(pending, chunk) == [];
  }

  /** A read that fits, even an empty one, drains what was pending followed by what came. */
  lemma FittingReadDrains(pending: seq<byte>, chunk: seq<byte>)
    requires |pending| <= FRAME_SIZE && |pending| + |chunk| < RING_SIZE
    ensures Serve(pending, chunk) == Drained(pending + chunk)
    ensures Keep(pending, chunk) == Leftover(pending + chunk)
  {
    if chunk == [] {
      assert pending + chunk == pending;
    }
  }

  /** However the stream is cut into reads, the host serves the same packets, and what it keeps
      agrees up to noise that the next drain skips anyway. */
  lemma {:induction false} ChunkingIndependence(pending: seq<byte>, chunks: seq<seq<byte>>)
    requires |pending| <= FRAME_SIZE
    requires Fits(pending, chunks)
    ensures ServeAll(pending, chunks) == Drained(pending + Flatten(chunks))
    ensures DropToSync(KeepAll(pending, chunks)) == DropToSync(Leftover(pending + Flatten(chunks)))
    decreases |chunks|
  {
    if chunks == [] {
      assert pending + Flatten(chunks) == pending;
    } else {
      var c, rest := chunks[0], Flatten(chunks[1..]);
      assert pending + Flatten(chunks) == (pending + c) + rest;
      FittingReadDrains(pending, c);
      DrainAppend(pending + c, rest);
      ChunkingIndependence(Keep(pending, c), chunks[1..]);
    }
  }

  /** The bytes a read makes the ring forget. */
  function Forgotten(pending: seq<byte>, chunk: seq<byte>): seq<byte> {
    var all := pending + chunk;
    if chunk == [] || |all| < RING_SIZE then [] else all[..RING_SIZE]
  }

  /** No read of the run makes the ring forget a sync byte. */
  ghost predicate ForgetsOnlyNoise(pending: seq<byte>, chunks: seq<seq<byte>>)
    decreases |chunks|
  {
    chunks != [] ==>
      SYNC !in Forgotten(pending, chunks[0]) && ForgetsOnlyNoise(Keep(pending, chunks[0]), chunks[1..])
  }

  lemma {:induction false} FitsForgetsNothing(pending: seq<byte>, chunks: seq<seq<byte>>)
    requires Fits(pending, chunks)
    ensures ForgetsOnlyNoise(pending, chunks)
    decreases |chunks|
  {
    if chunks == [] {
    } else {
      FitsForgetsNothing(Keep(pending, chunks[0]), chunks[1..]);
    }
  }

  /** Every byte of the stream is in a packet served, was skipped as noise, or is still in the ring. */
  ghost predicate Accounted(segs: seq<Segment>, noise: seq<byte>, pending: seq<byte>, chunks: seq<seq<byte>>) {
    && (forall seg :: seg in segs ==> Clean(seg)) && SYNC !in noise
    && FramesIn(segs) == ServeAll(pending, chunks)
    && Stream(segs, noise) + KeepAll(pending, chunks) == pending + Flatten(chunks)
  }

  lemma ForgottenThenBuffered(pending: seq<byte>, chunk: seq<byte>)
    requires chunk != []
    ensures Forgotten(pending, chunk) + Buffered(pending, chunk) == pending + chunk
  {}

  /** Forgotten noise in front of a drain. */
  lemma DrainParsesBehind(lost: seq<byte>, b: seq<byte>)
    returns (segs: seq<Segment>, noise: seq<byte>, taken: seq<byte>)
    requires SYNC !in lost
    ensures Parses(segs, noise, Drained(b), taken)
    ensures taken + Leftover(b) == lost + b
  {
    segs, noise, taken := DrainParses(b);
    segs, noise := ParsesBehindNoise(lost, segs, noise, Drained(b), taken);
    assert (lost + taken) + Leftover(b) == lost + (taken + Leftover(b));
    taken := lost + taken;
  }

  /** One read: what it takes out of the stream, forgotten noise included, parses into what it serves. */
  lemma ReadParses(pending: seq<byte>, chunk: seq<byte>)
    returns (segs: seq<Segment>, noise: seq<byte>, taken: seq<byte>)
    requires SYNC !in Forgotten(pending, chunk)
    ensures Parses(segs, noise, Serve(pending, chunk), taken)
    ensures taken + Keep(pending, chunk) == pending + chunk
  {
    if chunk == [] {
      segs, noise, taken := [], [], [];
    } else {
      ForgottenThenBuffered(pending, chunk);
      segs, noise, taken := DrainParsesBehind(Forgotten(pending, chunk), Buffered(pending, chunk));
    }
  }

  /** Nothing is lost: in front of what the ring holds, the stream is the packets served, in order,
      with only skipped noise between them. */
  lemma {:induction false} RingHoldsSuffix(pending: seq<byte>, chunks: seq<seq<byte>>)
    returns (segs: seq<Segment>, noise: seq<byte>)
    requires ForgetsOnlyNoise(pending, chunks)
    ensures Accounted(segs, noise, pending, chunks)
    decreases |chunks|
  {
    if chunks == [] {
      segs, noise := [], [];
    } else {
      var c, rest := chunks[0], chunks[1..];
      var next := Keep(pending, c);
      var segs1, noise1, taken := ReadParses(pending, c);
      var segs2, noise2 := RingHoldsSuffix(next, rest);
      var later := Stream(segs2, noise2);
      segs, noise := ParsesAppend(segs1, noise1, Serve(pending, c), taken,
                                  segs2, noise2, ServeAll(next, rest), later);
      Rearrange(taken, next, later, KeepAll(next, rest), pending, c, Flatten(rest));
    }
  }

  lemma Rearrange(here: seq<byte>, next: seq<byte>, later: seq<byte>, kept: seq<byte>,
                  pending: seq<byte>, c: seq<byte>, rest: seq<byte>)
    requires here + next == pending + c
    requires later + kept == next + rest
    ensures here + later + kept == pending + (c + rest)
  {
    assert here + later + kept == here + (later + kept);
    assert here + (next + rest) == (here + next) + rest;
    assert (pending + c) + rest == pending + (c + rest);
  }

  lemma {:induction false} FlattenSyncs(pending: seq<byte>, c: seq<byte>, rest: seq<byte>)
    ensures Syncs(pending + (c + rest)) == Syncs(pending + c) + Syncs(rest)
  {
    assert pending + (c + rest) == (pending + c) + rest;
  }

  /** One read: the sync bytes of pending and chunk are forgotten, served, or kept. */
  lemma {:induction false} ReadCountsSyncs(pending: seq<byte>, chunk: seq<byte>)
    ensures Syncs(pending + chunk)
         == Syncs(Forgotten(pending, chunk)) + Syncs(WireAll(Serve(pending, chunk))) + Syncs(Keep(pending, chunk))
  {
    if chunk == [] {
      assert pending + chunk == pending;
    } else {
      var b := Buffered(pending, chunk);
      DrainCountsSyncs(b);
      ForgottenThenBuffered(pending, chunk);
      SyncsAppend(Forgotten(pending, chunk), b);
    }
  }

  lemma DrainCountsSyncs(s: seq<byte>)
    ensures Syncs(s) == Syncs(WireAll(Drained(s))) + Syncs(Leftover(s))
  {
    var segs, noise, taken := DrainParses(s);
    ParsesCountsSyncs(segs, noise, Drained(s), taken);
    SyncsAppend(taken, Leftover(s));
  }

  /** The sync bytes a run forgets. */
  function ForgottenSyncs(pending: seq<byte>, chunks: seq<seq<byte>>): nat
    decreases |chunks|
  {
    if chunks == [] then 0
    else Syncs(Forgotten(pending, chunks[0])) + ForgottenSyncs(Keep(pending, chunks[0]), chunks[1..])
  }

  /** Over every run, overrunning or not: the sync bytes of the stream are forgotten, served, or kept. */
  lemma {:induction false} RunCountsSyncs(pending: seq<byte>, chunks: seq<seq<byte>>)
    ensures Syncs(pending + Flatten(chunks))
         == ForgottenSyncs(pending, chunks) + Syncs(WireAll(ServeAll(pending, chunks)))
            + Syncs(KeepAll(pending, chunks))
    decreases |chunks|
  {
    if chunks == [] {
      assert pending + Flatten(chunks) == pending;
    } else {
      var c, rest := chunks[0], chunks[1..];
      var next := Keep(pending, c);
      ReadCountsSyncs(pending, c);
      RunCountsSyncs(next, rest);
      FlattenSyncs(pending, c, Flatten(rest));
      SyncsAppend(next, Flatten(rest));
      WireAllAppend(Serve(pending, c), ServeAll(next, rest));
      SyncsAppend(WireAll(Serve(pending, c)), WireAll(ServeAll(next, rest)));
    }
  }

  lemma {:induction false} NoSyncForgotten(pending: seq<byte>, chunks: seq<seq<byte>>)
    requires ForgottenSyncs(pending, chunks) == 0
    ensures ForgetsOnlyNoise(pending, chunks)
    decreases |chunks|
  {
    if chunks == [] {
    } else {
      NoSyncForgotten(Keep(pending, chunks[0]), chunks[1..]);
    }
  }

  /** The bytes can be accounted for exactly when no read makes the ring forget a sync byte. */
  lemma {:induction false} AccountedIffOnlyNoiseForgotten(pending: seq<byte>, chunks: seq<seq<byte>>)
    ensures (exists segs, noise :: Accounted(segs, noise, pending, chunks)) <==> ForgetsOnlyNoise(pending, chunks)
  {
    if segs, noise :| Accounted(segs, noise, pending, chunks) {
      ParsesCountsSyncs(segs, noise, ServeAll(pending, chunks), Stream(segs, noise));
      SyncsAppend(Stream(segs, noise), KeepAll(pending, chunks));
      RunCountsSyncs(pending, chunks);
      NoSyncForgotten(pending, chunks);
    }
    if ForgetsOnlyNoise(pending, chunks) {
      var segs, noise := RingHoldsSuffix(pending, chunks);
    }
  }

  /** So 75 bytes behind a held-back frame cannot be accounted for, whatever the bytes are. */
  lemma SeventyFiveUnaccounted(pending: seq<byte>, chunk: seq<byte>, segs: seq<Segment>, noise: seq<byte>)
    requires |pending| == FRAME_SIZE && pending[0] == SYNC && |chunk| == 75
    ensures !Accounted(segs, noise, pending, [chunk])
  {
    AccountedIffOnlyNoiseForgotten(pending, [chunk]);
    assert Forgotten(pending, chunk)[0] == SYNC;
  }

  /** The host, fed in reads of at most 74 bytes, has served the frames of all bytes but the last. */
  lemma HostServesAllButLastByte(chunks: seq<seq<byte>>)
    requires forall c :: c in chunks ==> |c| <= 74
    ensures ServeAll([], chunks) == Frames(Init(Flatten(chunks)))
    ensures Frames(Flatten(chunks)) == ServeAll([], chunks) + Frames(KeepAll([], chunks))
    ensures |Frames(KeepAll([], chunks))| <= 1
  {
    var s := Flatten(chunks);
    ShortReadsFit([], chunks);
    ChunkingIndependence([], chunks);
    assert [] + s == s;
    HostIsOneByteBehind(s);
    HeldBack(s);
    NoiseIsInvisible(Leftover(s));
    NoiseIsInvisible(KeepAll([], chunks));
  }
}
