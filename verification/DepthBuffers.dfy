/** Triple buffering between the depth camera's driver, the Kinect object and the consumer. */
module DepthBuffers {
  import opened Basics

  /** A buffer, and the number of the frame it last received in full; 0 before any. */
  class DepthBuffer {
    var frame: nat

    constructor ()
      ensures frame == 0
    {
      frame := 0;
    }
  }

  /** The three buffers by the frames in them, and how many frames the driver has completed. */
  datatype Buffers = Buffers(back: nat, mid: nat, front: nat, count: nat)

  datatype Event = FrameDone | FrontSwap

  /** The driver completes the next frame in the back buffer; the callback trades it for the middle one. */
  function BackSwap(b: Buffers): Buffers {
    Buffers(b.mid, b.count + 1, b.front, b.count + 1)
  }

  function SwapFront(b: Buffers): Buffers {
    b.(front := b.mid, mid := b.front)
  }

  function Step(b: Buffers, e: Event): Buffers {
    match e
    case FrameDone => BackSwap(b)
    case FrontSwap => SwapFront(b)
  }

  const EMPTY := Buffers(0, 0, 0, 0)

  function Run(es: seq<Event>): Buffers
    decreases |es|
  {
    if es == [] then EMPTY else Step(Run(Init(es)), es[|es| - 1])
  }

  /** Front swaps since the last completed frame. */
  function SwapsSince(es: seq<Event>): nat
    decreases |es|
  {
    if es == [] || es[|es| - 1].FrameDone? then 0 else 1 + SwapsSince(Init(es))
  }

  function FramesDone(es: seq<Event>): nat
    decreases |es|
  {
    if es == [] then 0 else FramesDone(Init(es)) + (if es[|es| - 1].FrameDone? then 1 else 0)
  }

  /** Once a frame is done, the newest one is in front exactly after an odd number of front swaps, and
      waits in the middle after an even number: a second swap in a row brings the older one back. */
  lemma {:induction false} NewestFrame(es: seq<Event>)
    ensures var b := Run(es);
            && b.count == FramesDone(es)
            && b.back <= b.count && b.mid <= b.count && b.front <= b.count
            && (b.count > 0 ==>
                 && b.back < b.count
                 && (b.front == b.count <==> SwapsSince(es) % 2 == 1)
                 && (b.mid == b.count <==> SwapsSince(es) % 2 == 0))
    decreases |es|
  {
    if es == [] {
    } else {
      NewestFrame(Init(es));
    }
  }

  /** The frames the consumer gets to see, one per front swap. */
  function Shown(es: seq<Event>): seq<nat>
    decreases |es|
  {
    if es == [] then [] else Shown(Init(es)) + (if es[|es| - 1].FrontSwap? then [Run(es).front] else [])
  }

  /** A frame completed since the last front swap, at every front swap. */
  ghost predicate FreshEachTime(es: seq<Event>)
    decreases |es|
  {
    es != [] ==> FreshEachTime(Init(es)) && (es[|es| - 1].FrontSwap? ==> SwapsSince(Init(es)) == 0 < FramesDone(es))
  }

  /** The newest complete frame at each front swap. */
  function Newest(es: seq<Event>): seq<nat>
    decreases |es|
  {
    if es == [] then [] else Newest(Init(es)) + (if es[|es| - 1].FrontSwap? then [FramesDone(es)] else [])
  }

  /** A consumer that always waits for a new frame before it swaps sees the newest one every time. */
  lemma {:induction false} FreshConsumerSeesNewest(es: seq<Event>)
    requires FreshEachTime(es)
    ensures Shown(es) == Newest(es)
    decreases |es|
  {
    if es == [] {
    } else {
      FreshConsumerSeesNewest(Init(es));
      NewestFrame(es);
    }
  }

  class Kinect {
    var depthBack: DepthBuffer
    var depthMid: DepthBuffer
    var depthFront: DepthBuffer
    /** The buffer libfreenect is told to write. */
    var driverTarget: DepthBuffer
    var depthCount: nat

    ghost predicate Valid()
      reads this
    {
      && depthBack != depthMid && depthMid != depthFront && depthBack != depthFront
      && driverTarget == depthBack
    }

    ghost function Contents(): Buffers
      reads this, depthBack, depthMid, depthFront
    {
      Buffers(depthBack.frame, depthMid.frame, depthFront.frame, depthCount)
    }

    ghost function All(): set<DepthBuffer>
      reads this
    {
      {depthBack, depthMid, depthFront}
    }

    constructor ()
      ensures Valid() && Contents() == EMPTY && forall b :: b in All() ==> fresh(b)
    {
      depthBack := new DepthBuffer();
      depthMid := new DepthBuffer();
      depthFront := new DepthBuffer();
      depthCount := 0;
      driverTarget := depthBack;
    }

    method SwapDepthBackBuffer()
      requires Valid()
      modifies this`depthBack, this`depthMid, this`driverTarget
      ensures Valid() && All() == old(All())
      ensures depthBack == old(depthMid) && depthMid == old(depthBack)
    {
      var depthTmp := depthBack;
      depthBack := depthMid;
      driverTarget := depthBack;
      depthMid := depthTmp;
    }

    method SwapDepthFrontBuffer()
      requires Valid()
      modifies this`depthFront, this`depthMid
      ensures Valid() && All() == old(All())
      ensures depthFront == old(depthMid) && depthMid == old(depthFront)
    {
      var depthTmp := depthFront;
      depthFront := depthMid;
      depthMid := depthTmp;
    }

    /** The driver has filled its target with the next frame and calls back. */
    method DepthCallback()
      requires Valid()
      modifies this`depthBack, this`depthMid, this`driverTarget, this`depthCount, driverTarget
      ensures Valid() && All() == old(All()) && depthFront == old(depthFront)
      ensures Contents() == Step(old(Contents()), FrameDone)
    {
      driverTarget.frame := depthCount + 1;
      SwapDepthBackBuffer();
      depthCount := depthCount + 1;
    }

    method GetDepthFrame() returns (b: DepthBuffer)
      requires Valid()
      modifies this`depthFront, this`depthMid
      ensures Valid() && All() == old(All()) && b == depthFront
      ensures Contents() == Step(old(Contents()), FrontSwap)
    {
      SwapDepthFrontBuffer();
      b := depthFront;
    }
  }

  /** The consumer's side. */
  class IDS {
    const kinect: Kinect
    var dbuffer: DepthBuffer?

    /** Once set, the consumer's buffer is the front one, never the one the driver writes. */
    ghost predicate Valid()
      reads this, kinect
    {
      kinect.Valid() && (dbuffer != null ==> dbuffer == kinect.depthFront != kinect.driverTarget)
    }

    constructor (k: Kinect)
      requires k.Valid()
      ensures Valid() && kinect == k && dbuffer == null
    {
      kinect := k;
      dbuffer := null;
    }

    method SwapDepth()
      requires Valid()
      modifies this`dbuffer, kinect`depthFront, kinect`depthMid
      ensures Valid() && dbuffer == kinect.depthFront && kinect.All() == old(kinect.All())
      ensures kinect.Contents() == Step(old(kinect.Contents()), FrontSwap)
    {
      dbuffer := kinect.GetDepthFrame();
    }

    method GetDepth() returns (b: DepthBuffer?)
      requires Valid()
      ensures b == dbuffer
    {
      b := dbuffer;
    }
  }

  /** The consumer and the driver in any interleaving: the consumer's buffer is never the driver's
      target, and what it sees is what the buffers' history says. */
  method Interleaving(ids: IDS, es: seq<Event>) returns (shown: seq<nat>)
    requires ids.Valid() && ids.dbuffer == null && ids.kinect.Contents() == EMPTY
    modifies ids, ids.kinect, ids.kinect.All()
    ensures ids.Valid() && ids.kinect.Contents() == Run(es)
    ensures shown == Shown(es)
  {
    shown := [];
    for i := 0 to |es|
      invariant ids.Valid() && ids.kinect.Contents() == Run(es[..i])
      invariant ids.kinect.All() == old(ids.kinect.All())
      invariant shown == Shown(es[..i])
    {
      assert Init(es[..i + 1]) == es[..i];
      assert ids.kinect.driverTarget in ids.kinect.All();
      if es[i].FrameDone? {
        ids.kinect.DepthCallback();
      } else {
        ids.SwapDepth();
        shown := shown + [ids.dbuffer.frame];
      }
    }
    assert es[..|es|] == es;
  }
}
