/** Conversion of an RGB frame to quarter-size YUV planes: one pass over the pixels, compared with
    the prototype's nested loops. */
module Yuv {
  import opened Basics

  const WIDTH := 640

  // ---------------------------------------------------------------- colours

  function Luma(r: byte, g: byte, b: byte): (y: byte)
    ensures 16 <= y <= 235
  {
    (66 * r + 129 * g + 25 * b) / 256 + 16
  }

  function ChromaU(r: byte, g: byte, b: byte): (u: byte)
    ensures 16 <= u <= 239
  {
    (-38 * r + -74 * g + 112 * b) / 256 + 128
  }

  function ChromaV(r: byte, g: byte, b: byte): (v: byte)
    ensures 16 <= v <= 239
  {
    (112 * r + -94 * g + -18 * b) / 256 + 128
  }

  /** Black and white reach the ends of the luma range, and greys carry no colour. */
  lemma NeutralColours(grey: byte)
    ensures Luma(0, 0, 0) == 16 && Luma(255, 255, 255) == 235
    ensures ChromaU(grey, grey, grey) == 128 && ChromaV(grey, grey, grey) == 128
  {}

  datatype Channel = Y | U | V

  function Sample(c: Channel, rgb: seq<byte>, i: nat): byte
    requires 3 * i + 2 < |rgb|
  {
    var r, g, b := rgb[3 * i], rgb[3 * i + 1], rgb[3 * i + 2];
    match c
    case Y => Luma(r, g, b)
    case U => ChromaU(r, g, b)
    case V => ChromaV(r, g, b)
  }

  // ---------------------------------------------------------------- which pixels

  /** Luma keeps every second row and column, chroma every fourth. */
  type Stride = s: nat | s == 2 || s == 4 witness 2

  predicate OnColumn(step: Stride, col: nat) {
    if col >= step then OnColumn(step, col - step) else col == 0
  }

  /** Pixel i lies on the grid of every step-th column of every step-th row: the pattern repeats itself
      every step rows. */
  predicate OnGrid(step: Stride, i: nat) {
    if i >= WIDTH * step then OnGrid(step, i - WIDTH * step) else i < WIDTH && OnColumn(step, i)
  }

  lemma OneLess(step: Stride, x: nat)
    requires x >= step
    ensures (x - step) % step == x % step
  {}

  lemma {:induction false} OnColumnIff(step: Stride, col: nat)
    ensures OnColumn(step, col) <==> col % step == 0
  {
    if col < step {
    } else {
      OnColumnIff(step, col - step);
      OneLess(step, col);
    }
  }

  lemma {:induction false} OnGridAt(step: Stride, row: nat, col: nat)
    requires col < WIDTH
    ensures OnGrid(step, WIDTH * row + col) <==> row % step == 0 && col % step == 0
  {
    if row < step {
      OnColumnIff(step, col);
    } else {
      OnGridAt(step, row - step, col);
      OneLess(step, row);
    }
  }

  lemma Residue2(x: nat, q: nat, r: nat)
    requires x == 2 * q + r
    ensures x % 2 == r % 2
  {}

  lemma Residue4(x: nat, q: nat, r: nat)
    requires x == 4 * q + r
    ensures x % 4 == r % 4
  {}

  lemma SameResidue(step: Stride, row: nat, col: nat)
    ensures (WIDTH * row + col) % step == col % step
  {
    if step == 2 {
      Residue2(WIDTH * row + col, 320 * row, col);
    } else {
      Residue4(WIDTH * row + col, 160 * row, col);
    }
  }

  /** The test the source makes of a pixel's index finds the grid. */
  lemma {:induction false} OnGridIff(step: Stride, i: nat)
    ensures OnGrid(step, i) <==> i % step == 0 && (i / WIDTH) % step == 0
  {
    var row, col := i / WIDTH, i % WIDTH;
    OnGridAt(step, row, col);
    SameResidue(step, row, col);
  }

  /** The grid pixels below n in the order a single pass meets them. */
  function Met(step: Stride, n: nat): seq<nat> {
    if n == 0 then [] else Met(step, n - 1) + (if OnGrid(step, n - 1) then [n - 1] else [])
  }

  /** Samples of one row of a plane. */
  function Per(step: Stride): nat { if step == 2 then 320 else 160 }

  /** The k-th pixel of the grid, row by row. */
  function GridPixel(step: Stride, k: nat): nat {
    if k >= Per(step) then GridPixel(step, k - Per(step)) + WIDTH * step
    else if step == 2 then 2 * k else 4 * k
  }

  function Grid(step: Stride, n: nat): (s: seq<nat>)
    ensures |s| == n
  {
    if n == 0 then [] else Grid(step, n - 1) + [GridPixel(step, n - 1)]
  }

  lemma {:induction false} GridAt(step: Stride, n: nat, k: nat)
    requires k < n
    ensures Grid(step, n)[k] == GridPixel(step, k)
  {
    if k == n - 1 {
    } else {
      GridAt(step, n - 1, k);
    }
  }

  lemma {:induction false} GridPixelAt(step: Stride, row: nat, col: nat)
    requires col < Per(step)
    ensures GridPixel(step, Per(step) * row + col) == if step == 2 then WIDTH * (2 * row) + 2 * col
                                                      else WIDTH * (4 * row) + 4 * col
  {
    if row == 0 {
    } else {
      GridPixelAt(step, row - 1, col);
      assert Per(step) * row + col == Per(step) * (row - 1) + col + Per(step);
    }
  }

  /** How many grid pixels come before a given row and column. */
  function MetCount(step: Stride, row: nat, col: nat): nat {
    if row >= step then MetCount(step, row - step, col) + Per(step)
    else if row > 0 then Per(step)
    else if step == 2 then (col + 1) / 2 else (col + 3) / 4
  }

  lemma {:induction false} CountNextCol(step: Stride, row: nat, col: nat)
    requires col < WIDTH
    ensures MetCount(step, row, col + 1)
         == MetCount(step, row, col) + (if OnGrid(step, WIDTH * row + col) then 1 else 0)
  {
    if row < step {
      OnColumnIff(step, col);
    } else {
      CountNextCol(step, row - step, col);
    }
  }

  lemma {:induction false} CountNextRow(step: Stride, row: nat)
    ensures MetCount(step, row, WIDTH) == MetCount(step, row + 1, 0)
  {
    if row < step {
    } else {
      CountNextRow(step, row - step);
    }
  }

  lemma EverySecond(x: nat)
    requires x % 2 == 0
    ensures x == 2 * (x / 2) && (x + 1) / 2 == x / 2
  {}

  lemma EveryFourth(x: nat)
    requires x % 4 == 0
    ensures x == 4 * (x / 4) && (x + 3) / 4 == x / 4
  {}

  lemma FirstOnGrid(step: Stride, row: nat, col: nat)
    requires row < step && col < WIDTH && OnGrid(step, WIDTH * row + col)
    ensures row == 0 && OnColumn(step, col)
  {}

  lemma NextInFirstRow(step: Stride, col: nat)
    requires col < WIDTH && OnColumn(step, col)
    ensures GridPixel(step, MetCount(step, 0, col)) == col
  {
    OnColumnIff(step, col);
    if step == 2 {
      EverySecond(col);
    } else {
      EveryFourth(col);
    }
  }

  lemma {:induction false} NextOnGrid(step: Stride, row: nat, col: nat)
    requires col < WIDTH && OnGrid(step, WIDTH * row + col)
    ensures GridPixel(step, MetCount(step, row, col)) == WIDTH * row + col
  {
    if row < step {
      FirstOnGrid(step, row, col);
      NextInFirstRow(step, col);
    } else {
      NextOnGrid(step, row - step, col);
    }
  }

  /** One pixel: i is at row and column, and k grid pixels have been met. */
  lemma MeetNext(step: Stride, row: nat, col: nat, i: nat, k: nat) returns (k': nat)
    requires col < WIDTH && i == WIDTH * row + col && k == MetCount(step, row, col)
    requires Met(step, i) == Grid(step, k)
    ensures k' == MetCount(step, row, col + 1) && Met(step, i + 1) == Grid(step, k')
  {
    CountNextCol(step, row, col);
    k' := k;
    if OnGrid(step, i) {
      NextOnGrid(step, row, col);
      k' := k + 1;
    }
  }

  lemma {:induction false} MeetAll(step: Stride, row: nat, col: nat) returns (k: nat)
    requires col <= WIDTH
    ensures k == MetCount(step, row, col) && Met(step, WIDTH * row + col) == Grid(step, k)
    decreases row, col
  {
    if col > 0 {
      k := MeetAll(step, row, col - 1);
      k := MeetNext(step, row, col - 1, WIDTH * row + (col - 1), k);
    } else if row > 0 {
      k := MeetAll(step, row - 1, WIDTH);
      CountNextRow(step, row - 1);
    } else {
      k := 0;
    }
  }

  /** A single pass meets the grid pixels in plane order, none twice and none left out. */
  lemma PassMeetsGrid(step: Stride, row: nat, col: nat)
    requires col <= WIDTH
    ensures Met(step, WIDTH * row + col) == Grid(step, MetCount(step, row, col))
  {
    var k := MeetAll(step, row, col);
  }

  lemma Halves(x: nat)
    requires x % 4 == 0
    ensures x % 2 == 0
  {
    EveryFourth(x);
    Residue2(x, 2 * (x / 4), 0);
  }

  lemma {:induction false} LumaRows(height: nat)
    ensures MetCount(2, height, 0) == if height % 2 == 0 then 160 * height else 160 * height + 160
  {
    if height < 2 {
    } else {
      LumaRows(height - 2);
    }
  }

  lemma {:induction false} ChromaRows(height: nat)
    ensures MetCount(4, height, 0) >= 40 * height
    ensures MetCount(4, height, 0) == 40 * height <==> height % 4 == 0
  {
    if height < 4 {
    } else {
      ChromaRows(height - 4);
      OneLess(4, height);
    }
  }

  lemma PlaneOffsets(width: nat, height: nat)
    requires width == WIDTH
    ensures width * height / 4 == 160 * height && width * height / 16 == 40 * height
  {
    assert width * height == 4 * (160 * height) == 16 * (40 * height);
  }

  lemma MetRows(step: Stride, height: nat)
    ensures |Met(step, WIDTH * height)| == MetCount(step, height, 0)
  {
    PassMeetsGrid(step, height, 0);
  }

  /** The planes are filled exactly when the height is a multiple of 4; otherwise the chroma samples
      run past the room that image_size / 16 gives each plane. */
  lemma PlanesFitExactly(height: nat)
    ensures |Met(4, WIDTH * height)| == WIDTH * height / 16 <==> height % 4 == 0
    ensures |Met(2, WIDTH * height)| == WIDTH * height / 4 <==> height % 2 == 0
    ensures |Met(4, WIDTH * height)| >= WIDTH * height / 16
  {
    MetRows(4, height);
    MetRows(2, height);
    PlaneOffsets(WIDTH, height);
    LumaRows(height);
    ChromaRows(height);
  }

  // ---------------------------------------------------------------- planes

  ghost predicate Inside(rgb: seq<byte>, pixels: seq<nat>) {
    forall p :: p in pixels ==> 3 * p + 2 < |rgb|
  }

  lemma {:induction false} MetInside(step: Stride, rgb: seq<byte>, n: nat)
    requires 3 * n <= |rgb|
    ensures Inside(rgb, Met(step, n))
  {
    if n == 0 {
    } else {
      MetInside(step, rgb, n - 1);
    }
  }

  ghost function Samples(c: Channel, rgb: seq<byte>, pixels: seq<nat>): (s: seq<byte>)
    requires Inside(rgb, pixels)
    ensures |s| == |pixels|
  {
    seq(|pixels|, k requires 0 <= k < |pixels| => assert pixels[k] in pixels; Sample(c, rgb, pixels[k]))
  }

  function Step(c: Channel): Stride { if c == Y then 2 else 4 }

  /** One plane of a frame, in the order a single pass produces it. */
  ghost function Plane(c: Channel, rgb: seq<byte>, height: nat): (s: seq<byte>)
    requires |rgb| == 3 * WIDTH * height
  {
    MetInside(Step(c), rgb, WIDTH * height);
    Samples(c, rgb, Met(Step(c), WIDTH * height))
  }

  function PlaneSize(c: Channel, height: nat): nat {
    if c == Y then 160 * height else 40 * height
  }

  lemma MetSize(c: Channel, height: nat)
    requires height % 4 == 0
    ensures Met(Step(c), WIDTH * height) == Grid(Step(c), PlaneSize(c, height))
  {
    PassMeetsGrid(Step(c), height, 0);
    Halves(height);
    if c == Y {
      LumaRows(height);
    } else {
      ChromaRows(height);
    }
  }

  lemma PlaneLength(c: Channel, rgb: seq<byte>, height: nat)
    requires height % 4 == 0 && |rgb| == 3 * WIDTH * height
    ensures |Plane(c, rgb, height)| == PlaneSize(c, height)
  {
    MetSize(c, height);
  }

  lemma PlaneAt(c: Channel, rgb: seq<byte>, height: nat, k: nat, pixels: seq<nat>)
    requires |rgb| == 3 * WIDTH * height && pixels == Met(Step(c), WIDTH * height) && k < |pixels|
    ensures 3 * pixels[k] + 2 < |rgb| && |Plane(c, rgb, height)| == |pixels|
    ensures Plane(c, rgb, height)[k] == Sample(c, rgb, pixels[k])
  {
    MetInside(Step(c), rgb, WIDTH * height);
    assert pixels[k] in pixels;
  }

  /** Sample k of a plane comes from the k-th pixel of the grid. */
  lemma PlanePixel(c: Channel, rgb: seq<byte>, height: nat, k: nat)
    requires height % 4 == 0 && |rgb| == 3 * WIDTH * height
    requires k < PlaneSize(c, height)
    ensures |Plane(c, rgb, height)| == PlaneSize(c, height)
    ensures 3 * GridPixel(Step(c), k) + 2 < |rgb|
    ensures Plane(c, rgb, height)[k] == Sample(c, rgb, GridPixel(Step(c), k))
  {
    MetSize(c, height);
    GridAt(Step(c), PlaneSize(c, height), k);
    PlaneAt(c, rgb, height, k, Met(Step(c), WIDTH * height));
  }

  /** That is the pixel in row Step * (k / per) and column Step * (k % per). */
  lemma PlaneSample(c: Channel, rgb: seq<byte>, height: nat, k: nat)
    requires height % 4 == 0 && |rgb| == 3 * WIDTH * height
    requires k < PlaneSize(c, height)
    ensures |Plane(c, rgb, height)| == PlaneSize(c, height)
    ensures var i := if c == Y then WIDTH * (2 * (k / 320)) + 2 * (k % 320)
                     else WIDTH * (4 * (k / 160)) + 4 * (k % 160);
            3 * i + 2 < |rgb| && Plane(c, rgb, height)[k] == Sample(c, rgb, i)
  {
    PlanePixel(c, rgb, height, k);
    if c == Y {
      GridPixelAt(2, k / 320, k % 320);
    } else {
      GridPixelAt(4, k / 160, k % 160);
    }
  }

  // ---------------------------------------------------------------- the bytes themselves

  /** v - offset is sum / 256, rounded down. */
  ghost predicate Scaled(v: byte, offset: int, sum: int) {
    256 * (v - offset) <= sum < 256 * (v - offset) + 256
  }

  /** What a channel's byte says of the colours of pixel i. */
  ghost predicate Shows(c: Channel, v: byte, rgb: seq<byte>, i: nat) {
    && 3 * i + 2 < |rgb|
    && var r: int, g: int, b: int := rgb[3 * i], rgb[3 * i + 1], rgb[3 * i + 2];
       match c
       case Y => Scaled(v, 16, 66 * r + 129 * g + 25 * b)
       case U => Scaled(v, 128, -38 * r - 74 * g + 112 * b)
       case V => Scaled(v, 128, 112 * r - 94 * g - 18 * b)
  }

  /** Column x of row y of the luma plane, at the front of the destination. */
  ghost predicate LumaAt(dst: seq<byte>, rgb: seq<byte>, y: nat, x: nat) {
    320 * y + x < |dst| && Shows(Y, dst[320 * y + x], rgb, WIDTH * (2 * y) + 2 * x)
  }

  /** Column x of row y of the two chroma planes behind it. */
  ghost predicate ChromaAt(dst: seq<byte>, rgb: seq<byte>, height: nat, y: nat, x: nat) {
    var i, k := WIDTH * (4 * y) + 4 * x, 160 * y + x;
    && 200 * height + k < |dst|
    && Shows(U, dst[160 * height + k], rgb, i) && Shows(V, dst[200 * height + k], rgb, i)
  }

  ghost predicate LumaConverted(dst: seq<byte>, rgb: seq<byte>, height: nat) {
    forall y: nat, x: nat :: 2 * y < height && x < 320 ==> LumaAt(dst, rgb, y, x)
  }

  ghost predicate ChromaConverted(dst: seq<byte>, rgb: seq<byte>, height: nat) {
    forall y: nat, x: nat :: 4 * y < height && x < 160 ==> ChromaAt(dst, rgb, height, y, x)
  }

  lemma SampleShows(c: Channel, rgb: seq<byte>, i: nat)
    requires 3 * i + 2 < |rgb|
    ensures Shows(c, Sample(c, rgb, i), rgb, i)
  {}

  lemma WholeRows(step: Stride, height: nat, y: nat)
    requires height % 4 == 0 && step * y < height
    ensures step * y + step <= height
  {}

  /** A byte of a plane that lies in dst from start on, told by its row and column. */
  lemma PlaneCell(dst: seq<byte>, start: nat, c: Channel, rgb: seq<byte>, height: nat, y: nat, x: nat, i: nat, k: nat)
    requires height % 4 == 0 && |rgb| == 3 * WIDTH * height
    requires Step(c) * y < height && x < Per(Step(c))
    requires i == (if c == Y then WIDTH * (2 * y) + 2 * x else WIDTH * (4 * y) + 4 * x)
    requires k == if c == Y then 320 * y + x else 160 * y + x
    requires start + PlaneSize(c, height) <= |dst|
    requires dst[start..start + PlaneSize(c, height)] == Plane(c, rgb, height)
    ensures k < PlaneSize(c, height) && 3 * i + 2 < |rgb| && dst[start + k] == Sample(c, rgb, i)
  {
    WholeRows(Step(c), height, y);
    PlanePixel(c, rgb, height, k);
    GridPixelAt(Step(c), y, x);
    assert dst[start + k] == dst[start..start + PlaneSize(c, height)][k];
  }

  lemma LumaPlane(dst: seq<byte>, rgb: seq<byte>, height: nat)
    requires height % 4 == 0 && |rgb| == 3 * WIDTH * height && |dst| >= 160 * height
    requires dst[0..160 * height] == Plane(Y, rgb, height)
    ensures LumaConverted(dst, rgb, height)
  {
    forall y: nat, x: nat | 2 * y < height && x < 320 ensures LumaAt(dst, rgb, y, x) {
      var i := WIDTH * (2 * y) + 2 * x;
      PlaneCell(dst, 0, Y, rgb, height, y, x, i, 320 * y + x);
      SampleShows(Y, rgb, i);
    }
  }

  lemma ChromaPlanes(dst: seq<byte>, rgb: seq<byte>, height: nat)
    requires height % 4 == 0 && |rgb| == 3 * WIDTH * height && |dst| >= 240 * height
    requires dst[160 * height..200 * height] == Plane(U, rgb, height)
    requires dst[200 * height..240 * height] == Plane(V, rgb, height)
    ensures ChromaConverted(dst, rgb, height)
  {
    forall y: nat, x: nat | 4 * y < height && x < 160 ensures ChromaAt(dst, rgb, height, y, x) {
      var i, k := WIDTH * (4 * y) + 4 * x, 160 * y + x;
      PlaneCell(dst, 160 * height, U, rgb, height, y, x, i, k);
      PlaneCell(dst, 200 * height, V, rgb, height, y, x, i, k);
      SampleShows(U, rgb, i);
      SampleShows(V, rgb, i);
    }
  }

  lemma PlanesConverted(dst: seq<byte>, rgb: seq<byte>, height: nat, rest: seq<byte>)
    requires height % 4 == 0 && |rgb| == 3 * WIDTH * height
    requires dst == Plane(Y, rgb, height) + Plane(U, rgb, height) + Plane(V, rgb, height) + rest
    ensures LumaConverted(dst, rgb, height) && ChromaConverted(dst, rgb, height)
  {
    PlaneLength(Y, rgb, height);
    PlaneLength(U, rgb, height);
    PlaneLength(V, rgb, height);
    LumaPlane(dst, rgb, height);
    ChromaPlanes(dst, rgb, height);
  }

  lemma ChromaPlanesConverted(dst: seq<byte>, rgb: seq<byte>, height: nat, front: seq<byte>, rest: seq<byte>)
    requires height % 4 == 0 && |rgb| == 3 * WIDTH * height && |front| == 160 * height
    requires dst == front + Plane(U, rgb, height) + Plane(V, rgb, height) + rest
    ensures ChromaConverted(dst, rgb, height)
  {
    PlaneLength(U, rgb, height);
    PlaneLength(V, rgb, height);
    ChromaPlanes(dst, rgb, height);
  }

  // ---------------------------------------------------------------- the single pass

  /** Where the planes start in the destination. */
  function Start(c: Channel, height: nat): nat {
    match c
    case Y => 0
    case U => 160 * height
    case V => 200 * height
  }

  /** The samples of some pixels stand in dst from start on. */
  ghost predicate Holds(dst: seq<byte>, start: nat, c: Channel, rgb: seq<byte>, pixels: seq<nat>) {
    && Inside(rgb, pixels) && start + |pixels| <= |dst|
    && dst[start..start + |pixels|] == Samples(c, rgb, pixels)
  }

  /** The next sample lands right behind those. */
  lemma HoldsNext(dst: seq<byte>, start: nat, c: Channel, rgb: seq<byte>, pixels: seq<nat>, i: nat)
    requires Holds(dst, start, c, rgb, pixels) && start + |pixels| < |dst| && 3 * i + 2 < |rgb|
    ensures Holds(dst[start + |pixels| := Sample(c, rgb, i)], start, c, rgb, pixels + [i])
  {
    var at := start + |pixels|;
    assert dst[at := Sample(c, rgb, i)][start..at + 1] == dst[start..at] + [Sample(c, rgb, i)];
    assert Samples(c, rgb, pixels + [i]) == Samples(c, rgb, pixels) + [Sample(c, rgb, i)];
  }

  /** A write elsewhere leaves them. */
  lemma HoldsStill(dst: seq<byte>, start: nat, c: Channel, rgb: seq<byte>, pixels: seq<nat>, at: nat, v: byte)
    requires Holds(dst, start, c, rgb, pixels) && at < |dst| && !(start <= at < start + |pixels|)
    ensures Holds(dst[at := v], start, c, rgb, pixels)
  {
    assert dst[at := v][start..start + |pixels|] == dst[start..start + |pixels|];
  }

  /** The samples of the first n pixels of the frame stand at the front of the channel's plane. */
  ghost predicate Filled(dst: seq<byte>, c: Channel, rgb: seq<byte>, height: nat, n: nat) {
    Holds(dst, Start(c, height), c, rgb, Met(Step(c), n))
  }

  /** The cell the channel's pointer is at after n pixels. */
  ghost function Cell(c: Channel, height: nat, n: nat): nat {
    Start(c, height) + |Met(Step(c), n)|
  }

  /** Room is left for the next grid pixel of the pass. */
  lemma {:induction false} RoomForNext(step: Stride, i: nat, n: nat)
    requires i <= n
    ensures |Met(step, i)| <= |Met(step, n)|
    ensures i < n && OnGrid(step, i) ==> |Met(step, i)| < |Met(step, n)|
    decreases n - i
  {
    if i == n {
    } else {
      RoomForNext(step, i + 1, n);
    }
  }

  lemma CellInPlane(c: Channel, height: nat, i: nat)
    requires height % 4 == 0 && i <= WIDTH * height
    ensures Cell(c, height, i) <= Start(c, height) + PlaneSize(c, height)
    ensures i < WIDTH * height && OnGrid(Step(c), i) ==> Cell(c, height, i) < Start(c, height) + PlaneSize(c, height)
  {
    RoomForNext(Step(c), i, WIDTH * height);
    MetSize(c, height);
  }

  /** One channel's write, if the pixel is on its grid. */
  ghost function Put(dst: seq<byte>, c: Channel, rgb: seq<byte>, height: nat, i: nat): (r: seq<byte>)
    requires height % 4 == 0 && |rgb| == 3 * WIDTH * height && |dst| >= 240 * height && i < WIDTH * height
    ensures |r| == |dst|
  {
    CellInPlane(c, height, i);
    if OnGrid(Step(c), i) then dst[Cell(c, height, i) := Sample(c, rgb, i)] else dst
  }

  lemma MetGrows(step: Stride, i: nat)
    ensures Met(step, i + 1) == if OnGrid(step, i) then Met(step, i) + [i] else Met(step, i)
  {}

  lemma PutKeeps(dst: seq<byte>, c: Channel, rgb: seq<byte>, height: nat, i: nat)
    requires height % 4 == 0 && |rgb| == 3 * WIDTH * height && |dst| >= 240 * height && i < WIDTH * height
    requires Filled(dst, c, rgb, height, i)
    ensures Filled(Put(dst, c, rgb, height, i), c, rgb, height, i + 1)
  {
    MetGrows(Step(c), i);
    CellInPlane(c, height, i);
    if OnGrid(Step(c), i) {
      HoldsNext(dst, Start(c, height), c, rgb, Met(Step(c), i), i);
    }
  }

  lemma PutLeavesRest(dst: seq<byte>, c: Channel, rgb: seq<byte>, height: nat, i: nat)
    requires height % 4 == 0 && |rgb| == 3 * WIDTH * height && |dst| >= 240 * height && i < WIDTH * height
    ensures Put(dst, c, rgb, height, i)[240 * height..] == dst[240 * height..]
  {
    CellInPlane(c, height, i);
  }

  lemma PutKeepsOther(dst: seq<byte>, c: Channel, d: Channel, rgb: seq<byte>, height: nat, i: nat, n: nat)
    requires height % 4 == 0 && |rgb| == 3 * WIDTH * height && |dst| >= 240 * height && i < WIDTH * height
    requires d != c && n <= WIDTH * height && Filled(dst, d, rgb, height, n)
    ensures Filled(Put(dst, c, rgb, height, i), d, rgb, height, n)
  {
    CellInPlane(c, height, i);
    CellInPlane(d, height, n);
    if OnGrid(Step(c), i) {
      HoldsStill(dst, Start(d, height), d, rgb, Met(Step(d), n), Cell(c, height, i), Sample(c, rgb, i));
    }
  }

  ghost predicate AllFilled(dst: seq<byte>, rgb: seq<byte>, height: nat, n: nat) {
    forall c: Channel :: Filled(dst, c, rgb, height, n)
  }

  ghost function PutAll(dst: seq<byte>, rgb: seq<byte>, height: nat, i: nat): (r: seq<byte>)
    requires height % 4 == 0 && |rgb| == 3 * WIDTH * height && |dst| >= 240 * height && i < WIDTH * height
    ensures |r| == |dst|
  {
    Put(Put(Put(dst, Y, rgb, height, i), U, rgb, height, i), V, rgb, height, i)
  }

  lemma PutAllKeeps(dst: seq<byte>, rgb: seq<byte>, height: nat, i: nat)
    requires height % 4 == 0 && |rgb| == 3 * WIDTH * height && |dst| >= 240 * height && i < WIDTH * height
    requires AllFilled(dst, rgb, height, i)
    ensures AllFilled(PutAll(dst, rgb, height, i), rgb, height, i + 1)
    ensures PutAll(dst, rgb, height, i)[240 * height..] == dst[240 * height..]
  {
    var d1 := Put(dst, Y, rgb, height, i);
    var d2 := Put(d1, U, rgb, height, i);
    PutLeavesRest(dst, Y, rgb, height, i);
    PutLeavesRest(d1, U, rgb, height, i);
    PutLeavesRest(d2, V, rgb, height, i);
    PutKeeps(dst, Y, rgb, height, i);
    PutKeepsOther(dst, Y, U, rgb, height, i, i);
    PutKeepsOther(dst, Y, V, rgb, height, i, i);
    PutKeeps(d1, U, rgb, height, i);
    PutKeepsOther(d1, U, Y, rgb, height, i, i + 1);
    PutKeepsOther(d1, U, V, rgb, height, i, i);
    PutKeeps(d2, V, rgb, height, i);
    PutKeepsOther(d2, V, Y, rgb, height, i, i + 1);
    PutKeepsOther(d2, V, U, rgb, height, i, i + 1);
  }

  lemma FilledIsPlane(dst: seq<byte>, c: Channel, rgb: seq<byte>, height: nat)
    requires height % 4 == 0 && |rgb| == 3 * WIDTH * height
    requires Filled(dst, c, rgb, height, WIDTH * height)
    ensures var start, n := Start(c, height), PlaneSize(c, height);
            start + n <= |dst| && dst[start..start + n] == Plane(c, rgb, height)
  {
    PlaneLength(c, rgb, height);
  }

  lemma ThreeSlices(dst: seq<byte>, a: nat, b: nat, c: nat)
    requires a <= b <= c <= |dst|
    ensures dst == dst[0..a] + dst[a..b] + dst[b..c] + dst[c..]
  {}

  /** The frame's three planes, back to back, fill the destination up to cell 240 * height. */
  lemma FilledIsPlanes(dst: seq<byte>, rgb: seq<byte>, height: nat)
    requires height % 4 == 0 && |rgb| == 3 * WIDTH * height && |dst| >= 240 * height
    requires AllFilled(dst, rgb, height, WIDTH * height)
    ensures dst == Plane(Y, rgb, height) + Plane(U, rgb, height) + Plane(V, rgb, height) + dst[240 * height..]
  {
    FilledIsPlane(dst, Y, rgb, height);
    FilledIsPlane(dst, U, rgb, height);
    FilledIsPlane(dst, V, rgb, height);
    ThreeSlices(dst, 160 * height, 200 * height, 240 * height);
  }

  /** The destination after the first n pixels of the pass. */
  ghost function Pass(dst: seq<byte>, rgb: seq<byte>, height: nat, n: nat): (r: seq<byte>)
    requires height % 4 == 0 && |rgb| == 3 * WIDTH * height && |dst| >= 240 * height && n <= WIDTH * height
    ensures |r| == |dst|
  {
    if n == 0 then dst else PutAll(Pass(dst, rgb, height, n - 1), rgb, height, n - 1)
  }

  lemma NothingMet(dst: seq<byte>, rgb: seq<byte>, height: nat)
    requires |dst| >= 240 * height
    ensures AllFilled(dst, rgb, height, 0)
  {}

  lemma {:induction false} PassFills(dst: seq<byte>, rgb: seq<byte>, height: nat, n: nat)
    requires height % 4 == 0 && |rgb| == 3 * WIDTH * height && |dst| >= 240 * height && n <= WIDTH * height
    ensures AllFilled(Pass(dst, rgb, height, n), rgb, height, n)
    ensures Pass(dst, rgb, height, n)[240 * height..] == dst[240 * height..]
  {
    if n == 0 {
      NothingMet(dst, rgb, height);
    } else {
      PassFills(dst, rgb, height, n - 1);
      PutAllKeeps(Pass(dst, rgb, height, n - 1), rgb, height, n - 1);
    }
  }

  method Bitmap2Yuv420p(destination: array<byte>, rgb: array<byte>, width: nat, height: nat)
    requires width == WIDTH && height % 4 == 0
    requires destination != rgb && rgb.Length == 3 * WIDTH * height && destination.Length >= 240 * height
    modifies destination
    ensures destination[..] == Plane(Y, rgb[..], height) + Plane(U, rgb[..], height) + Plane(V, rgb[..], height)
                               + old(destination[240 * height..])
    ensures LumaConverted(destination[..], rgb[..], height) && ChromaConverted(destination[..], rgb[..], height)
  {
    ghost var before, pixels := destination[..], rgb[..];
    var imageSize := width * height;
    PlaneOffsets(width, height);
    var dstY, dstU, dstV := 0, imageSize / 4, imageSize / 4 + imageSize / 16;
    for i := 0 to imageSize
      invariant dstY == Cell(Y, height, i) && dstU == Cell(U, height, i) && dstV == Cell(V, height, i)
      invariant rgb[..] == pixels && destination[..] == Pass(before, pixels, height, i)
    {
      dstY, dstU, dstV := OnePixel(destination, rgb, height, i, dstY, dstU, dstV);
    }
    PassFills(before, pixels, height, imageSize);
    FilledIsPlanes(destination[..], pixels, height);
    PlanesConverted(destination[..], pixels, height, before[240 * height..]);
  }

  /** The value stored for one channel at one pixel. */
  method Value(rgb: array<byte>, c: Channel, i: nat) returns (v: byte)
    requires 3 * i + 2 < rgb.Length
    ensures v == Sample(c, rgb[..], i)
  {
    var r: int, g: int, b: int := rgb[3 * i], rgb[3 * i + 1], rgb[3 * i + 2];
    match c {
      case Y => v := (66 * r + 129 * g + 25 * b) / 256 + 16;
      case U => v := (-38 * r + -74 * g + 112 * b) / 256 + 128;
      case V => v := (112 * r + -94 * g + -18 * b) / 256 + 128;
    }
  }

  lemma GridsNest(i: nat)
    ensures OnGrid(4, i) ==> OnGrid(2, i)
  {
    OnGridIff(2, i);
    OnGridIff(4, i);
    if OnGrid(4, i) {
      Halves(i);
      Halves(i / WIDTH);
    }
  }

  /** The conditions of the loop's two nested branches. */
  method LumaTest(i: nat) returns (r: bool)
    ensures r == OnGrid(2, i)
  {
    OnGridIff(2, i);
    r := i % 2 == 0 && i / 640 % 2 == 0;
  }

  method ChromaTest(i: nat) returns (r: bool)
    ensures r == OnGrid(4, i)
  {
    OnGridIff(4, i);
    r := i % 4 == 0 && (i / 640) % 4 == 0;
  }

  /** The inner branch of the loop's body. */
  method PutChroma(destination: array<byte>, rgb: array<byte>, ghost height: nat, i: nat, u: nat, v: nat)
    returns (dstU: nat, dstV: nat)
    requires height % 4 == 0 && i < WIDTH * height
    requires destination != rgb && rgb.Length == 3 * WIDTH * height && destination.Length >= 240 * height
    requires u == Cell(U, height, i) && v == Cell(V, height, i)
    modifies destination
    ensures destination[..] == Put(Put(old(destination[..]), U, rgb[..], height, i), V, rgb[..], height, i)
    ensures dstU == Cell(U, height, i + 1) && dstV == Cell(V, height, i + 1)
  {
    CellInPlane(U, height, i);
    CellInPlane(V, height, i);
    dstU, dstV := u, v;
    var chroma := ChromaTest(i);
    if chroma {
      var vu := Value(rgb, U, i);
      destination[dstU] := vu;
      dstU := dstU + 1;
      var vv := Value(rgb, V, i);
      destination[dstV] := vv;
      dstV := dstV + 1;
    }
  }

  /** A pixel off the luma grid is on no grid. */
  lemma OffGrid(dst: seq<byte>, rgb: seq<byte>, height: nat, i: nat)
    requires height % 4 == 0 && |rgb| == 3 * WIDTH * height && |dst| >= 240 * height && i < WIDTH * height
    ensures !OnGrid(2, i) ==>
      && PutAll(dst, rgb, height, i) == dst
      && forall c :: Cell(c, height, i + 1) == Cell(c, height, i)
  {
    GridsNest(i);
  }

  /** The body of the loop. */
  method OnePixel(destination: array<byte>, rgb: array<byte>, ghost height: nat, i: nat, y: nat, u: nat, v: nat)
    returns (dstY: nat, dstU: nat, dstV: nat)
    requires height % 4 == 0 && i < WIDTH * height
    requires destination != rgb && rgb.Length == 3 * WIDTH * height && destination.Length >= 240 * height
    requires y == Cell(Y, height, i) && u == Cell(U, height, i) && v == Cell(V, height, i)
    modifies destination
    ensures destination[..] == PutAll(old(destination[..]), rgb[..], height, i)
    ensures dstY == Cell(Y, height, i + 1) && dstU == Cell(U, height, i + 1) && dstV == Cell(V, height, i + 1)
  {
    CellInPlane(Y, height, i);
    OffGrid(destination[..], rgb[..], height, i);
    dstY, dstU, dstV := y, u, v;
    var luma := LumaTest(i);
    if luma {
      var vy := Value(rgb, Y, i);
      destination[dstY] := vy;
      dstY := dstY + 1;
      dstU, dstV := PutChroma(destination, rgb, height, i, dstU, dstV);
    }
  }

  // ---------------------------------------------------------------- the prototype's nested loops

  /** The nested loops after q rows of the plane and p samples of the next one. */
  ghost predicate NestedSoFar(dst: seq<byte>, before: seq<byte>, plane: seq<byte>, at: nat, k: nat) {
    && k <= |plane| && at + |plane| <= |before| == |dst|
    && dst == before[..at] + plane[..k] + before[at + k..]
  }

  lemma NestedWrite(dst: seq<byte>, before: seq<byte>, plane: seq<byte>, at: nat, k: nat)
    requires NestedSoFar(dst, before, plane, at, k) && k < |plane|
    ensures NestedSoFar(dst[at + k := plane[k]], before, plane, at, k + 1)
  {
    assert plane[..k + 1] == plane[..k] + [plane[k]];
    assert before[at + k..] == [before[at + k]] + before[at + k + 1..];
  }

  /** The next sample of the nested loops is the next sample of the plane. */
  lemma NestedStep(dst: seq<byte>, before: seq<byte>, c: Channel, rgb: seq<byte>, height: nat,
                   at: nat, q: nat, p: nat)
    requires height % 4 == 0 && |rgb| == 3 * WIDTH * height && c != Y && 4 * q < height && p < 160
    requires NestedSoFar(dst, before, Plane(c, rgb, height), at, 160 * q + p)
    ensures var i, k := WIDTH * (4 * q) + 4 * p, 160 * q + p;
            && 3 * i + 2 < |rgb| && at + k < |dst|
            && NestedSoFar(dst[at + k := Sample(c, rgb, i)], before, Plane(c, rgb, height), at, k + 1)
  {
    WholeBands(height, q);
    PlanePixel(c, rgb, height, 160 * q + p);
    GridPixelAt(4, q, p);
    NestedWrite(dst, before, Plane(c, rgb, height), at, 160 * q + p);
  }

  lemma WholeBands(height: nat, q: nat)
    requires height % 4 == 0 && 4 * q < height
    ensures 4 * q + 4 <= height
  {}

  lemma PixelIndex(y: nat, width: nat, x: nat, q: nat, p: nat)
    requires width == WIDTH && y == 4 * q && x == 4 * p
    ensures y * width + x == WIDTH * (4 * q) + 4 * p
  {}

  /** The body of the inner loop. */
  method NestedPixel(destination: array<byte>, rgb: array<byte>, width: nat, ghost height: nat, c: Channel,
                     y: nat, x: nat, dst: nat, ghost q: nat, ghost p: nat, ghost before: seq<byte>, ghost at: nat)
    requires width == WIDTH && height % 4 == 0 && c != Y
    requires destination != rgb && rgb.Length == 3 * WIDTH * height
    requires y == 4 * q < height && x == 4 * p && p < 160 && dst == at + 160 * q + p
    requires NestedSoFar(destination[..], before, Plane(c, rgb[..], height), at, 160 * q + p)
    modifies destination
    ensures NestedSoFar(destination[..], before, Plane(c, rgb[..], height), at, 160 * q + p + 1)
  {
    ghost var written := destination[..];
    var i := y * width + x;
    PixelIndex(y, width, x, q, p);
    NestedStep(written, before, c, rgb[..], height, at, q, p);
    var v := Value(rgb, c, i);
    destination[dst] := v;
    assert destination[..] == written[dst := v];
  }

  /** The inner loop: one row of samples. */
  method NestedRow(destination: array<byte>, rgb: array<byte>, width: nat, ghost height: nat, c: Channel,
                   y: nat, dst0: nat, ghost q: nat, ghost before: seq<byte>, ghost at: nat)
    returns (dst: nat)
    requires width == WIDTH && height % 4 == 0 && c != Y
    requires destination != rgb && rgb.Length == 3 * WIDTH * height
    requires y == 4 * q < height && dst0 == at + 160 * q
    requires NestedSoFar(destination[..], before, Plane(c, rgb[..], height), at, 160 * q)
    modifies destination
    ensures dst == at + 160 * q + 160
    ensures NestedSoFar(destination[..], before, Plane(c, rgb[..], height), at, 160 * q + 160)
  {
    ghost var pixels := rgb[..];
    dst := dst0;
    var x := 0;
    ghost var p := 0;
    while x < width
      invariant x == 4 * p && p <= 160 && dst == at + 160 * q + p
      invariant rgb[..] == pixels
      invariant NestedSoFar(destination[..], before, Plane(c, pixels, height), at, 160 * q + p)
    {
      NestedPixel(destination, rgb, width, height, c, y, x, dst, q, p, before, at);
      dst := dst + 1;
      x, p := x + 4, p + 1;
    }
  }

  /** One chroma plane, filled by the nested loops from cell at on. */
  method NestedPlane(destination: array<byte>, rgb: array<byte>, width: nat, height: nat, c: Channel, at: nat)
    requires width == WIDTH && height % 4 == 0 && c != Y
    requires destination != rgb && rgb.Length == 3 * WIDTH * height
    requires at + 40 * height <= destination.Length
    modifies destination
    ensures |Plane(c, rgb[..], height)| == 40 * height
    ensures destination[..] == old(destination[..])[..at] + Plane(c, rgb[..], height)
                               + old(destination[..])[at + 40 * height..]
  {
    ghost var before, pixels, plane := destination[..], rgb[..], Plane(c, rgb[..], height);
    PlaneLength(c, rgb[..], height);
    var dst, y := at, 0;
    ghost var q := 0;
    while y < height
      invariant y == 4 * q && y <= height && dst == at + 160 * q
      invariant rgb[..] == pixels
      invariant NestedSoFar(destination[..], before, plane, at, 160 * q)
    {
      dst := NestedRow(destination, rgb, width, height, c, y, dst, q, before, at);
      y, q := y + 4, q + 1;
    }
    assert plane[..|plane|] == plane;
  }

  /** The prototype's two chroma passes write the very planes the single pass writes. */
  method NestedChroma(destination: array<byte>, rgb: array<byte>, width: nat, height: nat)
    requires width == WIDTH && height % 4 == 0
    requires destination != rgb && rgb.Length == 3 * WIDTH * height && destination.Length >= 240 * height
    modifies destination
    ensures destination[..] == old(destination[..])[..160 * height] + Plane(U, rgb[..], height)
                               + Plane(V, rgb[..], height) + old(destination[..])[240 * height..]
    ensures ChromaConverted(destination[..], rgb[..], height)
  {
    var imageSize := width * height;
    PlaneOffsets(width, height);
    var dstU := imageSize / 4;
    var dstV := imageSize / 4 + imageSize / 16;
    ghost var before, n := destination[..], 40 * height;
    assert dstU == 160 * height && dstV == dstU + n;
    NestedPlane(destination, rgb, width, height, U, dstU);
    NestedPlane(destination, rgb, width, height, V, dstV);
    TwoPlanes(before, Plane(U, rgb[..], height), Plane(V, rgb[..], height), dstU, n);
    ChromaPlanesConverted(destination[..], rgb[..], height, before[..dstU], before[240 * height..]);
  }

  lemma TwoPlanes(before: seq<byte>, u: seq<byte>, v: seq<byte>, at: nat, n: nat)
    requires |u| == |v| == n && at + 2 * n <= |before|
    ensures var half := before[..at] + u + before[at + n..];
            half[..at + n] + v + half[at + 2 * n..] == before[..at] + u + v + before[at + 2 * n..]
  {
    var half := before[..at] + u + before[at + n..];
    assert half[..at + n] == before[..at] + u;
    assert half[at + 2 * n..] == before[at + 2 * n..];
  }
}
