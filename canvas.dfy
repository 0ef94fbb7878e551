/**
  The persistent trace canvas of the pendulum renderer.

  The canvas is a row-major buffer of Width x Height 32-bit pixels. It is
  allocated once and filled with the byte 255 (main.c:170-172), so every pixel
  starts white. Each frame, the floored position of the second mass is stamped
  into it with the value 255 when it lies on screen (main.c:73-78); nothing
  ever clears a stamped pixel, so the canvas accumulates the trail of the mass.
*/
module Canvas {

  /** A 32-bit unsigned pixel value (`uint32_t`). */
  newtype u32 = x: int | 0 <= x < 0x1_0000_0000

  const Width: int := 900
  const Height: int := 600
  const CellCount: int := Width * Height

  /** Every pixel after the memset: all four bytes 0xFF. */
  const White: u32 := 0xFFFF_FFFF

  /** The value written for a trail point. */
  const Mark: u32 := 255

  /** A pixel position of the second mass, already floored to integers. */
  datatype Pixel = Pixel(x: int, y: int)

  // ---------------------------------------------------------------------------
  // Initialisation
  // ---------------------------------------------------------------------------

  /** The 32-bit cell that a byte-wise fill with b leaves behind: all four bytes are b. */
  function RepeatByte(b: bv8): (w: bv32)
    ensures (w & 0xFF) as bv8 == b
    ensures ((w >> 8) & 0xFF) as bv8 == b
    ensures ((w >> 16) & 0xFF) as bv8 == b
    ensures (w >> 24) as bv8 == b
  {
    var x := b as bv32;
    (x | (x << 8)) | ((x << 16) | (x << 24))
  }

  /** Allocation of the canvas followed by `memset(canvas, 255, ...)`. */
  method NewCanvas() returns (canvas: array<u32>)
    ensures fresh(canvas)
    ensures canvas.Length == CellCount
    ensures forall i :: 0 <= i < canvas.Length ==> canvas[i] == White
  {
    canvas := new u32[CellCount](_ => RepeatByte(255) as u32);
  }

  /** A freshly filled canvas holds no trail point. */
  lemma BlankCanvasUnmarked(cells: seq<u32>)
    requires forall i :: 0 <= i < |cells| ==> cells[i] == White
    ensures Marked(cells) == {}
  {
  }

  // ---------------------------------------------------------------------------
  // Pixel addressing
  // ---------------------------------------------------------------------------

  /** The bounds guard of main.c:73-74. */
  predicate InBounds(x: int, y: int)
  {
    0 <= x < Width && 0 <= y < Height
  }

  /** Row-major index `y * Width + x` of an on-screen pixel (main.c:76). */
  function PixelIndex(x: int, y: int): (i: nat)
    requires InBounds(x, y)
    ensures i < CellCount
    ensures i / Width == y && i % Width == x
  {
    y * Width + x
  }

  /** Every cell has exactly one on-screen pixel: its row and column. */
  lemma IndexRoundTrip(i: int)
    requires 0 <= i < CellCount
    ensures InBounds(i % Width, i / Width)
    ensures PixelIndex(i % Width, i / Width) == i
  {
  }

  /** Distinct on-screen pixels address distinct cells. */
  lemma PixelIndexInjective(x1: int, y1: int, x2: int, y2: int)
    requires InBounds(x1, y1) && InBounds(x2, y2)
    requires PixelIndex(x1, y1) == PixelIndex(x2, y2)
    ensures x1 == x2 && y1 == y2
  {
  }

  // ---------------------------------------------------------------------------
  // Stamping
  // ---------------------------------------------------------------------------

  /**
    The canvas contents after one stamp at (x, y): an on-screen pixel's cell
    becomes Mark, and no other cell changes.
  */
  function Stamped(cells: seq<u32>, x: int, y: int): (out: seq<u32>)
    requires |cells| == CellCount
    ensures |out| == CellCount
    ensures InBounds(x, y) ==> out[PixelIndex(x, y)] == Mark
    ensures forall i :: 0 <= i < CellCount && out[i] != cells[i] ==> InBounds(x, y) && i == PixelIndex(x, y)
  {
    if InBounds(x, y) then cells[PixelIndex(x, y) := Mark] else cells
  }

  /**
    A stamp keeps the size of the canvas; on screen it sets exactly the cell of
    (x, y) to Mark, off screen it changes nothing.
  */
  lemma StampedCell(cells: seq<u32>, x: int, y: int, i: int)
    requires |cells| == CellCount
    requires 0 <= i < CellCount
    ensures |Stamped(cells, x, y)| == CellCount
    ensures !InBounds(x, y) ==> Stamped(cells, x, y) == cells
    ensures Stamped(cells, x, y)[i]
            == if InBounds(x, y) && i == PixelIndex(x, y) then Mark else cells[i]
  {
  }

  /** Stamping the same pixel twice is the same as stamping it once. */
  lemma StampIdempotent(cells: seq<u32>, x: int, y: int)
    requires |cells| == CellCount
    ensures Stamped(Stamped(cells, x, y), x, y) == Stamped(cells, x, y)
  {
  }

  /** The stamp block of update_state (main.c:73-78), on the canvas buffer. */
  method Stamp(canvas: array<u32>, x: int, y: int)
    requires canvas.Length == CellCount
    modifies canvas
    ensures canvas[..] == Stamped(old(canvas[..]), x, y)
    ensures InBounds(x, y) ==> canvas[PixelIndex(x, y)] == Mark
    ensures forall i :: 0 <= i < CellCount && !(InBounds(x, y) && i == PixelIndex(x, y))
                        ==> canvas[i] == old(canvas[i])
  {
    if 0 <= x < Width && 0 <= y < Height {
      canvas[y * Width + x] := Mark;
    }
  }

  // ---------------------------------------------------------------------------
  // The trail across frames
  // ---------------------------------------------------------------------------

  /** The cells that hold a trail point. */
  function Marked(cells: seq<u32>): set<int>
  {
    set i | 0 <= i < |cells| && cells[i] == Mark
  }

  /** The canvas after stamping the positions of successive frames, first to last. */
  function StampAll(cells: seq<u32>, trail: seq<Pixel>): (out: seq<u32>)
    requires |cells| == CellCount
    ensures |out| == CellCount
    decreases trail
  {
    if trail == [] then cells
    else StampAll(Stamped(cells, trail[0].x, trail[0].y), trail[1..])
  }

  /** The cells of the on-screen positions of a trail. */
  function TrailCells(trail: seq<Pixel>): (cells: set<int>)
    ensures forall i :: i in cells ==> 0 <= i < CellCount
  {
    if trail == [] then {}
    else
      (if InBounds(trail[0].x, trail[0].y) then {PixelIndex(trail[0].x, trail[0].y)} else {})
      + TrailCells(trail[1..])
  }

  /**
    After a run of frames, a cell holds Mark if some on-screen position of the
    run fell on it, and otherwise holds what it held before the run.
  */
  lemma {:induction false} StampAllCell(cells: seq<u32>, trail: seq<Pixel>, i: int)
    requires |cells| == CellCount
    requires 0 <= i < CellCount
    ensures StampAll(cells, trail)[i] == if i in TrailCells(trail) then Mark else cells[i]
    decreases trail
  {
    if trail != [] {
      var next := Stamped(cells, trail[0].x, trail[0].y);
      StampAllCell(next, trail[1..], i);
      StampedCell(cells, trail[0].x, trail[0].y, i);
    }
  }

  /**
    The trail is exactly what the stamps add: the marked cells after a run are
    the marked cells before it plus the cells of the run's on-screen positions.
  */
  lemma TrailMarked(cells: seq<u32>, trail: seq<Pixel>)
    requires |cells| == CellCount
    ensures Marked(StampAll(cells, trail)) == Marked(cells) + TrailCells(trail)
  {
    var out := StampAll(cells, trail);
    forall i | 0 <= i < CellCount
      ensures i in Marked(out) <==> i in Marked(cells) + TrailCells(trail)
    {
      StampAllCell(cells, trail, i);
    }
  }

  /** Once marked, a cell stays marked: the set of marked cells only grows. */
  lemma TrailMonotone(cells: seq<u32>, trail: seq<Pixel>)
    requires |cells| == CellCount
    ensures Marked(cells) <= Marked(StampAll(cells, trail))
  {
    TrailMarked(cells, trail);
  }

  /** Started from the white canvas, the marked cells are the trail itself. */
  lemma BlankTrail(cells: seq<u32>, trail: seq<Pixel>)
    requires |cells| == CellCount
    requires forall i :: 0 <= i < |cells| ==> cells[i] == White
    ensures Marked(StampAll(cells, trail)) == TrailCells(trail)
  {
    BlankCanvasUnmarked(cells);
    TrailMarked(cells, trail);
  }

  /**
    The frame loop of main.c:177-190 as far as the canvas is concerned: one
    stamp per frame, at the floored position of the second mass in that frame.
  */
  method Trace(canvas: array<u32>, trail: seq<Pixel>)
    requires canvas.Length == CellCount
    modifies canvas
    ensures canvas[..] == StampAll(old(canvas[..]), trail)
    ensures Marked(old(canvas[..])) <= Marked(canvas[..])
  {
    var frame := 0;
    while frame < |trail|
      invariant 0 <= frame <= |trail|
      invariant StampAll(canvas[..], trail[frame..]) == StampAll(old(canvas[..]), trail)
    {
      assert trail[frame..][1..] == trail[frame + 1..];
      Stamp(canvas, trail[frame].x, trail[frame].y);
      frame := frame + 1;
    }
    assert trail[frame..] == [];
    TrailMonotone(old(canvas[..]), trail);
  }

  /** Running two stretches of frames one after the other is running them as one. */
  lemma {:induction false} StampAllAppend(cells: seq<u32>, a: seq<Pixel>, b: seq<Pixel>)
    requires |cells| == CellCount
    ensures StampAll(cells, a + b) == StampAll(StampAll(cells, a), b)
    decreases a
  {
    if a != [] {
      assert (a + b)[0] == a[0];
      assert (a + b)[1..] == a[1..] + b;
      StampAllAppend(Stamped(cells, a[0].x, a[0].y), a[1..], b);
    } else {
      assert a + b == b;
    }
  }

  /** The cells marked after the first k frames are still marked after frame m >= k. */
  lemma PrefixMarkedGrows(cells: seq<u32>, trail: seq<Pixel>, k: int, m: int)
    requires |cells| == CellCount
    requires 0 <= k <= m <= |trail|
    ensures Marked(StampAll(cells, trail[..k])) <= Marked(StampAll(cells, trail[..m]))
  {
    assert trail[..m] == trail[..k] + trail[k..m];
    StampAllAppend(cells, trail[..k], trail[k..m]);
    TrailMonotone(StampAll(cells, trail[..k]), trail[k..m]);
  }

  /** An on-screen position of the trail is among its cells. */
  lemma {:induction false} TrailCellsHas(trail: seq<Pixel>, k: int)
    requires 0 <= k < |trail|
    requires InBounds(trail[k].x, trail[k].y)
    ensures PixelIndex(trail[k].x, trail[k].y) in TrailCells(trail)
  {
    if k > 0 {
      assert trail[1..][k - 1] == trail[k];
      TrailCellsHas(trail[1..], k - 1);
    }
  }

  /** The pixel stamped in frame k is marked after every later frame m. */
  lemma FrameMarkPersists(cells: seq<u32>, trail: seq<Pixel>, k: int, m: int)
    requires |cells| == CellCount
    requires 0 <= k < m <= |trail|
    requires InBounds(trail[k].x, trail[k].y)
    ensures StampAll(cells, trail[..m])[PixelIndex(trail[k].x, trail[k].y)] == Mark
  {
    assert trail[..m][k] == trail[k];
    TrailCellsHas(trail[..m], k);
    StampAllCell(cells, trail[..m], PixelIndex(trail[k].x, trail[k].y));
  }
}
