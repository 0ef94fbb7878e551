# Double pendulum: verified model of the disc fill and the trace canvas

The program simulates a double pendulum and draws it each frame. This model
covers its two pieces of integer logic:

- **Disc fill** (`fill_circle`). A disc of radius `r` about `(cx, cy)` is drawn
  as pairs of horizontal spans. For each `dy = 1 .. r`, the half-width is
  `dx = floor(sqrt(2*r*dy - dy*dy))`. One span lies in row `cy + dy - r` and its
  mirror image in row `cy - dy + r`. Both run from `cx - dx` to `cx + dx`.
  Module `Disc` (disc.dfy) returns these spans in drawing order instead of
  drawing them. It uses an integer square root, `ISqrt`, for `floorf(sqrtf(n))`.
- **Trace canvas**. This is a 900 x 600 row-major buffer of `uint32` pixels.
  After allocation it is filled byte-wise with 255, so every cell is
  `0xFFFFFFFF`. Each frame, if the floored position of the second mass is on
  screen, cell `y*900 + x` is set to 255. Module `Canvas` (canvas.dfy) models
  the buffer as an `array<u32>`. The stamp and the per-frame loop are methods
  that update it in place. `Stamped` and `StampAll` are the functions that
  specify them.

Main results:
- For a radius `r >= 0`, the spans cover exactly the integer points of the
  disc `(x-cx)^2 + (y-cy)^2 <= r^2`, except the two poles `(cx, cy - r)` and
  `(cx, cy + r)`, which the loop never reaches (`Disc.DiscCoverage`). For
  `r < 0` nothing is drawn. The spans cover the disc but may overlap: at
  `dy = r` both spans lie on the centre row `cy`, so that row is drawn twice.
- After a run from the white canvas, the marked cells are exactly the cells
  of the on-screen trail points (`Canvas.BlankTrail`).

## Model

| member | source | states |
|---|---|---|
| Disc.ISqrt | main.c:39 | the result `s` is the floor square root: `s*s <= n < (s+1)*(s+1)` |
| Disc.SqrtFrom | main.c:39 | counting up from any `k` with `k*k <= n` reaches the floor square root, never below `k` |
| Disc.SquareWithinISqrt | main.c:39 | an integer `t` has `t*t <= n` exactly when `-ISqrt(n) <= t <= ISqrt(n)` |
| Disc.ISqrtUnique | main.c:39 | the bound `s*s <= n < (s+1)^2` determines the square root uniquely |
| Disc.ISqrtMono | main.c:39 | the integer square root is monotone |
| Disc.SqrtArgument | main.c:39 | for `1 <= dy <= r` the radicand `2*r*dy - dy*dy` equals `r*r - (r-dy)^2` and lies in `[r, r*r]`, so it is positive and at most 400 for radius 20 |
| Disc.HalfWidth | main.c:39 | the half-width satisfies `dx*dx <= 2*r*dy - dy*dy < (dx+1)*(dx+1)` |
| Disc.HalfWidthBounds | main.c:39 | every half-width is between 1 and `r` |
| Disc.HalfWidthMonotone | main.c:29-39 | the half-width does not decrease as `dy` grows |
| Disc.HalfWidthAtRadius | main.c:39 | at `dy = r` the half-width is `r` (the full diameter on the centre row) |
| Disc.UpperSpan | main.c:39-40 | the span of line 40 lies in a row from `cy-r+1` to `cy`, within columns `cx-r .. cx+r`, centred on `cx` |
| Disc.LowerSpan | main.c:39-41 | the span of line 41 lies in a row from `cy` to `cy+r-1`, within columns `cx-r .. cx+r`, centred on `cx` |
| Disc.DiscSpans | main.c:27-43 | everything `fill_circle` draws: no spans for `r <= 0`, exactly `2*r` spans otherwise |
| Disc.SpansThrough | main.c:29-41 | the first `k` loop iterations emit `2*k` spans |
| Disc.SpansThroughAt | main.c:29-41 | span `i` of the first `k` iterations is the upper span (even `i`) or the lower span (odd `i`) of `dy = i/2 + 1` |
| Disc.FillCircle | main.c:27-43 | the loop emits exactly the spans `DiscSpans(cx, cy, radius)`: none for `radius <= 0`, else `2*radius` |
| Disc.DiscSpansAt | main.c:29-41 | for `r >= 1` there are `2*r` spans; span `i` is the upper or lower span of `dy = i/2 + 1`, in increasing `dy` |
| Disc.DiscSpansMirror | main.c:40-41 | the two spans of each `dy` share the x-extent `[cx - dx, cx + dx]`; the upper row is `cy + dy - r`; their rows sum to `2*cy` |
| Disc.DiscSpansBoundingBox | main.c:39-41 | every span lies in rows `cy-r+1 .. cy+r-1` and columns `cx-r .. cx+r`, and is centred on `cx` |
| Disc.SpanPointInDisc | main.c:39-41 | a point of the span of offset `dy` is inside the disc of radius `r` |
| Disc.PaintedInDisc | main.c:29-42 | every pixel covered by a span is in the disc and not a pole |
| Disc.InDiscPainted | main.c:29-42 | every pixel of the disc other than the poles is covered by a span of its row |
| Disc.DiscCoverage | main.c:27-43 | a pixel is covered if and only if it is in the disc, poles excluded: no gaps and no overflow |
| Canvas.RepeatByte | main.c:172 | a 32-bit cell filled byte-wise with byte `b` has each of its four bytes equal to `b` (for `b = 255` that is `0xFFFFFFFF`) |
| Canvas.NewCanvas | main.c:170-172 | the new canvas is fresh, has `900*600` cells, and every cell is `0xFFFFFFFF` |
| Canvas.BlankCanvasUnmarked | main.c:170-172 | a white canvas holds no marked cell |
| Canvas.InBounds | main.c:73-74 | the guard: the floored position is on screen, `0 <= x < 900` and `0 <= y < 600` |
| Canvas.PixelIndex | main.c:73-76 | an on-screen pixel's index `y*900 + x` lies in `[0, 900*600)`; dividing it by 900 gives back its row and column |
| Canvas.IndexRoundTrip | main.c:76 | every cell index is the index of exactly one on-screen pixel (its row and column) |
| Canvas.PixelIndexInjective | main.c:76 | distinct on-screen pixels write distinct cells |
| Canvas.Stamped | main.c:73-77 | the canvas after one stamp: same size, the on-screen pixel's cell is 255, and any cell that changed is that pixel's cell |
| Canvas.StampedCell | main.c:73-77 | an in-bounds stamp sets exactly the pixel's cell to 255; an out-of-bounds stamp leaves the canvas unchanged |
| Canvas.StampIdempotent | main.c:73-77 | stamping the same pixel twice gives the same canvas as stamping it once |
| Canvas.Stamp | main.c:73-78 | the buffer becomes `Stamped(old contents, x, y)`: the pixel's cell is 255 when in bounds, and every other cell is unchanged |
| Canvas.Marked | main.c:77 | the set of cell indices whose value is the trail mark 255 |
| Canvas.StampAll | main.c:73-78 | a run of stamps keeps the canvas size |
| Canvas.TrailCells | main.c:73-76 | the cells of a run's on-screen positions; every one is a valid index in `[0, 900*600)` |
| Canvas.StampAllCell | main.c:73-78 | after a run of stamps, a cell is 255 if an on-screen trail point fell on it; otherwise it keeps its old value |
| Canvas.TrailMarked | main.c:73-78 | the marked cells after a run are those before it plus the cells of the run's on-screen points |
| Canvas.TrailMonotone | main.c:73-78 | the set of marked cells only grows: a trail pixel is never erased |
| Canvas.BlankTrail | main.c:170-178 | from the white canvas, the marked cells are exactly the cells of the on-screen trail points |
| Canvas.StampAllAppend | main.c:73-78 | stamping frames `a` and then frames `b` gives the same canvas as stamping `a + b` in one run |
| Canvas.PrefixMarkedGrows | main.c:73-78 | every cell marked after the first `k` frames is still marked after frame `m`, for any `k <= m` |
| Canvas.TrailCellsHas | main.c:73-76 | the cell of each on-screen position of a run is among the run's cells |
| Canvas.FrameMarkPersists | main.c:73-78 | the pixel stamped in frame `k` is 255 after every later frame `m` |
| Canvas.Trace | main.c:177-190 | the frame loop stamps each frame's position in order, the buffer ends as `StampAll(old contents, trail)`, and no marked cell is lost |

## Left out

- Physics: the angular-acceleration formulas and the semi-implicit Euler update (main.c:85-119). They are single-precision `sinf`/`cosf` arithmetic with an unguarded denominator, which does not fit an integer model.
- Mass positions from the angles (main.c:63-64). These use trigonometry. The canvas stamp and the disc fill take integer pixel coordinates as inputs instead.
- The float-to-integer conversions at the call sites. `fill_circle` receives truncated `int32_t` centres and radius (main.c:69-70). The stamp receives `floorf` of the position (main.c:73-76). A NaN position, which fails every comparison in the guard and so skips the stamp, is not modelled.
- Disc.HalfWidth: models `floorf(sqrtf(n))` as the exact integer square root. Single-precision `sqrtf` agrees with it when `n` is small; for the radius 20 the program uses, `n <= 400` (`Disc.SqrtArgument`). Very large radii, where float rounding could differ, are not modelled.
- Disc.FillCircle: uses unbounded integers throughout. At main.c:29-41, `dy * dy`, `cy + dy - radius`, `cy - dy + radius` and the counter `++dy` are `int32_t` arithmetic, and their overflow for extreme inputs is not modelled; `++dy` overflows when `radius` is `INT32_MAX`. The column ends `cx - dx` and `cx + dx` are single-precision: `cx` is converted to `float`, which rounds once `|cx| > 2^24`. The result is then converted to the `int` parameter of `SDL_RenderDrawLine`, which is undefined when out of range. The model computes these ends exactly.
- Disc.DiscCoverage: assumes that `SDL_RenderDrawLine` paints both endpoints of a horizontal line (`Disc.Covers`). That is a property of the foreign line drawer, which is not part of this model, and some SDL backends have differed on the last pixel.
- Canvas.Stamp: computes the index `y*900 + x` on integers. The source computes it in single precision and casts to `uint32_t`. The two agree, because every in-bounds index is below 2^24.
- SDL calls: initialisation, window, renderer and texture creation, clearing, texture upload, line drawing, presentation and the event loop with its quit flag (main.c:50-66, 81, 129-161, 177-190). These are foreign library calls and I/O. `Disc.FillCircle` returns its spans instead of drawing them. `Canvas.Trace` takes the sequence of per-frame positions as input.
- `malloc`/`free` (main.c:170, 193). They manage memory only; `Canvas.NewCanvas` allocates a fresh array.
