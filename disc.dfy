/**
  Scanline disc fill of the pendulum renderer (`fill_circle`, main.c:27-43).

  For a centre (cx, cy) and a radius r the renderer walks dy = 1 .. r and, for
  each dy, draws two horizontal spans of half-width
  dx = floor(sqrt(2*r*dy - dy*dy)): one `r - dy` rows above the centre row and
  its mirror image `r - dy` rows below it. Instead of calling the line drawer,
  the model returns the spans it would draw, in drawing order.

  Screen coordinates grow downwards, so row `cy + dy - r` is the upper span.
*/
module Disc {

  /** One horizontal line drawn from (x0, y) to (x1, y), both ends included. */
  datatype Span = Span(y: int, x0: int, x1: int)

  // ---------------------------------------------------------------------------
  // Integer square root (the model of `floorf(sqrtf(n))` for exactly
  // representable arguments)
  // ---------------------------------------------------------------------------

  /** The largest s >= k with s*s <= n, found by counting up from k. */
  function SqrtFrom(n: nat, k: nat): (s: nat)
    requires k * k <= n
    ensures k <= s
    ensures s * s <= n < (s + 1) * (s + 1)
    decreases n - k * k
  {
    if n < (k + 1) * (k + 1) then k else SqrtFrom(n, k + 1)
  }

  /** floor(sqrt(n)). */
  function ISqrt(n: nat): (s: nat)
    ensures s * s <= n < (s + 1) * (s + 1)
  {
    SqrtFrom(n, 0)
  }

  lemma SquareMono(a: nat, b: nat)
    requires a <= b
    ensures a * a <= b * b
  {
    assert a * a <= a * b by { MulLeft(a, a, b); }
    assert a * b <= b * b by { MulLeft(b, a, b); }
  }

  lemma MulLeft(c: nat, a: nat, b: nat)
    requires a <= b
    ensures c * a <= c * b
  {
    assert c * b == c * a + c * (b - a);
  }

  /** An integer t satisfies t*t <= n exactly when |t| <= ISqrt(n). */
  lemma SquareWithinISqrt(t: int, n: nat)
    ensures t * t <= n <==> -t <= ISqrt(n) && t <= ISqrt(n)
  {
    var q := ISqrt(n);
    var a: nat := if t < 0 then -t else t;
    assert t * t == a * a;
    if a <= q {
      SquareMono(a, q);
    } else {
      SquareMono(q + 1, a);
    }
  }

  /** The bound s*s <= n < (s+1)*(s+1) determines the square root. */
  lemma ISqrtUnique(n: nat, s: nat)
    requires s * s <= n < (s + 1) * (s + 1)
    ensures ISqrt(n) == s
  {
    SquareWithinISqrt(s, n);
    SquareWithinISqrt(s + 1, n);
  }

  /** The integer square root is monotone. */
  lemma ISqrtMono(a: nat, b: nat)
    requires a <= b
    ensures ISqrt(a) <= ISqrt(b)
  {
    SquareWithinISqrt(ISqrt(a), b);
  }

  // ---------------------------------------------------------------------------
  // Half-width of the span pair at offset dy
  // ---------------------------------------------------------------------------

  /**
    The argument `2*r*dy - dy*dy` of the square root is r*r - (r - dy)^2, so it
    lies between r and r*r. For the mass radius 20 used by the renderer it is at
    most 400, well inside the range where single precision is exact.
  */
  lemma SqrtArgument(r: int, dy: int)
    requires 1 <= dy <= r
    ensures 2 * r * dy - dy * dy == r * r - (r - dy) * (r - dy)
    ensures r <= 2 * r * dy - dy * dy <= r * r
  {
    assert 2 * r * dy - dy * dy == dy * (2 * r - dy);
    MulLeft(dy, r, 2 * r - dy);
    assert dy * r >= r by { MulLeft(r, 1, dy); }
  }

  /** The half-width dx = floor(sqrt(2*r*dy - dy*dy)) computed at main.c:39. */
  function HalfWidth(r: int, dy: int): (dx: nat)
    requires 1 <= dy <= r
    ensures dx * dx <= 2 * r * dy - dy * dy < (dx + 1) * (dx + 1)
  {
    SqrtArgument(r, dy);
    ISqrt(2 * r * dy - dy * dy)
  }

  /** Every half-width is between 1 and the radius. */
  lemma HalfWidthBounds(r: int, dy: int)
    requires 1 <= dy <= r
    ensures 1 <= HalfWidth(r, dy) <= r
  {
    SqrtArgument(r, dy);
    var n := 2 * r * dy - dy * dy;
    SquareWithinISqrt(1, n);
    ISqrtMono(n, r * r);
    ISqrtUnique(r * r, r);
  }

  /** Spans get wider (or stay as wide) as dy grows towards the centre row. */
  lemma HalfWidthMonotone(r: int, dy1: int, dy2: int)
    requires 1 <= dy1 <= dy2 <= r
    ensures HalfWidth(r, dy1) <= HalfWidth(r, dy2)
  {
    SqrtArgument(r, dy1);
    SqrtArgument(r, dy2);
    SquareMono(r - dy2, r - dy1);
    ISqrtMono(2 * r * dy1 - dy1 * dy1, 2 * r * dy2 - dy2 * dy2);
  }

  /** At dy = r (the centre row) the span is the full diameter. */
  lemma HalfWidthAtRadius(r: int)
    requires 1 <= r
    ensures HalfWidth(r, r) == r
  {
    assert 2 * r * r - r * r == r * r;
    ISqrtUnique(r * r, r);
  }

  // ---------------------------------------------------------------------------
  // The spans drawn by fill_circle, as a specification function
  // ---------------------------------------------------------------------------

  /** The span drawn at main.c:40, r - dy rows above the centre. */
  function UpperSpan(cx: int, cy: int, r: int, dy: int): (s: Span)
    requires 1 <= dy <= r
    ensures cy - r < s.y <= cy
    ensures cx - r <= s.x0 <= cx <= s.x1 <= cx + r && s.x0 + s.x1 == 2 * cx
  {
    HalfWidthBounds(r, dy);
    var dx := HalfWidth(r, dy);
    Span(cy + dy - r, cx - dx, cx + dx)
  }

  /** The span drawn at main.c:41, r - dy rows below the centre. */
  function LowerSpan(cx: int, cy: int, r: int, dy: int): (s: Span)
    requires 1 <= dy <= r
    ensures cy <= s.y < cy + r
    ensures cx - r <= s.x0 <= cx <= s.x1 <= cx + r && s.x0 + s.x1 == 2 * cx
  {
    HalfWidthBounds(r, dy);
    var dx := HalfWidth(r, dy);
    Span(cy - dy + r, cx - dx, cx + dx)
  }

  /** The spans drawn by the first k iterations of the dy loop. */
  function SpansThrough(cx: int, cy: int, r: int, k: nat): (spans: seq<Span>)
    requires k <= r || k == 0
    ensures |spans| == 2 * k
  {
    if k == 0 then []
    else SpansThrough(cx, cy, r, k - 1) + [UpperSpan(cx, cy, r, k), LowerSpan(cx, cy, r, k)]
  }

  /**
    Everything fill_circle draws for centre (cx, cy) and radius r: nothing for a
    radius of 0 or less, two spans per dy otherwise.
  */
  function DiscSpans(cx: int, cy: int, r: int): (spans: seq<Span>)
    ensures r <= 0 ==> spans == []
    ensures 1 <= r ==> |spans| == 2 * r
  {
    if r <= 0 then [] else SpansThrough(cx, cy, r, r)
  }

  /** fill_circle: the dy loop of main.c:29-42, emitting spans instead of drawing them. */
  method FillCircle(cx: int, cy: int, radius: int) returns (spans: seq<Span>)
    ensures spans == DiscSpans(cx, cy, radius)
    ensures |spans| == if radius <= 0 then 0 else 2 * radius
  {
    spans := [];
    var dy := 1;
    while dy <= radius
      invariant 1 <= dy && (dy == 1 || dy <= radius + 1)
      invariant spans == SpansThrough(cx, cy, radius, dy - 1)
    {
      var dx := HalfWidth(radius, dy);
      spans := spans + [Span(cy + dy - radius, cx - dx, cx + dx)];
      spans := spans + [Span(cy - dy + radius, cx - dx, cx + dx)];
      dy := dy + 1;
    }
  }

  // ---------------------------------------------------------------------------
  // Properties of the drawn spans
  // ---------------------------------------------------------------------------

  /** Span i of the first k iterations belongs to dy = i/2 + 1; even i is the upper one. */
  lemma {:induction false} SpansThroughAt(cx: int, cy: int, r: int, k: nat, i: int)
    requires k <= r || k == 0
    requires 0 <= i < 2 * k
    ensures 1 <= i / 2 + 1 <= r
    ensures SpansThrough(cx, cy, r, k)[i]
            == if i % 2 == 0 then UpperSpan(cx, cy, r, i / 2 + 1) else LowerSpan(cx, cy, r, i / 2 + 1)
  {
    if i < 2 * (k - 1) {
      SpansThroughAt(cx, cy, r, k - 1, i);
    }
  }

  /**
    A radius of 0 or less draws nothing; otherwise exactly 2*r spans are drawn,
    span 2*(dy-1) being the upper and span 2*(dy-1)+1 the lower span of offset dy,
    for dy = 1 .. r in increasing order.
  */
  lemma DiscSpansAt(cx: int, cy: int, r: int, i: int)
    requires 1 <= r && 0 <= i < 2 * r
    ensures |DiscSpans(cx, cy, r)| == 2 * r
    ensures 1 <= i / 2 + 1 <= r
    ensures DiscSpans(cx, cy, r)[i]
            == if i % 2 == 0 then UpperSpan(cx, cy, r, i / 2 + 1) else LowerSpan(cx, cy, r, i / 2 + 1)
  {
    SpansThroughAt(cx, cy, r, r, i);
  }

  /**
    The two spans of each dy share the x-extent [cx - dx, cx + dx], centred on
    cx, and their rows are mirror images about the centre row cy.
  */
  lemma DiscSpansMirror(cx: int, cy: int, r: int, j: int)
    requires 0 <= j < r
    ensures |DiscSpans(cx, cy, r)| == 2 * r
    ensures var up, down := DiscSpans(cx, cy, r)[2 * j], DiscSpans(cx, cy, r)[2 * j + 1];
            up.y == cy + (j + 1) - r && up.y + down.y == 2 * cy
            && up.x0 == down.x0 == cx - HalfWidth(r, j + 1)
            && up.x1 == down.x1 == cx + HalfWidth(r, j + 1)
  {
    DiscSpansAt(cx, cy, r, 2 * j);
    DiscSpansAt(cx, cy, r, 2 * j + 1);
  }

  /**
    Every drawn span lies in rows cy - r + 1 .. cy + r - 1 and columns
    cx - r .. cx + r, and is centred on cx.
  */
  lemma DiscSpansBoundingBox(cx: int, cy: int, r: int, i: int)
    requires 1 <= r && 0 <= i < 2 * r
    ensures |DiscSpans(cx, cy, r)| == 2 * r
    ensures var s := DiscSpans(cx, cy, r)[i];
            cy - r < s.y < cy + r && cx - r <= s.x0 <= cx <= s.x1 <= cx + r
            && s.x0 + s.x1 == 2 * cx
  {
    DiscSpansAt(cx, cy, r, i);
    HalfWidthBounds(r, i / 2 + 1);
  }

  /** Pixel (x, y) lies on the span. */
  predicate Covers(s: Span, x: int, y: int)
  {
    s.y == y && s.x0 <= x <= s.x1
  }

  /** Pixel (x, y) lies on one of the spans. */
  predicate Painted(spans: seq<Span>, x: int, y: int)
  {
    exists i :: 0 <= i < |spans| && Covers(spans[i], x, y)
  }

  /**
    The integer points of the closed disc of radius r about (cx, cy), without
    the two poles (cx, cy - r) and (cx, cy + r), which the dy loop never reaches.
  */
  predicate InDisc(cx: int, cy: int, r: int, x: int, y: int)
  {
    (x - cx) * (x - cx) + (y - cy) * (y - cy) <= r * r && cy - r < y < cy + r
  }

  /** A point at offset (u, v) from the centre on a span of offset dy is in the disc. */
  lemma SpanPointInDisc(r: int, dy: int, u: int, v: int)
    requires 1 <= dy <= r
    requires v == r - dy || v == dy - r
    requires -u <= HalfWidth(r, dy) && u <= HalfWidth(r, dy)
    ensures u * u + v * v <= r * r && -r < v < r
  {
    var n := 2 * r * dy - dy * dy;
    var e := (r - dy) * (r - dy);
    assert n == r * r - e by { SqrtArgument(r, dy); }
    assert u * u <= n by { SquareWithinISqrt(u, n); }
    assert v * v == e by {
      if v == dy - r { assert v == -(r - dy); }
    }
  }

  /** Every painted pixel is in the disc. */
  lemma PaintedInDisc(cx: int, cy: int, r: int, x: int, y: int)
    requires Painted(DiscSpans(cx, cy, r), x, y)
    ensures InDisc(cx, cy, r, x, y)
  {
    var spans := DiscSpans(cx, cy, r);
    var i :| 0 <= i < |spans| && Covers(spans[i], x, y);
    DiscSpansAt(cx, cy, r, i);
    SpanPointInDisc(r, i / 2 + 1, x - cx, y - cy);
  }

  /** Every pixel of the disc is painted, by span 2*(dy-1) or 2*(dy-1)+1 of its row. */
  lemma InDiscPainted(cx: int, cy: int, r: int, x: int, y: int)
    requires InDisc(cx, cy, r, x, y)
    ensures Painted(DiscSpans(cx, cy, r), x, y)
  {
    var spans := DiscSpans(cx, cy, r);
    var t := y - cy;
    var dy := if t <= 0 then r + t else r - t;
    var i := if t <= 0 then 2 * (dy - 1) else 2 * (dy - 1) + 1;
    assert (r - dy) * (r - dy) == t * t by {
      if t <= 0 { assert r - dy == -t; } else { assert r - dy == t; }
    }
    SqrtArgument(r, dy);
    SquareWithinISqrt(x - cx, 2 * r * dy - dy * dy);
    DiscSpansAt(cx, cy, r, i);
    assert Covers(spans[i], x, y);
  }

  /**
    The spans cover the discrete disc exactly: a pixel is painted if and only if
    it is in the disc (poles excluded). No gaps, no overflow.
  */
  lemma DiscCoverage(cx: int, cy: int, r: int, x: int, y: int)
    ensures Painted(DiscSpans(cx, cy, r), x, y) <==> InDisc(cx, cy, r, x, y)
  {
    if Painted(DiscSpans(cx, cy, r), x, y) {
      PaintedInDisc(cx, cy, r, x, y);
    }
    if InDisc(cx, cy, r, x, y) {
      InDiscPainted(cx, cy, r, x, y);
    }
  }
}
