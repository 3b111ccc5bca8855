/** The midpoint circle of `_draw_circle_mask` and the span-filled disc of
    `_fill_circle`, as the lists of plots they make.

    Both walk the first octant from (0, r) with the decision variable
    `d = 3 - 2r`, stepping x every time and y when `d >= 0`, until y < x. */
module Circles {
  import opened Pixels
  import opened Plotting

  /** The eight octant images of (x0, y0) around (cx, cy), each enabled by one
      bit of the mask, in the drawing order of `_draw_circle_mask`, 0x01 .. 0x80. */
  function OctantPlots(cx: int, cy: int, x0: int, y0: int, mask: bv8, p: Pixel): seq<Plot>
  {
    (if mask & 0x01 != 0 then [Plot(cx + x0, cy - y0, p)] else [])
    + (if mask & 0x02 != 0 then [Plot(cx + y0, cy - x0, p)] else [])
    + (if mask & 0x04 != 0 then [Plot(cx + y0, cy + x0, p)] else [])
    + (if mask & 0x08 != 0 then [Plot(cx + x0, cy + y0, p)] else [])
    + (if mask & 0x10 != 0 then [Plot(cx - x0, cy + y0, p)] else [])
    + (if mask & 0x20 != 0 then [Plot(cx - y0, cy + x0, p)] else [])
    + (if mask & 0x40 != 0 then [Plot(cx - y0, cy - x0, p)] else [])
    + (if mask & 0x80 != 0 then [Plot(cx - x0, cy - y0, p)] else [])
  }

  /** The next octant point and decision variable. */
  function NextY(y0: int, d: int): int
  {
    if d < 0 then y0 else y0 - 1
  }

  function NextD(x0: int, y0: int, d: int): int
  {
    if d < 0 then d + 4 * x0 + 6 else d + 4 * (x0 - y0) + 10
  }

  /** The plots of the loop `while y0 >= x0` from the given state. */
  function CircleRun(cx: int, cy: int, x0: int, y0: int, d: int, mask: bv8, p: Pixel): seq<Plot>
    decreases y0 - x0 + 1
  {
    if y0 < x0 then []
    else OctantPlots(cx, cy, x0, y0, mask, p) + CircleRun(cx, cy, x0 + 1, NextY(y0, d), NextD(x0, y0, d), mask, p)
  }

  /** Every plot `_draw_circle_mask(cx, cy, radius, p, mask)` makes; radius 0
      returns at once, and a negative radius never enters the loop. */
  function CirclePlots(cx: int, cy: int, radius: int, mask: bv8, p: Pixel): seq<Plot>
  {
    if radius == 0 then [] else CircleRun(cx, cy, 0, radius, 3 - 2 * radius, mask, p)
  }

  function Dist2(q: Plot, cx: int, cy: int): int
  {
    (q.x - cx) * (q.x - cx) + (q.y - cy) * (q.y - cy)
  }

  /** The midpoint test values just outside (A) and just inside (B) the
      octant point, doubled to stay in integers. */
  function A(x: int, y: int, r: int): int
  {
    2 * (x * x) + 2 * (y * y) + 2 * y + 1 - 2 * (r * r)
  }

  function B(x: int, y: int, r: int): int
  {
    2 * (x * x) + 2 * (y * y) - 2 * y + 1 - 2 * (r * r)
  }

  /** The loop invariant: d is the test value of the next candidate, and while
      the loop runs the current point lies between the two half-circles. */
  predicate Inv(x0: int, y0: int, d: int, r: int)
  {
    0 <= x0 && y0 <= r && d == B(x0 + 1, y0, r) &&
    (y0 >= x0 ==> A(x0, y0, r) > 0 && B(x0, y0, r) < 0)
  }

  lemma InvInitially(r: int)
    requires r > 0
    ensures Inv(0, r, 3 - 2 * r, r)
  {
  }

  /** How the test values change when x grows by one or y shrinks by one,
      and that B is always odd. */
  lemma StepX(x: int, y: int, r: int)
    ensures A(x + 1, y, r) == A(x, y, r) + 4 * x + 2
    ensures B(x + 1, y, r) == B(x, y, r) + 4 * x + 2
  {
  }

  lemma StepY(x: int, y: int, r: int)
    ensures A(x, y - 1, r) == B(x, y, r)
    ensures B(x, y - 1, r) == B(x, y, r) - 4 * (y - 1)
  {
  }

  lemma BOdd(x: int, y: int, r: int)
    ensures B(x, y, r) == 2 * (x * x + y * y - y - r * r) + 1
  {
  }

  lemma InvStep(x0: int, y0: int, d: int, r: int)
    requires Inv(x0, y0, d, r) && y0 >= x0
    ensures Inv(x0 + 1, NextY(y0, d), NextD(x0, y0, d), r)
  {
    StepX(x0, y0, r);
    StepX(x0 + 1, y0, r);
    if d >= 0 {
      StepY(x0 + 1, y0, r);
      StepY(x0 + 2, y0, r);
      BOdd(x0 + 1, y0, r);
    }
  }

  /** A point between the two half-circles is within r of the radius:
      r*r - r <= x*x + y*y < r*r + r. */
  lemma InvNear(x0: int, y0: int, d: int, r: int)
    requires Inv(x0, y0, d, r) && y0 >= x0
    ensures r * r - r <= x0 * x0 + y0 * y0 < r * r + r
  {
    var S, R := x0 * x0 + y0 * y0, r * r;
    assert A(x0, y0, r) == 2 * S + 2 * y0 + 1 - 2 * R;
    assert B(x0, y0, r) == 2 * S - 2 * y0 + 1 - 2 * R;
  }

  /** Squaring forgets the sign. */
  lemma SquareSign(a: int, b: int)
    requires a == b || a == -b
    ensures a * a == b * b
  {
    if a == -b {
      assert a * a == (-b) * (-b) == b * b;
    }
  }

  /** The offsets of the eight octant images of (x0, y0): both coordinates
      up to sign, in either order. */
  predicate OctantPoint(x0: int, y0: int, u: int, v: int)
  {
    ((u == x0 || u == -x0) && (v == y0 || v == -y0)) || ((u == y0 || u == -y0) && (v == x0 || v == -x0))
  }

  /** A mask selects some of the eight octant images; the full mask selects
      exactly those. */
  lemma OctantMember(cx: int, cy: int, x0: int, y0: int, mask: bv8, p: Pixel, q: Plot)
    ensures q in OctantPlots(cx, cy, x0, y0, mask, p) ==> q in OctantPlots(cx, cy, x0, y0, 0xFF, p)
    ensures q in OctantPlots(cx, cy, x0, y0, 0xFF, p) <==> q.p == p && OctantPoint(x0, y0, q.x - cx, q.y - cy)
  {
    var full := [Plot(cx + x0, cy - y0, p), Plot(cx + y0, cy - x0, p), Plot(cx + y0, cy + x0, p), Plot(cx + x0, cy + y0, p),
                 Plot(cx - x0, cy + y0, p), Plot(cx - y0, cy + x0, p), Plot(cx - y0, cy - x0, p), Plot(cx - x0, cy - y0, p)];
    assert OctantPlots(cx, cy, x0, y0, 0xFF, p) == full;
    if q.p == p && OctantPoint(x0, y0, q.x - cx, q.y - cy) {
      assert q == full[0] || q == full[1] || q == full[2] || q == full[3] ||
             q == full[4] || q == full[5] || q == full[6] || q == full[7];
    }
  }

  lemma OctantDistance(cx: int, cy: int, x0: int, y0: int, mask: bv8, p: Pixel, q: Plot)
    requires q in OctantPlots(cx, cy, x0, y0, mask, p)
    ensures Dist2(q, cx, cy) == x0 * x0 + y0 * y0
  {
    OctantMember(cx, cy, x0, y0, mask, p, q);
    var u, v := q.x - cx, q.y - cy;
    assert Dist2(q, cx, cy) == u * u + v * v;
    if (u == x0 || u == -x0) && (v == y0 || v == -y0) {
      SquareSign(u, x0);
      SquareSign(v, y0);
    } else {
      SquareSign(u, y0);
      SquareSign(v, x0);
    }
  }

  lemma {:induction false} RunNear(cx: int, cy: int, x0: int, y0: int, d: int, mask: bv8, p: Pixel, r: int, q: Plot)
    requires Inv(x0, y0, d, r) && q in CircleRun(cx, cy, x0, y0, d, mask, p)
    ensures r * r - r <= Dist2(q, cx, cy) < r * r + r
    decreases y0 - x0 + 1
  {
    if q in OctantPlots(cx, cy, x0, y0, mask, p) {
      OctantDistance(cx, cy, x0, y0, mask, p, q);
      InvNear(x0, y0, d, r);
    } else {
      InvStep(x0, y0, d, r);
      RunNear(cx, cy, x0 + 1, NextY(y0, d), NextD(x0, y0, d), mask, p, r, q);
    }
  }

  /** Every plotted point lies within r of the circle: its squared distance
      from the centre is in [r*r - r, r*r + r). */
  lemma CircleNearRadius(cx: int, cy: int, radius: int, mask: bv8, p: Pixel, q: Plot)
    requires q in CirclePlots(cx, cy, radius, mask, p)
    ensures radius > 0
    ensures radius * radius - radius <= Dist2(q, cx, cy) < radius * radius + radius
  {
    InvInitially(radius);
    RunNear(cx, cy, 0, radius, 3 - 2 * radius, mask, p, radius, q);
  }

  lemma {:induction false} RunMaskZero(cx: int, cy: int, x0: int, y0: int, d: int, p: Pixel)
    ensures CircleRun(cx, cy, x0, y0, d, 0, p) == []
    decreases y0 - x0 + 1
  {
    if y0 >= x0 {
      RunMaskZero(cx, cy, x0 + 1, NextY(y0, d), NextD(x0, y0, d), p);
    }
  }

  /** A circle with mask 0, or with radius <= 0, plots nothing. */
  lemma CircleNothing(cx: int, cy: int, radius: int, mask: bv8, p: Pixel)
    requires mask == 0 || radius <= 0
    ensures CirclePlots(cx, cy, radius, mask, p) == []
  {
    if mask == 0 {
      RunMaskZero(cx, cy, 0, radius, 3 - 2 * radius, p);
    }
  }

  lemma {:induction false} RunMaskSubset(cx: int, cy: int, x0: int, y0: int, d: int, mask: bv8, p: Pixel, q: Plot)
    requires q in CircleRun(cx, cy, x0, y0, d, mask, p)
    ensures q in CircleRun(cx, cy, x0, y0, d, 0xFF, p)
    decreases y0 - x0 + 1
  {
    OctantMember(cx, cy, x0, y0, mask, p, q);
    if q !in OctantPlots(cx, cy, x0, y0, mask, p) {
      RunMaskSubset(cx, cy, x0 + 1, NextY(y0, d), NextD(x0, y0, d), mask, p, q);
    }
  }

  /** A masked circle draws a subset of the full circle. */
  lemma MaskedCircleIsSubset(cx: int, cy: int, radius: int, mask: bv8, p: Pixel, q: Plot)
    requires q in CirclePlots(cx, cy, radius, mask, p)
    ensures q in CirclePlots(cx, cy, radius, 0xFF, p)
  {
    RunMaskSubset(cx, cy, 0, radius, 3 - 2 * radius, mask, p, q);
  }

  /** The full circle is closed under the square's symmetries: swapping the
      offsets and mirroring either axis. */
  lemma {:induction false} RunSwap(cx: int, cy: int, x0: int, y0: int, d: int, p: Pixel, u: int, v: int)
    requires Plot(cx + u, cy + v, p) in CircleRun(cx, cy, x0, y0, d, 0xFF, p)
    ensures Plot(cx + v, cy + u, p) in CircleRun(cx, cy, x0, y0, d, 0xFF, p)
    decreases y0 - x0 + 1
  {
    var here := OctantPlots(cx, cy, x0, y0, 0xFF, p);
    assert CircleRun(cx, cy, x0, y0, d, 0xFF, p) ==
      here + CircleRun(cx, cy, x0 + 1, NextY(y0, d), NextD(x0, y0, d), 0xFF, p);
    OctantMember(cx, cy, x0, y0, 0xFF, p, Plot(cx + u, cy + v, p));
    OctantMember(cx, cy, x0, y0, 0xFF, p, Plot(cx + v, cy + u, p));
    if Plot(cx + u, cy + v, p) !in here {
      RunSwap(cx, cy, x0 + 1, NextY(y0, d), NextD(x0, y0, d), p, u, v);
    }
  }

  lemma {:induction false} RunMirror(cx: int, cy: int, x0: int, y0: int, d: int, p: Pixel, u: int, v: int)
    requires Plot(cx + u, cy + v, p) in CircleRun(cx, cy, x0, y0, d, 0xFF, p)
    ensures Plot(cx - u, cy + v, p) in CircleRun(cx, cy, x0, y0, d, 0xFF, p)
    ensures Plot(cx + u, cy - v, p) in CircleRun(cx, cy, x0, y0, d, 0xFF, p)
    decreases y0 - x0 + 1
  {
    var here := OctantPlots(cx, cy, x0, y0, 0xFF, p);
    assert CircleRun(cx, cy, x0, y0, d, 0xFF, p) ==
      here + CircleRun(cx, cy, x0 + 1, NextY(y0, d), NextD(x0, y0, d), 0xFF, p);
    OctantMember(cx, cy, x0, y0, 0xFF, p, Plot(cx + u, cy + v, p));
    OctantMember(cx, cy, x0, y0, 0xFF, p, Plot(cx - u, cy + v, p));
    OctantMember(cx, cy, x0, y0, 0xFF, p, Plot(cx + u, cy - v, p));
    if Plot(cx + u, cy + v, p) !in here {
      RunMirror(cx, cy, x0 + 1, NextY(y0, d), NextD(x0, y0, d), p, u, v);
    }
  }

  lemma CircleSymmetric(cx: int, cy: int, radius: int, p: Pixel, u: int, v: int)
    requires Plot(cx + u, cy + v, p) in CirclePlots(cx, cy, radius, 0xFF, p)
    ensures Plot(cx + v, cy + u, p) in CirclePlots(cx, cy, radius, 0xFF, p)
    ensures Plot(cx - u, cy + v, p) in CirclePlots(cx, cy, radius, 0xFF, p)
    ensures Plot(cx + u, cy - v, p) in CirclePlots(cx, cy, radius, 0xFF, p)
  {
    RunSwap(cx, cy, 0, radius, 3 - 2 * radius, p, u, v);
    RunMirror(cx, cy, 0, radius, 3 - 2 * radius, p, u, v);
  }

  /** A positive radius draws the four compass points of the full circle. */
  lemma CircleCompassPoints(cx: int, cy: int, radius: int, p: Pixel)
    requires radius > 0
    ensures Plot(cx, cy - radius, p) in CirclePlots(cx, cy, radius, 0xFF, p)
    ensures Plot(cx + radius, cy, p) in CirclePlots(cx, cy, radius, 0xFF, p)
    ensures Plot(cx, cy + radius, p) in CirclePlots(cx, cy, radius, 0xFF, p)
    ensures Plot(cx - radius, cy, p) in CirclePlots(cx, cy, radius, 0xFF, p)
  {
    var run := CirclePlots(cx, cy, radius, 0xFF, p);
    var first := OctantPlots(cx, cy, 0, radius, 0xFF, p);
    assert run == first + CircleRun(cx, cy, 1, NextY(radius, 3 - 2 * radius), NextD(0, radius, 3 - 2 * radius), 0xFF, p);
    assert first[0] == Plot(cx, cy - radius, p) && first[1] == Plot(cx + radius, cy, p);
    assert first[3] == Plot(cx, cy + radius, p) && first[5] == Plot(cx - radius, cy, p);
  }

  // ---------------------------------------------------------------------
  // Filled circle.

  /** `n` cells of row `ny` from column `sx` rightwards, left to right. */
  function Row(sx: int, n: int, ny: int, p: Pixel): seq<Plot>
    decreases n
  {
    if n <= 0 then [] else Row(sx, n - 1, ny, p) + [Plot(sx + n - 1, ny, p)]
  }

  lemma {:induction false} RowMember(sx: int, n: int, ny: int, p: Pixel, q: Plot)
    ensures q in Row(sx, n, ny, p) <==> q.p == p && q.y == ny && sx <= q.x < sx + n
    decreases n
  {
    if n > 0 {
      RowMember(sx, n - 1, ny, p, q);
    }
  }

  /** `for i in sx..ex` at row ny when `inclusive` is false (the closure of
      `_fill_circle`); `for i in sx..=ex` when it is true. */
  function Span(sx: int, ex: int, ny: int, p: Pixel, inclusive: bool): seq<Plot>
  {
    Row(sx, if inclusive then ex - sx + 1 else ex - sx, ny, p)
  }

  /** A span holds exactly the plots of its row from `sx` up to `ex`, with
      `ex` itself only when the span is closed. */
  lemma SpanMember(sx: int, ex: int, ny: int, p: Pixel, inclusive: bool, q: Plot)
    ensures q in Span(sx, ex, ny, p, inclusive) <==>
      q.p == p && q.y == ny && sx <= q.x && (q.x < ex || (inclusive && q.x == ex))
  {
    RowMember(sx, if inclusive then ex - sx + 1 else ex - sx, ny, p, q);
  }

  /** A half-open span grows by its next cell; a closed span is the half-open
      span one cell longer. */
  lemma SpanExtend(sx: int, i: int, ny: int, p: Pixel)
    requires sx <= i
    ensures Span(sx, i + 1, ny, p, false) == Span(sx, i, ny, p, false) + [Plot(i, ny, p)]
    ensures Span(sx, i, ny, p, true) == Span(sx, i + 1, ny, p, false)
  {
  }

  /** The four spans drawn for one octant point. */
  function SpanPlots(cx: int, cy: int, x0: int, y0: int, p: Pixel, inclusive: bool): seq<Plot>
  {
    Span(cx - x0, cx + x0, cy - y0, p, inclusive)
    + Span(cx - y0, cx + y0, cy - x0, p, inclusive)
    + Span(cx - x0, cx + x0, cy + y0, p, inclusive)
    + Span(cx - y0, cx + y0, cy + x0, p, inclusive)
  }

  /** A plot lies in the four spans of an octant point exactly when it has the
      pixel and lies on row cy -/+ y0 within x0 of cx, or on row cy -/+ x0
      within y0 of cx (the right end only for closed spans). */
  lemma SpanPlotsMember(cx: int, cy: int, x0: int, y0: int, p: Pixel, inclusive: bool, q: Plot)
    ensures q in SpanPlots(cx, cy, x0, y0, p, inclusive) <==> (q.p == p &&
      (((q.y == cy - y0 || q.y == cy + y0) && cx - x0 <= q.x && (q.x < cx + x0 || (inclusive && q.x == cx + x0))) ||
       ((q.y == cy - x0 || q.y == cy + x0) && cx - y0 <= q.x && (q.x < cx + y0 || (inclusive && q.x == cx + y0)))))
  {
    var s0, s1 := Span(cx - x0, cx + x0, cy - y0, p, inclusive), Span(cx - y0, cx + y0, cy - x0, p, inclusive);
    var s2, s3 := Span(cx - x0, cx + x0, cy + y0, p, inclusive), Span(cx - y0, cx + y0, cy + x0, p, inclusive);
    assert q in SpanPlots(cx, cy, x0, y0, p, inclusive) <==> q in s0 || q in s1 || q in s2 || q in s3;
    SpanMember(cx - x0, cx + x0, cy - y0, p, inclusive, q);
    SpanMember(cx - y0, cx + y0, cy - x0, p, inclusive, q);
    SpanMember(cx - x0, cx + x0, cy + y0, p, inclusive, q);
    SpanMember(cx - y0, cx + y0, cy + x0, p, inclusive, q);
  }

  function FillRun(cx: int, cy: int, x0: int, y0: int, d: int, p: Pixel, inclusive: bool): seq<Plot>
    decreases y0 - x0 + 1
  {
    if y0 < x0 then []
    else SpanPlots(cx, cy, x0, y0, p, inclusive) + FillRun(cx, cy, x0 + 1, NextY(y0, d), NextD(x0, y0, d), p, inclusive)
  }

  /** `_fill_circle` with the half-open spans of its closure. */
  function FillCirclePlotsAsWritten(cx: int, cy: int, radius: int, p: Pixel): seq<Plot>
  {
    if radius == 0 then [] else FillRun(cx, cy, 0, radius, 3 - 2 * radius, p, false)
  }

  /** `_fill_circle` with closed spans, the disc the midpoint walk outlines. */
  function FillCirclePlots(cx: int, cy: int, radius: int, p: Pixel): seq<Plot>
  {
    if radius == 0 then [] else FillRun(cx, cy, 0, radius, 3 - 2 * radius, p, true)
  }

  /** With half-open spans, the unit disc at the origin is lopsided: it covers (-1, 0)
      but not its mirror image (1, 0), which the circle outline does draw. */
  lemma FillCircleAsWrittenLopsided(p: Pixel)
    ensures Plot(-1, 0, p) in FillCirclePlotsAsWritten(0, 0, 1, p)
    ensures Plot(1, 0, p) !in FillCirclePlotsAsWritten(0, 0, 1, p)
    ensures Plot(1, 0, p) in CirclePlots(0, 0, 1, 0xFF, p)
  {
    var first := SpanPlots(0, 0, 0, 1, p, false);
    assert FillRun(0, 0, 1, 0, 7, p, false) == [];
    assert FillCirclePlotsAsWritten(0, 0, 1, p) == first;
    SpanPlotsMember(0, 0, 0, 1, p, false, Plot(-1, 0, p));
    SpanPlotsMember(0, 0, 0, 1, p, false, Plot(1, 0, p));
    CircleCompassPoints(0, 0, 1, p);
  }

  /** The disc with closed spans is mirror-symmetric about both axes through the
      centre. */
  lemma {:induction false} FillRunMirror(cx: int, cy: int, x0: int, y0: int, d: int, p: Pixel, u: int, v: int)
    requires Plot(cx + u, cy + v, p) in FillRun(cx, cy, x0, y0, d, p, true)
    ensures Plot(cx - u, cy + v, p) in FillRun(cx, cy, x0, y0, d, p, true)
    ensures Plot(cx + u, cy - v, p) in FillRun(cx, cy, x0, y0, d, p, true)
    decreases y0 - x0 + 1
  {
    var here := SpanPlots(cx, cy, x0, y0, p, true);
    var rest := FillRun(cx, cy, x0 + 1, NextY(y0, d), NextD(x0, y0, d), p, true);
    assert FillRun(cx, cy, x0, y0, d, p, true) == here + rest;
    SpanPlotsMember(cx, cy, x0, y0, p, true, Plot(cx + u, cy + v, p));
    SpanPlotsMember(cx, cy, x0, y0, p, true, Plot(cx - u, cy + v, p));
    SpanPlotsMember(cx, cy, x0, y0, p, true, Plot(cx + u, cy - v, p));
    if Plot(cx + u, cy + v, p) !in here {
      FillRunMirror(cx, cy, x0 + 1, NextY(y0, d), NextD(x0, y0, d), p, u, v);
    }
  }

  lemma FillCircleMirror(cx: int, cy: int, radius: int, p: Pixel, u: int, v: int)
    requires Plot(cx + u, cy + v, p) in FillCirclePlots(cx, cy, radius, p)
    ensures Plot(cx - u, cy + v, p) in FillCirclePlots(cx, cy, radius, p)
    ensures Plot(cx + u, cy - v, p) in FillCirclePlots(cx, cy, radius, p)
  {
    FillRunMirror(cx, cy, 0, radius, 3 - 2 * radius, p, u, v);
  }

  lemma {:induction false} FillRunCoversOutline(cx: int, cy: int, x0: int, y0: int, d: int, p: Pixel, q: Plot)
    requires 0 <= x0 && q in CircleRun(cx, cy, x0, y0, d, 0xFF, p)
    ensures q in FillRun(cx, cy, x0, y0, d, p, true)
    decreases y0 - x0 + 1
  {
    var here := SpanPlots(cx, cy, x0, y0, p, true);
    var rest := FillRun(cx, cy, x0 + 1, NextY(y0, d), NextD(x0, y0, d), p, true);
    assert FillRun(cx, cy, x0, y0, d, p, true) == here + rest;
    if q in OctantPlots(cx, cy, x0, y0, 0xFF, p) {
      OctantInSpans(cx, cy, x0, y0, p, q);
    } else {
      FillRunCoversOutline(cx, cy, x0 + 1, NextY(y0, d), NextD(x0, y0, d), p, q);
    }
  }

  /** Each octant point is an end of one of the four closed spans. */
  lemma OctantInSpans(cx: int, cy: int, x0: int, y0: int, p: Pixel, q: Plot)
    requires 0 <= x0 <= y0 && q in OctantPlots(cx, cy, x0, y0, 0xFF, p)
    ensures q in SpanPlots(cx, cy, x0, y0, p, true)
  {
    var s0, s1 := Span(cx - x0, cx + x0, cy - y0, p, true), Span(cx - y0, cx + y0, cy - x0, p, true);
    var s2, s3 := Span(cx - x0, cx + x0, cy + y0, p, true), Span(cx - y0, cx + y0, cy + x0, p, true);
    assert SpanPlots(cx, cy, x0, y0, p, true) == s0 + s1 + s2 + s3;
    OctantMember(cx, cy, x0, y0, 0xFF, p, q);
    if q.y == cy - y0 {
      SpanMember(cx - x0, cx + x0, cy - y0, p, true, q);
    } else if q.y == cy - x0 {
      SpanMember(cx - y0, cx + y0, cy - x0, p, true, q);
    } else if q.y == cy + y0 {
      SpanMember(cx - x0, cx + x0, cy + y0, p, true, q);
    } else {
      SpanMember(cx - y0, cx + y0, cy + x0, p, true, q);
    }
  }

  /** The disc with closed spans covers every point of the circle outline of the same
      radius. */
  lemma FillCircleCoversOutline(cx: int, cy: int, radius: int, p: Pixel, q: Plot)
    requires q in CirclePlots(cx, cy, radius, 0xFF, p)
    ensures q in FillCirclePlots(cx, cy, radius, p)
  {
    FillRunCoversOutline(cx, cy, 0, radius, 3 - 2 * radius, p, q);
  }

  lemma SquareLe(u: int, m: int)
    requires -m <= u <= m
    ensures u * u <= m * m
  {
    if u >= 0 {
      assert u * u <= u * m <= m * m;
    } else {
      assert u * u == (-u) * (-u) <= (-u) * m <= m * m;
    }
  }

  /** A cell of the closed span of half-width m on the row n above or below
      the centre is within m*m + n*n of it. */
  lemma SpanWithin(cx: int, cy: int, m: int, n: int, below: bool, p: Pixel, q: Plot)
    requires q in Span(cx - m, cx + m, if below then cy + n else cy - n, p, true)
    ensures Dist2(q, cx, cy) <= m * m + n * n
  {
    SpanMember(cx - m, cx + m, if below then cy + n else cy - n, p, true, q);
    SquareLe(q.x - cx, m);
    var v := q.y - cy;
    assert v * v == n * n by {
      if !below {
        assert v == -n;
      }
    }
  }

  /** Every cell of a closed span is no farther from the centre than the
      octant point it was drawn for. */
  lemma SpansInside(cx: int, cy: int, x0: int, y0: int, p: Pixel, q: Plot)
    requires q in SpanPlots(cx, cy, x0, y0, p, true)
    ensures Dist2(q, cx, cy) <= x0 * x0 + y0 * y0
  {
    var s0, s1 := Span(cx - x0, cx + x0, cy - y0, p, true), Span(cx - y0, cx + y0, cy - x0, p, true);
    var s2, s3 := Span(cx - x0, cx + x0, cy + y0, p, true), Span(cx - y0, cx + y0, cy + x0, p, true);
    assert SpanPlots(cx, cy, x0, y0, p, true) == s0 + s1 + s2 + s3;
    if q in s0 {
      SpanWithin(cx, cy, x0, y0, false, p, q);
    } else if q in s1 {
      SpanWithin(cx, cy, y0, x0, false, p, q);
    } else if q in s2 {
      SpanWithin(cx, cy, x0, y0, true, p, q);
    } else {
      SpanWithin(cx, cy, y0, x0, true, p, q);
    }
  }

  lemma SpanNear(cx: int, cy: int, x0: int, y0: int, d: int, p: Pixel, r: int, q: Plot)
    requires Inv(x0, y0, d, r) && y0 >= x0 && q in SpanPlots(cx, cy, x0, y0, p, true)
    ensures Dist2(q, cx, cy) < r * r + r
  {
    SpansInside(cx, cy, x0, y0, p, q);
    InvNear(x0, y0, d, r);
  }

  lemma {:induction false} FillRunInside(cx: int, cy: int, x0: int, y0: int, d: int, p: Pixel, r: int, q: Plot)
    requires Inv(x0, y0, d, r) && q in FillRun(cx, cy, x0, y0, d, p, true)
    ensures Dist2(q, cx, cy) < r * r + r
    decreases y0 - x0 + 1
  {
    if q in SpanPlots(cx, cy, x0, y0, p, true) {
      SpanNear(cx, cy, x0, y0, d, p, r, q);
    } else {
      InvStep(x0, y0, d, r);
      FillRunInside(cx, cy, x0 + 1, NextY(y0, d), NextD(x0, y0, d), p, r, q);
    }
  }

  /** The disc with closed spans stays inside the outline: every cell's squared
      distance from the centre is below r*r + r. */
  lemma FillCircleInside(cx: int, cy: int, radius: int, p: Pixel, q: Plot)
    requires q in FillCirclePlots(cx, cy, radius, p)
    ensures radius > 0 && Dist2(q, cx, cy) < radius * radius + radius
  {
    InvInitially(radius);
    FillRunInside(cx, cy, 0, radius, 3 - 2 * radius, p, radius, q);
  }
}
