/** The patterned Bresenham line of `_draw_line_pattern`, as the list of plots
    it makes.

    `_draw_line_pattern` has two branches that differ only in which coordinate is the
    major one: the shallow branch (|dy| <= |dx|) steps x and tests `px < 0`,
    the steep branch steps y and tests `py <= 0`. `Run` is that loop written
    once over a (major, minor) pair, with `steep` selecting the coordinate
    order and the comparison. */
module Lines {
  import opened IntOps
  import opened Pixels
  import opened Plotting

  const SOLID: bv32 := 0xFFFF_FFFF

  /** The `rol` closure: rotate the 32-bit pattern left by one. */
  function Rol(pattern: bv32): (r: bv32)
    ensures pattern == 0 ==> r == 0
    ensures pattern == SOLID ==> r == SOLID
  {
    (pattern << 1) | (pattern >> 31)
  }

  /** `rol` is the rotation left by one: bit i of the rotated pattern is
      bit i - 1 of the pattern, and bit 0 is the old bit 31. */
  lemma RolBit(pattern: bv32, i: bv32)
    requires i < 32
    ensures Rol(pattern) == pattern.RotateLeft(1)
    ensures (Rol(pattern) >> i) & 1 == (pattern >> ((i + 31) % 32)) & 1
  {
  }

  /** Whether a minor step moves the minor coordinate up: dx and dy have the
      same strict sign. */
  predicate Rising(dx: int, dy: int)
  {
    (dx < 0 && dy < 0) || (dx > 0 && dy > 0)
  }

  /** The plot at major coordinate `a` and minor coordinate `b`. */
  function At(a: int, b: int, steep: bool, p: Pixel): Plot
  {
    if steep then Plot(b, a, p) else Plot(a, b, p)
  }

  /** The steep order is the shallow one with the coordinates exchanged, and
      in either order distinct (major, minor) pairs give distinct plots. */
  lemma AtSwap(a: int, b: int, a': int, b': int, steep: bool, p: Pixel)
    ensures At(a, b, true, p) == At(b, a, false, p)
    ensures At(a, b, steep, p) == At(a', b', steep, p) <==> a == a' && b == b'
    ensures At(a, b, steep, p).p == p
  {
  }

  /** Whether the decision variable says "stay on this minor coordinate". */
  predicate Stay(e: int, steep: bool)
  {
    if steep then e <= 0 else e < 0
  }

  /** The minor coordinate after one major step. */
  function NextB(b: int, e: int, rising: bool, steep: bool): (b': int)
    ensures Abs(b' - b) <= 1
  {
    if Stay(e, steep) then b else if rising then b + 1 else b - 1
  }

  /** The decision variable after one major step. */
  function NextE(e: int, dMaj: int, dMin: int, steep: bool): int
  {
    if Stay(e, steep) then e + 2 * dMin else e + 2 * (dMin - dMaj)
  }

  /** The plots of the stepping loop from major coordinate `a` (already
      plotted or skipped) up to `ae`, with minor coordinate `b`, decision
      variable `e` and the pattern as it stands. */
  function Run(a: int, b: int, ae: int, e: int, dMaj: int, dMin: int,
               rising: bool, steep: bool, pattern: bv32, p: Pixel): seq<Plot>
    decreases ae - a
  {
    if a >= ae then []
    else
      var b' := NextB(b, e, rising, steep);
      var pat := Rol(pattern);
      (if pat & 1 != 0 then [At(a + 1, b', steep, p)] else [])
        + Run(a + 1, b', ae, NextE(e, dMaj, dMin, steep), dMaj, dMin, rising, steep, pat, p)
  }

  /** The start point and direction `_draw_line_pattern` picks: the shallow branch starts
      at the endpoint with the smaller x, the steep branch at the one with the
      smaller y. */
  datatype Setup = Setup(a: int, b: int, ae: int, e: int, dMaj: int, dMin: int, rising: bool, steep: bool)

  function Start(x1: int, y1: int, x2: int, y2: int): (s: Setup)
    ensures s.steep <==> Abs(x2 - x1) < Abs(y2 - y1)
    ensures s.dMaj == if s.steep then Abs(y2 - y1) else Abs(x2 - x1)
    ensures s.ae - s.a == s.dMaj
  {
    var dx, dy := x2 - x1, y2 - y1;
    var dx1, dy1 := Abs(dx), Abs(dy);
    if dy1 <= dx1 then
      if dx >= 0 then Setup(x1, y1, x2, 2 * dy1 - dx1, dx1, dy1, Rising(dx, dy), false)
      else Setup(x2, y2, x1, 2 * dy1 - dx1, dx1, dy1, Rising(dx, dy), false)
    else
      if dy >= 0 then Setup(y1, x1, y2, 2 * dx1 - dy1, dy1, dx1, Rising(dx, dy), true)
      else Setup(y2, x2, y1, 2 * dx1 - dy1, dy1, dx1, Rising(dx, dy), true)
  }

  /** Every plot `_draw_line_pattern(x1, y1, x2, y2, p, pattern)` makes, in order. */
  function LinePlots(x1: int, y1: int, x2: int, y2: int, p: Pixel, pattern: bv32): seq<Plot>
  {
    var s := Start(x1, y1, x2, y2);
    var pat := Rol(pattern);
    (if pat & 1 != 0 then [At(s.a, s.b, s.steep, p)] else [])
      + Run(s.a, s.b, s.ae, s.e, s.dMaj, s.dMin, s.rising, s.steep, pat, p)
  }

  lemma {:induction false} RunBlank(a: int, b: int, ae: int, e: int, dMaj: int, dMin: int,
                                   rising: bool, steep: bool, p: Pixel)
    ensures Run(a, b, ae, e, dMaj, dMin, rising, steep, 0, p) == []
    decreases ae - a
  {
    if a < ae {
      RunBlank(a + 1, NextB(b, e, rising, steep), ae, NextE(e, dMaj, dMin, steep), dMaj, dMin, rising, steep, p);
    }
  }

  /** A line with pattern 0 plots nothing. */
  lemma BlankPatternPlotsNothing(x1: int, y1: int, x2: int, y2: int, p: Pixel)
    ensures LinePlots(x1, y1, x2, y2, p, 0) == []
  {
    var s := Start(x1, y1, x2, y2);
    RunBlank(s.a, s.b, s.ae, s.e, s.dMaj, s.dMin, s.rising, s.steep, p);
  }

  /** With a solid pattern the loop plots every step: one plot per unit of
      the major coordinate, each one further along. */
  lemma {:induction false} RunSolid(a: int, b: int, ae: int, e: int, dMaj: int, dMin: int,
                                   rising: bool, steep: bool, p: Pixel)
    requires a <= ae
    ensures var r := Run(a, b, ae, e, dMaj, dMin, rising, steep, SOLID, p);
      |r| == ae - a &&
      forall k :: 0 <= k < |r| ==> r[k] == At(a + 1 + k, Minor(r[k], steep), steep, p)
    decreases ae - a
  {
    if a < ae {
      var b' := NextB(b, e, rising, steep);
      var e' := NextE(e, dMaj, dMin, steep);
      RunSolid(a + 1, b', ae, e', dMaj, dMin, rising, steep, p);
      var rest := Run(a + 1, b', ae, e', dMaj, dMin, rising, steep, SOLID, p);
      var r := Run(a, b, ae, e, dMaj, dMin, rising, steep, SOLID, p);
      assert r == [At(a + 1, b', steep, p)] + rest;
      forall k | 0 < k < |r|
        ensures r[k] == At(a + 1 + k, Minor(r[k], steep), steep, p)
      {
        assert r[k] == rest[k - 1];
      }
    }
  }

  /** With a solid pattern the minor coordinate moves by at most one from the
      current position to the first plot and between consecutive plots. */
  lemma {:induction false} RunSolidSteps(a: int, b: int, ae: int, e: int, dMaj: int, dMin: int,
                                        rising: bool, steep: bool, p: Pixel)
    requires a <= ae
    ensures var r := Run(a, b, ae, e, dMaj, dMin, rising, steep, SOLID, p);
      (|r| > 0 ==> Abs(Minor(r[0], steep) - b) <= 1) &&
      (forall k :: 0 < k < |r| ==> Abs(Minor(r[k], steep) - Minor(r[k - 1], steep)) <= 1)
    decreases ae - a
  {
    if a < ae {
      var b' := NextB(b, e, rising, steep);
      var e' := NextE(e, dMaj, dMin, steep);
      RunSolidSteps(a + 1, b', ae, e', dMaj, dMin, rising, steep, p);
      var rest := Run(a + 1, b', ae, e', dMaj, dMin, rising, steep, SOLID, p);
      var r := Run(a, b, ae, e, dMaj, dMin, rising, steep, SOLID, p);
      assert r == [At(a + 1, b', steep, p)] + rest;
      forall k | 1 < k < |r|
        ensures Abs(Minor(r[k], steep) - Minor(r[k - 1], steep)) <= 1
      {
        assert r[k] == rest[k - 1] && r[k - 1] == rest[k - 2];
      }
    }
  }

  /** The coordinate of a plot that is not the major one. */
  function Minor(q: Plot, steep: bool): int
  {
    if steep then q.x else q.y
  }

  /** A solid line plots its starting cell and then every step of the loop. */
  lemma SolidSplit(x1: int, y1: int, x2: int, y2: int, p: Pixel)
    ensures var s := Start(x1, y1, x2, y2);
      LinePlots(x1, y1, x2, y2, p, SOLID) ==
        [At(s.a, s.b, s.steep, p)] + Run(s.a, s.b, s.ae, s.e, s.dMaj, s.dMin, s.rising, s.steep, SOLID, p)
  {
  }

  /** A solid line plots max(|dx|, |dy|) + 1 points; along the major axis the
      k-th plot is k steps from the start point, and the minor coordinate of
      consecutive plots differs by at most one. */
  lemma SolidLineShape(x1: int, y1: int, x2: int, y2: int, p: Pixel)
    ensures var L := LinePlots(x1, y1, x2, y2, p, SOLID);
      var s := Start(x1, y1, x2, y2);
      |L| == (if Abs(x2 - x1) < Abs(y2 - y1) then Abs(y2 - y1) else Abs(x2 - x1)) + 1 &&
      (forall k :: 0 <= k < |L| ==> L[k] == At(s.a + k, Minor(L[k], s.steep), s.steep, p)) &&
      (forall k :: 0 < k < |L| ==> Abs(Minor(L[k], s.steep) - Minor(L[k - 1], s.steep)) <= 1)
  {
    var s := Start(x1, y1, x2, y2);
    RunSolid(s.a, s.b, s.ae, s.e, s.dMaj, s.dMin, s.rising, s.steep, p);
    RunSolidSteps(s.a, s.b, s.ae, s.e, s.dMaj, s.dMin, s.rising, s.steep, p);
    SolidSplit(x1, y1, x2, y2, p);
    ConsShape(s.a, s.b, s.steep, p, Run(s.a, s.b, s.ae, s.e, s.dMaj, s.dMin, s.rising, s.steep, SOLID, p));
  }

  /** Putting the start cell in front of a run that steps one unit along the
      major axis per plot, and at most one along the minor axis, gives a
      sequence with the same two properties from the start cell on. */
  lemma ConsShape(a: int, b: int, steep: bool, p: Pixel, r: seq<Plot>)
    requires forall k :: 0 <= k < |r| ==> r[k] == At(a + 1 + k, Minor(r[k], steep), steep, p)
    requires |r| > 0 ==> Abs(Minor(r[0], steep) - b) <= 1
    requires forall k :: 0 < k < |r| ==> Abs(Minor(r[k], steep) - Minor(r[k - 1], steep)) <= 1
    ensures var L := [At(a, b, steep, p)] + r;
      (forall k :: 0 <= k < |L| ==> L[k] == At(a + k, Minor(L[k], steep), steep, p)) &&
      (forall k :: 0 < k < |L| ==> Abs(Minor(L[k], steep) - Minor(L[k - 1], steep)) <= 1)
  {
    var L := [At(a, b, steep, p)] + r;
    forall k | 0 < k < |L|
      ensures L[k] == At(a + k, Minor(L[k], steep), steep, p)
    {
      assert L[k] == r[k - 1];
    }
    forall k | 1 < k < |L|
      ensures Abs(Minor(L[k], steep) - Minor(L[k - 1], steep)) <= 1
    {
      assert L[k] == r[k - 1] && L[k - 1] == r[k - 2];
    }
  }

  /** How far the minor coordinate has moved from `b0` in the rising or
      falling direction. */
  function Climb(b: int, b0: int, rising: bool): int
  {
    if rising then b - b0 else b0 - b
  }

  /** The error term's bounds, which the two comparisons `px < 0` and `py <= 0` keep. */
  predicate ErrInRange(e: int, dMaj: int, dMin: int, steep: bool)
  {
    if steep then 2 * (dMin - dMaj) < e <= 2 * dMin
    else 2 * (dMin - dMaj) <= e < 2 * dMin
  }

  /** An odd multiple of m strictly between -3m and m is -m. */
  lemma OddMultiplePinned(m: int, t: int)
    requires m > 0 && -3 * m < m * (2 * t - 1) < m
    ensures t == 0
  {
    if t >= 1 {
      MulMonotone(1, 2 * t - 1, m);
      assert false;
    } else if t <= -1 {
      MulMonotone(2 * t - 1, -3, m);
      assert false;
    }
  }

  /** The Bresenham invariant: after i major steps and j minor steps the error
      term is 2*dMin*(i+1) - dMaj*(2j+1), within the bounds the two comparisons
      keep. */
  predicate Tracking(b: int, e: int, dMaj: int, dMin: int, steep: bool, rising: bool, i: int, b0: int)
  {
    e == 2 * dMin * (i + 1) - dMaj * (2 * Climb(b, b0, rising) + 1) && ErrInRange(e, dMaj, dMin, steep)
  }

  /** One major step keeps the invariant. */
  lemma StepKeepsTracking(b: int, e: int, dMaj: int, dMin: int, steep: bool, rising: bool, i: int, b0: int)
    requires 0 <= dMin && (if steep then dMin < dMaj else dMin <= dMaj)
    requires Tracking(b, e, dMaj, dMin, steep, rising, i, b0)
    ensures Tracking(NextB(b, e, rising, steep), NextE(e, dMaj, dMin, steep), dMaj, dMin, steep, rising, i + 1, b0)
  {
    var j := Climb(b, b0, rising);
    var j' := Climb(NextB(b, e, rising, steep), b0, rising);
    assert j' == if Stay(e, steep) then j else j + 1;
    assert 2 * dMin * (i + 2) == 2 * dMin * (i + 1) + 2 * dMin;
    assert dMaj * (2 * (j + 1) + 1) == dMaj * (2 * j + 1) + 2 * dMaj;
  }

  /** When i reaches dMaj the invariant forces j == dMin. */
  lemma TrackingAtEnd(b: int, e: int, dMaj: int, dMin: int, steep: bool, rising: bool, b0: int)
    requires dMaj > 0 && Tracking(b, e, dMaj, dMin, steep, rising, dMaj, b0)
    ensures b == if rising then b0 + dMin else b0 - dMin
  {
    var t := dMin - Climb(b, b0, rising);
    assert 2 * dMin * (dMaj + 1) == 2 * dMin * dMaj + 2 * dMin;
    assert dMaj * (2 * Climb(b, b0, rising) + 1) == 2 * dMaj * dMin - dMaj * (2 * t - 1);
    assert e - 2 * dMin == dMaj * (2 * t - 1);
    OddMultiplePinned(dMaj, t);
  }

  /** Under the invariant the last plot of a solid run is the far endpoint. */
  lemma {:induction false} RunReachesEnd(a: int, b: int, ae: int, e: int, dMaj: int, dMin: int,
                                        rising: bool, steep: bool, p: Pixel, a0: int, b0: int)
    requires 0 <= dMin && (if steep then dMin < dMaj else dMin <= dMaj)
    requires a0 <= a < ae && ae == a0 + dMaj
    requires Tracking(b, e, dMaj, dMin, steep, rising, a - a0, b0)
    ensures var r := Run(a, b, ae, e, dMaj, dMin, rising, steep, SOLID, p);
      |r| > 0 && r[|r| - 1] == At(ae, if rising then b0 + dMin else b0 - dMin, steep, p)
    decreases ae - a
  {
    var b' := NextB(b, e, rising, steep);
    var e' := NextE(e, dMaj, dMin, steep);
    StepKeepsTracking(b, e, dMaj, dMin, steep, rising, a - a0, b0);
    var r := Run(a, b, ae, e, dMaj, dMin, rising, steep, SOLID, p);
    var rest := Run(a + 1, b', ae, e', dMaj, dMin, rising, steep, SOLID, p);
    assert r == [At(a + 1, b', steep, p)] + rest;
    if a + 1 == ae {
      TrackingAtEnd(b', e', dMaj, dMin, steep, rising, b0);
    } else {
      RunReachesEnd(a + 1, b', ae, e', dMaj, dMin, rising, steep, p, a0, b0);
    }
  }

  /** The loop starts on one endpoint and, once the minor coordinate has
      climbed dMin steps, ends on the other; the initial decision variable
      satisfies the Bresenham invariant. */
  lemma StartEndpoints(x1: int, y1: int, x2: int, y2: int, p: Pixel)
    ensures var s := Start(x1, y1, x2, y2);
      var forward := if Abs(y2 - y1) <= Abs(x2 - x1) then x2 - x1 >= 0 else y2 - y1 >= 0;
      var last := At(s.ae, if s.rising then s.b + s.dMin else s.b - s.dMin, s.steep, p);
      0 <= s.dMin && (if s.steep then s.dMin < s.dMaj else s.dMin <= s.dMaj) &&
      (s.dMaj > 0 ==> Tracking(s.b, s.e, s.dMaj, s.dMin, s.steep, s.rising, 0, s.b)) &&
      (forward ==> At(s.a, s.b, s.steep, p) == Plot(x1, y1, p) && last == Plot(x2, y2, p)) &&
      (!forward ==> At(s.a, s.b, s.steep, p) == Plot(x2, y2, p) && last == Plot(x1, y1, p))
  {
  }

  /** A solid line starts at one endpoint and finishes at the other: at
      (x1, y1) when the walk steps forward from it, otherwise at (x2, y2). */
  lemma SolidLineEndpoints(x1: int, y1: int, x2: int, y2: int, p: Pixel)
    ensures var L := LinePlots(x1, y1, x2, y2, p, SOLID);
      var forward := if Abs(y2 - y1) <= Abs(x2 - x1) then x2 - x1 >= 0 else y2 - y1 >= 0;
      |L| > 0 &&
      (forward ==> L[0] == Plot(x1, y1, p) && L[|L| - 1] == Plot(x2, y2, p)) &&
      (!forward ==> L[0] == Plot(x2, y2, p) && L[|L| - 1] == Plot(x1, y1, p))
  {
    var s := Start(x1, y1, x2, y2);
    var L := LinePlots(x1, y1, x2, y2, p, SOLID);
    var r := Run(s.a, s.b, s.ae, s.e, s.dMaj, s.dMin, s.rising, s.steep, SOLID, p);
    SolidSplit(x1, y1, x2, y2, p);
    StartEndpoints(x1, y1, x2, y2, p);
    if s.dMaj > 0 {
      RunReachesEnd(s.a, s.b, s.ae, s.e, s.dMaj, s.dMin, s.rising, s.steep, p, s.a, s.b);
      assert L[|L| - 1] == r[|r| - 1];
    } else {
      RunSolid(s.a, s.b, s.ae, s.e, s.dMaj, s.dMin, s.rising, s.steep, p);
    }
  }

  lemma {:induction false} RunDiagonal(a: int, b: int, ae: int, n: int, p: Pixel)
    requires n > 0 && a <= ae
    ensures Run(a, b, ae, n, n, n, true, false, SOLID, p) == seq(ae - a, i => Plot(a + 1 + i, b + 1 + i, p))
    decreases ae - a
  {
    if a < ae {
      RunDiagonal(a + 1, b + 1, ae, n, p);
      var rest := Run(a + 1, b + 1, ae, n, n, n, true, false, SOLID, p);
      assert Run(a, b, ae, n, n, n, true, false, SOLID, p) == [Plot(a + 1, b + 1, p)] + rest;
    }
  }

  /** A solid 45-degree line from (x, y) to (x + n, y + n) plots exactly the
      diagonal cells (x + i, y + i), i = 0..n, in order. */
  lemma DiagonalLine(x: int, y: int, n: nat, p: Pixel)
    ensures LinePlots(x, y, x + n, y + n, p, SOLID) == seq(n + 1, i => Plot(x + i, y + i, p))
  {
    var L := LinePlots(x, y, x + n, y + n, p, SOLID);
    if n > 0 {
      RunDiagonal(x, y, x + n, n, p);
      var r := Run(x, y, x + n, n, n, n, true, false, SOLID, p);
      assert L == [Plot(x, y, p)] + r;
    }
  }
}
