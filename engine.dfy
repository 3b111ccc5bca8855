/** The engine object: screen and pixel geometry, mouse and keyboard state,
    the draw target and the compositing settings, and the drawing routines
    that write into the draw target through `_draw`.

    Each drawing method is proved to leave the draw target equal to `Paint`
    of the plot list that the corresponding function of `Lines`, `Circles`
    or `Raster` produces; the properties of those lists are proved there. */
module Engines {
  import opened IntOps
  import opened Pixels
  import opened Sprites
  import opened Plotting
  import opened Lines
  import opened Circles
  import opened Raster
  import opened Input

  datatype Option<T> = None | Some(value: T)

  // Proof plumbing: the plot-list identities the drawing loops use to move
  // one step's plots from the remaining list onto the drawn list.

  /** Moving the head of the remaining plots onto the drawn ones. */
  lemma ConcatAssoc(done: seq<Plot>, rest: seq<Plot>, step: seq<Plot>, next: seq<Plot>)
    requires rest == step + next
    ensures done + rest == (done + step) + next
  {
  }

  /** Nothing drawn after the last step. */
  lemma EmptySuffix(s: seq<Plot>)
    ensures s + [] == s
  {
  }

  /** Nothing drawn before the first step. */
  lemma EmptyPrefix(s: seq<Plot>)
    ensures [] + s == s
  {
  }

  /** `done` is `before` followed by the closed span from sx to ex on row
      ny; stated through a quantifier that fires only where that span is
      named, so the span is not unfolded next to the image it is painted on. */
  ghost predicate SpanDrawn(done: seq<Plot>, before: seq<Plot>, sx: int, ex: int, ny: int, p: Pixel)
  {
    forall e {:trigger Span(sx, e, ny, p, true)} :: e == ex ==> done == before + Span(sx, e, ny, p, true)
  }

  lemma SpanDrawnIntro(done: seq<Plot>, before: seq<Plot>, sx: int, ex: int, ny: int, p: Pixel)
    requires done == before + Span(sx, ex, ny, p, true)
    ensures SpanDrawn(done, before, sx, ex, ny, p)
  {
  }

  lemma SpanDrawnEnd(done: seq<Plot>, before: seq<Plot>, sx: int, ex: int, ny: int, p: Pixel)
    requires SpanDrawn(done, before, sx, ex, ny, p)
    ensures done == before + Span(sx, ex, ny, p, true)
  {
    assert done == before + Span(sx, ex, ny, p, true);
  }

  /** The four spans of one octant point, accumulated in drawing order, make
      up `SpanPlots`. */
  lemma SpansInOrder(x: int, y: int, x0: int, y0: int, p: Pixel, d1: seq<Plot>, d2: seq<Plot>, d3: seq<Plot>, d4: seq<Plot>)
    requires SpanDrawn(d1, [], x - x0, x + x0, y - y0, p)
    requires SpanDrawn(d2, d1, x - y0, x + y0, y - x0, p)
    requires SpanDrawn(d3, d2, x - x0, x + x0, y + y0, p)
    requires SpanDrawn(d4, d3, x - y0, x + y0, y + x0, p)
    ensures d4 == SpanPlots(x, y, x0, y0, p, true)
  {
    SpanDrawnEnd(d1, [], x - x0, x + x0, y - y0, p);
    SpanDrawnEnd(d2, d1, x - y0, x + y0, y - x0, p);
    SpanDrawnEnd(d3, d2, x - x0, x + x0, y + y0, p);
    SpanDrawnEnd(d4, d3, x - y0, x + y0, y + x0, p);
    assert d1 == Span(x - x0, x + x0, y - y0, p, true);
  }

  /** The eight octant plots, accumulated in drawing order, make up
      `OctantPlots`. */
  lemma OctantsInOrder(x: int, y: int, x0: int, y0: int, mask: bv8, p: Pixel,
                       d1: seq<Plot>, d2: seq<Plot>, d3: seq<Plot>, d4: seq<Plot>,
                       d5: seq<Plot>, d6: seq<Plot>, d7: seq<Plot>, d8: seq<Plot>)
    requires d1 == [] + if mask & 0x01 != 0 then [Plot(x + x0, y - y0, p)] else []
    requires d2 == d1 + if mask & 0x02 != 0 then [Plot(x + y0, y - x0, p)] else []
    requires d3 == d2 + if mask & 0x04 != 0 then [Plot(x + y0, y + x0, p)] else []
    requires d4 == d3 + if mask & 0x08 != 0 then [Plot(x + x0, y + y0, p)] else []
    requires d5 == d4 + if mask & 0x10 != 0 then [Plot(x - x0, y + y0, p)] else []
    requires d6 == d5 + if mask & 0x20 != 0 then [Plot(x - y0, y + x0, p)] else []
    requires d7 == d6 + if mask & 0x40 != 0 then [Plot(x - y0, y - x0, p)] else []
    requires d8 == d7 + if mask & 0x80 != 0 then [Plot(x - x0, y - y0, p)] else []
    ensures d8 == OctantPlots(x, y, x0, y0, mask, p)
  {
    assert d1 == if mask & 0x01 != 0 then [Plot(x + x0, y - y0, p)] else [];
  }

  lemma ColumnStep(x: int, y: int, k: nat, cy: int, p: Pixel)
    requires cy == y + k
    ensures Column(x, y, k + 1, p) == Column(x, y, k, p) + [Plot(x, cy, p)]
  {
  }

  lemma GridColumnStep(cell: Cells, i: int, k: nat)
    ensures GridColumn(cell, i, k + 1) == GridColumn(cell, i, k) + cell.at(i, k)
  {
  }

  lemma GridStep(cell: Cells, k: nat, h: nat)
    ensures Grid(cell, k + 1, h) == Grid(cell, k, h) + GridColumn(cell, k, h)
  {
  }

  /** The byte loop's invariant: if pen and plots are those of the walk
      over the first k bytes, then after byte k's step they are those of the
      first k + 1. */
  lemma WalkAdvance(glyph: GlyphPlots, x: int, y: int, text: seq<Byte>, scale: nat, k: nat,
                    sx0: nat, sy0: nat, sx: nat, sy: nat, before: seq<Plot>, done: seq<Plot>)
    requires k < |text|
    requires Pen(sx0, sy0) == PenAfter(text[..k], scale)
    requires before == TextWalk(glyph, x, y, text[..k], scale)
    requires Pen(sx, sy) == if text[k] == NEWLINE then Pen(0, sy0 + 8 * scale) else Pen(sx0 + 8 * scale, sy0)
    requires done == before + if text[k] == NEWLINE then [] else glyph(text[k], x + sx0, y + sy0)
    ensures Pen(sx, sy) == PenAfter(text[..k + 1], scale)
    ensures done == TextWalk(glyph, x, y, text[..k + 1], scale)
  {
    assert text[..k + 1][..k] == text[..k];
  }

  /** One iteration of a line walk. */
  lemma RunStep(a: int, b: int, ae: int, e: int, dMaj: int, dMin: int, rising: bool, steep: bool, pattern: bv32, p: Pixel)
    requires a < ae
    ensures Run(a, b, ae, e, dMaj, dMin, rising, steep, pattern, p)
         == (if Rol(pattern) & 1 != 0 then [At(a + 1, NextB(b, e, rising, steep), steep, p)] else [])
            + Run(a + 1, NextB(b, e, rising, steep), ae, NextE(e, dMaj, dMin, steep), dMaj, dMin, rising, steep, Rol(pattern), p)
  {
  }

  /** One iteration of the circle loop. */
  lemma CircleStep(done: seq<Plot>, cx: int, cy: int, x0: int, y0: int, d: int, mask: bv8, p: Pixel)
    requires y0 >= x0
    ensures done + CircleRun(cx, cy, x0, y0, d, mask, p)
         == (done + OctantPlots(cx, cy, x0, y0, mask, p)) + CircleRun(cx, cy, x0 + 1, NextY(y0, d), NextD(x0, y0, d), mask, p)
  {
  }

  /** One iteration of the filled-circle loop. */
  lemma FillStep(cx: int, cy: int, x0: int, y0: int, d: int, p: Pixel)
    requires y0 >= x0
    ensures FillRun(cx, cy, x0, y0, d, p, true)
         == SpanPlots(cx, cy, x0, y0, p, true) + FillRun(cx, cy, x0 + 1, NextY(y0, d), NextD(x0, y0, d), p, true)
  {
  }

  class Engine {
    const screenW: nat
    const screenH: nat
    const pixelW: nat
    const pixelH: nat

    var mouseX: int
    var mouseY: int
    var mouseWheel: int

    /** Left, right and middle buttons, and two slots nothing updates. */
    const mouseState: array<HWButton>
    const keyboardState: array<HWButton>

    var active: bool
    const defaultDrawTarget: Sprite
    var drawTarget: Sprite

    var pixelMode: PixelMode
    var blendFactor: real

    /** The bitmap font table, 64 cells per byte value. */
    const font: seq<Byte>

    ghost predicate Valid()
      reads this
    {
      drawTarget.Valid() && defaultDrawTarget.Valid() &&
      defaultDrawTarget.width == screenW && defaultDrawTarget.height == screenH &&
      mouseState.Length == 5 && keyboardState.Length == KEY_COUNT && mouseState != keyboardState &&
      pixelW > 0 && pixelH > 0 && |font| == FONT_SIZE
    }

    /** `construct`: a fresh screen-sized frame buffer is both the default and
        the current draw target; the mouse starts at (300, 200), every button
        and key is idle, the engine is active and draws in Normal mode with
        blend factor 1. */
    constructor (width: nat, height: nat, pixelWidth: nat, pixelHeight: nat, fontData: seq<Byte>)
      requires width < 0x8000_0000 && height < 0x8000_0000 && width * height < 0x1_0000_0000
      requires pixelWidth > 0 && pixelHeight > 0 && |fontData| == FONT_SIZE
      ensures Valid() && fresh(mouseState) && fresh(keyboardState) && fresh(defaultDrawTarget.data)
      ensures screenW == width && screenH == height && pixelW == pixelWidth && pixelH == pixelHeight
      ensures mouseX == 300 && mouseY == 200 && mouseWheel == 0
      ensures forall i :: 0 <= i < 5 ==> mouseState[i] == IDLE
      ensures forall i :: 0 <= i < KEY_COUNT ==> keyboardState[i] == IDLE
      ensures active && pixelMode == PixelMode.Normal && blendFactor == 1.0
      ensures drawTarget == defaultDrawTarget && drawTarget.View() == Blank(width, height)
      ensures font == fontData
    {
      var frameBuffer := new Sprite(width, height);
      screenW, screenH, pixelW, pixelH := width, height, pixelWidth, pixelHeight;
      mouseX, mouseY, mouseWheel := 300, 200, 0;
      mouseState := new HWButton[5](_ => IDLE);
      keyboardState := new HWButton[KEY_COUNT](_ => IDLE);
      active := true;
      defaultDrawTarget, drawTarget := frameBuffer, frameBuffer;
      pixelMode, blendFactor := PixelMode.Normal, 1.0;
      font := fontData;
    }

    /** `_draw`: one plot through the current pixel mode; reports whether the
        target was written. */
    method Draw(x: int, y: int, p: Pixel) returns (ok: bool)
      requires Valid()
      modifies drawTarget.data
      ensures ok == Writes(old(drawTarget.View()), pixelMode, Plot(x, y, p))
      ensures drawTarget.View() == DrawOn(old(drawTarget.View()), pixelMode, blendFactor, Plot(x, y, p))
    {
      match pixelMode
      case Normal =>
        ok := drawTarget.SetPixel(x, y, p);
      case Mask =>
        if p.a == 255 {
          ok := drawTarget.SetPixel(x, y, p);
        } else {
          ok := false;
        }
      case Alpha =>
        var d := drawTarget.GetPixel(x, y);
        ok := drawTarget.SetPixel(x, y, Blend(p, d, blendFactor));
      case Custom =>
        ok := drawTarget.SetPixel(x, y, p);
    }

    /** `_draw` on q, tracking the plots drawn so far since image `img0`. */
    method DrawTracked(ghost img0: Image, ghost done: seq<Plot>, q: Plot) returns (ghost done': seq<Plot>)
      requires Valid() && img0.Valid() && img0.Readable()
      requires drawTarget.View() == Paint(img0, pixelMode, blendFactor, done)
      modifies drawTarget.data
      ensures done' == done + [q]
      ensures drawTarget.View() == Paint(img0, pixelMode, blendFactor, done')
    {
      var _ := Draw(q.x, q.y, q.p);
      PaintSnoc(img0, pixelMode, blendFactor, done, q);
      done' := done + [q];
    }

    /** `if cond { _draw(q) }`, tracking the plots drawn so far. */
    method DrawIf(ghost img0: Image, ghost done: seq<Plot>, cond: bool, q: Plot) returns (ghost done': seq<Plot>)
      requires Valid() && img0.Valid() && img0.Readable()
      requires drawTarget.View() == Paint(img0, pixelMode, blendFactor, done)
      modifies drawTarget.data
      ensures done' == done + if cond then [q] else []
      ensures drawTarget.View() == Paint(img0, pixelMode, blendFactor, done')
    {
      done' := done;
      if cond {
        done' := DrawTracked(img0, done, q);
      }
    }

    /** `_draw_line_pattern`: Bresenham's walk along the major axis, drawing
        where the rotated pattern's low bit is set. */
    method DrawLinePattern(x1: int, y1: int, x2: int, y2: int, p: Pixel, pattern: bv32)
      requires Valid()
      modifies drawTarget.data
      ensures drawTarget.View() == Paint(old(drawTarget.View()), pixelMode, blendFactor, LinePlots(x1, y1, x2, y2, p, pattern))
    {
      ghost var img0 := drawTarget.View();
      ghost var s := Start(x1, y1, x2, y2);
      ghost var done: seq<Plot> := [];
      var dx, dy := x2 - x1, y2 - y1;
      var pat := pattern;
      var dx1: int, dy1: int := Abs(dx), Abs(dy);
      var px, py := 2 * dy1 - dx1, 2 * dx1 - dy1;
      var rising := (dx < 0 && dy < 0) || (dx > 0 && dy > 0);
      var x, y := x1, y1;
      if dy1 <= dx1 {
        var xe := x2;
        if dx < 0 {
          x, y, xe := x2, y2, x1;
        }
        assert s == Setup(x, y, xe, px, dx1, dy1, rising, false);
        pat := Rol(pat);
        if pat & 1 != 0 {
          done := DrawTracked(img0, done, Plot(x, y, p));
        }
        WalkShallow(x, y, xe, px, dx1, dy1, rising, pat, p);
        PaintAppend(img0, pixelMode, blendFactor, done, Run(x, y, xe, px, dx1, dy1, rising, false, pat, p));
      } else {
        var ye := y2;
        if dy < 0 {
          x, y, ye := x2, y2, y1;
        }
        assert s == Setup(y, x, ye, py, dy1, dx1, rising, true);
        pat := Rol(pat);
        if pat & 1 != 0 {
          done := DrawTracked(img0, done, Plot(x, y, p));
        }
        WalkSteep(x, y, ye, py, dx1, dy1, rising, pat, p);
        PaintAppend(img0, pixelMode, blendFactor, done, Run(y, x, ye, py, dy1, dx1, rising, true, pat, p));
      }
    }

    /** The shallow-line loop of `_draw_line_pattern`: one step right per
        iteration (see `ShallowStep`). */
    method WalkShallow(x0: int, y0: int, xe: int, px0: int, dx1: int, dy1: int, rising: bool, pattern: bv32, p: Pixel)
      requires Valid()
      modifies drawTarget.data
      ensures drawTarget.View() == Paint(old(drawTarget.View()), pixelMode, blendFactor,
                                         Run(x0, y0, xe, px0, dx1, dy1, rising, false, pattern, p))
    {
      ghost var img0 := drawTarget.View();
      ghost var done: seq<Plot> := [];
      var x, y, px, pat := x0, y0, px0, pattern;
      ghost var rest := Run(x, y, xe, px, dx1, dy1, rising, false, pat, p);
      while x < xe
        invariant drawTarget.View() == Paint(img0, pixelMode, blendFactor, done)
        invariant rest == Run(x, y, xe, px, dx1, dy1, rising, false, pat, p)
        invariant done + rest == Run(x0, y0, xe, px0, dx1, dy1, rising, false, pattern, p)
        decreases xe - x
      {
        ghost var b' := NextB(y, px, rising, false);
        ghost var step := if Rol(pat) & 1 != 0 then [At(x + 1, b', false, p)] else [];
        ghost var next := Run(x + 1, b', xe, NextE(px, dx1, dy1, false), dx1, dy1, rising, false, Rol(pat), p);
        RunStep(x, y, xe, px, dx1, dy1, rising, false, pat, p);
        ConcatAssoc(done, rest, step, next);
        x, y, px, pat, done := ShallowStep(img0, done, x, y, px, dx1, dy1, rising, pat, p);
        rest := next;
      }
      assert done + [] == done;
    }

    /** One iteration of the shallow loop: a step right, a step up or down
        when the decision variable is not negative, and a `_draw` where the
        rotated pattern's low bit is set. */
    method ShallowStep(ghost img0: Image, ghost done: seq<Plot>, x: int, y: int, px: int, dx1: int, dy1: int,
                       rising: bool, pat: bv32, p: Pixel)
      returns (x': int, y': int, px': int, pat': bv32, ghost done': seq<Plot>)
      requires Valid() && img0.Valid() && img0.Readable()
      requires drawTarget.View() == Paint(img0, pixelMode, blendFactor, done)
      modifies drawTarget.data
      ensures x' == x + 1 && y' == NextB(y, px, rising, false) && px' == NextE(px, dx1, dy1, false) && pat' == Rol(pat)
      ensures done' == done + if pat' & 1 != 0 then [At(x', y', false, p)] else []
      ensures drawTarget.View() == Paint(img0, pixelMode, blendFactor, done')
    {
      x', y', px' := x + 1, y, px;
      if px' < 0 {
        px' := px' + 2 * dy1;
      } else {
        if rising {
          y' := y' + 1;
        } else {
          y' := y' - 1;
        }
        px' := px' + 2 * (dy1 - dx1);
      }
      pat' := Rol(pat);
      done' := DrawIf(img0, done, pat' & 1 != 0, Plot(x', y', p));
    }

    /** The steep-line loop: one step down per iteration (see `SteepStep`). */
    method WalkSteep(x0: int, y0: int, ye: int, py0: int, dx1: int, dy1: int, rising: bool, pattern: bv32, p: Pixel)
      requires Valid()
      modifies drawTarget.data
      ensures drawTarget.View() == Paint(old(drawTarget.View()), pixelMode, blendFactor,
                                         Run(y0, x0, ye, py0, dy1, dx1, rising, true, pattern, p))
    {
      ghost var img0 := drawTarget.View();
      ghost var done: seq<Plot> := [];
      var x, y, py, pat := x0, y0, py0, pattern;
      ghost var rest := Run(y, x, ye, py, dy1, dx1, rising, true, pat, p);
      while y < ye
        invariant drawTarget.View() == Paint(img0, pixelMode, blendFactor, done)
        invariant rest == Run(y, x, ye, py, dy1, dx1, rising, true, pat, p)
        invariant done + rest == Run(y0, x0, ye, py0, dy1, dx1, rising, true, pattern, p)
        decreases ye - y
      {
        ghost var b' := NextB(x, py, rising, true);
        ghost var step := if Rol(pat) & 1 != 0 then [At(y + 1, b', true, p)] else [];
        ghost var next := Run(y + 1, b', ye, NextE(py, dy1, dx1, true), dy1, dx1, rising, true, Rol(pat), p);
        RunStep(y, x, ye, py, dy1, dx1, rising, true, pat, p);
        ConcatAssoc(done, rest, step, next);
        x, y, py, pat, done := SteepStep(img0, done, x, y, py, dx1, dy1, rising, pat, p);
        rest := next;
      }
      assert done + [] == done;
    }

    /** One iteration of the steep loop: a step down, a step left or right
        when the decision variable is positive, and a `_draw` where the
        rotated pattern's low bit is set. */
    method SteepStep(ghost img0: Image, ghost done: seq<Plot>, x: int, y: int, py: int, dx1: int, dy1: int,
                     rising: bool, pat: bv32, p: Pixel)
      returns (x': int, y': int, py': int, pat': bv32, ghost done': seq<Plot>)
      requires Valid() && img0.Valid() && img0.Readable()
      requires drawTarget.View() == Paint(img0, pixelMode, blendFactor, done)
      modifies drawTarget.data
      ensures y' == y + 1 && x' == NextB(x, py, rising, true) && py' == NextE(py, dy1, dx1, true) && pat' == Rol(pat)
      ensures done' == done + if pat' & 1 != 0 then [At(y', x', true, p)] else []
      ensures drawTarget.View() == Paint(img0, pixelMode, blendFactor, done')
    {
      x', y', py' := x, y + 1, py;
      if py' <= 0 {
        py' := py' + 2 * dx1;
      } else {
        if rising {
          x' := x' + 1;
        } else {
          x' := x' - 1;
        }
        py' := py' + 2 * (dx1 - dy1);
      }
      pat' := Rol(pat);
      done' := DrawIf(img0, done, pat' & 1 != 0, Plot(x', y', p));
    }

    /** `_draw_circle_mask`: the midpoint walk over one octant, drawing the
        octant images the mask selects. */
    method DrawCircleMask(x: int, y: int, radius: int, p: Pixel, mask: bv8)
      requires Valid()
      modifies drawTarget.data
      ensures drawTarget.View() == Paint(old(drawTarget.View()), pixelMode, blendFactor, CirclePlots(x, y, radius, mask, p))
    {
      if radius == 0 {
        return;
      }
      ghost var img0 := drawTarget.View();
      ghost var done: seq<Plot> := [];
      var x0, y0, d := 0, radius, 3 - 2 * radius;
      while y0 >= x0
        invariant drawTarget.View() == Paint(img0, pixelMode, blendFactor, done)
        invariant done + CircleRun(x, y, x0, y0, d, mask, p) == CirclePlots(x, y, radius, mask, p)
        decreases y0 - x0 + 1
      {
        ghost var octants := OctantPlots(x, y, x0, y0, mask, p);
        CircleStep(done, x, y, x0, y0, d, mask, p);
        DrawOctants(x, y, x0, y0, p, mask);
        PaintAppend(img0, pixelMode, blendFactor, done, octants);
        done := done + octants;
        if d < 0 {
          d := d + 4 * x0 + 6;
          x0 := x0 + 1;
        } else {
          d := d + 4 * (x0 - y0) + 10;
          x0 := x0 + 1;
          y0 := y0 - 1;
        }
      }
      assert done + [] == done;
    }

    /** The body of the circle loop: up to eight `_draw` calls, one per mask
        bit. */
    method DrawOctants(x: int, y: int, x0: int, y0: int, p: Pixel, mask: bv8)
      requires Valid()
      modifies drawTarget.data
      ensures drawTarget.View() == Paint(old(drawTarget.View()), pixelMode, blendFactor, OctantPlots(x, y, x0, y0, mask, p))
    {
      ghost var img0 := drawTarget.View();
      ghost var d1 := DrawIf(img0, [], mask & 0x01 != 0, Plot(x + x0, y - y0, p));
      ghost var d2 := DrawIf(img0, d1, mask & 0x02 != 0, Plot(x + y0, y - x0, p));
      ghost var d3 := DrawIf(img0, d2, mask & 0x04 != 0, Plot(x + y0, y + x0, p));
      ghost var d4 := DrawIf(img0, d3, mask & 0x08 != 0, Plot(x + x0, y + y0, p));
      ghost var d5 := DrawIf(img0, d4, mask & 0x10 != 0, Plot(x - x0, y + y0, p));
      ghost var d6 := DrawIf(img0, d5, mask & 0x20 != 0, Plot(x - y0, y + x0, p));
      ghost var d7 := DrawIf(img0, d6, mask & 0x40 != 0, Plot(x - y0, y - x0, p));
      ghost var d8 := DrawIf(img0, d7, mask & 0x80 != 0, Plot(x - x0, y - y0, p));
      OctantsInOrder(x, y, x0, y0, mask, p, d1, d2, d3, d4, d5, d6, d7, d8);
    }

    /** `_fill_circle`, with each span drawn end to end (see `DrawSpan`). */
    method FillCircle(x: int, y: int, r: int, p: Pixel)
      requires Valid()
      modifies drawTarget.data
      ensures drawTarget.View() == Paint(old(drawTarget.View()), pixelMode, blendFactor, FillCirclePlots(x, y, r, p))
    {
      if r == 0 {
        return;
      }
      ghost var img0 := drawTarget.View();
      ghost var done: seq<Plot> := [];
      var x0, y0, d := 0, r, 3 - 2 * r;
      ghost var rest := FillRun(x, y, x0, y0, d, p, true);
      ghost var total := rest;
      EmptyPrefix(rest);
      while y0 >= x0
        invariant drawTarget.View() == Paint(img0, pixelMode, blendFactor, done)
        invariant rest == FillRun(x, y, x0, y0, d, p, true)
        invariant done + rest == total
        decreases y0 - x0 + 1
      {
        ghost var spans := SpanPlots(x, y, x0, y0, p, true);
        ghost var y0', d' := NextY(y0, d), NextD(x0, y0, d);
        ghost var next := FillRun(x, y, x0 + 1, y0', d', p, true);
        FillStep(x, y, x0, y0, d, p);
        ConcatAssoc(done, rest, spans, next);
        DrawSpans(x, y, x0, y0, p);
        PaintAppend(img0, pixelMode, blendFactor, done, spans);
        done, rest := done + spans, next;
        if d < 0 {
          d := d + 4 * x0 + 6;
          x0 := x0 + 1;
        } else {
          d := d + 4 * (x0 - y0) + 10;
          x0 := x0 + 1;
          y0 := y0 - 1;
        }
        assert y0 == y0' && d == d';
      }
      assert done + [] == done;
    }

    /** The four `draw_line` calls of one iteration of `_fill_circle`. */
    method DrawSpans(x: int, y: int, x0: int, y0: int, p: Pixel)
      requires Valid()
      modifies drawTarget.data
      ensures drawTarget.View() == Paint(old(drawTarget.View()), pixelMode, blendFactor, SpanPlots(x, y, x0, y0, p, true))
    {
      ghost var img0 := drawTarget.View();
      ghost var d1 := DrawSpan(img0, [], x - x0, x + x0, y - y0, p);
      ghost var d2 := DrawSpan(img0, d1, x - y0, x + y0, y - x0, p);
      ghost var d3 := DrawSpan(img0, d2, x - x0, x + x0, y + y0, p);
      ghost var d4 := DrawSpan(img0, d3, x - y0, x + y0, y + x0, p);
      SpansInOrder(x, y, x0, y0, p, d1, d2, d3, d4);
    }

    /** The `draw_line` closure of `_fill_circle`, over `sx..=ex`, tracking the
        plots drawn so far since image `img0`. */
    method DrawSpan(ghost img0: Image, ghost done: seq<Plot>, sx: int, ex: int, ny: int, p: Pixel) returns (ghost done': seq<Plot>)
      requires Valid() && img0.Valid() && img0.Readable()
      requires drawTarget.View() == Paint(img0, pixelMode, blendFactor, done)
      modifies drawTarget.data
      ensures SpanDrawn(done', done, sx, ex, ny, p)
      ensures drawTarget.View() == Paint(img0, pixelMode, blendFactor, done')
    {
      done' := done;
      var i := sx;
      while i <= ex
        invariant sx <= i && (i <= ex + 1 || i == sx)
        invariant drawTarget.View() == Paint(img0, pixelMode, blendFactor, done')
        invariant done' == done + Span(sx, i, ny, p, false)
        decreases ex - i
      {
        SpanExtend(sx, i, ny, p);
        done' := DrawTracked(img0, done', Plot(i, ny, p));
        i := i + 1;
      }
      if sx <= ex {
        SpanExtend(sx, ex, ny, p);
      }
      SpanDrawnIntro(done', done, sx, ex, ny, p);
    }

    /** `_draw_rect`: the four edges, clockwise from the top. */
    method DrawRect(x: int, y: int, w: int, h: int, p: Pixel)
      requires Valid()
      modifies drawTarget.data
      ensures drawTarget.View() == Paint(old(drawTarget.View()), pixelMode, blendFactor, Outline(x, y, x + w, y + h, p))
    {
      ghost var img0 := drawTarget.View();
      var x2, y2 := x + w, y + h;
      DrawOutline(x, y, x2, y2, p);
      assert drawTarget.View() == Paint(img0, pixelMode, blendFactor, Outline(x, y, x2, y2, p));
    }

    /** The four edges of the rectangle with corners (x1, y1) and (x2, y2). */
    method DrawOutline(x1: int, y1: int, x2: int, y2: int, p: Pixel)
      requires Valid()
      modifies drawTarget.data
      ensures drawTarget.View() == Paint(old(drawTarget.View()), pixelMode, blendFactor, Outline(x1, y1, x2, y2, p))
    {
      ghost var img0 := drawTarget.View();
      ghost var a, b := LinePlots(x1, y1, x2, y1, p, SOLID), LinePlots(x2, y1, x2, y2, p, SOLID);
      ghost var c, d := LinePlots(x2, y2, x1, y2, p, SOLID), LinePlots(x1, y2, x1, y1, p, SOLID);
      DrawLinePattern(x1, y1, x2, y1, p, SOLID);
      DrawLinePattern(x2, y1, x2, y2, p, SOLID);
      PaintAppend(img0, pixelMode, blendFactor, a, b);
      DrawLinePattern(x2, y2, x1, y2, p, SOLID);
      PaintAppend(img0, pixelMode, blendFactor, a + b, c);
      DrawLinePattern(x1, y2, x1, y1, p, SOLID);
      PaintAppend(img0, pixelMode, blendFactor, a + b + c, d);
    }

    /** `_draw_triangle`: the three edges in order. */
    method DrawTriangle(x1: int, y1: int, x2: int, y2: int, x3: int, y3: int, p: Pixel)
      requires Valid()
      modifies drawTarget.data
      ensures drawTarget.View() == Paint(old(drawTarget.View()), pixelMode, blendFactor, TrianglePlots(x1, y1, x2, y2, x3, y3, p))
    {
      ghost var img0 := drawTarget.View();
      ghost var a := LinePlots(x1, y1, x2, y2, p, SOLID);
      ghost var b := LinePlots(x2, y2, x3, y3, p, SOLID);
      ghost var c := LinePlots(x3, y3, x1, y1, p, SOLID);
      DrawLinePattern(x1, y1, x2, y2, p, SOLID);
      DrawLinePattern(x2, y2, x3, y3, p, SOLID);
      PaintAppend(img0, pixelMode, blendFactor, a, b);
      DrawLinePattern(x3, y3, x1, y1, p, SOLID);
      PaintAppend(img0, pixelMode, blendFactor, a + b, c);
    }

    /** The inner loop of a filled block: the column of h plots from (cx, cy)
        downwards. */
    method DrawColumn(ghost img0: Image, ghost done: seq<Plot>, cx: int, cy: int, h: nat, c: Pixel)
      returns (ghost done': seq<Plot>)
      requires Valid() && img0.Valid() && img0.Readable()
      requires drawTarget.View() == Paint(img0, pixelMode, blendFactor, done)
      modifies drawTarget.data
      ensures done' == done + Column(cx, cy, h, c)
      ensures drawTarget.View() == Paint(img0, pixelMode, blendFactor, done')
    {
      done' := done;
      var b := 0;
      while b < h
        invariant b <= h
        invariant done' == done + Column(cx, cy, b, c)
        invariant drawTarget.View() == Paint(img0, pixelMode, blendFactor, done')
      {
        ColumnStep(cx, cy, b, cy + b, c);
        ConcatAssoc(done, Column(cx, cy, b + 1, c), Column(cx, cy, b, c), [Plot(cx, cy + b, c)]);
        done' := DrawTracked(img0, done', Plot(cx, cy + b, c));
        b := b + 1;
      }
    }

    /** The two nested loops of a filled w-by-h block at (cx, cy): column by
        column, each from the top down. */
    method DrawBlock(ghost img0: Image, ghost done: seq<Plot>, cx: int, cy: int, w: nat, h: nat, c: Pixel)
      returns (ghost done': seq<Plot>)
      requires Valid() && img0.Valid() && img0.Readable()
      requires drawTarget.View() == Paint(img0, pixelMode, blendFactor, done)
      modifies drawTarget.data
      ensures BlockDrawn(done', done, cx, cy, w, h, c)
      ensures drawTarget.View() == Paint(img0, pixelMode, blendFactor, done')
    {
      done' := done;
      BlockDrawnStart(done, cx, cy, h, c);
      var a := 0;
      while a < w
        invariant a <= w
        invariant BlockDrawn(done', done, cx, cy, a, h, c)
        invariant drawTarget.View() == Paint(img0, pixelMode, blendFactor, done')
      {
        ghost var before := done';
        done' := DrawColumn(img0, done', cx + a, cy, h, c);
        BlockDrawnStep(before, done, cx, cy, a, h, c, done');
        a := a + 1;
      }
    }

    /** `_fill_rect`: the columns x .. x + w and in each the rows y .. y + h,
        with the `u32` sizes cast to `i32`. */
    method FillRect(x: int, y: int, w: nat, h: nat, p: Pixel)
      requires Valid() && w < 0x1_0000_0000 && h < 0x1_0000_0000
      modifies drawTarget.data
      ensures drawTarget.View() == Paint(old(drawTarget.View()), pixelMode, blendFactor, FillRectPlots(x, y, w, h, p))
    {
      ghost var img0 := drawTarget.View();
      ghost var done := DrawBlock(img0, [], x, y, I32Count(w), I32Count(h), p);
      BlockDrawnEnd(done, [], x, y, I32Count(w), I32Count(h), p);
      EmptyPrefix(Block(x, y, I32Count(w), I32Count(h), p));
    }

    /** One source pixel of a blit: `get_pixel` on the source sprite, then
        the pixel's s-by-s block (a single `_draw` when s is 1). */
    method BlitCell(ghost img0: Image, ghost done: seq<Plot>, x: int, y: int, src: Sprite, ghost col: Sampler,
                    ox: int, oy: int, s: nat, i: int, j: int)
      returns (ghost done': seq<Plot>)
      requires Valid() && img0.Valid() && img0.Readable()
      requires src.Valid() && src.data != drawTarget.data && col == Sample(src.View())
      requires drawTarget.View() == Paint(img0, pixelMode, blendFactor, done)
      modifies drawTarget.data
      ensures CellDrawn(done', done, BlitCells(x, y, col, ox, oy, s), i, j)
      ensures drawTarget.View() == Paint(img0, pixelMode, blendFactor, done')
    {
      var c := src.GetPixel(i + ox, j + oy);
      var cx, cy := x + i * s, y + j * s;
      if s == 1 {
        done' := DrawTracked(img0, done, Plot(cx, cy, c));
      } else {
        done' := DrawBlock(img0, done, cx, cy, s, s, c);
      }
      BlitCellDrawn(done', done, x, y, col, ox, oy, s, i, j, c);
    }

    /** The loop over the rows of column i of a blit. */
    method BlitColumn(ghost img0: Image, ghost done: seq<Plot>, x: int, y: int, src: Sprite, ghost col: Sampler,
                      ox: int, oy: int, s: nat, i: int, h: nat)
      returns (ghost done': seq<Plot>)
      requires Valid() && img0.Valid() && img0.Readable()
      requires src.Valid() && src.data != drawTarget.data && col == Sample(src.View())
      requires drawTarget.View() == Paint(img0, pixelMode, blendFactor, done)
      modifies drawTarget.data
      ensures done' == done + GridColumn(BlitCells(x, y, col, ox, oy, s), i, h)
      ensures drawTarget.View() == Paint(img0, pixelMode, blendFactor, done')
    {
      ghost var cells := BlitCells(x, y, col, ox, oy, s);
      done' := done;
      var j := 0;
      while j < h
        invariant j <= h
        invariant done' == done + GridColumn(cells, i, j)
        invariant drawTarget.View() == Paint(img0, pixelMode, blendFactor, done')
      {
        GridColumnStep(cells, i, j);
        ConcatAssoc(done, GridColumn(cells, i, j + 1), GridColumn(cells, i, j), cells.at(i, j));
        done' := BlitCell(img0, done', x, y, src, col, ox, oy, s, i, j);
        j := j + 1;
      }
    }

    /** The loops of a blit over the w-by-h source window at (ox, oy). */
    method DrawBlit(ghost img0: Image, ghost done: seq<Plot>, x: int, y: int, src: Sprite, ghost col: Sampler,
                    ox: int, oy: int, s: nat, w: nat, h: nat)
      returns (ghost done': seq<Plot>)
      requires Valid() && img0.Valid() && img0.Readable()
      requires src.Valid() && src.data != drawTarget.data && col == Sample(src.View())
      requires drawTarget.View() == Paint(img0, pixelMode, blendFactor, done)
      modifies drawTarget.data
      ensures done' == done + Blit(x, y, col, ox, oy, s, w, h)
      ensures drawTarget.View() == Paint(img0, pixelMode, blendFactor, done')
    {
      ghost var cells := BlitCells(x, y, col, ox, oy, s);
      done' := done;
      var i := 0;
      while i < w
        invariant i <= w
        invariant done' == done + Grid(cells, i, h)
        invariant drawTarget.View() == Paint(img0, pixelMode, blendFactor, done')
      {
        GridStep(cells, i, h);
        ConcatAssoc(done, Grid(cells, i + 1, h), Grid(cells, i, h), GridColumn(cells, i, h));
        done' := BlitColumn(img0, done', x, y, src, col, ox, oy, s, i, h);
        i := i + 1;
      }
    }

    /** `_draw_sprite(x, y, sprite, scale)`. The source sprite is borrowed
        while the target is written, so it must not be the draw target. */
    method DrawSprite(x: int, y: int, src: Sprite, scale: nat)
      requires Valid() && src.Valid() && src.data != drawTarget.data && scale < 0x1_0000_0000
      modifies drawTarget.data
      ensures drawTarget.View() == Paint(old(drawTarget.View()), pixelMode, blendFactor,
                                         SpritePlots(x, y, Sample(src.View()), src.width, src.height, scale))
    {
      if scale == 0 {
        return;
      }
      ghost var img0 := drawTarget.View();
      ghost var col := Sample(src.View());
      ghost var done := DrawBlit(img0, [], x, y, src, col, 0, 0, I32Count(scale), src.width, src.height);
      EmptyPrefix(Blit(x, y, col, 0, 0, I32Count(scale), src.width, src.height));
    }

    /** `_draw_partial_sprite(x, y, sprite, ox, oy, w, h, scale)`, with the
        scaled branch walking the w-by-h window like the 1:1 branch (see
        `Raster.PartialPlots`). */
    method DrawPartialSprite(x: int, y: int, src: Sprite, ox: int, oy: int, w: nat, h: nat, scale: nat)
      requires Valid() && src.Valid() && src.data != drawTarget.data
      requires w < 0x1_0000_0000 && h < 0x1_0000_0000 && scale < 0x1_0000_0000
      modifies drawTarget.data
      ensures drawTarget.View() == Paint(old(drawTarget.View()), pixelMode, blendFactor,
                                         PartialPlots(x, y, Sample(src.View()), ox, oy, w, h, scale))
    {
      if scale == 0 {
        return;
      }
      ghost var img0 := drawTarget.View();
      ghost var col := Sample(src.View());
      ghost var done := DrawBlit(img0, [], x, y, src, col, ox, oy, I32Count(scale), I32Count(w), I32Count(h));
      EmptyPrefix(Blit(x, y, col, ox, oy, I32Count(scale), I32Count(w), I32Count(h)));
    }

    /** Cell (i, j) of glyph c at (gx, gy): when its font bit is set, an
        s-by-s block for a scale above 1 and a single pixel otherwise. */
    method GlyphCellDraw(ghost img0: Image, ghost done: seq<Plot>, ghost cells: Cells, c: Byte, gx: int, gy: int, s: nat, p: Pixel, i: int, j: int)
      returns (ghost done': seq<Plot>)
      requires Valid() && img0.Valid() && img0.Readable() && 0 <= i < GLYPH && 0 <= j < GLYPH
      requires GlyphCellsAre(cells, font, c, gx, gy, CellSize(s), p)
      requires drawTarget.View() == Paint(img0, pixelMode, blendFactor, done)
      modifies drawTarget.data
      ensures CellDrawn(done', done, cells, i, j)
      ensures drawTarget.View() == Paint(img0, pixelMode, blendFactor, done')
    {
      done' := done;
      FontIndexInRange(c, i, j);
      var index := FontIndex(c, i, j);
      if font[index] == 1 {
        if s > 1 {
          done' := DrawBlock(img0, done, gx + i * s, gy + j * s, s, s, p);
        } else {
          done' := DrawTracked(img0, done, Plot(gx + i, gy + j, p));
        }
      }
      GlyphCellDrawn(done', done, cells, font, c, gx, gy, s, p, i, j);
    }

    /** The loop over the rows of column i of a glyph. */
    method GlyphColumn(ghost img0: Image, ghost done: seq<Plot>, ghost cells: Cells, c: Byte, gx: int, gy: int, s: nat, p: Pixel, i: int)
      returns (ghost done': seq<Plot>)
      requires Valid() && img0.Valid() && img0.Readable() && 0 <= i < GLYPH
      requires GlyphCellsAre(cells, font, c, gx, gy, CellSize(s), p)
      requires drawTarget.View() == Paint(img0, pixelMode, blendFactor, done)
      modifies drawTarget.data
      ensures done' == done + GridColumn(cells, i, GLYPH)
      ensures drawTarget.View() == Paint(img0, pixelMode, blendFactor, done')
    {
      done' := done;
      var j := 0;
      while j < GLYPH
        invariant j <= GLYPH
        invariant done' == done + GridColumn(cells, i, j)
        invariant drawTarget.View() == Paint(img0, pixelMode, blendFactor, done')
      {
        GridColumnStep(cells, i, j);
        ConcatAssoc(done, GridColumn(cells, i, j + 1), GridColumn(cells, i, j), cells.at(i, j));
        done' := GlyphCellDraw(img0, done', cells, c, gx, gy, s, p, i, j);
        j := j + 1;
      }
    }

    /** `_draw_glyph`: the 8-by-8 loops that draw glyph c with its top-left
        corner at (gx, gy). */
    method DrawGlyph(ghost img0: Image, ghost done: seq<Plot>, ghost cells: Cells, c: Byte, gx: int, gy: int, s: nat, p: Pixel)
      returns (ghost done': seq<Plot>)
      requires Valid() && img0.Valid() && img0.Readable()
      requires GlyphCellsAre(cells, font, c, gx, gy, CellSize(s), p)
      requires drawTarget.View() == Paint(img0, pixelMode, blendFactor, done)
      modifies drawTarget.data
      ensures GridDrawn(done', done, cells, GLYPH)
      ensures drawTarget.View() == Paint(img0, pixelMode, blendFactor, done')
    {
      done' := done;
      GridDrawnStart(done, cells);
      var i := 0;
      while i < GLYPH
        invariant i <= GLYPH
        invariant GridDrawn(done', done, cells, i)
        invariant drawTarget.View() == Paint(img0, pixelMode, blendFactor, done')
      {
        ghost var before := done';
        done' := GlyphColumn(img0, done', cells, c, gx, gy, s, p, i);
        GridDrawnStep(before, done, cells, i, done');
        i := i + 1;
      }
    }

    /** One byte of `_draw_string_scaled` with the pen at (sx, sy): a newline
        moves the pen to the start of the next row; any other byte draws its
        glyph at the pen and moves the pen one glyph to the right. */
    method TextByte(ghost img0: Image, ghost done: seq<Plot>, ghost glyph: GlyphPlots, x: int, y: int, sx: nat, sy: nat, c: Byte, p: Pixel, scale: nat)
      returns (sx': nat, sy': nat, ghost done': seq<Plot>)
      requires Valid() && img0.Valid() && img0.Readable()
      requires GlyphsAre(glyph, font, scale, p)
      requires drawTarget.View() == Paint(img0, pixelMode, blendFactor, done)
      modifies drawTarget.data
      ensures Pen(sx', sy') == if c == NEWLINE then Pen(0, sy + 8 * scale) else Pen(sx + 8 * scale, sy)
      ensures done' == done + if c == NEWLINE then [] else glyph(c, x + sx, y + sy)
      ensures drawTarget.View() == Paint(img0, pixelMode, blendFactor, done')
    {
      if c == NEWLINE {
        sx', sy' := 0, sy + 8 * scale;
        done' := done;
        EmptySuffix(done);
      } else {
        done' := DrawGlyphAt(img0, done, glyph, c, x + sx, y + sy, scale, p);
        sx', sy' := sx + 8 * scale, sy;
      }
    }

    /** The glyph of byte c drawn with its top-left corner at (gx, gy): the
        plots it adds are exactly those `glyph` gives for it. */
    method DrawGlyphAt(ghost img0: Image, ghost done: seq<Plot>, ghost glyph: GlyphPlots, c: Byte, gx: int, gy: int, s: nat, p: Pixel)
      returns (ghost done': seq<Plot>)
      requires Valid() && img0.Valid() && img0.Readable()
      requires GlyphsAre(glyph, font, s, p)
      requires drawTarget.View() == Paint(img0, pixelMode, blendFactor, done)
      modifies drawTarget.data
      ensures done' == done + glyph(c, gx, gy)
      ensures drawTarget.View() == Paint(img0, pixelMode, blendFactor, done')
    {
      ghost var cells := GlyphCellsOf(glyph, font, c, gx, gy, s, p);
      done' := DrawGlyph(img0, done, cells, c, gx, gy, s, p);
      GridDrawnGlyph(done', done, cells, glyph(c, gx, gy));
    }

    /** The byte loop of `_draw_string_scaled`, in the pixel mode already
        chosen, for a glyph function that draws the font's glyphs. */
    method DrawText(ghost glyph: GlyphPlots, x: int, y: int, text: seq<Byte>, p: Pixel, scale: nat)
      requires Valid() && GlyphsAre(glyph, font, scale, p)
      modifies drawTarget.data
      ensures drawTarget.View() == Paint(old(drawTarget.View()), pixelMode, blendFactor, TextWalk(glyph, x, y, text, scale))
    {
      ghost var img0 := drawTarget.View();
      ghost var done: seq<Plot> := [];
      var sx: nat, sy: nat := 0, 0;
      var k := 0;
      while k < |text|
        invariant k <= |text|
        invariant Pen(sx, sy) == PenAfter(text[..k], scale)
        invariant done == TextWalk(glyph, x, y, text[..k], scale)
        invariant drawTarget.View() == Paint(img0, pixelMode, blendFactor, done)
      {
        ghost var sx0, sy0, before := sx, sy, done;
        sx, sy, done := TextByte(img0, done, glyph, x, y, sx, sy, text[k], p, scale);
        WalkAdvance(glyph, x, y, text, scale, k, sx0, sy0, sx, sy, before, done);
        k := k + 1;
      }
      assert text[..|text|] == text;
    }

    /** `_draw_string_scaled`: the text is drawn in Alpha mode for a
        translucent colour and in Mask mode for an opaque one, and the pixel
        mode is put back afterwards. */
    method DrawStringScaled(x: int, y: int, text: seq<Byte>, p: Pixel, scale: nat)
      requires Valid()
      modifies this, drawTarget.data
      ensures unchanged(this)
      ensures drawTarget.View() == Paint(old(drawTarget.View()), TextMode(p), blendFactor, TextPlots(font, x, y, text, p, scale))
    {
      var m := pixelMode;
      if p.a != 255 {
        pixelMode := Alpha;
      } else {
        pixelMode := PixelMode.Mask;
      }
      ghost var glyph := GlyphsOf(font, scale, p);
      GlyphsOfAre(font, scale, p);
      DrawText(glyph, x, y, text, p, scale);
      WalkIsText(glyph, font, x, y, text, p, scale);
      pixelMode := m;
    }

    /** One `set_pixel` of `_clear`: cell (x, y) joins the cleared prefix
        of the buffer. */
    method ClearCell(x: int, y: int, p: Pixel)
      requires Valid() && 0 <= x < drawTarget.width && 0 <= y < drawTarget.height
      requires y * drawTarget.width + x < drawTarget.data.Length
      requires forall k :: 0 <= k < y * drawTarget.width + x ==> drawTarget.data[k] == Pack(p)
      modifies drawTarget.data
      ensures forall k :: 0 <= k <= y * drawTarget.width + x ==> drawTarget.data[k] == Pack(p)
    {
      ghost var before := drawTarget.View();
      IndexInRange(x, y, drawTarget.width, drawTarget.height);
      var _ := drawTarget.SetPixel(x, y, p);
      SetCells(before, x, y, p);
    }

    /** `_clear`: every cell of the draw target set to p through `set_pixel`,
        row by row, whatever the pixel mode. */
    method Clear(p: Pixel)
      requires Valid()
      modifies drawTarget.data
      ensures forall k :: 0 <= k < drawTarget.data.Length ==> drawTarget.data[k] == Pack(p)
    {
      var W, H := drawTarget.width, drawTarget.height;
      var y := 0;
      while y < H
        invariant y <= H && y * W <= W * H
        invariant forall k :: 0 <= k < y * W ==> drawTarget.data[k] == Pack(p)
      {
        var x := 0;
        while x < W
          invariant x <= W && y * W + x <= W * H
          invariant forall k :: 0 <= k < y * W + x ==> drawTarget.data[k] == Pack(p)
        {
          IndexInRange(x, y, W, H);
          ClearCell(x, y, p);
          x := x + 1;
        }
        MulSucc(W, y);
        y := y + 1;
      }
    }

    /** `_update_keys`: every slot cleared, then the keys down, pressed and
        released this frame flagged in turn, then the five logical keys set
        from their physical pairs. The key lists arrive already translated
        into engine keys. */
    method UpdateKeys(f: KeyFrame)
      requires Valid()
      modifies keyboardState
      ensures forall j :: 0 <= j < KEY_COUNT ==> keyboardState[j] == KeyAfter(f, j as Key)
    {
      ReadKeys(f);
      keyboardState[ALT] := Either(keyboardState[LEFT_ALT], keyboardState[RIGHT_ALT]);
      keyboardState[SHIFT] := Either(keyboardState[LEFT_SHIFT], keyboardState[RIGHT_SHIFT]);
      assert forall j :: 0 <= j < KEY_COUNT ==> keyboardState[j] == if j == ALT as int || j == SHIFT as int then KeyAfter(f, j as Key) else Raw(f, j as Key);
      keyboardState[CONTROL] := Either(keyboardState[LEFT_CONTROL], keyboardState[RIGHT_CONTROL]);
      keyboardState[SYSTEM] := Either(keyboardState[LEFT_SYSTEM], keyboardState[RIGHT_SYSTEM]);
      keyboardState[ENTER] := Either(keyboardState[RETURN], keyboardState[NUM_PAD_ENTER]);
    }

    /** The first part of `_update_keys`: every slot cleared, then filled
        from the three lists. */
    method ReadKeys(f: KeyFrame)
      requires Valid()
      modifies keyboardState
      ensures forall j :: 0 <= j < KEY_COUNT ==> keyboardState[j] == Raw(f, j as Key)
    {
      for j := 0 to KEY_COUNT
        invariant forall i :: 0 <= i < j ==> keyboardState[i] == IDLE
      {
        keyboardState[j] := IDLE;
      }
      for n := 0 to |f.down|
        invariant forall i :: 0 <= i < KEY_COUNT ==> keyboardState[i] == HWButton(false, false, i as Key in f.down[..n])
      {
        var k := f.down[n];
        keyboardState[k] := keyboardState[k].(held := true);
        assert f.down[..n + 1] == f.down[..n] + [k];
      }
      assert f.down[..|f.down|] == f.down;
      for n := 0 to |f.pressed|
        invariant forall i :: 0 <= i < KEY_COUNT ==> keyboardState[i] == HWButton(i as Key in f.pressed[..n], false, i as Key in f.down)
      {
        var k := f.pressed[n];
        keyboardState[k] := keyboardState[k].(pressed := true);
        assert f.pressed[..n + 1] == f.pressed[..n] + [k];
      }
      assert f.pressed[..|f.pressed|] == f.pressed;
      for n := 0 to |f.released|
        invariant forall i :: 0 <= i < KEY_COUNT ==> keyboardState[i] == HWButton(i as Key in f.pressed, i as Key in f.released[..n], i as Key in f.down)
      {
        var k := f.released[n];
        keyboardState[k] := keyboardState[k].(released := true);
        assert f.released[..n + 1] == f.released[..n] + [k];
      }
      assert f.released[..|f.released|] == f.released;
    }

    /** `_update_mouse`: the mouse position scaled down by the pixel size
        with `i32` division when the window reports one, the left, right and
        middle buttons stepped by `NextButton`, and the wheel delta (0 when
        the window reports none). The window's answers are the parameters;
        the position arrives already converted to integers. */
    method UpdateMouse(pos: Option<(int, int)>, down: seq<bool>, wheel: Option<int>)
      requires Valid() && |down| == 3
      modifies this`mouseX, this`mouseY, this`mouseWheel, mouseState
      ensures pos.Some? ==> mouseX == TruncDiv(pos.value.0, pixelW) && mouseY == TruncDiv(pos.value.1, pixelH)
      ensures pos.None? ==> mouseX == old(mouseX) && mouseY == old(mouseY)
      ensures forall i :: 0 <= i < 3 ==> mouseState[i] == NextButton(old(mouseState[i]), down[i])
      ensures forall i :: 3 <= i < 5 ==> mouseState[i] == old(mouseState[i])
      ensures mouseWheel == if wheel.Some? then wheel.value else 0
    {
      if pos.Some? {
        mouseX := TruncDiv(pos.value.0, pixelW);
        mouseY := TruncDiv(pos.value.1, pixelH);
      }
      for i := 0 to 3
        modifies mouseState
        invariant forall j :: 0 <= j < i ==> mouseState[j] == NextButton(old(mouseState[j]), down[j])
        invariant forall j :: i <= j < 5 ==> mouseState[j] == old(mouseState[j])
      {
        var last := mouseState[i];
        var current := down[i];
        mouseState[i] := HWButton(current && !(last.pressed || last.held), !current && (last.pressed || last.held),
                                  current && (last.pressed || last.held));
      }
      if wheel.Some? {
        mouseWheel := wheel.value;
      } else {
        mouseWheel := 0;
      }
    }

    /** `set_draw_target`: the given sprite, or the default target for None. */
    method SetDrawTarget(target: Option<Sprite>)
      requires Valid() && (target.Some? ==> target.value.Valid())
      modifies this
      ensures Valid()
      ensures drawTarget == if target.Some? then target.value else defaultDrawTarget
      ensures pixelMode == old(pixelMode) && blendFactor == old(blendFactor) && active == old(active)
      ensures mouseX == old(mouseX) && mouseY == old(mouseY) && mouseWheel == old(mouseWheel)
    {
      match target
      case Some(t) => drawTarget := t;
      case None => drawTarget := defaultDrawTarget;
    }
  }
}
