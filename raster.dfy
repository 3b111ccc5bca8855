/** The plot lists of the composite rasterizers built on `_draw`: rectangle
    and triangle outlines, the filled rectangle, the 1:1 and scaled sprite
    blits and the bitmap text. Each function lists, in order, the `_draw`
    calls the corresponding engine routine makes. */
module Raster {
  import opened IntOps
  import opened Pixels
  import opened Sprites
  import opened Plotting
  import opened Lines
  import opened Vectors

  /** The length of the range `0..n as i32` for a `u32` n: the cast turns
      values of 2^31 and above into negatives, which leave the range empty. */
  function I32Count(n: nat): (c: nat)
    requires n < 0x1_0000_0000
    ensures c <= n && (n < 0x8000_0000 ==> c == n)
  {
    if n < 0x8000_0000 then n else 0
  }

  // ---------------------------------------------------------------------
  // Axis-aligned lines.

  /** With no minor displacement the decision variable stays negative, so the
      run never leaves its starting row (or column). */
  lemma {:induction false} RunFlat(a: int, b: int, ae: int, e: int, dMaj: int, rising: bool, steep: bool,
                                   pattern: bv32, p: Pixel, q: Plot)
    requires e < 0 && q in Run(a, b, ae, e, dMaj, 0, rising, steep, pattern, p)
    ensures q.p == p
    ensures steep ==> q.x == b && a < q.y <= ae
    ensures !steep ==> q.y == b && a < q.x <= ae
    decreases ae - a
  {
    var pat := Rol(pattern);
    var head := if pat & 1 != 0 then [At(a + 1, b, steep, p)] else [];
    assert Run(a, b, ae, e, dMaj, 0, rising, steep, pattern, p)
        == head + Run(a + 1, b, ae, e, dMaj, 0, rising, steep, pat, p);
    if q !in head {
      RunFlat(a + 1, b, ae, e, dMaj, rising, steep, pat, p, q);
    }
  }

  /** Every plot of a line between two points of one row lies on that row,
      between the two end columns. */
  lemma HorizontalLine(x1: int, x2: int, y: int, p: Pixel, pattern: bv32, q: Plot)
    requires q in LinePlots(x1, y, x2, y, p, pattern)
    ensures q.p == p && q.y == y
    ensures x1 <= x2 ==> x1 <= q.x <= x2
    ensures x2 < x1 ==> x2 <= q.x <= x1
  {
    var s := Start(x1, y, x2, y);
    var pat := Rol(pattern);
    if q !in (if pat & 1 != 0 then [At(s.a, s.b, s.steep, p)] else []) {
      if s.a < s.ae {
        RunFlat(s.a, s.b, s.ae, s.e, s.dMaj, s.rising, s.steep, pat, p, q);
      }
    }
  }

  /** Every plot of a line between two points of one column lies on that
      column, between the two end rows. */
  lemma VerticalLine(x: int, y1: int, y2: int, p: Pixel, pattern: bv32, q: Plot)
    requires q in LinePlots(x, y1, x, y2, p, pattern)
    ensures q.p == p && q.x == x
    ensures y1 <= y2 ==> y1 <= q.y <= y2
    ensures y2 < y1 ==> y2 <= q.y <= y1
  {
    var s := Start(x, y1, x, y2);
    var pat := Rol(pattern);
    if q !in (if pat & 1 != 0 then [At(s.a, s.b, s.steep, p)] else []) {
      if s.a < s.ae {
        RunFlat(s.a, s.b, s.ae, s.e, s.dMaj, s.rising, s.steep, pat, p, q);
      }
    }
  }

  /** A solid line plots both of its endpoints. */
  lemma LineEnds(x1: int, y1: int, x2: int, y2: int, p: Pixel)
    ensures Plot(x1, y1, p) in LinePlots(x1, y1, x2, y2, p, SOLID)
    ensures Plot(x2, y2, p) in LinePlots(x1, y1, x2, y2, p, SOLID)
  {
    SolidLineEndpoints(x1, y1, x2, y2, p);
  }

  // ---------------------------------------------------------------------
  // Outlines.

  /** `_draw_rect(x, y, w, h)` with x2 = x + w and y2 = y + h: the top,
      right, bottom and left edges as solid lines, from corner (x1, y1) round
      to the opposite corner (x2, y2) and back. */
  function Outline(x1: int, y1: int, x2: int, y2: int, p: Pixel): seq<Plot>
  {
    LinePlots(x1, y1, x2, y1, p, SOLID) + LinePlots(x2, y1, x2, y2, p, SOLID)
    + LinePlots(x2, y2, x1, y2, p, SOLID) + LinePlots(x1, y2, x1, y1, p, SOLID)
  }

  /** Whether u lies between a and b, whichever way round they are. */
  predicate Between(a: int, b: int, u: int)
  {
    (a <= u <= b) || (b <= u <= a)
  }

  /** Whether (u, v) lies on the border of the rectangle with opposite
      corners (x1, y1) and (x2, y2). */
  predicate OnBorder(x1: int, y1: int, x2: int, y2: int, u: int, v: int)
  {
    ((v == y1 || v == y2) && Between(x1, x2, u)) || ((u == x1 || u == x2) && Between(y1, y2, v))
  }

  /** A plot is in four sequences laid end to end iff it is in one of them. */
  lemma InFour(a: seq<Plot>, b: seq<Plot>, c: seq<Plot>, d: seq<Plot>, q: Plot)
    ensures q in a + b + c + d <==> q in a || q in b || q in c || q in d
  {
  }

  /** The outline draws its four corners. */
  lemma OutlineCorners(x1: int, y1: int, x2: int, y2: int, p: Pixel)
    ensures Plot(x1, y1, p) in Outline(x1, y1, x2, y2, p) && Plot(x2, y1, p) in Outline(x1, y1, x2, y2, p)
    ensures Plot(x2, y2, p) in Outline(x1, y1, x2, y2, p) && Plot(x1, y2, p) in Outline(x1, y1, x2, y2, p)
  {
    var top, right := LinePlots(x1, y1, x2, y1, p, SOLID), LinePlots(x2, y1, x2, y2, p, SOLID);
    var bottom, left := LinePlots(x2, y2, x1, y2, p, SOLID), LinePlots(x1, y2, x1, y1, p, SOLID);
    LineEnds(x1, y1, x2, y1, p);
    LineEnds(x2, y2, x1, y2, p);
    InFour(top, right, bottom, left, Plot(x1, y1, p));
    InFour(top, right, bottom, left, Plot(x2, y1, p));
    InFour(top, right, bottom, left, Plot(x2, y2, p));
    InFour(top, right, bottom, left, Plot(x1, y2, p));
  }

  /** Nothing the outline draws is off the rectangle's border. */
  lemma OutlineOnBorder(x1: int, y1: int, x2: int, y2: int, p: Pixel, q: Plot)
    requires q in Outline(x1, y1, x2, y2, p)
    ensures q.p == p && OnBorder(x1, y1, x2, y2, q.x, q.y)
  {
    var top, right := LinePlots(x1, y1, x2, y1, p, SOLID), LinePlots(x2, y1, x2, y2, p, SOLID);
    var bottom, left := LinePlots(x2, y2, x1, y2, p, SOLID), LinePlots(x1, y2, x1, y1, p, SOLID);
    InFour(top, right, bottom, left, q);
    if q in top {
      HorizontalLine(x1, x2, y1, p, SOLID, q);
    } else if q in right {
      VerticalLine(x2, y1, y2, p, SOLID, q);
    } else if q in bottom {
      HorizontalLine(x2, x1, y2, p, SOLID, q);
    } else {
      VerticalLine(x1, y2, y1, p, SOLID, q);
    }
  }

  /** `_draw_triangle`: the three edges as solid lines. */
  function TrianglePlots(x1: int, y1: int, x2: int, y2: int, x3: int, y3: int, p: Pixel): seq<Plot>
  {
    LinePlots(x1, y1, x2, y2, p, SOLID) + LinePlots(x2, y2, x3, y3, p, SOLID) + LinePlots(x3, y3, x1, y1, p, SOLID)
  }

  /** The outline passes through all three vertices. */
  lemma TriangleVertices(x1: int, y1: int, x2: int, y2: int, x3: int, y3: int, p: Pixel)
    ensures Plot(x1, y1, p) in TrianglePlots(x1, y1, x2, y2, x3, y3, p)
    ensures Plot(x2, y2, p) in TrianglePlots(x1, y1, x2, y2, x3, y3, p)
    ensures Plot(x3, y3, p) in TrianglePlots(x1, y1, x2, y2, x3, y3, p)
  {
    LineEnds(x1, y1, x2, y2, p);
    LineEnds(x3, y3, x1, y1, p);
    LineEnds(x2, y2, x3, y3, p);
  }

  /** The vertex sort at the head of `_fill_triangle`: the three vertices
      in order of y, by nested strict comparisons. */
  function SortByY(a: Vi2d, b: Vi2d, c: Vi2d): (r: (Vi2d, Vi2d, Vi2d))
    ensures r.0.y <= r.1.y <= r.2.y
    ensures multiset{r.0, r.1, r.2} == multiset{a, b, c}
  {
    if a.y < b.y then
      if a.y < c.y then
        if b.y < c.y then (a, b, c) else (a, c, b)
      else (c, a, b)
    else if b.y < c.y then
      if a.y < c.y then (b, a, c) else (b, c, a)
    else (c, b, a)
  }

  /** With three different y values the order is strict, and a list already
      in strictly increasing y is left as it is. */
  lemma SortByYStrict(a: Vi2d, b: Vi2d, c: Vi2d)
    requires a.y != b.y && b.y != c.y && a.y != c.y
    ensures var r := SortByY(a, b, c); r.0.y < r.1.y < r.2.y
    ensures a.y < b.y < c.y ==> SortByY(a, b, c) == (a, b, c)
  {
    var r := SortByY(a, b, c);
    assert r.0 in multiset{a, b, c} && r.1 in multiset{a, b, c} && r.2 in multiset{a, b, c};
  }

  // ---------------------------------------------------------------------
  // Filled rectangles.

  /** `for j in 0..h { draw(x, y + j, p) }`: one column. */
  function Column(x: int, y: int, h: nat, p: Pixel): seq<Plot>
  {
    if h == 0 then [] else Column(x, y, h - 1, p) + [Plot(x, y + h - 1, p)]
  }

  /** `for i in 0..w { for j in 0..h { draw(x + i, y + j, p) } }`: columns left
      to right, each top to bottom. */
  function Block(x: int, y: int, w: nat, h: nat, p: Pixel): seq<Plot>
  {
    if w == 0 then [] else Block(x, y, w - 1, h, p) + Column(x + w - 1, y, h, p)
  }

  /** After `before`, the block loops have drawn the first a columns of an
      h-row block at (x, y). The quantifier fires only where that block
      prefix itself is named, so the frame-buffer proofs carry it without
      unfolding the block. */
  ghost predicate BlockDrawn(done: seq<Plot>, before: seq<Plot>, x: int, y: int, a: nat, h: nat, p: Pixel)
  {
    forall w {:trigger Block(x, y, w, h, p)} :: w == a ==> done == before + Block(x, y, w, h, p)
  }

  lemma BlockDrawnStart(before: seq<Plot>, x: int, y: int, h: nat, p: Pixel)
    ensures BlockDrawn(before, before, x, y, 0, h, p)
  {
    assert before + Block(x, y, 0, h, p) == before;
  }

  /** Appending column a to the first a columns gives the first a + 1. */
  lemma BlockAppend(before: seq<Plot>, x: int, y: int, a: nat, h: nat, p: Pixel, done: seq<Plot>, after: seq<Plot>)
    requires done == before + Block(x, y, a, h, p)
    requires after == done + Column(x + a, y, h, p)
    ensures after == before + Block(x, y, a + 1, h, p)
  {
    assert (before + Block(x, y, a, h, p)) + Column(x + a, y, h, p)
        == before + (Block(x, y, a, h, p) + Column(x + a, y, h, p));
  }

  /** The block loops after column a. */
  lemma BlockDrawnStep(done: seq<Plot>, before: seq<Plot>, x: int, y: int, a: nat, h: nat, p: Pixel, after: seq<Plot>)
    requires BlockDrawn(done, before, x, y, a, h, p)
    requires after == done + Column(x + a, y, h, p)
    ensures BlockDrawn(after, before, x, y, a + 1, h, p)
  {
    assert done == before + Block(x, y, a, h, p);
    BlockAppend(before, x, y, a, h, p, done, after);
  }

  lemma BlockDrawnEnd(done: seq<Plot>, before: seq<Plot>, x: int, y: int, w: nat, h: nat, p: Pixel)
    requires BlockDrawn(done, before, x, y, w, h, p)
    ensures done == before + Block(x, y, w, h, p)
  {
  }

  /** After `before`, the loops have drawn cell (i, j) of `cells`; carried
      like BlockDrawn, and used where the cell itself is named. */
  ghost predicate CellDrawn(done: seq<Plot>, before: seq<Plot>, cells: Cells, i: int, j: int)
  {
    forall t {:trigger cells.at(i, t)} :: t == j ==> done == before + cells.at(i, t)
  }

  lemma {:induction false} ColumnInside(x: int, y: int, h: nat, p: Pixel, q: Plot)
    requires q in Column(x, y, h, p)
    ensures q.p == p && q.x == x && y <= q.y < y + h
    decreases h
  {
    var init, last := Column(x, y, h - 1, p), [Plot(x, y + h - 1, p)];
    if q in init {
      ColumnInside(x, y, h - 1, p, q);
    }
  }

  lemma {:induction false} ColumnCovers(x: int, y: int, h: nat, p: Pixel, v: int)
    requires y <= v < y + h
    ensures Plot(x, v, p) in Column(x, y, h, p)
    decreases h
  {
    var init, last := Column(x, y, h - 1, p), [Plot(x, y + h - 1, p)];
    if v < y + h - 1 {
      ColumnCovers(x, y, h - 1, p, v);
      assert Plot(x, v, p) in init;
    } else {
      assert Plot(x, v, p) in last;
    }
  }

  /** A block is its first w - 1 columns followed by column w - 1. */
  lemma BlockSplit(x: int, y: int, w: nat, h: nat, p: Pixel, q: Plot)
    requires q in Block(x, y, w, h, p)
    ensures w > 0 && (q in Block(x, y, w - 1, h, p) || q in Column(x + w - 1, y, h, p))
  {
  }

  /** Every plot of a block lies in its rectangle, in its colour. */
  lemma {:induction false} BlockInside(x: int, y: int, w: nat, h: nat, p: Pixel, q: Plot)
    requires q in Block(x, y, w, h, p)
    ensures q.p == p && x <= q.x < x + w && y <= q.y < y + h
    decreases w
  {
    BlockSplit(x, y, w, h, p, q);
    if q in Column(x + w - 1, y, h, p) {
      ColumnInside(x + w - 1, y, h, p, q);
    } else {
      BlockInside(x, y, w - 1, h, p, q);
    }
  }

  /** Every cell of a block's rectangle is plotted in its colour. */
  lemma {:induction false} BlockCovers(x: int, y: int, w: nat, h: nat, p: Pixel, u: int, v: int)
    requires x <= u < x + w && y <= v < y + h
    ensures Plot(u, v, p) in Block(x, y, w, h, p)
    decreases w
  {
    var init, last := Block(x, y, w - 1, h, p), Column(x + w - 1, y, h, p);
    if u < x + w - 1 {
      BlockCovers(x, y, w - 1, h, p, u, v);
      assert Plot(u, v, p) in init;
    } else {
      ColumnCovers(x + w - 1, y, h, p, v);
      assert Plot(u, v, p) in last;
    }
  }

  /** A block holds exactly the cells of its rectangle, each in its colour. */
  lemma BlockMember(x: int, y: int, w: nat, h: nat, p: Pixel, q: Plot)
    ensures q in Block(x, y, w, h, p) <==> q.p == p && x <= q.x < x + w && y <= q.y < y + h
  {
    if q in Block(x, y, w, h, p) {
      BlockInside(x, y, w, h, p, q);
    }
    if q.p == p && x <= q.x < x + w && y <= q.y < y + h {
      BlockCovers(x, y, w, h, p, q.x, q.y);
      assert q == Plot(q.x, q.y, p);
    }
  }

  lemma {:induction false} ColumnLength(x: int, y: int, h: nat, p: Pixel)
    ensures |Column(x, y, h, p)| == h
    decreases h
  {
    if h > 0 {
      ColumnLength(x, y, h - 1, p);
    }
  }

  /** A w-by-h block makes w*h plots. */
  lemma {:induction false} BlockLength(x: int, y: int, w: nat, h: nat, p: Pixel)
    ensures |Block(x, y, w, h, p)| == w * h
    decreases w
  {
    if w > 0 {
      BlockLength(x, y, w - 1, h, p);
      ColumnLength(x + w - 1, y, h, p);
      assert w * h == (w - 1) * h + h;
    }
  }

  /** A 1-by-1 block is a single plot. */
  lemma BlockUnit(x: int, y: int, p: Pixel)
    ensures Block(x, y, 1, 1, p) == [Plot(x, y, p)]
  {
    assert Column(x, y, 1, p) == [Plot(x, y, p)];
  }

  /** `_fill_rect(x, y, w, h, p)`; w and h are `u32` cast to `i32`. */
  function FillRectPlots(x: int, y: int, w: nat, h: nat, p: Pixel): seq<Plot>
    requires w < 0x1_0000_0000 && h < 0x1_0000_0000
  {
    Block(x, y, I32Count(w), I32Count(h), p)
  }

  /** In Normal mode a filled rectangle sets exactly the cells of
      [x, x+w) x [y, y+h) that lie on the target to `p`, and leaves every
      other cell as it was. */
  lemma FillRectNormal(img: Image, blendFactor: real, x: int, y: int, w: nat, h: nat, p: Pixel, u: int, v: int)
    requires img.Valid() && img.Readable() && img.InBounds(u, v)
    requires w < 0x8000_0000 && h < 0x8000_0000
    ensures Paint(img, PixelMode.Normal, blendFactor, FillRectPlots(x, y, w, h, p)).cells[img.Index(u, v)]
         == if x <= u < x + w && y <= v < y + h then Pack(p) else img.cells[img.Index(u, v)]
  {
    var plots := FillRectPlots(x, y, w, h, p);
    forall k | 0 <= k < |plots|
      ensures plots[k].p == p
    {
      BlockInside(x, y, w, h, p, plots[k]);
    }
    if x <= u < x + w && y <= v < y + h {
      BlockCovers(x, y, w, h, p, u, v);
      var k :| 0 <= k < |plots| && plots[k] == Plot(u, v, p);
      assert Hits(plots, u, v);
    } else if Hits(plots, u, v) {
      var k :| 0 <= k < |plots| && plots[k].x == u && plots[k].y == v;
      BlockInside(x, y, w, h, p, plots[k]);
      assert false;
    }
    PaintUniform(img, PixelMode.Normal, blendFactor, plots, p, u, v);
  }

  // ---------------------------------------------------------------------
  // Grid walks: the nested `for i in 0..w { for j in 0..h { ... } }` loops of
  // the sprite blits and of the bitmap glyphs.

  /** The plots one iteration of a grid walk makes for cell (i, j). */
  datatype Cells = Cells(at: (int, int) -> seq<Plot>)

  /** The inner loop over rows `0..h` for column i. */
  function GridColumn(cell: Cells, i: int, h: nat): seq<Plot>
  {
    if h == 0 then [] else GridColumn(cell, i, h - 1) + cell.at(i, h - 1)
  }

  /** Both loops: columns left to right, each top to bottom. */
  function Grid(cell: Cells, w: nat, h: nat): seq<Plot>
  {
    if w == 0 then [] else Grid(cell, w - 1, h) + GridColumn(cell, w - 1, h)
  }

  /** The row of column i's walk that made q. */
  lemma {:induction false} GridColumnFind(cell: Cells, i: int, h: nat, q: Plot) returns (j: int)
    requires q in GridColumn(cell, i, h)
    ensures 0 <= j < h && q in cell.at(i, j)
    decreases h
  {
    var init, last := GridColumn(cell, i, h - 1), cell.at(i, h - 1);
    assert GridColumn(cell, i, h) == init + last;
    if q in init {
      j := GridColumnFind(cell, i, h - 1, q);
    } else {
      j := h - 1;
    }
  }

  /** A grid walk is its first w - 1 columns followed by column w - 1. */
  lemma GridSplit(cell: Cells, w: nat, h: nat, q: Plot)
    requires q in Grid(cell, w, h)
    ensures w > 0 && (q in Grid(cell, w - 1, h) || q in GridColumn(cell, w - 1, h))
  {
  }

  /** The column of the walk that made q. */
  lemma {:induction false} GridColumnOf(cell: Cells, w: nat, h: nat, q: Plot) returns (i: int)
    requires q in Grid(cell, w, h)
    ensures 0 <= i < w && q in GridColumn(cell, i, h)
    decreases w
  {
    GridSplit(cell, w, h, q);
    if q in GridColumn(cell, w - 1, h) {
      i := w - 1;
    } else {
      i := GridColumnOf(cell, w - 1, h, q);
    }
  }

  /** The cell of the walk that made q. */
  lemma GridFind(cell: Cells, w: nat, h: nat, q: Plot) returns (i: int, j: int)
    requires q in Grid(cell, w, h)
    ensures 0 <= i < w && 0 <= j < h && q in cell.at(i, j)
  {
    i := GridColumnOf(cell, w, h, q);
    j := GridColumnFind(cell, i, h, q);
  }

  lemma {:induction false} GridColumnCovers(cell: Cells, i: int, h: nat, j: int, q: Plot)
    requires 0 <= j < h && q in cell.at(i, j)
    ensures q in GridColumn(cell, i, h)
    decreases h
  {
    var init, last := GridColumn(cell, i, h - 1), cell.at(i, h - 1);
    if j < h - 1 {
      GridColumnCovers(cell, i, h - 1, j, q);
      assert q in init;
    } else {
      assert q in last;
    }
  }

  /** Whatever cell (i, j) of the grid makes, the grid walk makes. */
  lemma {:induction false} GridCovers(cell: Cells, w: nat, h: nat, i: int, j: int, q: Plot)
    requires 0 <= i < w && 0 <= j < h && q in cell.at(i, j)
    ensures q in Grid(cell, w, h)
    decreases w
  {
    var init, last := Grid(cell, w - 1, h), GridColumn(cell, w - 1, h);
    if i < w - 1 {
      GridCovers(cell, w - 1, h, i, j, q);
      assert q in init;
    } else {
      GridColumnCovers(cell, i, h, j, q);
      assert q in last;
    }
  }

  /** A plot is made by a grid walk exactly when some cell of the w-by-h
      grid makes it. */
  lemma GridMember(cell: Cells, w: nat, h: nat, q: Plot)
    ensures q in Grid(cell, w, h) <==> exists i, j :: 0 <= i < w && 0 <= j < h && q in cell.at(i, j)
  {
    if q in Grid(cell, w, h) {
      var i, j := GridFind(cell, w, h, q);
    }
    if exists i, j :: 0 <= i < w && 0 <= j < h && q in cell.at(i, j) {
      var i, j :| 0 <= i < w && 0 <= j < h && q in cell.at(i, j);
      GridCovers(cell, w, h, i, j, q);
    }
  }

  // ---------------------------------------------------------------------
  // Sprite blits.

  /** The colour a blit reads at each sprite coordinate: the source sprite's
      `get_pixel`. */
  type Sampler = (int, int) -> Pixel

  /** `get_pixel` of a sprite's current contents, as a sampler. */
  function Sample(img: Image): Sampler
    requires img.Valid() && img.Readable()
  {
    (u, v) => img.Get(u, v)
  }

  /** One source pixel of a blit: the s-by-s block at (x + i*s, y + j*s) in the
      colour read at (i + ox, j + oy). */
  function BlitCells(x: int, y: int, col: Sampler, ox: int, oy: int, s: nat): Cells
  {
    Cells((i, j) => Block(x + i * s, y + j * s, s, s, col(i + ox, j + oy)))
  }

  /** Drawing the sampled pixel's block (a single plot at scale 1) draws
      cell (i, j) of a blit. */
  lemma BlitCellDrawn(done: seq<Plot>, before: seq<Plot>, x: int, y: int, col: Sampler, ox: int, oy: int, s: nat,
                      i: int, j: int, c: Pixel)
    requires c == col(i + ox, j + oy)
    requires s == 1 ==> done == before + [Plot(x + i * s, y + j * s, c)]
    requires s != 1 ==> BlockDrawn(done, before, x + i * s, y + j * s, s, s, c)
    ensures CellDrawn(done, before, BlitCells(x, y, col, ox, oy, s), i, j)
  {
    var cells := BlitCells(x, y, col, ox, oy, s);
    assert cells.at(i, j) == Block(x + i * s, y + j * s, s, s, c);
    if s == 1 {
      BlockUnit(x + i * s, y + j * s, c);
    } else {
      BlockDrawnEnd(done, before, x + i * s, y + j * s, s, s, c);
    }
  }

  /** A blit of the w-by-h source window at offset (ox, oy) to (x, y) at scale s. */
  function Blit(x: int, y: int, col: Sampler, ox: int, oy: int, s: nat, w: nat, h: nat): seq<Plot>
  {
    Grid(BlitCells(x, y, col, ox, oy, s), w, h)
  }

  /** `_draw_sprite(x, y, sprite, scale)` for a W-by-H sprite read through
      `col`: nothing for scale 0, otherwise every sprite pixel as an s-by-s
      block (a single plot when s is 1). */
  function SpritePlots(x: int, y: int, col: Sampler, W: nat, H: nat, scale: nat): seq<Plot>
    requires scale < 0x1_0000_0000
  {
    if scale == 0 then [] else Blit(x, y, col, 0, 0, I32Count(scale), W, H)
  }

  /** `_draw_partial_sprite` for a W-by-H sprite: the scaled branch
      walks the whole sprite, not the w-by-h window. */
  function PartialPlotsAsWritten(x: int, y: int, col: Sampler, W: nat, H: nat, ox: int, oy: int, w: nat, h: nat, scale: nat): seq<Plot>
    requires w < 0x1_0000_0000 && h < 0x1_0000_0000 && scale < 0x1_0000_0000
  {
    if scale == 0 then []
    else if scale == 1 then Blit(x, y, col, ox, oy, 1, I32Count(w), I32Count(h))
    else Blit(x, y, col, ox, oy, I32Count(scale), W, H)
  }

  /** `_draw_partial_sprite` with both branches walking the w-by-h window. */
  function PartialPlots(x: int, y: int, col: Sampler, ox: int, oy: int, w: nat, h: nat, scale: nat): seq<Plot>
    requires w < 0x1_0000_0000 && h < 0x1_0000_0000 && scale < 0x1_0000_0000
  {
    if scale == 0 then [] else Blit(x, y, col, ox, oy, I32Count(scale), I32Count(w), I32Count(h))
  }

  /** A whole-sprite blit is the partial blit of the full window at offset 0. */
  lemma SpriteIsFullPartial(x: int, y: int, col: Sampler, W: nat, H: nat, scale: nat)
    requires W < 0x8000_0000 && H < 0x8000_0000 && scale < 0x1_0000_0000
    ensures SpritePlots(x, y, col, W, H, scale) == PartialPlots(x, y, col, 0, 0, W, H, scale)
  {
  }

  /** Source pixel (i, j) of the window is plotted over the whole s-by-s block
      at (x + i*s, y + j*s). */
  lemma BlitBlock(x: int, y: int, col: Sampler, ox: int, oy: int, s: nat, w: nat, h: nat, i: nat, j: nat, a: nat, b: nat)
    requires i < w && j < h && a < s && b < s
    ensures Plot(x + i * s + a, y + j * s + b, col(i + ox, j + oy)) in Blit(x, y, col, ox, oy, s, w, h)
  {
    var cell := BlitCells(x, y, col, ox, oy, s);
    var c, bx, cy := col(i + ox, j + oy), x + i * s, y + j * s;
    var q := Plot(bx + a, cy + b, c);
    BlockCovers(bx, cy, s, s, c, q.x, q.y);
    assert q in cell.at(i, j);
    GridCovers(cell, w, h, i, j, q);
  }

  /** A plot of source pixel (i, j) lies in its s-by-s block, in the colour
      read at (i + ox, j + oy). */
  lemma BlitCellInside(x: int, y: int, col: Sampler, ox: int, oy: int, s: nat, i: int, j: int, q: Plot)
    requires q in BlitCells(x, y, col, ox, oy, s).at(i, j)
    ensures q.p == col(i + ox, j + oy)
    ensures x + i * s <= q.x < x + i * s + s && y + j * s <= q.y < y + j * s + s
  {
    var c, bx, cy := col(i + ox, j + oy), x + i * s, y + j * s;
    assert BlitCells(x, y, col, ox, oy, s).at(i, j) == Block(bx, cy, s, s, c);
    BlockInside(bx, cy, s, s, c, q);
  }

  /** Every plot of a blit of a w-by-h window at scale s lies inside the
      destination rectangle [x, x + w*s) x [y, y + h*s). */
  lemma BlitInside(x: int, y: int, col: Sampler, ox: int, oy: int, s: nat, w: nat, h: nat, q: Plot)
    requires q in Blit(x, y, col, ox, oy, s, w, h)
    ensures x <= q.x < x + w * s && y <= q.y < y + h * s
  {
    var cell := BlitCells(x, y, col, ox, oy, s);
    var i, j := GridFind(cell, w, h, q);
    BlitCellInside(x, y, col, ox, oy, s, i, j, q);
    CellWithin(i, w, s);
    CellWithin(j, h, s);
  }

  /** Cell i of n cells of size s starts at or after 0 and ends by n*s. */
  lemma CellWithin(i: int, n: nat, s: nat)
    requires 0 <= i < n
    ensures 0 <= i * s && i * s + s <= n * s
  {
    MulMonotone(0, i, s);
    MulSucc(s, i);
    MulMonotone(i + 1, n, s);
  }

  /** The partial blit over the w-by-h window in both branches stays inside its w*s by h*s destination. */
  lemma PartialInside(x: int, y: int, col: Sampler, ox: int, oy: int, w: nat, h: nat, scale: nat, q: Plot)
    requires w < 0x8000_0000 && h < 0x8000_0000 && scale < 0x8000_0000
    requires q in PartialPlots(x, y, col, ox, oy, w, h, scale)
    ensures x <= q.x < x + w * scale && y <= q.y < y + h * scale
  {
    BlitInside(x, y, col, ox, oy, scale, w, h, q);
  }

  /** Walking the whole sprite, a scaled partial blit of a window narrower than the W-by-H
      sprite paints the block of the sprite's last column, beyond the
      w*s-wide destination; `PartialPlots` paints nothing there. (A 1x1
      window of a 4x4 sprite at scale 2 paints (x + 6, y).) */
  lemma PartialScaledBlitOverdraws(x: int, y: int, col: Sampler, W: nat, H: nat, ox: int, oy: int, w: nat, h: nat, scale: nat)
    requires 0 < w < W < 0x8000_0000 && 0 < h <= H < 0x8000_0000
    requires 2 <= scale < 0x8000_0000
    ensures var q := Plot(x + (W - 1) * scale, y, col(W - 1 + ox, oy));
      q in PartialPlotsAsWritten(x, y, col, W, H, ox, oy, w, h, scale) &&
      q !in PartialPlots(x, y, col, ox, oy, w, h, scale)
  {
    BlitBlock(x, y, col, ox, oy, scale, W, H, W - 1, 0, 0, 0);
    MulMonotone(w, W - 1, scale);
    BlitOutside(x, y, col, ox, oy, scale, w, h, x + (W - 1) * scale, y, col(W - 1 + ox, oy));
  }

  /** Nothing at or right of x + w*s is plotted by a blit of width w. */
  lemma BlitOutside(x: int, y: int, col: Sampler, ox: int, oy: int, s: nat, w: nat, h: nat, u: int, v: int, c: Pixel)
    requires x + w * s <= u
    ensures Plot(u, v, c) !in Blit(x, y, col, ox, oy, s, w, h)
  {
    if Plot(u, v, c) in Blit(x, y, col, ox, oy, s, w, h) {
      BlitInside(x, y, col, ox, oy, s, w, h, Plot(u, v, c));
      assert false;
    }
  }

  // ---------------------------------------------------------------------
  // Bitmap text.

  /** A byte of the text or of the font table (`u8`). */
  newtype Byte = b: int | 0 <= b < 256

  const NEWLINE: Byte := 10

  /** A glyph is GLYPH columns by GLYPH rows of cells. */
  const GLYPH: nat := 8

  /** The font is 256 glyphs of 8x8 cells, one entry per cell. */
  const FONT_SIZE: nat := 256 * 64

  /** Where the next glyph goes, relative to the text origin. */
  datatype Pen = Pen(sx: nat, sy: nat)

  /** The pen after `text`: a newline returns to column 0 and moves down one
      8*scale-high row; any other byte moves right by 8*scale. */
  function PenAfter(text: seq<Byte>, scale: nat): Pen
  {
    if text == [] then Pen(0, 0)
    else
      var pen := PenAfter(text[..|text| - 1], scale);
      if text[|text| - 1] == NEWLINE then Pen(0, pen.sy + 8 * scale) else Pen(pen.sx + 8 * scale, pen.sy)
  }

  /** Whether cell (i, j) of glyph c is set: `FONT_DATA[c*64 + j*8 + i] == 1`.
      Cells outside the 8x8 glyph are never set; with a font of FONT_SIZE
      entries every in-glyph index is in range. */
  predicate Lit(font: seq<Byte>, c: Byte, i: int, j: int)
  {
    0 <= i < GLYPH && 0 <= j < GLYPH && FontIndex(c, i, j) < |font| && font[FontIndex(c, i, j)] == 1
  }

  function FontIndex(c: Byte, i: int, j: int): int
  {
    (c as int) * 64 + j * 8 + i
  }

  lemma FontIndexInRange(c: Byte, i: int, j: int)
    requires 0 <= i < GLYPH && 0 <= j < GLYPH
    ensures 0 <= FontIndex(c, i, j) < FONT_SIZE
  {
  }

  /** The side of one glyph cell on screen: s pixels when the scale exceeds
      1, otherwise a single pixel (so scale 0 draws at 1:1). */
  function CellSize(s: nat): (t: nat)
    ensures t >= 1
  {
    if s > 1 then s else 1
  }

  /** The plots for glyph cell (i, j) at glyph origin (gx, gy) with cells of
      side t: nothing when the cell is clear, otherwise its t-square (a
      single plot at (gx + i, gy + j) when t is 1). */
  function GlyphCell(font: seq<Byte>, c: Byte, gx: int, gy: int, t: nat, p: Pixel, i: int, j: int): seq<Plot>
  {
    if Lit(font, c, i, j) then Block(gx + i * t, gy + j * t, t, t, p) else []
  }

  function GlyphCells(font: seq<Byte>, c: Byte, gx: int, gy: int, s: nat, p: Pixel): Cells
  {
    Cells((i, j) => GlyphCell(font, c, gx, gy, CellSize(s), p, i, j))
  }

  /** `_draw_glyph`: the loops over the glyph's columns and rows. */
  function Glyph(font: seq<Byte>, c: Byte, gx: int, gy: int, s: nat, p: Pixel): seq<Plot>
  {
    Grid(GlyphCells(font, c, gx, gy, s, p), GLYPH, GLYPH)
  }

  /** What `_draw_glyph` plots for a byte at a glyph origin, with the font,
      scale and colour fixed. */
  type GlyphPlots = (Byte, int, int) -> seq<Plot>

  function GlyphsOf(font: seq<Byte>, s: nat, p: Pixel): GlyphPlots
  {
    (c, gx, gy) => Glyph(font, c, gx, gy, s, p)
  }

  /** The loop of `_draw_string_scaled` over the bytes of the text: each
      byte other than a newline draws its glyph at the current pen. */
  function TextWalk(glyph: GlyphPlots, x: int, y: int, text: seq<Byte>, scale: nat): seq<Plot>
  {
    if text == [] then []
    else
      var init, c := text[..|text| - 1], text[|text| - 1];
      var pen := PenAfter(init, scale);
      TextWalk(glyph, x, y, init, scale) + if c == NEWLINE then [] else glyph(c, x + pen.sx, y + pen.sy)
  }

  /** `_draw_string_scaled(x, y, text, p, scale)`. */
  function TextPlots(font: seq<Byte>, x: int, y: int, text: seq<Byte>, p: Pixel, scale: nat): seq<Plot>
  {
    TextWalk(GlyphsOf(font, scale, p), x, y, text, scale)
  }

  /** The pixel mode the text is drawn in: Alpha for a translucent colour,
      Mask for an opaque one. */
  function TextMode(p: Pixel): PixelMode
  {
    if p.a != 255 then Alpha else Mask
  }

  /** On a line without newlines each byte moves the pen right by 8*scale. */
  lemma {:induction false} PenOnOneLine(text: seq<Byte>, scale: nat)
    requires forall k :: 0 <= k < |text| ==> text[k] != NEWLINE
    ensures PenAfter(text, scale) == Pen(8 * scale * |text|, 0)
    decreases |text|
  {
    if text != [] {
      PenOnOneLine(text[..|text| - 1], scale);
      MulSucc(8 * scale, |text| - 1);
    }
  }

  /** After a newline the pen restarts at column 0, one row lower, and the rest
      of the text moves it along that row. */
  lemma {:induction false} PenAfterNewline(before: seq<Byte>, after: seq<Byte>, scale: nat)
    requires forall k :: 0 <= k < |after| ==> after[k] != NEWLINE
    ensures PenAfter(before + [NEWLINE] + after, scale)
         == Pen(8 * scale * |after|, PenAfter(before, scale).sy + 8 * scale)
    decreases |after|
  {
    var t := before + [NEWLINE] + after;
    if after == [] {
      assert t[..|t| - 1] == before;
    } else {
      var init := after[..|after| - 1];
      assert t[..|t| - 1] == before + [NEWLINE] + init;
      PenAfterNewline(before, init, scale);
      MulSucc(8 * scale, |init|);
    }
  }

  /** A newline plots nothing. */
  lemma NewlinePlotsNothing(font: seq<Byte>, x: int, y: int, text: seq<Byte>, p: Pixel, scale: nat)
    ensures TextPlots(font, x, y, text + [NEWLINE], p, scale) == TextPlots(font, x, y, text, p, scale)
  {
    var t := text + [NEWLINE];
    assert t[..|t| - 1] == text;
    assert TextWalk(GlyphsOf(font, scale, p), x, y, t, scale) == TextWalk(GlyphsOf(font, scale, p), x, y, text, scale) + [];
  }

  /** `cells` are the cells of glyph c at (gx, gy) with cell size t. The
      link is used only where a single cell's plots are named, so a proof
      about the loops never unfolds the font lookup. */
  ghost predicate GlyphCellsAre(cells: Cells, font: seq<Byte>, c: Byte, gx: int, gy: int, t: nat, p: Pixel)
  {
    forall i, j {:trigger GlyphCell(font, c, gx, gy, t, p, i, j)} ::
      cells.at(i, j) == GlyphCell(font, c, gx, gy, t, p, i, j)
  }

  /** After `before`, the glyph loops have drawn columns 0..i of `cells`.
      The quantifier fires only where the grid prefix itself is named, so
      the frame-buffer proofs carry it without unfolding the grid. */
  ghost predicate GridDrawn(done: seq<Plot>, before: seq<Plot>, cells: Cells, i: nat)
  {
    forall w {:trigger Grid(cells, w, GLYPH)} :: w == i ==> done == before + Grid(cells, w, GLYPH)
  }

  lemma GridDrawnStart(before: seq<Plot>, cells: Cells)
    ensures GridDrawn(before, before, cells, 0)
  {
    assert before + Grid(cells, 0, GLYPH) == before;
  }

  /** Appending column i to the first i columns gives the first i + 1. */
  lemma GridAppend(before: seq<Plot>, cells: Cells, i: nat, done: seq<Plot>, after: seq<Plot>)
    requires done == before + Grid(cells, i, GLYPH)
    requires after == done + GridColumn(cells, i, GLYPH)
    ensures after == before + Grid(cells, i + 1, GLYPH)
  {
    assert (before + Grid(cells, i, GLYPH)) + GridColumn(cells, i, GLYPH)
        == before + (Grid(cells, i, GLYPH) + GridColumn(cells, i, GLYPH));
  }

  /** The glyph loops after column i. */
  lemma GridDrawnStep(done: seq<Plot>, before: seq<Plot>, cells: Cells, i: nat, after: seq<Plot>)
    requires GridDrawn(done, before, cells, i)
    requires after == done + GridColumn(cells, i, GLYPH)
    ensures GridDrawn(after, before, cells, i + 1)
  {
    assert done == before + Grid(cells, i, GLYPH);
    GridAppend(before, cells, i, done, after);
  }

  lemma WholeGridDrawn(g: seq<Plot>, cells: Cells)
    requires g == Grid(cells, GLYPH, GLYPH)
    ensures GridDrawn(g, [], cells, GLYPH)
  {
    assert [] + g == g;
  }

  /** Loops that drew the whole grid after `before` drew the glyph `g`
      whose grid it is. */
  lemma GridDrawnGlyph(done: seq<Plot>, before: seq<Plot>, cells: Cells, g: seq<Plot>)
    requires GridDrawn(done, before, cells, GLYPH)
    requires GridDrawn(g, [], cells, GLYPH)
    ensures done == before + g
  {
    assert done == before + Grid(cells, GLYPH, GLYPH);
    assert g == [] + Grid(cells, GLYPH, GLYPH);
    assert [] + Grid(cells, GLYPH, GLYPH) == Grid(cells, GLYPH, GLYPH);
  }

  /** `glyph` draws the glyphs of the font at scale s in colour p. */
  ghost predicate GlyphsAre(glyph: GlyphPlots, font: seq<Byte>, s: nat, p: Pixel)
  {
    forall c, gx, gy {:trigger Glyph(font, c, gx, gy, s, p)} :: glyph(c, gx, gy) == Glyph(font, c, gx, gy, s, p)
  }

  lemma GlyphsOfAre(font: seq<Byte>, s: nat, p: Pixel)
    ensures GlyphsAre(GlyphsOf(font, s, p), font, s, p)
  {
  }

  /** The cells of the glyph that `glyph` draws for byte c at (gx, gy). */
  lemma GlyphCellsOf(glyph: GlyphPlots, font: seq<Byte>, c: Byte, gx: int, gy: int, s: nat, p: Pixel) returns (cells: Cells)
    requires GlyphsAre(glyph, font, s, p)
    ensures GlyphCellsAre(cells, font, c, gx, gy, CellSize(s), p)
    ensures GridDrawn(glyph(c, gx, gy), [], cells, GLYPH)
  {
    cells := GlyphCells(font, c, gx, gy, s, p);
    assert glyph(c, gx, gy) == Glyph(font, c, gx, gy, s, p);
    WholeGridDrawn(glyph(c, gx, gy), cells);
  }

  /** Any glyph function that draws the font's glyphs walks the text as
      `_draw_string_scaled` does. */
  lemma {:induction false} WalkIsText(glyph: GlyphPlots, font: seq<Byte>, x: int, y: int, text: seq<Byte>, p: Pixel, scale: nat)
    requires GlyphsAre(glyph, font, scale, p)
    ensures TextWalk(glyph, x, y, text, scale) == TextPlots(font, x, y, text, p, scale)
    decreases |text|
  {
    if text != [] {
      var init, c := text[..|text| - 1], text[|text| - 1];
      var pen := PenAfter(init, scale);
      WalkIsText(glyph, font, x, y, init, p, scale);
      assert glyph(c, x + pen.sx, y + pen.sy) == Glyph(font, c, x + pen.sx, y + pen.sy, scale, p);
    }
  }

  /** What the glyph loops draw for cell (i, j) of a full font: nothing when
      the font entry is clear, an s-by-s block when the scale exceeds 1, and
      a single plot otherwise. */
  lemma GlyphCellShape(font: seq<Byte>, c: Byte, gx: int, gy: int, s: nat, p: Pixel, i: int, j: int)
    requires |font| == FONT_SIZE && 0 <= i < GLYPH && 0 <= j < GLYPH
    ensures 0 <= FontIndex(c, i, j) < |font|
    ensures GlyphCell(font, c, gx, gy, CellSize(s), p, i, j) ==
      if font[FontIndex(c, i, j)] != 1 then []
      else if s > 1 then Block(gx + i * s, gy + j * s, s, s, p)
      else [Plot(gx + i, gy + j, p)]
  {
    FontIndexInRange(c, i, j);
    var k, t := FontIndex(c, i, j), CellSize(s);
    if font[k] != 1 {
      assert !Lit(font, c, i, j);
    } else if s > 1 {
      assert t == s;
      assert GlyphCell(font, c, gx, gy, t, p, i, j) == Block(gx + i * s, gy + j * s, s, s, p);
    } else {
      assert t == 1;
      assert GlyphCell(font, c, gx, gy, t, p, i, j) == Block(gx + i, gy + j, 1, 1, p);
      BlockUnit(gx + i, gy + j, p);
    }
  }

  /** The same for linked cells. */
  lemma LinkedCellShape(cells: Cells, font: seq<Byte>, c: Byte, gx: int, gy: int, s: nat, p: Pixel, i: int, j: int)
    requires GlyphCellsAre(cells, font, c, gx, gy, CellSize(s), p)
    requires |font| == FONT_SIZE && 0 <= i < GLYPH && 0 <= j < GLYPH
    ensures 0 <= FontIndex(c, i, j) < |font|
    ensures cells.at(i, j) ==
      if font[FontIndex(c, i, j)] != 1 then []
      else if s > 1 then Block(gx + i * s, gy + j * s, s, s, p)
      else [Plot(gx + i, gy + j, p)]
  {
    GlyphCellShape(font, c, gx, gy, s, p, i, j);
  }

  /** Drawing what the font bit calls for draws cell (i, j) of a glyph. */
  lemma GlyphCellDrawn(done: seq<Plot>, before: seq<Plot>, cells: Cells, font: seq<Byte>, c: Byte, gx: int, gy: int,
                       s: nat, p: Pixel, i: int, j: int)
    requires GlyphCellsAre(cells, font, c, gx, gy, CellSize(s), p)
    requires |font| == FONT_SIZE && 0 <= i < GLYPH && 0 <= j < GLYPH
    requires font[FontIndex(c, i, j)] != 1 ==> done == before
    requires font[FontIndex(c, i, j)] == 1 && s > 1 ==> BlockDrawn(done, before, gx + i * s, gy + j * s, s, s, p)
    requires font[FontIndex(c, i, j)] == 1 && s <= 1 ==> done == before + [Plot(gx + i, gy + j, p)]
    ensures CellDrawn(done, before, cells, i, j)
  {
    LinkedCellShape(cells, font, c, gx, gy, s, p, i, j);
    if font[FontIndex(c, i, j)] != 1 {
      assert before + [] == before;
    } else if s > 1 {
      BlockDrawnEnd(done, before, gx + i * s, gy + j * s, s, s, p);
    }
  }

  /** A plot of glyph cell (i, j) comes from a set cell, is in the text
      colour, and lies in that cell's square. */
  lemma GlyphCellInside(font: seq<Byte>, c: Byte, gx: int, gy: int, t: nat, p: Pixel, i: int, j: int, q: Plot)
    requires q in GlyphCell(font, c, gx, gy, t, p, i, j)
    ensures Lit(font, c, i, j) && q.p == p && gx + i * t <= q.x < gx + i * t + t && gy + j * t <= q.y < gy + j * t + t
  {
    assert Lit(font, c, i, j);
    var bx, cy := gx + i * t, gy + j * t;
    assert GlyphCell(font, c, gx, gy, t, p, i, j) == Block(bx, cy, t, t, p);
    BlockInside(bx, cy, t, t, p, q);
  }

  /** A glyph is drawn in the text colour and stays inside its character
      cell, 8 glyph cells on each side. */
  lemma GlyphInside(font: seq<Byte>, c: Byte, gx: int, gy: int, s: nat, p: Pixel, q: Plot)
    requires q in Glyph(font, c, gx, gy, s, p)
    ensures q.p == p
    ensures gx <= q.x < gx + 8 * CellSize(s) && gy <= q.y < gy + 8 * CellSize(s)
  {
    var cell, t := GlyphCells(font, c, gx, gy, s, p), CellSize(s);
    var i, j := GridFind(cell, GLYPH, GLYPH, q);
    GlyphCellInside(font, c, gx, gy, t, p, i, j, q);
    CellWithin(i, GLYPH, t);
    CellWithin(j, GLYPH, t);
  }

  /** A set glyph cell paints its whole square. */
  lemma GlyphCellCovers(font: seq<Byte>, c: Byte, gx: int, gy: int, t: nat, p: Pixel, i: int, j: int, a: nat, b: nat)
    requires Lit(font, c, i, j) && a < t && b < t
    ensures Plot(gx + i * t + a, gy + j * t + b, p) in GlyphCell(font, c, gx, gy, t, p, i, j)
  {
    var bx, cy := gx + i * t, gy + j * t;
    BlockCovers(bx, cy, t, t, p, bx + a, cy + b);
  }

  /** Whatever a glyph cell paints, the glyph paints; with GlyphCellCovers,
      every set cell of a glyph is painted over its whole square. */
  lemma GlyphGridCovers(font: seq<Byte>, c: Byte, gx: int, gy: int, s: nat, p: Pixel, i: int, j: int, q: Plot)
    requires 0 <= i < GLYPH && 0 <= j < GLYPH && q in GlyphCell(font, c, gx, gy, CellSize(s), p, i, j)
    ensures q in Glyph(font, c, gx, gy, s, p)
  {
    GridCovers(GlyphCells(font, c, gx, gy, s, p), GLYPH, GLYPH, i, j, q);
  }

  /** Whether every plot of `plots` is in colour p. */
  predicate InColour(plots: seq<Plot>, p: Pixel)
  {
    forall k :: 0 <= k < |plots| ==> plots[k].p == p
  }

  lemma InColourAppend(a: seq<Plot>, b: seq<Plot>, p: Pixel)
    requires InColour(a, p) && InColour(b, p)
    ensures InColour(a + b, p)
  {
  }

  lemma GlyphInColour(font: seq<Byte>, c: Byte, gx: int, gy: int, s: nat, p: Pixel)
    ensures InColour(Glyph(font, c, gx, gy, s, p), p)
  {
    var g := Glyph(font, c, gx, gy, s, p);
    forall k | 0 <= k < |g|
      ensures g[k].p == p
    {
      GlyphInside(font, c, gx, gy, s, p, g[k]);
    }
  }

  /** If every glyph is drawn in colour p, so is the whole text. */
  lemma {:induction false} TextWalkInColour(glyph: GlyphPlots, x: int, y: int, text: seq<Byte>, p: Pixel, scale: nat)
    requires forall c, gx, gy :: InColour(glyph(c, gx, gy), p)
    ensures InColour(TextWalk(glyph, x, y, text, scale), p)
    decreases |text|
  {
    if text != [] {
      var init, c := text[..|text| - 1], text[|text| - 1];
      var pen := PenAfter(init, scale);
      TextWalkInColour(glyph, x, y, init, p, scale);
      var g := if c == NEWLINE then [] else glyph(c, x + pen.sx, y + pen.sy);
      InColourAppend(TextWalk(glyph, x, y, init, scale), g, p);
    }
  }

  /** Every plot of a text, at any scale, is in the text colour. */
  lemma TextColour(font: seq<Byte>, x: int, y: int, text: seq<Byte>, p: Pixel, scale: nat)
    ensures InColour(TextPlots(font, x, y, text, p, scale), p)
  {
    var glyph := GlyphsOf(font, scale, p);
    forall c, gx, gy
      ensures InColour(glyph(c, gx, gy), p)
    {
      GlyphInColour(font, c, gx, gy, scale, p);
    }
    TextWalkInColour(glyph, x, y, text, p, scale);
  }
}
