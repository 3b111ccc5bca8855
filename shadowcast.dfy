/** The shadow-casting example's tile map and its conversion into a pool
    of wall edges.

    The world is a grid of cells, each of which exists (is solid) or not.
    The conversion looks at the cells of a region, gives every existing
    cell an edge on each side where its neighbour does not exist, and
    merges the edges of a straight run of such sides: a west or east side
    continues the edge of the cell above it, a north or south side the edge
    of the cell to its left.

    The row-major vector of cells, addressed by `y * world_width + x`, is
    held here as three arrays addressed by `[x, y]`: whether the cell
    exists, its four side flags and its four edge ids (the side is the
    third index). Edge coordinates are whole multiples of the block width,
    so they are integers here. */
module ShadowCast {
  import opened IntOps

  /** A wall segment from (sx, sy) to (ex, ey). */
  datatype Edge = Edge(sx: int, sy: int, ex: int, ey: int)

  /** The four sides of a cell, numbered as the slots of a cell's flag
      and id arrays. */
  const North := 0
  const South := 1
  const East := 2
  const West := 3

  /** The order in which the conversion handles the sides of one cell:
      west, east, north, south. */
  function Order(d: int): int
  {
    if d == West then 0 else if d == East then 1 else if d == North then 2 else 3
  }

  /** West and east sides are vertical, north and south sides horizontal. */
  predicate Vertical(d: int)
  {
    d == West || d == East
  }

  /** The cell across side `d` of cell (x, y). */
  function Neighbour(x: int, y: int, d: int): (int, int)
  {
    if d == North then (x, y - 1)
    else if d == South then (x, y + 1)
    else if d == East then (x + 1, y)
    else (x - 1, y)
  }

  /** The cell whose edge on side `d` a cell continues: the one above for
      a vertical side, the one to the left for a horizontal side. Both are
      handled before the cell itself. */
  function Pred(x: int, y: int, d: int): (int, int)
  {
    if Vertical(d) then (x, y - 1) else (x - 1, y)
  }

  /** The edge a cell starts on side `d` when it cannot continue one: one
      block long, along that side. */
  function NewEdge(x: int, y: int, d: int, bw: int): Edge
  {
    var sx := x * bw;
    var sy := y * bw;
    if d == West then Edge(sx, sy, sx, sy + bw)
    else if d == East then Edge((x + 1) * bw, sy, (x + 1) * bw, sy + bw)
    else if d == North then Edge(sx, sy, sx + bw, sy)
    else Edge(sx, (y + 1) * bw, sx + bw, (y + 1) * bw)
  }

  /** A vertical edge grows one block down, a horizontal one one block to
      the right. */
  function Grow(e: Edge, d: int, bw: int): Edge
  {
    if Vertical(d) then e.(ey := e.ey + bw) else e.(ex := e.ex + bw)
  }

  /** The coordinate of the line that side `d` of cell (x, y) lies on. */
  function Line(x: int, y: int, d: int, bw: int): int
  {
    if d == West then x * bw
    else if d == East then (x + 1) * bw
    else if d == North then y * bw
    else (y + 1) * bw
  }

  /** Edge `e` lies on the line of side `d` of cell (x, y) and covers the
      whole side. */
  predicate Borders(e: Edge, x: int, y: int, d: int, bw: int)
  {
    if Vertical(d) then
      e.sx == e.ex == Line(x, y, d, bw) && e.sy <= y * bw && y * bw + bw <= e.ey
    else
      e.sy == e.ey == Line(x, y, d, bw) && e.sx <= x * bw && x * bw + bw <= e.ex
  }

  /** Every edge of the pool is vertical or horizontal. */
  predicate Straight(e: Edge)
  {
    e.sx == e.ex || e.sy == e.ey
  }

  /** A new edge borders the side that starts it. */
  lemma NewEdgeBorders(x: int, y: int, d: int, bw: int)
    requires bw >= 0
    ensures Borders(NewEdge(x, y, d, bw), x, y, d, bw) && Straight(NewEdge(x, y, d, bw))
  {
  }

  /** Growing the edge that borders the preceding cell's side makes it
      border the same side of the cell itself. */
  lemma GrowBorders(e: Edge, x: int, y: int, d: int, bw: int)
    requires bw >= 0 && Borders(e, Pred(x, y, d).0, Pred(x, y, d).1, d, bw)
    ensures Borders(Grow(e, d, bw), x, y, d, bw) && Straight(Grow(e, d, bw))
  {
    MulSucc(bw, y - 1);
    MulSucc(bw, x - 1);
  }

  /** Growing an edge keeps it bordering every side it bordered: along
      its own direction an edge only gets longer, and an edge that borders
      both a vertical and a horizontal side has no length to grow by. */
  lemma GrowKeeps(e: Edge, x: int, y: int, d: int, a: int, b: int, g: int, bw: int)
    requires bw >= 0 && Borders(e, x, y, d, bw) && Borders(e, a, b, g, bw)
    ensures Borders(Grow(e, g, bw), x, y, d, bw)
  {
  }

  /** The part of the map a conversion covers: `w` by `h` cells from
      (sx, sy). */
  datatype Region = Region(sx: int, sy: int, w: int, h: int)
  {
    predicate Contains(x: int, y: int)
    {
      sx <= x < sx + w && sy <= y < sy + h
    }

    /** The cells the conversion examines: the region without its outer
        ring. */
    predicate Interior(x: int, y: int)
    {
      sx + 1 <= x < sx + w - 1 && sy + 1 <= y < sy + h - 1
    }
  }

  /** Side `d` of cell (x, y) has been handled when the scan, which runs
      down each column and the columns from left to right, is at cell
      (cx, cy) and has handled its first `k` sides. */
  predicate Handled(r: Region, cx: int, cy: int, k: int, x: int, y: int, d: int)
  {
    r.Interior(x, y) && 0 <= d < 4 && (x < cx || (x == cx && (y < cy || (y == cy && Order(d) < k))))
  }

  class ShadowCasting {
    const worldWidth: int
    const worldHeight: int
    const exist: array2<bool>
    const edgeExist: array3<bool>
    const edgeId: array3<int>
    var edges: seq<Edge>

    predicate Valid()
    {
      exist.Length0 == worldWidth && exist.Length1 == worldHeight &&
      edgeExist.Length0 == worldWidth && edgeExist.Length1 == worldHeight && edgeExist.Length2 == 4 &&
      edgeId.Length0 == worldWidth && edgeId.Length1 == worldHeight && edgeId.Length2 == 4
    }

    predicate InWorld(x: int, y: int)
    {
      0 <= x < worldWidth && 0 <= y < worldHeight
    }

    /** The region lies inside the world. */
    predicate Fits(r: Region)
    {
      0 <= r.sx && 0 <= r.sy && 0 <= r.w && 0 <= r.h &&
      r.sx + r.w <= worldWidth && r.sy + r.h <= worldHeight
    }

    /** `new`: every cell is empty, with no side flags and zero ids, and
        there are no edges. */
    constructor (width: int, height: int)
      requires width >= 0 && height >= 0
      ensures Valid() && worldWidth == width && worldHeight == height && edges == []
      ensures forall x, y :: InWorld(x, y) ==> !exist[x, y]
      ensures forall x, y, j :: InWorld(x, y) && 0 <= j < 4 ==> !edgeExist[x, y, j] && edgeId[x, y, j] == 0
      ensures fresh(exist) && fresh(edgeExist) && fresh(edgeId)
    {
      worldWidth, worldHeight := width, height;
      exist := new bool[width, height]((x, y) => false);
      edgeExist := new bool[width, height, 4]((x, y, j) => false);
      edgeId := new int[width, height, 4]((x, y, j) => 0);
      edges := [];
    }

    /** A cell on the boundary ring `on_user_create` adds: rows 1 and
        height - 2 and columns 1 and width - 2, within the world's outer
        ring. */
    predicate Ring(x: int, y: int)
    {
      (1 <= x < worldWidth - 1 && (y == 1 || y == worldHeight - 2)) ||
      (1 <= y < worldHeight - 1 && (x == 1 || x == worldWidth - 2))
    }

    /** The boundary setup of `on_user_create`: the cells of the ring
        become solid and nothing else changes. */
    method AddBoundary()
      requires Valid() && worldWidth >= 1 && worldHeight >= 1
      requires worldWidth >= 3 ==> worldHeight >= 2
      requires worldHeight >= 3 ==> worldWidth >= 2
      modifies exist
      ensures forall x, y :: InWorld(x, y) ==> exist[x, y] == (old(exist[x, y]) || Ring(x, y))
    {
      var x := 1;
      while x < worldWidth - 1
        invariant 1 <= x && (x <= worldWidth - 1 || x == 1)
        invariant forall a, b :: InWorld(a, b) ==>
          exist[a, b] == (old(exist[a, b]) || (1 <= a < x && (b == 1 || b == worldHeight - 2)))
      {
        exist[x, 1] := true;
        exist[x, worldHeight - 2] := true;
        x := x + 1;
      }
      var y := 1;
      while y < worldHeight - 1
        invariant 1 <= y && (y <= worldHeight - 1 || y == 1)
        invariant forall a, b :: InWorld(a, b) ==>
          exist[a, b] == (old(exist[a, b]) || (1 <= a < worldWidth - 1 && (b == 1 || b == worldHeight - 2))
                          || (1 <= b < y && (a == 1 || a == worldWidth - 2)))
      {
        exist[1, y] := true;
        exist[worldWidth - 2, y] := true;
        y := y + 1;
      }
    }

    /** The cell a mouse position picks, through the row-major index
        `(mouseY / blockWidth) * width + mouseX / blockWidth`. */
    function Picked(mouseX: int, mouseY: int, blockWidth: int): (i: int)
      requires Valid() && 0 <= mouseX && 0 <= mouseY && blockWidth > 0
      ensures i >= 0
    {
      MulMonotone(0, mouseY / blockWidth, worldWidth);
      (mouseY / blockWidth) * worldWidth + mouseX / blockWidth
    }

    /** The cell at a row-major index of the world: the index is the
        cell's row times the width plus its column. */
    function CellAt(i: int): (c: (int, int))
      requires Valid() && 0 <= i < worldWidth * worldHeight
      ensures InWorld(c.0, c.1) && c.1 * worldWidth + c.0 == i
    {
      IndexSplit(i, worldWidth, worldHeight);
      (i % worldWidth, i / worldWidth)
    }

    /** Every cell is at exactly one index: its own. */
    lemma CellAtIndex(x: int, y: int)
      requires Valid() && InWorld(x, y)
      ensures 0 <= y * worldWidth + x < worldWidth * worldHeight && CellAt(y * worldWidth + x) == (x, y)
    {
      IndexInRange(x, y, worldWidth, worldHeight);
      var c := CellAt(y * worldWidth + x);
      IndexInjective(c.0, c.1, x, y, worldWidth);
    }

    /** A released left button flips whether the picked cell exists. */
    method Toggle(mouseX: int, mouseY: int, blockWidth: int)
      requires Valid() && 0 <= mouseX && 0 <= mouseY && blockWidth > 0
      requires Picked(mouseX, mouseY, blockWidth) < worldWidth * worldHeight
      modifies exist
      ensures var c := CellAt(Picked(mouseX, mouseY, blockWidth));
        forall x, y :: InWorld(x, y) ==> exist[x, y] == if (x, y) == c then !old(exist[x, y]) else old(exist[x, y])
    {
      var (cx, cy) := CellAt(Picked(mouseX, mouseY, blockWidth));
      exist[cx, cy] := !exist[cx, cy];
    }

    /** The side needs an edge: the cell exists and its neighbour across
        the side does not. */
    predicate Needs(x: int, y: int, d: int)
      requires Valid() && InWorld(x, y) && InWorld(Neighbour(x, y, d).0, Neighbour(x, y, d).1)
      reads exist
    {
      exist[x, y] && !exist[Neighbour(x, y, d).0, Neighbour(x, y, d).1]
    }

    /** The side's edge id names an edge of the pool, and that edge borders
        the side. */
    predicate Bordered(x: int, y: int, d: int, bw: int)
      requires Valid() && InWorld(x, y) && 0 <= d < 4
      reads this, edgeId
    {
      0 <= edgeId[x, y, d] < |edges| && Borders(edges[edgeId[x, y, d]], x, y, d, bw)
    }

    /** The number of existing interior cells of column x above row hi. */
    ghost function ColumnCount(r: Region, x: int, hi: int): int
      requires Valid() && Fits(r)
      reads exist
      decreases hi - r.sy
    {
      if hi <= r.sy + 1 then 0
      else ColumnCount(r, x, hi - 1) + if r.Interior(x, hi - 1) && exist[x, hi - 1] then 1 else 0
    }

    /** The number of existing interior cells left of column hi. */
    ghost function ColumnsCount(r: Region, hi: int): int
      requires Valid() && Fits(r)
      reads exist
      decreases hi - r.sx
    {
      if hi <= r.sx + 1 then 0
      else ColumnsCount(r, hi - 1) + ColumnCount(r, hi - 1, r.sy + r.h - 1)
    }

    /** The number of existing interior cells the scan has passed when it
        is at cell (cx, cy). */
    ghost function DoneCount(r: Region, cx: int, cy: int): int
      requires Valid() && Fits(r)
      reads exist
    {
      ColumnsCount(r, cx) + ColumnCount(r, cx, cy)
    }

    /** The number of existing interior cells of the region. */
    ghost function InteriorCount(r: Region): int
      requires Valid() && Fits(r)
      reads exist
    {
      ColumnsCount(r, r.sx + r.w - 1)
    }

    /** The side flags and ids when the scan is at cell (cx, cy) with `k`
        of its sides handled: sides not yet handled carry no flag, a
        handled side is flagged exactly when it needs an edge and then names
        an edge bordering it, a flagged handled side whose preceding cell is
        interior and flagged on the same side names that cell's edge, and
        every edge is straight. */
    ghost predicate Marked(r: Region, bw: int, cx: int, cy: int, k: int)
      requires Valid() && Fits(r)
      reads this, exist, edgeExist, edgeId
    {
      (forall x, y, d :: 0 <= d < 4 && r.Contains(x, y) && !Handled(r, cx, cy, k, x, y, d) ==> !edgeExist[x, y, d]) &&
      (forall x, y, d :: 0 <= d < 4 && Handled(r, cx, cy, k, x, y, d) ==> (edgeExist[x, y, d] <==> Needs(x, y, d))) &&
      (forall x, y, d :: 0 <= d < 4 && Handled(r, cx, cy, k, x, y, d) && edgeExist[x, y, d] ==> Bordered(x, y, d, bw)) &&
      (forall x, y, d ::
        (Handled(r, cx, cy, k, x, y, d) && edgeExist[x, y, d] &&
         r.Interior(Pred(x, y, d).0, Pred(x, y, d).1) && edgeExist[Pred(x, y, d).0, Pred(x, y, d).1, d]) ==>
        edgeId[x, y, d] == edgeId[Pred(x, y, d).0, Pred(x, y, d).1, d]) &&
      (forall i :: 0 <= i < |edges| ==> Straight(edges[i]))
    }

    /** What the conversion has achieved at that point: the marks above,
        and at most four edges for each existing cell passed. */
    ghost predicate Progress(r: Region, bw: int, cx: int, cy: int, k: int)
      requires Valid() && Fits(r)
      reads this, exist, edgeExist, edgeId
    {
      Marked(r, bw, cx, cy, k) && |edges| <= 4 * DoneCount(r, cx, cy) + k
    }

    /** The outcome of converting region r with block width bw: the side
        flags of the region's outer ring are clear, an interior side is
        flagged exactly when it needs an edge and then names an edge of the
        pool bordering it, two flagged interior sides in a row (down a
        column for west and east, along a row for north and south) name one
        and the same edge, every edge is straight, and there are at most
        four edges per existing interior cell. */
    ghost predicate Converted(r: Region, bw: int)
      requires Valid() && Fits(r)
      reads this, exist, edgeExist, edgeId
    {
      (forall x, y, d :: 0 <= d < 4 && r.Contains(x, y) && !r.Interior(x, y) ==> !edgeExist[x, y, d]) &&
      (forall x, y, d :: 0 <= d < 4 && r.Interior(x, y) ==> (edgeExist[x, y, d] <==> Needs(x, y, d))) &&
      (forall x, y, d :: 0 <= d < 4 && r.Interior(x, y) && edgeExist[x, y, d] ==> Bordered(x, y, d, bw)) &&
      (forall x, y, d ::
        (0 <= d < 4 && r.Interior(x, y) && edgeExist[x, y, d] &&
         r.Interior(Pred(x, y, d).0, Pred(x, y, d).1) && edgeExist[Pred(x, y, d).0, Pred(x, y, d).1, d]) ==>
        edgeId[x, y, d] == edgeId[Pred(x, y, d).0, Pred(x, y, d).1, d]) &&
      (forall i :: 0 <= i < |edges| ==> Straight(edges[i])) &&
      |edges| <= 4 * InteriorCount(r)
    }

    /** The four side flags of one cell are cleared. */
    method ClearCell(x: int, y: int)
      requires Valid() && InWorld(x, y)
      modifies edgeExist
      ensures forall a, b, j :: InWorld(a, b) && 0 <= j < 4 ==>
        edgeExist[a, b, j] == if a == x && b == y then false else old(edgeExist[a, b, j])
    {
      var j := 0;
      while j < 4
        invariant 0 <= j <= 4
        invariant forall a, b, i :: InWorld(a, b) && 0 <= i < 4 ==>
          edgeExist[a, b, i] == if a == x && b == y && i < j then false else old(edgeExist[a, b, i])
      {
        edgeExist[x, y, j] := false;
        j := j + 1;
      }
    }

    /** The side flags of column x of the region are cleared. */
    method ClearColumn(r: Region, x: int)
      requires Valid() && Fits(r) && r.sx <= x < r.sx + r.w
      modifies edgeExist
      ensures forall a, b, j :: InWorld(a, b) && 0 <= j < 4 ==>
        edgeExist[a, b, j] == if a == x && r.Contains(a, b) then false else old(edgeExist[a, b, j])
    {
      var y := 0;
      while y < r.h
        invariant 0 <= y <= r.h
        invariant forall a, b, j :: InWorld(a, b) && 0 <= j < 4 ==>
          edgeExist[a, b, j] == if a == x && r.sy <= b < r.sy + y then false else old(edgeExist[a, b, j])
      {
        ClearCell(x, r.sy + y);
        y := y + 1;
      }
    }

    /** The side flags of every cell of the region are cleared. */
    method ClearRegion(r: Region)
      requires Valid() && Fits(r)
      modifies edgeExist
      ensures forall a, b, j :: InWorld(a, b) && 0 <= j < 4 ==>
        edgeExist[a, b, j] == if r.Contains(a, b) then false else old(edgeExist[a, b, j])
    {
      var x := 0;
      while x < r.w
        invariant 0 <= x <= r.w
        invariant forall a, b, j :: InWorld(a, b) && 0 <= j < 4 ==>
          edgeExist[a, b, j] == if r.sx <= a < r.sx + x && r.Contains(a, b) then false else old(edgeExist[a, b, j])
      {
        ClearColumn(r, r.sx + x);
        x := x + 1;
      }
    }

    /** The edge of the preceding cell on side d, which has id `id`,
        grows by one block and so borders side d of cell (x, y) too. */
    method GrowEdge(r: Region, bw: int, x: int, y: int, d: int, id: int)
      requires Valid() && Fits(r) && bw >= 0 && r.Interior(x, y) && 0 <= d < 4
      requires Marked(r, bw, x, y, Order(d))
      requires edgeExist[Pred(x, y, d).0, Pred(x, y, d).1, d] && edgeId[Pred(x, y, d).0, Pred(x, y, d).1, d] == id
      modifies this
      ensures 0 <= id < |old(edges)| && edges == old(edges)[id := Grow(old(edges)[id], d, bw)]
      ensures Marked(r, bw, x, y, Order(d)) && Borders(edges[id], x, y, d, bw)
    {
      var (px, py) := Pred(x, y, d);
      assert Bordered(px, py, d, bw);
      GrowBorders(edges[id], x, y, d, bw);
      forall a, b, g | Handled(r, x, y, Order(d), a, b, g) && edgeExist[a, b, g] && edgeId[a, b, g] == id
        ensures Borders(Grow(edges[id], d, bw), a, b, g, bw)
      {
        GrowKeeps(edges[id], a, b, g, px, py, d, bw);
      }
      edges := edges[id := Grow(edges[id], d, bw)];
    }

    /** A new one-block edge along side d of cell (x, y) is added to the
        end of the pool. */
    method PushEdge(r: Region, bw: int, x: int, y: int, d: int, k: int)
      requires Valid() && Fits(r) && bw >= 0
      requires Marked(r, bw, x, y, k)
      modifies this
      ensures edges == old(edges) + [NewEdge(x, y, d, bw)]
      ensures Marked(r, bw, x, y, k) && Borders(edges[|edges| - 1], x, y, d, bw)
    {
      NewEdgeBorders(x, y, d, bw);
      edges := edges + [NewEdge(x, y, d, bw)];
    }

    /** Side d of cell (x, y), which needs an edge, is flagged and given
        the id of an edge bordering it. */
    method Mark(r: Region, bw: int, x: int, y: int, d: int, id: int)
      requires Valid() && Fits(r) && r.Interior(x, y) && 0 <= d < 4
      requires Marked(r, bw, x, y, Order(d)) && Needs(x, y, d)
      requires 0 <= id < |edges| && Borders(edges[id], x, y, d, bw)
      requires r.Interior(Pred(x, y, d).0, Pred(x, y, d).1) && edgeExist[Pred(x, y, d).0, Pred(x, y, d).1, d] ==>
        id == edgeId[Pred(x, y, d).0, Pred(x, y, d).1, d]
      modifies edgeExist, edgeId
      ensures Marked(r, bw, x, y, Order(d) + 1)
      ensures edgeExist[x, y, d] && edgeId[x, y, d] == id
      ensures forall a, b, j :: InWorld(a, b) && 0 <= j < 4 && (a != x || b != y || j != d) ==>
        edgeExist[a, b, j] == old(edgeExist[a, b, j]) && edgeId[a, b, j] == old(edgeId[a, b, j])
    {
      edgeId[x, y, d] := id;
      edgeExist[x, y, d] := true;
    }

    /** One side of an existing interior cell. When the neighbour across it
        does not exist, the side is flagged and either continues the edge
        of the preceding cell on the same side, which grows by one block
        and keeps its id, or starts a new edge at the end of the pool. */
    method Side(r: Region, bw: int, x: int, y: int, d: int)
      requires Valid() && Fits(r) && bw >= 0 && r.Interior(x, y) && 0 <= d < 4 && exist[x, y]
      requires Progress(r, bw, x, y, Order(d))
      modifies this, edgeExist, edgeId
      ensures Progress(r, bw, x, y, Order(d) + 1)
      ensures forall a, b, j :: InWorld(a, b) && 0 <= j < 4 && (a != x || b != y || j != d) ==>
        edgeExist[a, b, j] == old(edgeExist[a, b, j]) && edgeId[a, b, j] == old(edgeId[a, b, j])
      ensures !edgeExist[x, y, d] ==> edgeId[x, y, d] == old(edgeId[x, y, d]) && edges == old(edges)
      ensures var (px, py) := Pred(x, y, d); var id := edgeId[x, y, d];
        edgeExist[x, y, d] && old(edgeExist[px, py, d]) ==>
          id == old(edgeId[px, py, d]) && id < |old(edges)| && edges == old(edges)[id := Grow(old(edges)[id], d, bw)]
      ensures var (px, py) := Pred(x, y, d);
        edgeExist[x, y, d] && !old(edgeExist[px, py, d]) ==>
          edgeId[x, y, d] == |old(edges)| && edges == old(edges) + [NewEdge(x, y, d, bw)]
    {
      var (nx, ny) := Neighbour(x, y, d);
      var (px, py) := Pred(x, y, d);
      if !exist[nx, ny] {
        var id;
        if edgeExist[px, py, d] {
          id := edgeId[px, py, d];
          GrowEdge(r, bw, x, y, d, id);
        } else {
          id := |edges|;
          PushEdge(r, bw, x, y, d, Order(d));
        }
        Mark(r, bw, x, y, d, id);
      }
    }

    /** Passing a cell: once an existing cell has had its four sides
        handled, or at once for an empty cell, the scan moves on to the
        cell below. */
    lemma NextCell(r: Region, bw: int, x: int, y: int)
      requires Valid() && Fits(r) && r.Interior(x, y)
      requires Progress(r, bw, x, y, if exist[x, y] then 4 else 0)
      ensures Progress(r, bw, x, y + 1, 0)
    {
      assert DoneCount(r, x, y + 1) == DoneCount(r, x, y) + if exist[x, y] then 1 else 0;
    }

    /** Passing the end of a column: the scan moves on to the top of the
        next column. */
    lemma NextColumn(r: Region, bw: int, x: int, y: int)
      requires Valid() && Fits(r) && r.sx + 1 <= x
      requires y == r.sy + r.h - 1 || (y == r.sy + 1 && r.h <= 2)
      requires Progress(r, bw, x, y, 0)
      ensures Progress(r, bw, x + 1, r.sy + 1, 0)
    {
      assert ColumnCount(r, x, y) == ColumnCount(r, x, r.sy + r.h - 1);
      assert DoneCount(r, x + 1, r.sy + 1) == DoneCount(r, x, y);
    }

    /** Once the scan is past the last interior column, the region is
        converted. */
    lemma Finished(r: Region, bw: int, x: int)
      requires Valid() && Fits(r)
      requires x == r.sx + r.w - 1 || (x == r.sx + 1 && r.w <= 2)
      requires Progress(r, bw, x, r.sy + 1, 0)
      ensures Converted(r, bw)
    {
      assert ColumnsCount(r, x) == InteriorCount(r);
    }

    /** One interior cell: an existing cell has its west, east, north and
        south sides handled in turn; an empty one is passed over. */
    method ConvertCell(r: Region, bw: int, x: int, y: int)
      requires Valid() && Fits(r) && bw >= 0 && r.Interior(x, y)
      requires Progress(r, bw, x, y, 0)
      modifies this, edgeExist, edgeId
      ensures Progress(r, bw, x, y + 1, 0)
      ensures forall a, b, j :: InWorld(a, b) && 0 <= j < 4 && (a != x || b != y) ==>
        edgeExist[a, b, j] == old(edgeExist[a, b, j]) && edgeId[a, b, j] == old(edgeId[a, b, j])
      ensures forall j :: 0 <= j < 4 && !edgeExist[x, y, j] ==> edgeId[x, y, j] == old(edgeId[x, y, j])
    {
      if exist[x, y] {
        Side(r, bw, x, y, West);
        Side(r, bw, x, y, East);
        Side(r, bw, x, y, North);
        Side(r, bw, x, y, South);
      }
      NextCell(r, bw, x, y);
    }

    /** The interior cells of column x, from top to bottom. */
    method ConvertColumn(r: Region, bw: int, x: int)
      requires Valid() && Fits(r) && bw >= 0 && r.sx + 1 <= x < r.sx + r.w - 1
      requires Progress(r, bw, x, r.sy + 1, 0)
      modifies this, edgeExist, edgeId
      ensures Progress(r, bw, x + 1, r.sy + 1, 0)
      ensures forall a, b, j :: InWorld(a, b) && 0 <= j < 4 && !(a == x && r.Interior(a, b)) ==>
        edgeExist[a, b, j] == old(edgeExist[a, b, j]) && edgeId[a, b, j] == old(edgeId[a, b, j])
      ensures forall a, b, j :: InWorld(a, b) && 0 <= j < 4 && !edgeExist[a, b, j] ==> edgeId[a, b, j] == old(edgeId[a, b, j])
    {
      var y := 1;
      while y < r.h - 1
        invariant 1 <= y && (y <= r.h - 1 || y == 1)
        invariant Progress(r, bw, x, r.sy + y, 0)
        invariant forall a, b, j :: InWorld(a, b) && 0 <= j < 4 && !(a == x && r.sy + 1 <= b < r.sy + y) ==>
          edgeExist[a, b, j] == old(edgeExist[a, b, j]) && edgeId[a, b, j] == old(edgeId[a, b, j])
        invariant forall a, b, j :: InWorld(a, b) && 0 <= j < 4 && !edgeExist[a, b, j] ==> edgeId[a, b, j] == old(edgeId[a, b, j])
      {
        ConvertCell(r, bw, x, r.sy + y);
        y := y + 1;
      }
      NextColumn(r, bw, x, r.sy + y);
    }

    /** `convert_tile_map_to_poly_map` with the pitch equal to the world
        width: the edge pool is emptied, the side flags of the region are
        cleared, and the interior cells are scanned column by column. Side
        flags outside the region are untouched, and an edge id changes only
        on a flagged interior side. */
    method ConvertTileMapToPolyMap(sx: int, sy: int, w: int, h: int, blockWidth: int)
      requires Valid() && 0 <= sx && 0 <= sy && 0 <= h && 0 <= blockWidth
      requires w >= 1 && (w >= 3 ==> h >= 1)
      requires sx + w <= worldWidth && sy + h <= worldHeight
      modifies this, edgeExist, edgeId
      ensures Converted(Region(sx, sy, w, h), blockWidth)
      ensures forall a, b, j :: InWorld(a, b) && 0 <= j < 4 && !Region(sx, sy, w, h).Contains(a, b) ==>
        edgeExist[a, b, j] == old(edgeExist[a, b, j])
      ensures forall a, b, j :: InWorld(a, b) && 0 <= j < 4 && !(Region(sx, sy, w, h).Interior(a, b) && edgeExist[a, b, j]) ==>
        edgeId[a, b, j] == old(edgeId[a, b, j])
    {
      var r := Region(sx, sy, w, h);
      edges := [];
      ClearRegion(r);
      var x := 1;
      while x < w - 1
        invariant 1 <= x && (x <= w - 1 || x == 1)
        invariant Progress(r, blockWidth, sx + x, sy + 1, 0)
        invariant forall a, b, j :: InWorld(a, b) && 0 <= j < 4 && !r.Contains(a, b) ==>
          edgeExist[a, b, j] == old(edgeExist[a, b, j])
        invariant forall a, b, j :: InWorld(a, b) && 0 <= j < 4 && !(r.Interior(a, b) && edgeExist[a, b, j]) ==>
          edgeId[a, b, j] == old(edgeId[a, b, j])
      {
        ConvertColumn(r, blockWidth, sx + x);
        x := x + 1;
      }
      Finished(r, blockWidth, sx + x);
    }

    /** The tile-map part of `on_user_update`: a released left button flips
        the picked cell, then the whole world is converted with 16-pixel
        blocks. */
    method Update(mouseX: int, mouseY: int, released: bool)
      requires Valid() && worldWidth >= 1 && (worldWidth >= 3 ==> worldHeight >= 1)
      requires released ==> 0 <= mouseX && 0 <= mouseY && Picked(mouseX, mouseY, 16) < worldWidth * worldHeight
      modifies this, exist, edgeExist, edgeId
      ensures released ==> var c := CellAt(Picked(mouseX, mouseY, 16));
        forall x, y :: InWorld(x, y) ==> exist[x, y] == if (x, y) == c then !old(exist[x, y]) else old(exist[x, y])
      ensures !released ==> forall x, y :: InWorld(x, y) ==> exist[x, y] == old(exist[x, y])
      ensures Converted(Region(0, 0, worldWidth, worldHeight), 16)
    {
      if released {
        Toggle(mouseX, mouseY, 16);
      }
      ConvertTileMapToPolyMap(0, 0, worldWidth, worldHeight, 16);
    }
  }
}
