/** The isometric-tiles example: a 14-by-10 world of diamond tiles drawn
    from one sprite sheet. The mouse picks a screen cell of one tile's size;
    the colour of the sheet's picking tile under the mouse nudges the pick to
    the diamond it lies in; a click cycles the picked tile through the six
    tile kinds.

    The sheet is read only through `get_pixel`, which comes in as a sampler;
    the drawing itself is kept as the list of partial-sprite blits the draw
    loop asks for. Coordinates are unbounded integers: with the example's
    window and sizes no `i32` operation here comes near overflow. */
module Isometric {
  import opened IntOps
  import opened Pixels
  import opened Vectors
  import Engines

  /** Tile ids 0 to 5 each have a picture on the sheet. */
  const TILE_KINDS: nat := 6

  /** `get_pixel` on the sprite sheet. */
  type Sheet = (int, int) -> Pixel

  /** The screen cell under the mouse: `mouse / tile_size`, rounding toward
      zero. */
  function CellOf(mouse: Vi2d, tile: Vi2d): Vi2d
    requires tile.x != 0 && tile.y != 0
  {
    Vi2d(TruncDiv(mouse.x, tile.x), TruncDiv(mouse.y, tile.y))
  }

  /** The mouse's place within that cell: `mouse % tile_size`, with the sign
      of the mouse coordinate. */
  function OffsetOf(mouse: Vi2d, tile: Vi2d): Vi2d
    requires tile.x != 0 && tile.y != 0
  {
    Vi2d(TruncRem(mouse.x, tile.x), TruncRem(mouse.y, tile.y))
  }

  /** The cell and the offset put the mouse back together; the offset lies
      in `[0, tile)` for a mouse at or right of / below the screen origin and
      in `(-tile, 0]` to its left / above it. */
  lemma CellAndOffset(mouse: Vi2d, tile: Vi2d)
    requires tile.x > 0 && tile.y > 0
    ensures var c, o := CellOf(mouse, tile), OffsetOf(mouse, tile);
      mouse.x == c.x * tile.x + o.x && mouse.y == c.y * tile.y + o.y
    ensures var o := OffsetOf(mouse, tile);
      (mouse.x >= 0 ==> 0 <= o.x < tile.x) && (mouse.y >= 0 ==> 0 <= o.y < tile.y)
    ensures var o := OffsetOf(mouse, tile);
      (mouse.x < 0 ==> -tile.x < o.x <= 0) && (mouse.y < 0 ==> -tile.y < o.y <= 0)
  {
    var o := OffsetOf(mouse, tile);
    assert Abs(o.x) < Abs(tile.x) && Abs(o.y) < Abs(tile.y);
  }

  /** The diamond a screen cell stands for, before the nudge:
      `((cy - oy) + (cx - ox), (cy - oy) - (cx - ox))`. */
  function Diamond(cell: Vi2d, origin: Vi2d): Vi2d
  {
    Vi2d((cell.y - origin.y) + (cell.x - origin.x), (cell.y - origin.y) - (cell.x - origin.x))
  }

  /** Different screen cells stand for different diamonds. */
  lemma DiamondInjective(a: Vi2d, b: Vi2d, origin: Vi2d)
    requires Diamond(a, origin) == Diamond(b, origin)
    ensures a == b
  {
    var da, db := Diamond(a, origin), Diamond(b, origin);
    assert da.x - da.y == 2 * (a.x - origin.x) && db.x - db.y == 2 * (b.x - origin.x);
    assert da.x + da.y == 2 * (a.y - origin.y) && db.x + db.y == 2 * (b.y - origin.y);
  }

  /** The four corners of the picking tile: the corner colour under the
      mouse moves the pick one step, RED by x - 1, BLUE by y - 1, GREEN by
      y + 1 and YELLOW by x + 1; every other colour leaves it. */
  function Nudge(selected: Vi2d, col: Pixel): (r: Vi2d)
    ensures Abs(r.x - selected.x) + Abs(r.y - selected.y) <= 1
  {
    var a := if col == RED then selected.Add(Vi2d(-1, 0)) else selected;
    var b := if col == BLUE then a.Add(Vi2d(0, -1)) else a;
    var c := if col == GREEN then b.Add(Vi2d(0, 1)) else b;
    if col == YELLOW then c.Add(Vi2d(1, 0)) else c
  }

  /** A corner colour moves the pick exactly one step; any other colour
      leaves it where it is. */
  lemma NudgeMoves(selected: Vi2d, col: Pixel)
    ensures Nudge(selected, col) != selected <==> col in {RED, BLUE, GREEN, YELLOW}
  {
  }

  /** The tile picked by the mouse: the diamond of its screen cell, nudged
      by the colour of the picking tile (column 3 of the sheet's top row) at
      the mouse's offset. */
  function Pick(mouse: Vi2d, tile: Vi2d, origin: Vi2d, sheet: Sheet): Vi2d
    requires tile.x != 0 && tile.y != 0
  {
    var offset := OffsetOf(mouse, tile);
    Nudge(Diamond(CellOf(mouse, tile), origin), sheet(3 * tile.x + offset.x, offset.y))
  }

  /** The `to_screen` closure: the top-left corner on screen of the tile at
      world position v. */
  function ToScreen(origin: Vi2d, tile: Vi2d, v: Vi2d): Vi2d
  {
    Vi2d(origin.x * tile.x + (v.x - v.y) * TruncDiv(tile.x, 2),
         origin.y * tile.y + (v.x + v.y) * TruncDiv(tile.y, 2))
  }

  /** With even tile sides the diamond of a screen cell is drawn exactly on
      that cell: to_screen undoes the diamond mapping. */
  lemma DiamondOnCell(cell: Vi2d, origin: Vi2d, tile: Vi2d)
    requires tile.x > 0 && tile.y > 0 && tile.x % 2 == 0 && tile.y % 2 == 0
    ensures ToScreen(origin, tile, Diamond(cell, origin)) == Vi2d(cell.x * tile.x, cell.y * tile.y)
  {
    var d := Diamond(cell, origin);
    var hx, hy := TruncDiv(tile.x, 2), TruncDiv(tile.y, 2);
    TruncAgreesOnNatural(tile.x, 2);
    TruncAgreesOnNatural(tile.y, 2);
    assert tile.x == 2 * hx && tile.y == 2 * hy;
    assert d.x - d.y == 2 * (cell.x - origin.x) && d.x + d.y == 2 * (cell.y - origin.y);
    calc {
      origin.x * tile.x + (d.x - d.y) * hx;
      origin.x * tile.x + (cell.x - origin.x) * (2 * hx);
      cell.x * tile.x;
    }
    calc {
      origin.y * tile.y + (d.x + d.y) * hy;
      origin.y * tile.y + (cell.y - origin.y) * (2 * hy);
      cell.y * tile.y;
    }
  }

  /** The screen shift of one nudge: half a tile along a diagonal, up-left
      for RED, up-right for BLUE, down-left for GREEN and down-right for
      YELLOW. */
  function NudgeShift(col: Pixel, tile: Vi2d): Vi2d
  {
    var hx, hy := TruncDiv(tile.x, 2), TruncDiv(tile.y, 2);
    if col == RED then Vi2d(-hx, -hy)
    else if col == BLUE then Vi2d(hx, -hy)
    else if col == GREEN then Vi2d(-hx, hy)
    else if col == YELLOW then Vi2d(hx, hy)
    else Vi2d(0, 0)
  }

  /** A nudge moves the drawn tile by half a tile toward the corner whose
      colour was under the mouse: the picked diamond is the neighbour the
      mouse actually points into. */
  lemma NudgeOnScreen(selected: Vi2d, col: Pixel, origin: Vi2d, tile: Vi2d)
    ensures ToScreen(origin, tile, Nudge(selected, col)) == ToScreen(origin, tile, selected).Add(NudgeShift(col, tile))
  {
    var n := Nudge(selected, col);
    var hx, hy := TruncDiv(tile.x, 2), TruncDiv(tile.y, 2);
    var s := ToScreen(origin, tile, selected);
    if col == RED {
      assert (n.x - n.y) * hx == (selected.x - selected.y) * hx - hx;
      assert (n.x + n.y) * hy == (selected.x + selected.y) * hy - hy;
    } else if col == BLUE {
      assert (n.x - n.y) * hx == (selected.x - selected.y) * hx + hx;
      assert (n.x + n.y) * hy == (selected.x + selected.y) * hy - hy;
    } else if col == GREEN {
      assert (n.x - n.y) * hx == (selected.x - selected.y) * hx - hx;
      assert (n.x + n.y) * hy == (selected.x + selected.y) * hy + hy;
    } else if col == YELLOW {
      assert (n.x - n.y) * hx == (selected.x - selected.y) * hx + hx;
      assert (n.x + n.y) * hy == (selected.x + selected.y) * hy + hy;
    }
  }

  /** Off the corners, the picked tile is drawn on the screen cell that
      holds the mouse: its top-left corner is the mouse minus the offset. */
  lemma PickOnCell(mouse: Vi2d, tile: Vi2d, origin: Vi2d, sheet: Sheet)
    requires tile.x > 0 && tile.y > 0 && tile.x % 2 == 0 && tile.y % 2 == 0
    requires sheet(3 * tile.x + OffsetOf(mouse, tile).x, OffsetOf(mouse, tile).y) !in {RED, BLUE, GREEN, YELLOW}
    ensures ToScreen(origin, tile, Pick(mouse, tile, origin, sheet)) == mouse.Sub(OffsetOf(mouse, tile))
  {
    var cell := CellOf(mouse, tile);
    NudgeMoves(Diamond(cell, origin), sheet(3 * tile.x + OffsetOf(mouse, tile).x, OffsetOf(mouse, tile).y));
    DiamondOnCell(cell, origin, tile);
    CellAndOffset(mouse, tile);
  }

  /** Whether world position v lies inside a w-by-h world. */
  predicate InWorld(v: Vi2d, size: Vi2d)
  {
    0 <= v.x < size.x && 0 <= v.y < size.y
  }

  /** Whether every tile id of the world has a picture. */
  predicate TileIds(world: seq<nat>)
  {
    forall k :: 0 <= k < |world| ==> world[k] < TILE_KINDS
  }

  /** The world after a click on `selected`: the tile there moves on to the
      next of the six kinds; a click outside the world changes nothing. */
  function Clicked(world: seq<nat>, size: Vi2d, selected: Vi2d): (r: seq<nat>)
    requires size.x >= 0 && size.y >= 0 && |world| == size.x * size.y
    ensures |r| == |world|
  {
    if InWorld(selected, size) then
      IndexInRange(selected.x, selected.y, size.x, size.y);
      var index := selected.y * size.x + selected.x;
      world[index := (world[index] + 1) % TILE_KINDS]
    else world
  }

  /** A click touches the picked tile and no other, and a click outside the
      world touches nothing. */
  lemma ClickedOnlyPicked(world: seq<nat>, size: Vi2d, selected: Vi2d, x: int, y: int)
    requires size.x >= 0 && size.y >= 0 && |world| == size.x * size.y
    requires InWorld(Vi2d(x, y), size)
    ensures var r, k := Clicked(world, size, selected), y * size.x + x;
      0 <= k < |r| && r[k] == if Vi2d(x, y) == selected then (world[k] + 1) % TILE_KINDS else world[k]
  {
    IndexInRange(x, y, size.x, size.y);
    if InWorld(selected, size) && Vi2d(x, y) != selected {
      if y * size.x + x == selected.y * size.x + selected.x {
        IndexInjective(x, y, selected.x, selected.y, size.x);
        assert false;
      }
    }
  }

  /** Clicks keep every tile id among the six kinds, so the draw loop's
      unknown-id branch is never taken. */
  lemma ClickedKeepsIds(world: seq<nat>, size: Vi2d, selected: Vi2d)
    requires size.x >= 0 && size.y >= 0 && |world| == size.x * size.y && TileIds(world)
    ensures TileIds(Clicked(world, size, selected))
  {
  }

  /** n clicks on the same place. */
  function ClickedTimes(world: seq<nat>, size: Vi2d, selected: Vi2d, n: nat): (r: seq<nat>)
    requires size.x >= 0 && size.y >= 0 && |world| == size.x * size.y
    ensures |r| == |world|
  {
    if n == 0 then world else Clicked(ClickedTimes(world, size, selected, n - 1), size, selected)
  }

  /** n clicks move the picked tile n kinds on, modulo six, and leave
      everything else; outside the world they change nothing. */
  lemma {:induction false} ClickedTimesAt(world: seq<nat>, size: Vi2d, selected: Vi2d, n: nat)
    requires size.x >= 0 && size.y >= 0 && |world| == size.x * size.y && TileIds(world)
    ensures !InWorld(selected, size) ==> ClickedTimes(world, size, selected, n) == world
    ensures InWorld(selected, size) ==> var k := selected.y * size.x + selected.x;
      0 <= k < |world| && ClickedTimes(world, size, selected, n) == world[k := (world[k] + n) % TILE_KINDS]
  {
    if InWorld(selected, size) {
      IndexInRange(selected.x, selected.y, size.x, size.y);
    }
    if n > 0 {
      ClickedTimesAt(world, size, selected, n - 1);
      if InWorld(selected, size) {
        var k := selected.y * size.x + selected.x;
        var before := world[k := (world[k] + (n - 1)) % TILE_KINDS];
        assert ClickedTimes(world, size, selected, n) == Clicked(before, size, selected);
        NextKind(world[k] + (n - 1));
        assert Clicked(before, size, selected) == before[k := (before[k] + 1) % TILE_KINDS];
      }
    }
  }

  /** One more step after reducing modulo six is one more step before. */
  lemma NextKind(a: nat)
    ensures (a % 6 + 1) % 6 == (a + 1) % 6
  {
    var q, r := Euclid(a, 6);
    assert a + 1 == q * 6 + (r + 1);
    if r == 5 {
      assert a + 1 == (q + 1) * 6;
    }
  }

  /** Six clicks on the same tile bring it back to the kind it started as. */
  lemma SixClicksCycle(world: seq<nat>, size: Vi2d, selected: Vi2d)
    requires size.x >= 0 && size.y >= 0 && |world| == size.x * size.y && TileIds(world)
    ensures ClickedTimes(world, size, selected, TILE_KINDS) == world
  {
    ClickedTimesAt(world, size, selected, TILE_KINDS);
    if InWorld(selected, size) {
      IndexInRange(selected.x, selected.y, size.x, size.y);
      var k := selected.y * size.x + selected.x;
      assert (world[k] + 6) % 6 == world[k];
    }
  }

  /** One `draw_partial_sprite_v` call: destination, source corner on the
      sheet and size. */
  datatype Blit = Blit(pos: Vi2d, src: Vi2d, size: Vi2d)

  /** The blit for a tile with id `id` whose flat top-left corner is `at`:
      ids 0 and 1 are flat tiles from the sheet's top row, ids 2 to 5 are
      tall tiles from its second row drawn one tile higher; any other id is
      reported and drawn as nothing (`None`). */
  function TileBlit(tile: Vi2d, at: Vi2d, id: nat): (r: Engines.Option<Blit>)
    ensures r.Some? <==> id < TILE_KINDS
  {
    var tall, tallSize := at.Sub(Vi2d(0, tile.y)), tile.Add(Vi2d(0, tile.y));
    match id
    case 0 => Engines.Some(Blit(at, Vi2d(1 * tile.x, 0), tile))
    case 1 => Engines.Some(Blit(at, Vi2d(2 * tile.x, 0), tile))
    case 2 => Engines.Some(Blit(tall, Vi2d(0 * tile.x, tile.y), tallSize))
    case 3 => Engines.Some(Blit(tall, Vi2d(1 * tile.x, tile.y), tallSize))
    case 4 => Engines.Some(Blit(tall, Vi2d(2 * tile.x, tile.y), tallSize))
    case 5 => Engines.Some(Blit(tall, Vi2d(3 * tile.x, tile.y), tallSize))
    case _ => Engines.None
  }

  /** Every tile blit ends on the row below the tile's flat top edge plus one
      tile: flat tiles cover one tile, tall tiles two, and both stop at the
      same bottom edge. */
  lemma TileBlitBottom(tile: Vi2d, at: Vi2d, id: nat)
    requires id < TILE_KINDS
    ensures var b := TileBlit(tile, at, id).value;
      b.pos.x == at.x && b.pos.y + b.size.y == at.y + tile.y && b.size.x == tile.x
  {
  }

  /** A world with cells has a positive width. */
  lemma WidthPositive(size: Vi2d, k: int)
    requires size.x >= 0 && size.y >= 0 && 0 <= k < size.x * size.y
    ensures size.x > 0
  {
  }

  /** The blit the draw loop asks for at buffer index k: world cell
      (k % w, k / w) at its to_screen corner. */
  function CellBlit(world: seq<nat>, size: Vi2d, origin: Vi2d, tile: Vi2d, k: int): Engines.Option<Blit>
    requires size.x >= 0 && size.y >= 0 && |world| == size.x * size.y && 0 <= k < |world|
  {
    WidthPositive(size, k);
    TileBlit(tile, ToScreen(origin, tile, Vi2d(k % size.x, k / size.x)), world[k])
  }

  /** The row-major index of (x, y) splits back into x and y. */
  lemma IndexParts(x: int, y: int, w: int)
    requires 0 <= x < w && 0 <= y
    ensures (y * w + x) % w == x && (y * w + x) / w == y
  {
    MulMonotone(0, y, w);
    var q, r := Euclid(y * w + x, w);
    IndexInjective(r, q, x, y, w);
  }

  class IsometricDemo {
    const worldSize: Vi2d
    const tileSize: Vi2d
    const origin: Vi2d
    var world: seq<nat>

    /** The world holds one tile id of the six kinds per world cell. */
    predicate Valid()
      reads this
    {
      worldSize.x >= 0 && worldSize.y >= 0 && |world| == worldSize.x * worldSize.y && TileIds(world)
    }

    /** `IsometricDemo::default`: a 14-by-10 world of 40-by-20 tiles with
        its origin at (5, 1); the world is filled in by `on_user_create`. */
    constructor Default()
      ensures worldSize == Vi2d(14, 10) && tileSize == Vi2d(40, 20) && origin == Vi2d(5, 1) && world == []
    {
      worldSize, tileSize, origin := Vi2d(14, 10), Vi2d(40, 20), Vi2d(5, 1);
      world := [];
    }

    /** `on_user_create` (without the sheet loading): every tile starts as
        kind 0. */
    method OnUserCreate() returns (ok: bool)
      requires worldSize.x >= 0 && worldSize.y >= 0
      modifies this
      ensures Valid() && ok
      ensures forall k :: 0 <= k < |world| ==> world[k] == 0
    {
      world := seq(worldSize.x * worldSize.y, _ => 0);
      ok := true;
    }

    /** The click handling of `on_user_update`: when the left button was
        pressed, the picked tile moves on to the next kind if it lies in the
        world. */
    method Click(pressed: bool, selected: Vi2d)
      requires Valid()
      modifies this
      ensures Valid()
      ensures world == if pressed then Clicked(old(world), worldSize, selected) else old(world)
    {
      if pressed {
        if selected.x >= 0 && selected.x < worldSize.x && selected.y >= 0 && selected.y < worldSize.y {
          var index := selected.y * worldSize.x + selected.x;
          IndexInRange(selected.x, selected.y, worldSize.x, worldSize.y);
          world := world[index := (world[index] + 1) % 6];
        }
      }
      ClickedKeepsIds(old(world), worldSize, selected);
    }

    /** The draw loop of `on_user_update`: rows top to bottom, each left to
        right, one blit per world cell at its to_screen corner. With a valid
        world no cell takes the unknown-id branch. */
    method TileBlits() returns (blits: seq<Engines.Option<Blit>>)
      requires Valid()
      ensures |blits| == |world|
      ensures forall k :: 0 <= k < |blits| ==> blits[k] == CellBlit(world, worldSize, origin, tileSize, k)
      ensures forall k :: 0 <= k < |blits| ==> blits[k].Some?
    {
      blits := [];
      var y := 0;
      MulMonotone(0, worldSize.y, worldSize.x);
      while y < worldSize.y
        invariant 0 <= y <= worldSize.y
        invariant |blits| == y * worldSize.x <= |world|
        invariant forall k :: 0 <= k < |blits| ==> blits[k] == CellBlit(world, worldSize, origin, tileSize, k)
      {
        var x := 0;
        while x < worldSize.x
          invariant 0 <= x <= worldSize.x
          invariant |blits| == y * worldSize.x + x <= |world|
          invariant forall k :: 0 <= k < |blits| ==> blits[k] == CellBlit(world, worldSize, origin, tileSize, k)
        {
          var at := ToScreen(origin, tileSize, Vi2d(x, y));
          IndexInRange(x, y, worldSize.x, worldSize.y);
          IndexParts(x, y, worldSize.x);
          var tileId := world[y * worldSize.x + x];
          blits := blits + [TileBlit(tileSize, at, tileId)];
          x := x + 1;
        }
        assert (y + 1) * worldSize.x == y * worldSize.x + worldSize.x;
        y := y + 1;
      }
      assert |blits| == |world|;
    }
  }
}
