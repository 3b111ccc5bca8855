/** The path-finding example: a grid of cells, some of them obstacles, is
    labelled by a wave that spreads from the end cell one step per round
    (the "flow field" distances), and a path is then walked from the start
    cell down the labels to the end cell.

    The row-major vectors `obstacle_map` and `flow_field_z`, addressed by
    `p(x, y) = y * map_width + x`, are two-dimensional arrays addressed by
    `[x, y]` here. The frontier is a hash set whose iteration order is
    unspecified; the model takes its members in an arbitrary order. */
module WaveProp {
  import opened IntOps

  /** A frontier entry: a cell and the label it is to receive. */
  datatype Node = Node(x: int, y: int, d: int)

  /** A list of cell offsets. */
  datatype Offsets = Done | Then(dx: int, dy: int, rest: Offsets)

  /** Whether (dx, dy) is one of the offsets. */
  predicate Has(ds: Offsets, dx: int, dy: int)
    decreases ds
  {
    match ds
    case Done => false
    case Then(a, b, rest) => (a == dx && b == dy) || Has(rest, dx, dy)
  }

  /** The corners in the order the descent looks at them: north-west,
      north-east, south-west, south-east. */
  const CornerOffsets: Offsets := Then(-1, -1, Then(1, -1, Then(-1, 1, Then(1, 1, Done))))

  /** The offsets the descent looks at, in the order it looks: north, east,
      south, west, then the corners. */
  const Directions: Offsets := Then(0, -1, Then(1, 0, Then(0, 1, Then(-1, 0, CornerOffsets))))

  /** The directions are exactly the eight offsets other than (0, 0) with
      both coordinates in -1..1. */
  lemma DirectionsAround(dx: int, dy: int)
    ensures Has(Directions, dx, dy) <==> -1 <= dx <= 1 && -1 <= dy <= 1 && (dx != 0 || dy != 0)
  {
    assert Has(Directions, dx, dy) == Has(Then(0, -1, Then(1, 0, Then(0, 1, Then(-1, 0,
      Then(-1, -1, Then(1, -1, Then(-1, 1, Then(1, 1, Done)))))))), dx, dy);
  }

  class FlowField {
    const cellSize: int
    const mapWidth: int
    const mapHeight: int
    const obstacleMap: array2<bool>
    const flowFieldZ: array2<int>
    var startX: int
    var startY: int
    const endX: int
    const endY: int
    var wave: int

    /** The arrays have one entry per cell of the map. */
    ghost predicate Valid()
    {
      cellSize > 0 &&
      obstacleMap.Length0 == mapWidth && obstacleMap.Length1 == mapHeight &&
      flowFieldZ.Length0 == mapWidth && flowFieldZ.Length1 == mapHeight
    }

    /** `default` followed by `on_user_create`: a map of 32-pixel cells
        covering the screen, no obstacles, all labels 0, the start at
        (3, 7), the end at (12, 7) and the wave marker at 1. */
    constructor (screenWidth: nat, screenHeight: nat)
      ensures Valid() && cellSize == 32
      ensures fresh(obstacleMap) && fresh(flowFieldZ)
      ensures mapWidth == screenWidth / 32 && mapHeight == screenHeight / 32
      ensures forall x, y :: InGrid(x, y) ==> !obstacleMap[x, y] && flowFieldZ[x, y] == 0
      ensures (startX, startY) == (3, 7) && (endX, endY) == (12, 7) && wave == 1
    {
      cellSize := 32;
      mapWidth := screenWidth / 32;
      mapHeight := screenHeight / 32;
      obstacleMap := new bool[screenWidth / 32, screenHeight / 32]((x, y) => false);
      flowFieldZ := new int[screenWidth / 32, screenHeight / 32]((x, y) => 0);
      startX, startY := 3, 7;
      endX, endY := 12, 7;
      wave := 1;
    }

    predicate InGrid(x: int, y: int)
    {
      0 <= x < mapWidth && 0 <= y < mapHeight
    }

    /** The same test as `InGrid`, kept apart so that the statements about
        every cell of the map fire only on cells named through it, never on
        the neighbours their bodies mention. */
    ghost predicate InMap(x: int, y: int)
    {
      InGrid(x, y)
    }

    /** The cells the wave may not enter: the outer ring of the map and the
        obstacles. */
    predicate Blocked(x: int, y: int)
      requires Valid() && InGrid(x, y)
      reads obstacleMap
    {
      x == 0 || y == 0 || x == mapWidth - 1 || y == mapHeight - 1 || obstacleMap[x, y]
    }

    /** The cell under the mouse: the mouse position divided by the cell
        size, rounding toward zero. */
    function Selected(mouseX: int, mouseY: int): (int, int)
      requires Valid()
    {
      (TruncDiv(mouseX, cellSize), TruncDiv(mouseY, cellSize))
    }

    /** The mouse. Releasing the left button toggles the obstacle stored at
        the selection's row-major index `sy * mapWidth + sx` (the example
        panics when that index is outside the buffer); releasing the right
        button moves the start to the selection. */
    method Click(mouseX: int, mouseY: int, left: bool, right: bool)
      requires Valid()
      requires left ==> 0 <= Selected(mouseX, mouseY).1 * mapWidth + Selected(mouseX, mouseY).0 < mapWidth * mapHeight
      modifies obstacleMap, this`startX, this`startY
      ensures var (sx, sy) := Selected(mouseX, mouseY);
        var i := sy * mapWidth + sx;
        forall x, y :: InGrid(x, y) ==>
          obstacleMap[x, y] == if left && (x, y) == (i % mapWidth, i / mapWidth) then !old(obstacleMap[x, y]) else old(obstacleMap[x, y])
      ensures (startX, startY) == if right then Selected(mouseX, mouseY) else old((startX, startY))
    {
      var sx, sy := TruncDiv(mouseX, cellSize), TruncDiv(mouseY, cellSize);
      if left {
        var index := sy * mapWidth + sx;
        IndexSplit(index, mapWidth, mapHeight);
        obstacleMap[index % mapWidth, index / mapWidth] := !obstacleMap[index % mapWidth, index / mapWidth];
      }
      if right {
        startX, startY := sx, sy;
      }
    }

    /** A selection inside the map toggles exactly the selected cell. */
    lemma ToggledCell(sx: int, sy: int)
      requires InGrid(sx, sy)
      ensures var i := sy * mapWidth + sx; 0 <= i < mapWidth * mapHeight && (i % mapWidth, i / mapWidth) == (sx, sy)
    {
      var i := sy * mapWidth + sx;
      IndexInRange(sx, sy, mapWidth, mapHeight);
      IndexSplit(i, mapWidth, mapHeight);
      IndexInjective(i % mapWidth, i / mapWidth, sx, sy, mapWidth);
    }

    /** The Q key raises the wave marker by one; the A key lowers it by one,
        but a marker that reaches 0 is put back to 1. */
    method AdjustWave(q: bool, a: bool)
      modifies this`wave
      ensures wave == (var w := if q then old(wave) + 1 else old(wave);
                       if a then (if w - 1 == 0 then 1 else w - 1) else w)
      ensures old(wave) >= 1 ==> wave >= 1
    {
      if q {
        wave := wave + 1;
      }
      if a {
        wave := wave - 1;
        if wave == 0 {
          wave := 1;
        }
      }
    }

    /** Before the wave: every blocked cell is labelled -1, every other
        cell 0. */
    method InitLabels()
      requires Valid()
      modifies flowFieldZ
      ensures forall x, y :: InGrid(x, y) ==> flowFieldZ[x, y] == if Blocked(x, y) then -1 else 0
    {
      for x := 0 to mapWidth
        invariant forall i, j :: 0 <= i < x && 0 <= j < mapHeight ==>
                    flowFieldZ[i, j] == if Blocked(i, j) then -1 else 0
      {
        for y := 0 to mapHeight
          invariant forall i, j :: 0 <= i < x && 0 <= j < mapHeight ==>
                      flowFieldZ[i, j] == if Blocked(i, j) then -1 else 0
          invariant forall j :: 0 <= j < y ==> flowFieldZ[x, j] == if Blocked(x, j) then -1 else 0
        {
          if x == 0 || y == 0 || x == mapWidth - 1 || y == mapHeight - 1 || obstacleMap[x, y] {
            flowFieldZ[x, y] := -1;
          } else {
            flowFieldZ[x, y] := 0;
          }
        }
      }
    }

    /** The labels `InitLabels` leaves. */
    ghost predicate Initialised()
      requires Valid()
      reads obstacleMap, flowFieldZ
    {
      forall x, y :: InGrid(x, y) ==> flowFieldZ[x, y] == if Blocked(x, y) then -1 else 0
    }

    /** A grid of labels, one column per x. */
    ghost predicate Shape(g: seq<seq<int>>)
    {
      |g| == mapWidth && forall a :: 0 <= a < |g| ==> |g[a]| == mapHeight
    }

    /** The first `n` labels of column `x` of `flow_field_z`, as a value. */
    ghost function Column(x: int, n: nat): (c: seq<int>)
      requires Valid() && 0 <= x < mapWidth && n <= mapHeight
      reads flowFieldZ
      ensures |c| == n && forall b {:trigger InMap(x, b)} :: InMap(x, b) && b < n ==> c[b] == flowFieldZ[x, b]
    {
      if n == 0 then [] else Column(x, n - 1) + [flowFieldZ[x, n - 1]]
    }

    /** The first `n` columns of `flow_field_z`, as a value. */
    ghost function Columns(n: nat): (g: seq<seq<int>>)
      requires Valid() && n <= mapWidth
      reads flowFieldZ
      ensures |g| == n && forall a :: 0 <= a < n ==> |g[a]| == mapHeight
      ensures forall a, b {:trigger InMap(a, b)} :: InMap(a, b) && a < n ==> g[a][b] == flowFieldZ[a, b]
    {
      if n == 0 then [] else Columns(n - 1) + [Column(n - 1, mapHeight)]
    }

    /** The labels of `flow_field_z` as a value. */
    ghost function Snapshot(): (g: seq<seq<int>>)
      requires Valid()
      reads flowFieldZ
      ensures Shape(g) && forall a, b {:trigger InMap(a, b)} :: InMap(a, b) ==> g[a][b] == flowFieldZ[a, b]
    {
      Columns(mapWidth)
    }

    /** `h` is `g` with cell (x, y) set to `v`. */
    ghost predicate Wrote(g: seq<seq<int>>, h: seq<seq<int>>, x: int, y: int, v: int)
    {
      Shape(g) && Shape(h) && InGrid(x, y) && h[x][y] == v &&
      forall a, b :: InGrid(a, b) && (a != x || b != y) ==> h[a][b] == g[a][b]
    }

    /** The cell has a 4-neighbour in the map labelled `k - 1`. */
    ghost predicate HasParent(g: seq<seq<int>>, x: int, y: int, k: int)
      requires Shape(g)
    {
      (InGrid(x + 1, y) && g[x + 1][y] == k - 1) || (InGrid(x - 1, y) && g[x - 1][y] == k - 1) ||
      (InGrid(x, y + 1) && g[x][y + 1] == k - 1) || (InGrid(x, y - 1) && g[x][y - 1] == k - 1)
    }

    /** A 4-neighbour in the map labelled `k - 1`, the first in the order
        east, west, south, north. */
    ghost function Parent(g: seq<seq<int>>, x: int, y: int, k: int): (p: (int, int))
      requires Shape(g) && HasParent(g, x, y, k)
      ensures InGrid(p.0, p.1) && g[p.0][p.1] == k - 1
      ensures p == (x + 1, y) || p == (x - 1, y) || p == (x, y + 1) || p == (x, y - 1)
    {
      if InGrid(x + 1, y) && g[x + 1][y] == k - 1 then (x + 1, y)
      else if InGrid(x - 1, y) && g[x - 1][y] == k - 1 then (x - 1, y)
      else if InGrid(x, y + 1) && g[x][y + 1] == k - 1 then (x, y + 1)
      else (x, y - 1)
    }

    /** The entries with label `k` for the 4-neighbours of (x, y) in the
        map that are still labelled 0. */
    ghost function ZeroNeighbours(g: seq<seq<int>>, x: int, y: int, k: int): set<Node>
      requires Shape(g)
    {
      (if InGrid(x + 1, y) && g[x + 1][y] == 0 then {Node(x + 1, y, k)} else {}) +
      (if InGrid(x - 1, y) && g[x - 1][y] == 0 then {Node(x - 1, y, k)} else {}) +
      (if InGrid(x, y + 1) && g[x][y + 1] == 0 then {Node(x, y + 1, k)} else {}) +
      (if InGrid(x, y - 1) && g[x][y - 1] == 0 then {Node(x, y - 1, k)} else {})
    }

    /** Every 4-neighbour of (x, y) in the map still labelled 0 has its
        entry with label `k` in `s`. */
    ghost predicate Queued(g: seq<seq<int>>, x: int, y: int, k: int, s: set<Node>)
      requires Shape(g)
    {
      (InGrid(x + 1, y) && g[x + 1][y] == 0 ==> Node(x + 1, y, k) in s) &&
      (InGrid(x - 1, y) && g[x - 1][y] == 0 ==> Node(x - 1, y, k) in s) &&
      (InGrid(x, y + 1) && g[x][y + 1] == 0 ==> Node(x, y + 1, k) in s) &&
      (InGrid(x, y - 1) && g[x][y - 1] == 0 ==> Node(x, y - 1, k) in s)
    }

    /** Every 4-neighbour of (x, y) in the map that is labelled carries at
        least `k`. */
    ghost predicate AtLeast(g: seq<seq<int>>, x: int, y: int, k: int)
      requires Shape(g)
    {
      (InGrid(x + 1, y) && g[x + 1][y] >= 1 ==> g[x + 1][y] >= k) &&
      (InGrid(x - 1, y) && g[x - 1][y] >= 1 ==> g[x - 1][y] >= k) &&
      (InGrid(x, y + 1) && g[x][y + 1] >= 1 ==> g[x][y + 1] >= k) &&
      (InGrid(x, y - 1) && g[x][y - 1] >= 1 ==> g[x][y - 1] >= k)
    }

    /** A labelled cell's labelled 4-neighbours carry at least its label
        less one. */
    ghost predicate GradedAt(g: seq<seq<int>>, x: int, y: int)
      requires Shape(g) && InGrid(x, y)
    {
      g[x][y] >= 1 ==> AtLeast(g, x, y, g[x][y] - 1)
    }

    /** No 4-neighbour of (x, y) in the map is labelled 0. */
    ghost predicate NoZeroNeighbour(g: seq<seq<int>>, x: int, y: int)
      requires Shape(g)
    {
      (InGrid(x + 1, y) ==> g[x + 1][y] != 0) && (InGrid(x - 1, y) ==> g[x - 1][y] != 0) &&
      (InGrid(x, y + 1) ==> g[x][y + 1] != 0) && (InGrid(x, y - 1) ==> g[x][y - 1] != 0)
    }

    /** Entries of one frontier all have cells of the same colour on the
        chequerboard shifted by their label, so no two of them are
        4-neighbours. */
    predicate Parity(n: Node)
    {
      (n.x + n.y + n.d) % 2 == (endX + endY + 1) % 2
    }

    /** A member of the frontier of label `d`: an unlabelled cell of the
        map of the right colour and, after the first round, a cell labelled
        0 next to one labelled `d - 1`. */
    ghost predicate Frontier(g: seq<seq<int>>, n: Node, d: int)
      requires Shape(g)
    {
      n.d == d && InGrid(n.x, n.y) && Parity(n) && g[n.x][n.y] <= 0 &&
      (d >= 2 ==> g[n.x][n.y] == 0 && HasParent(g, n.x, n.y, d))
    }

    /** What the round of label `d` keeps true of one cell: no label above
        `d`; a cell other than the end is -1 exactly when it was before the
        wave (`g0`); only the end cell may hold 1; a label k >= 2 sits next
        to a label k - 1; the zero neighbours of a cell labelled in this
        round wait in `next`, those of a cell labelled earlier in `rest`,
        the part of this round's frontier not yet visited, and a cell
        labelled before the previous round has none; labelled 4-neighbours
        differ by at most one. */
    ghost predicate WaveCell(g: seq<seq<int>>, g0: seq<seq<int>>, rest: set<Node>, next: set<Node>, d: int, x: int, y: int)
      requires Shape(g) && Shape(g0) && InGrid(x, y)
    {
      -1 <= g[x][y] <= d &&
      ((x != endX || y != endY) ==> (g[x][y] == -1 <==> g0[x][y] == -1)) &&
      (g[x][y] == 1 ==> x == endX && y == endY) &&
      (g[x][y] >= 2 ==> HasParent(g, x, y, g[x][y])) &&
      (g[x][y] == d ==> Queued(g, x, y, d + 1, next)) &&
      (1 <= g[x][y] < d ==> Queued(g, x, y, d, rest)) &&
      (1 <= g[x][y] < d - 1 ==> NoZeroNeighbour(g, x, y)) &&
      GradedAt(g, x, y)
    }

    /** `WaveCell` for every cell of the map. */
    ghost predicate Wave(g: seq<seq<int>>, g0: seq<seq<int>>, rest: set<Node>, next: set<Node>, d: int)
      requires Shape(g) && Shape(g0)
    {
      forall x, y {:trigger InMap(x, y)} :: InMap(x, y) ==> WaveCell(g, g0, rest, next, d, x, y)
    }

    /** Every label is below `d`. */
    ghost predicate Below(g: seq<seq<int>>, d: int)
      requires Shape(g)
    {
      forall x, y {:trigger InMap(x, y)} :: InMap(x, y) ==> g[x][y] < d
    }

    /** The cells still labelled 0. */
    ghost function ZeroCells(g: seq<seq<int>>): set<(int, int)>
      requires Shape(g)
    {
      set x, y | 0 <= x < mapWidth && 0 <= y < mapHeight && g[x][y] == 0 :: (x, y)
    }

    /** The labels after the wave: the end cell is the one cell labelled 1,
        and every cell labelled k >= 2 has a 4-neighbour labelled k - 1. */
    ghost predicate Labelled(g: seq<seq<int>>)
    {
      Shape(g) && InGrid(endX, endY) && g[endX][endY] == 1 &&
      (forall x, y {:trigger InMap(x, y)} :: InMap(x, y) && g[x][y] == 1 ==> x == endX && y == endY) &&
      (forall x, y {:trigger InMap(x, y)} :: InMap(x, y) && g[x][y] >= 2 ==> HasParent(g, x, y, g[x][y]))
    }

    /** The wave has reached everything it can: no cell labelled 0 is a
        4-neighbour of a labelled cell. */
    ghost predicate Closed(g: seq<seq<int>>)
      requires Shape(g)
    {
      forall x, y {:trigger InMap(x, y)} :: InMap(x, y) && g[x][y] >= 1 ==> NoZeroNeighbour(g, x, y)
    }

    /** Every label is at least -1, and labelled 4-neighbours differ by at
        most one. */
    ghost predicate Graded(g: seq<seq<int>>)
      requires Shape(g)
    {
      forall x, y {:trigger InMap(x, y)} :: InMap(x, y) ==> g[x][y] >= -1 && GradedAt(g, x, y)
    }

    /** Two cells that are 4-neighbours. */
    predicate Adjacent(a: (int, int), b: (int, int))
    {
      (a.1 == b.1 && (a.0 - b.0 == 1 || b.0 - a.0 == 1)) || (a.0 == b.0 && (a.1 - b.1 == 1 || b.1 - a.1 == 1))
    }

    /** A walk through the map over cells not labelled -1, each a
        4-neighbour of the one before. */
    ghost predicate Walk(g: seq<seq<int>>, w: seq<(int, int)>)
      requires Shape(g)
    {
      |w| >= 1 &&
      (forall k :: 0 <= k < |w| ==> InGrid(w[k].0, w[k].1) && g[w[k].0][w[k].1] != -1) &&
      (forall k :: 0 <= k < |w| - 1 ==> Adjacent(w[k], w[k + 1]))
    }

    /** A frontier entry other than the visited one keeps its place: its
        cell is not the visited cell, and its parent is labelled and so not
        the visited cell either. */
    lemma RestStaysFrontier(g: seq<seq<int>>, h: seq<seq<int>>, n: Node, r: Node, d: int)
      requires Shape(g) && Wrote(g, h, n.x, n.y, d) && d >= 1
      requires Frontier(g, n, d) && Frontier(g, r, d) && r != n
      ensures Frontier(h, r, d)
    {
      assert r.x != n.x || r.y != n.y;
      if d >= 2 {
        var p := Parent(g, r.x, r.y, d);
        assert h[p.0][p.1] == g[p.0][p.1];
      }
    }

    /** An entry of the next frontier keeps its place: its colour differs
        from the visited cell's, and its parent is labelled. */
    lemma NextStaysFrontier(g: seq<seq<int>>, h: seq<seq<int>>, n: Node, m: Node, d: int)
      requires Shape(g) && Wrote(g, h, n.x, n.y, d) && d >= 1
      requires Frontier(g, n, d) && Frontier(g, m, d + 1)
      ensures Frontier(h, m, d + 1)
    {
      assert m.x != n.x || m.y != n.y;
      var p := Parent(g, m.x, m.y, d + 1);
      assert h[p.0][p.1] == g[p.0][p.1];
    }

    /** A zero neighbour of a cell just labelled `d`, queued with label
        `d + 1`, belongs to the next frontier. */
    lemma JoinsFrontier(h: seq<seq<int>>, x: int, y: int, d: int, m: Node)
      requires Shape(h) && InGrid(x, y) && d >= 1 && h[x][y] == d && Parity(Node(x, y, d))
      requires m in ZeroNeighbours(h, x, y, d + 1)
      ensures Frontier(h, m, d + 1)
    {
    }

    /** After a write that leaves (x, y) nonzero, the zero neighbours of any
        cell stay queued even without the entry for (x, y). */
    lemma QueuedAfterWrite(g: seq<seq<int>>, h: seq<seq<int>>, x: int, y: int, v: int, i: int, j: int, k: int, s: set<Node>)
      requires Wrote(g, h, x, y, v) && v != 0 && Queued(g, i, j, k, s)
      ensures Queued(h, i, j, k, s - {Node(x, y, k)})
    {
    }

    /** A cell other than the visited one through one visit: `WaveCell`
        holds after the visit of `n` if it held before. */
    lemma OtherCellKeeps(g: seq<seq<int>>, h: seq<seq<int>>, g0: seq<seq<int>>, n: Node, rest: set<Node>, next: set<Node>, d: int, i: int, j: int)
      requires Shape(g) && Shape(g0) && Wrote(g, h, n.x, n.y, d) && d >= 1
      requires Frontier(g, n, d) && InGrid(i, j) && (i != n.x || j != n.y) && WaveCell(g, g0, rest, next, d, i, j)
      ensures WaveCell(h, g0, rest - {n}, next, d, i, j)
    {
      var k := g[i][j];
      assert h[i][j] == k;
      if k >= 2 {
        var p := Parent(g, i, j, k);
        assert h[p.0][p.1] == g[p.0][p.1];
      }
      if k == d {
        QueuedAfterWrite(g, h, n.x, n.y, d, i, j, d + 1, next);
      }
      if 1 <= k < d {
        QueuedAfterWrite(g, h, n.x, n.y, d, i, j, d, rest);
      }
      if 1 <= k < d - 1 {
        NoZeroAfterWrite(g, h, n.x, n.y, d, i, j);
      }
      GradedAfterWrite(g, h, n.x, n.y, d, i, j);
    }

    /** A cell without zero neighbours keeps none after a write of a
        nonzero label. */
    lemma NoZeroAfterWrite(g: seq<seq<int>>, h: seq<seq<int>>, x: int, y: int, v: int, i: int, j: int)
      requires Wrote(g, h, x, y, v) && v != 0 && NoZeroNeighbour(g, i, j)
      ensures NoZeroNeighbour(h, i, j)
    {
    }

    /** Another cell stays graded after a write of a label `v` no smaller
        than its own. */
    lemma GradedAfterWrite(g: seq<seq<int>>, h: seq<seq<int>>, x: int, y: int, v: int, i: int, j: int)
      requires Wrote(g, h, x, y, v) && InGrid(i, j) && (i != x || j != y)
      requires GradedAt(g, i, j) && g[i][j] <= v
      ensures GradedAt(h, i, j)
    {
    }

    /** The visited cell itself: labelled `d`, with its zero neighbours
        queued for the next round. */
    lemma VisitedCellKeeps(g: seq<seq<int>>, h: seq<seq<int>>, g0: seq<seq<int>>, n: Node, rest: set<Node>, next: set<Node>, d: int)
      requires Shape(g) && Shape(g0) && Wrote(g, h, n.x, n.y, d) && d >= 1
      requires Frontier(g, n, d) && (d == 1 ==> n == Node(endX, endY, 1))
      requires WaveCell(g, g0, rest, next, d, n.x, n.y) && AtLeast(g, n.x, n.y, d - 1)
      ensures WaveCell(h, g0, rest - {n}, next + ZeroNeighbours(h, n.x, n.y, d + 1), d, n.x, n.y)
    {
      if d >= 2 {
        var p := Parent(g, n.x, n.y, d);
        assert h[p.0][p.1] == g[p.0][p.1];
      }
    }

    /** The labelled 4-neighbours of a frontier entry of label `d` carry
        at least `d - 1`: one labelled earlier has no zero neighbour left. */
    lemma FrontierNeighbours(g: seq<seq<int>>, g0: seq<seq<int>>, n: Node, rest: set<Node>, next: set<Node>, d: int)
      requires Shape(g) && Shape(g0) && Frontier(g, n, d) && Wave(g, g0, rest, next, d)
      ensures AtLeast(g, n.x, n.y, d - 1)
    {
      assert InGrid(n.x + 1, n.y) ==> InMap(n.x + 1, n.y);
      assert InGrid(n.x - 1, n.y) ==> InMap(n.x - 1, n.y);
      assert InGrid(n.x, n.y + 1) ==> InMap(n.x, n.y + 1);
      assert InGrid(n.x, n.y - 1) ==> InMap(n.x, n.y - 1);
    }

    /** The zero cells after a write that leaves (x, y) nonzero: the old
        ones less (x, y). */
    lemma WriteZeroCells(g: seq<seq<int>>, h: seq<seq<int>>, x: int, y: int, v: int)
      requires Wrote(g, h, x, y, v) && v != 0
      ensures ZeroCells(h) == ZeroCells(g) - {(x, y)}
    {
    }

    /** A visit keeps the round's invariant: the rest of the frontier, the
        next frontier and every cell, while the zero cells lose the visited
        one. */
    lemma VisitKeeps(g: seq<seq<int>>, h: seq<seq<int>>, g0: seq<seq<int>>, n: Node, rest: set<Node>, next: set<Node>, next': set<Node>, d: int)
      requires Shape(g) && Shape(g0) && Wrote(g, h, n.x, n.y, d) && d >= 1
      requires next' == next + ZeroNeighbours(h, n.x, n.y, d + 1)
      requires n in rest && (d == 1 ==> n == Node(endX, endY, 1))
      requires forall r :: r in rest ==> Frontier(g, r, d)
      requires forall m :: m in next ==> Frontier(g, m, d + 1)
      requires Wave(g, g0, rest, next, d)
      ensures forall r :: r in rest - {n} ==> Frontier(h, r, d)
      ensures forall m :: m in next' ==> Frontier(h, m, d + 1)
      ensures Wave(h, g0, rest - {n}, next', d)
      ensures ZeroCells(h) == ZeroCells(g) - {(n.x, n.y)}
    {
      assert Frontier(g, n, d);
      forall r | r in rest - {n}
        ensures Frontier(h, r, d)
      {
        RestStaysFrontier(g, h, n, r, d);
      }
      forall m | m in next'
        ensures Frontier(h, m, d + 1)
      {
        if m in next {
          NextStaysFrontier(g, h, n, m, d);
        } else {
          JoinsFrontier(h, n.x, n.y, d, m);
        }
      }
      assert InMap(n.x, n.y);
      forall i, j | InMap(i, j)
        ensures WaveCell(h, g0, rest - {n}, next', d, i, j)
      {
        if i != n.x || j != n.y {
          OtherCellKeeps(g, h, g0, n, rest, next, d, i, j);
        } else {
          FrontierNeighbours(g, g0, n, rest, next, d);
          VisitedCellKeeps(g, h, g0, n, rest, next, d);
        }
      }
      WriteZeroCells(g, h, n.x, n.y, d);
    }

    /** The end of a round: with the whole frontier visited, the next
        frontier is what the zero neighbours of every labelled cell wait in,
        and every label is at most `d`. */
    lemma RoundEnds(g: seq<seq<int>>, g0: seq<seq<int>>, next: set<Node>, d: int)
      requires Shape(g) && Shape(g0) && Wave(g, g0, {}, next, d)
      ensures Wave(g, g0, next, {}, d + 1) && Below(g, d + 1)
    {
      forall i, j | InMap(i, j)
        ensures WaveCell(g, g0, next, {}, d + 1, i, j) && g[i][j] < d + 1
      {
      }
    }

    /** One visit of the round of label `d`: the frontier entry `n` gets its
        label and its 4-neighbours still labelled 0 join the next frontier. */
    method Visit(n: Node, ghost rest: set<Node>, next: set<Node>, ghost d: int, ghost g0: seq<seq<int>>) returns (next': set<Node>)
      requires Valid() && Shape(g0) && d >= 1
      requires n in rest && (d == 1 ==> n == Node(endX, endY, 1))
      requires forall r :: r in rest ==> Frontier(Snapshot(), r, d)
      requires forall m :: m in next ==> Frontier(Snapshot(), m, d + 1)
      requires Wave(Snapshot(), g0, rest, next, d)
      modifies flowFieldZ
      ensures forall r :: r in rest - {n} ==> Frontier(Snapshot(), r, d)
      ensures forall m :: m in next' ==> Frontier(Snapshot(), m, d + 1)
      ensures Wave(Snapshot(), g0, rest - {n}, next', d)
      ensures Wrote(old(Snapshot()), Snapshot(), n.x, n.y, d)
      ensures ZeroCells(Snapshot()) == ZeroCells(old(Snapshot())) - {(n.x, n.y)}
    {
      ghost var g := Snapshot();
      assert Frontier(g, n, d);
      var x, y, dn := n.x, n.y, n.d;
      flowFieldZ[x, y] := dn;
      ghost var h := Snapshot();
      assert InMap(x, y);
      forall a, b | InGrid(a, b) && (a != x || b != y)
        ensures h[a][b] == g[a][b]
      {
        assert InMap(a, b);
      }
      next' := QueueZeroNeighbours(x, y, dn + 1, next, h);
      VisitKeeps(g, h, g0, n, rest, next, next', d);
    }

    /** The neighbour tests of a visit, east, west, south and north: each
        4-neighbour in the map still labelled 0 joins `next` with label `k`. */
    method QueueZeroNeighbours(x: int, y: int, k: int, next: set<Node>, ghost g: seq<seq<int>>) returns (next': set<Node>)
      requires Valid() && InGrid(x, y) && g == Snapshot()
      ensures next' == next + ZeroNeighbours(g, x, y, k) && Snapshot() == g
    {
      assert x + 1 < mapWidth ==> InMap(x + 1, y);
      assert x - 1 >= 0 ==> InMap(x - 1, y);
      assert y + 1 < mapHeight ==> InMap(x, y + 1);
      assert y - 1 >= 0 ==> InMap(x, y - 1);
      next' := next;
      if x + 1 < mapWidth && flowFieldZ[x + 1, y] == 0 {
        next' := next' + {Node(x + 1, y, k)};
      }
      if x - 1 >= 0 && flowFieldZ[x - 1, y] == 0 {
        next' := next' + {Node(x - 1, y, k)};
      }
      if y + 1 < mapHeight && flowFieldZ[x, y + 1] == 0 {
        next' := next' + {Node(x, y + 1, k)};
      }
      if y - 1 >= 0 && flowFieldZ[x, y - 1] == 0 {
        next' := next' + {Node(x, y - 1, k)};
      }
    }

    /** One round of the wave: every entry of the frontier `nodes`, all
        with label `d`, is visited in some order; the result is the next
        frontier. */
    method Round(nodes: set<Node>, ghost d: int, ghost g0: seq<seq<int>>) returns (next: set<Node>)
      requires Valid() && Shape(g0) && InGrid(endX, endY) && d >= 1
      requires forall n :: n in nodes ==> Frontier(Snapshot(), n, d)
      requires d == 1 ==> nodes == {Node(endX, endY, 1)}
      requires Wave(Snapshot(), g0, nodes, {}, d) && Below(Snapshot(), d)
      requires d >= 2 ==> Snapshot()[endX][endY] == 1
      modifies flowFieldZ
      ensures forall m :: m in next ==> Frontier(Snapshot(), m, d + 1)
      ensures Wave(Snapshot(), g0, next, {}, d + 1) && Below(Snapshot(), d + 1)
      ensures Snapshot()[endX][endY] == 1
      ensures |ZeroCells(Snapshot())| <= |ZeroCells(old(Snapshot()))|
      ensures d >= 2 ==> |ZeroCells(Snapshot())| + |nodes| == |ZeroCells(old(Snapshot()))|
    {
      next := {};
      var rest := nodes;
      assert Wave(Snapshot(), g0, rest, next, d) by {
        forall i, j | InMap(i, j)
          ensures WaveCell(Snapshot(), g0, rest, next, d, i, j)
        {
        }
      }
      while rest != {}
        invariant rest <= nodes
        invariant forall r :: r in rest ==> Frontier(Snapshot(), r, d)
        invariant forall m :: m in next ==> Frontier(Snapshot(), m, d + 1)
        invariant Wave(Snapshot(), g0, rest, next, d)
        invariant d >= 2 || rest == {} ==> Snapshot()[endX][endY] == 1
        invariant |ZeroCells(Snapshot())| <= |ZeroCells(old(Snapshot()))|
        invariant d >= 2 ==> |ZeroCells(Snapshot())| + |nodes| == |ZeroCells(old(Snapshot()))| + |rest|
        decreases rest
      {
        var n :| n in rest;
        ghost var g := Snapshot();
        next := Visit(n, rest, next, d, g0);
        rest := rest - {n};
        assert d >= 2 ==> (n.x, n.y) in ZeroCells(g);
        RemoveOne(ZeroCells(g), (n.x, n.y));
      }
      RoundEnds(Snapshot(), g0, next, d);
    }

    /** Taking one element out of a set. */
    lemma RemoveOne<T>(a: set<T>, e: T)
      ensures |a - {e}| == if e in a then |a| - 1 else |a|
    {
      if e !in a {
        assert a - {e} == a;
      }
    }

    /** The start of the wave: the end cell alone in the frontier of
        label 1, over labels that are all -1 or 0. */
    lemma WaveStarts(g0: seq<seq<int>>)
      requires Shape(g0) && InGrid(endX, endY)
      requires forall x, y {:trigger InMap(x, y)} :: InMap(x, y) ==> g0[x][y] == -1 || g0[x][y] == 0
      ensures Frontier(g0, Node(endX, endY, 1), 1)
      ensures Wave(g0, g0, {Node(endX, endY, 1)}, {}, 1) && Below(g0, 1)
    {
      assert InMap(endX, endY);
      forall i, j | InMap(i, j)
        ensures WaveCell(g0, g0, {Node(endX, endY, 1)}, {}, 1, i, j) && g0[i][j] < 1
      {
      }
    }

    /** The end of the wave: once a frontier comes out empty, the labels
        are `Labelled` and `Closed`, and -1 marks what it marked before. */
    lemma WaveEnds(g: seq<seq<int>>, g0: seq<seq<int>>, d: int)
      requires Shape(g) && Shape(g0) && InGrid(endX, endY) && g[endX][endY] == 1
      requires Wave(g, g0, {}, {}, d)
      ensures Labelled(g) && Closed(g) && Graded(g)
      ensures forall x, y {:trigger InMap(x, y)} :: InMap(x, y) && (x != endX || y != endY) ==> (g[x][y] == -1 <==> g0[x][y] == -1)
    {
      forall i, j | InMap(i, j)
        ensures (g[i][j] == 1 ==> i == endX && j == endY) && (g[i][j] >= 2 ==> HasParent(g, i, j, g[i][j]))
        ensures g[i][j] >= 1 ==> NoZeroNeighbour(g, i, j)
        ensures g[i][j] >= -1 && GradedAt(g, i, j)
        ensures i != endX || j != endY ==> (g[i][j] == -1 <==> g0[i][j] == -1)
      {
        assert WaveCell(g, g0, {}, {}, d, i, j);
      }
    }

    /** Every walk that ends at the end cell starts on a labelled cell
        whose label is at most the walk's length: a label is never more
        than one above the distance to the end. */
    lemma {:induction false} WalkBound(g: seq<seq<int>>, w: seq<(int, int)>)
      requires Labelled(g) && Closed(g) && Graded(g) && Walk(g, w) && w[|w| - 1] == (endX, endY)
      ensures 1 <= g[w[0].0][w[0].1] <= |w|
      decreases |w|
    {
      if |w| > 1 {
        var a, b := w[0], w[1];
        assert Walk(g, w[1..]) by {
          forall k | 0 <= k < |w| - 2
            ensures Adjacent(w[1..][k], w[1..][k + 1])
          {
            assert w[1..][k] == w[k + 1] && w[1..][k + 1] == w[k + 2];
          }
        }
        WalkBound(g, w[1..]);
        assert InMap(a.0, a.1) && InMap(b.0, b.1);
      }
    }

    /** Following parents from a labelled cell reaches the end cell in a
        walk as long as the cell's label: a label is never less than one
        above the distance to the end. */
    lemma {:induction false} DescentWalk(g: seq<seq<int>>, x: int, y: int) returns (w: seq<(int, int)>)
      requires Labelled(g) && InGrid(x, y) && g[x][y] >= 1
      ensures Walk(g, w) && |w| == g[x][y] && w[0] == (x, y) && w[|w| - 1] == (endX, endY)
      decreases g[x][y]
    {
      assert InMap(x, y);
      if g[x][y] == 1 {
        w := [(x, y)];
      } else {
        var p := Parent(g, x, y, g[x][y]);
        var v := DescentWalk(g, p.0, p.1);
        w := [(x, y)] + v;
        assert forall k :: 1 <= k < |w| ==> w[k] == v[k - 1];
      }
    }

    /** The wave from the end cell. Each round labels every cell of the
        frontier with the frontier's label and gathers the 4-neighbours
        still labelled 0 into the next frontier, with the label one higher;
        the rounds stop when a frontier comes out empty. */
    method Propagate()
      requires Valid() && InGrid(endX, endY) && Initialised()
      modifies flowFieldZ
      ensures Labelled(Snapshot()) && Closed(Snapshot()) && Graded(Snapshot())
      ensures forall x, y :: InGrid(x, y) && (x != endX || y != endY) ==> (flowFieldZ[x, y] == -1 <==> Blocked(x, y))
    {
      ghost var g0 := Snapshot();
      forall x, y | InMap(x, y)
        ensures g0[x][y] == if Blocked(x, y) then -1 else 0
      {
      }
      Rounds(g0);
      forall x, y | InGrid(x, y) && (x != endX || y != endY)
        ensures flowFieldZ[x, y] == -1 <==> Blocked(x, y)
      {
        assert InMap(x, y);
      }
    }

    /** The loop of `Propagate` over labels `g0` that are all -1 or 0:
        afterwards the labels are `Labelled` and `Closed`, and a cell other
        than the end is -1 exactly when it was in `g0`. */
    method Rounds(ghost g0: seq<seq<int>>)
      requires Valid() && InGrid(endX, endY) && Snapshot() == g0
      requires forall x, y {:trigger InMap(x, y)} :: InMap(x, y) ==> g0[x][y] == -1 || g0[x][y] == 0
      modifies flowFieldZ
      ensures Labelled(Snapshot()) && Closed(Snapshot()) && Graded(Snapshot())
      ensures forall x, y {:trigger InMap(x, y)} :: InMap(x, y) && (x != endX || y != endY) ==> (Snapshot()[x][y] == -1 <==> g0[x][y] == -1)
    {
      var nodes: set<Node> := {Node(endX, endY, 1)};
      var isEmpty := nodes == {};
      ghost var d := 1;
      ghost var g := g0;
      WaveStarts(g0);
      while !isEmpty
        invariant g == Snapshot()
        invariant isEmpty <==> nodes == {}
        invariant d >= 1
        invariant forall n :: n in nodes ==> Frontier(g, n, d)
        invariant d == 1 ==> nodes == {Node(endX, endY, 1)}
        invariant Wave(g, g0, nodes, {}, d) && Below(g, d)
        invariant d >= 2 ==> g[endX][endY] == 1
        decreases |ZeroCells(g)| + if d == 1 then 1 else 0
      {
        nodes := Round(nodes, d, g0);
        g := Snapshot();
        isEmpty := nodes == {};
        d := d + 1;
      }
      WaveEnds(g, g0, d);
    }

    /** The entry for cell (a, b) when it is in the map with a positive
        label. */
    ghost function Entry(g: seq<seq<int>>, a: int, b: int): seq<(int, int, int)>
      requires Shape(g)
    {
      if InGrid(a, b) && g[a][b] > 0 then [(a, b, g[a][b])] else []
    }

    /** The labelled 8-neighbours of (x, y), in the order north, east,
        south, west, north-west, north-east, south-west, south-east. */
    ghost function Neighbours(g: seq<seq<int>>, x: int, y: int): seq<(int, int, int)>
      requires Shape(g)
    {
      Collect(g, x, y, Directions, [])
    }

    /** `acc` followed by the labelled cells at the offsets `ds` from
        (x, y), in order. */
    ghost function Collect(g: seq<seq<int>>, x: int, y: int, ds: Offsets, acc: seq<(int, int, int)>): seq<(int, int, int)>
      requires Shape(g)
    {
      match ds
      case Done => acc
      case Then(dx, dy, rest) => Collect(g, x, y, rest, acc + Entry(g, x + dx, y + dy))
    }

    lemma {:induction false} CollectExact(g: seq<seq<int>>, x: int, y: int, ds: Offsets, acc: seq<(int, int, int)>, a: int, b: int, l: int)
      requires Shape(g)
      ensures (a, b, l) in Collect(g, x, y, ds, acc) <==>
        (a, b, l) in acc || (Has(ds, a - x, b - y) && InGrid(a, b) && g[a][b] > 0 && l == g[a][b])
      decreases ds
    {
      if ds.Then? {
        CollectExact(g, x, y, ds.rest, acc + Entry(g, x + ds.dx, y + ds.dy), a, b, l);
      }
    }

    /** `Neighbours`, one offset at a time in the order of `Directions`. */
    lemma NeighboursInOrder(g: seq<seq<int>>, x: int, y: int)
      requires Shape(g)
      ensures Neighbours(g, x, y) ==
        [] + Entry(g, x, y - 1) + Entry(g, x + 1, y) + Entry(g, x, y + 1) + Entry(g, x - 1, y) +
        Entry(g, x - 1, y - 1) + Entry(g, x + 1, y - 1) + Entry(g, x - 1, y + 1) + Entry(g, x + 1, y + 1)
    {
      var d := Directions;
      var n1 := [] + Entry(g, x, y - 1);
      var n2 := n1 + Entry(g, x + 1, y);
      var n3 := n2 + Entry(g, x, y + 1);
      var n4 := n3 + Entry(g, x - 1, y);
      var n5 := n4 + Entry(g, x - 1, y - 1);
      var n6 := n5 + Entry(g, x + 1, y - 1);
      var n7 := n6 + Entry(g, x - 1, y + 1);
      var n8 := n7 + Entry(g, x + 1, y + 1);
      assert Collect(g, x, y, d, []) == Collect(g, x, y, d.rest, n1);
      assert Collect(g, x, y, d.rest, n1) == Collect(g, x, y, d.rest.rest, n2);
      assert Collect(g, x, y, d.rest.rest, n2) == Collect(g, x, y, d.rest.rest.rest, n3);
      assert Collect(g, x, y, d.rest.rest.rest, n3) == Collect(g, x, y, CornerOffsets, n4);
      var c := CornerOffsets;
      assert Collect(g, x, y, c, n4) == Collect(g, x, y, c.rest, n5);
      assert Collect(g, x, y, c.rest, n5) == Collect(g, x, y, c.rest.rest, n6);
      assert Collect(g, x, y, c.rest.rest, n6) == Collect(g, x, y, c.rest.rest.rest, n7);
      assert Collect(g, x, y, c.rest.rest.rest, n7) == n8;
    }

    /** Two distinct cells at most one apart in each direction. */
    predicate Around(x: int, y: int, a: int, b: int)
    {
      -1 <= a - x <= 1 && -1 <= b - y <= 1 && (a != x || b != y)
    }

    /** The entries of `Neighbours` are exactly the 8-neighbours in the map
        with a positive label, each with its label. */
    lemma NeighboursExact(g: seq<seq<int>>, x: int, y: int, a: int, b: int, l: int)
      requires Shape(g)
      ensures (a, b, l) in Neighbours(g, x, y) <==> Around(x, y, a, b) && InGrid(a, b) && g[a][b] > 0 && l == g[a][b]
    {
      CollectExact(g, x, y, Directions, [], a, b, l);
      DirectionsAround(a - x, b - y);
    }

    /** Where the entry the descent moves to sits: the first of those
        with the smallest label. */
    function LowestIndex(ns: seq<(int, int, int)>): (i: nat)
      requires |ns| >= 1
      ensures i < |ns|
      ensures forall j :: 0 <= j < |ns| ==> ns[i].2 <= ns[j].2
      ensures forall j :: 0 <= j < i ==> ns[j].2 > ns[i].2
    {
      if |ns| == 1 then 0
      else
        var i := LowestIndex(ns[..|ns| - 1]);
        if ns[|ns| - 1].2 < ns[i].2 then |ns| - 1 else i
    }

    /** The lowest entry's label is at most any entry's. */
    lemma LowestAtMost(ns: seq<(int, int, int)>, e: (int, int, int))
      requires e in ns
      ensures ns[LowestIndex(ns)].2 <= e.2
    {
      var j :| 0 <= j < |ns| && ns[j] == e;
    }

    /** One step of the descent: (a, b) is where the descent goes from
        (x, y). */
    ghost predicate Step(g: seq<seq<int>>, p: (int, int), q: (int, int))
      requires Shape(g)
    {
      var ns := Neighbours(g, p.0, p.1);
      |ns| >= 1 && q == (ns[LowestIndex(ns)].0, ns[LowestIndex(ns)].1)
    }

    /** `path` follows the descent: each cell after the first is where the
        descent goes from the one before, which is not the end cell. */
    ghost predicate Follows(g: seq<seq<int>>, path: seq<(int, int)>)
      requires Shape(g)
      decreases |path|
    {
      |path| <= 1 ||
      (Follows(g, path[..|path| - 1]) && path[|path| - 2] != (endX, endY) && Step(g, path[|path| - 2], path[|path| - 1]))
    }

    /** `Follows`, one step at a time. */
    lemma {:induction false} FollowsSteps(g: seq<seq<int>>, path: seq<(int, int)>, k: int)
      requires Shape(g) && Follows(g, path) && 0 <= k < |path| - 1
      ensures path[k] != (endX, endY) && Step(g, path[k], path[k + 1])
      decreases |path|
    {
      if k < |path| - 2 {
        var front := path[..|path| - 1];
        FollowsSteps(g, front, k);
        assert front[k] == path[k] && front[k + 1] == path[k + 1];
      }
    }

    /** The label of a cell, and -1 off the map. */
    ghost function LabelAt(g: seq<seq<int>>, c: (int, int)): int
      requires Shape(g)
    {
      if InGrid(c.0, c.1) then g[c.0][c.1] else -1
    }

    /** A labelled cell other than the end has a labelled 8-neighbour with
        a lower label (its parent), so the descent's step from it goes to a
        labelled cell strictly lower. */
    lemma StepDown(g: seq<seq<int>>, x: int, y: int)
      requires Labelled(g) && InGrid(x, y) && g[x][y] >= 1 && (x, y) != (endX, endY)
      ensures var ns := Neighbours(g, x, y); |ns| >= 1 && 1 <= ns[LowestIndex(ns)].2 < g[x][y]
    {
      assert InMap(x, y);
      var ns := Neighbours(g, x, y);
      var p := Parent(g, x, y, g[x][y]);
      NeighboursExact(g, x, y, p.0, p.1, g[x][y] - 1);
      LowestAtMost(ns, (p.0, p.1, g[x][y] - 1));
      var m := ns[LowestIndex(ns)];
      NeighboursExact(g, x, y, m.0, m.1, m.2);
    }

    /** The neighbour tests of the descent, in the order of `on_user_update`: each
        8-neighbour of (x, y) in the map with a positive label is pushed
        with its label, first the four sides, then the four corners. */
    method GatherNeighbours(x: int, y: int, ghost g: seq<seq<int>>) returns (ns: seq<(int, int, int)>)
      requires Valid() && InGrid(x, y) && g == Snapshot()
      ensures ns == Neighbours(g, x, y)
    {
      ns := Push(x, y - 1, [], g);
      ns := Push(x + 1, y, ns, g);
      ns := Push(x, y + 1, ns, g);
      ns := Push(x - 1, y, ns, g);
      ns := Push(x - 1, y - 1, ns, g);
      ns := Push(x + 1, y - 1, ns, g);
      ns := Push(x - 1, y + 1, ns, g);
      ns := Push(x + 1, y + 1, ns, g);
      NeighboursInOrder(g, x, y);
    }

    /** One neighbour test: (a, b) is pushed with its label when it lies in
        the map and its label is positive. */
    method Push(a: int, b: int, ns: seq<(int, int, int)>, ghost g: seq<seq<int>>) returns (ns': seq<(int, int, int)>)
      requires Valid() && g == Snapshot()
      ensures ns' == ns + Entry(g, a, b)
    {
      assert 0 <= a < mapWidth && 0 <= b < mapHeight ==> InMap(a, b);
      if 0 <= a < mapWidth && 0 <= b < mapHeight && flowFieldZ[a, b] > 0 {
        ns' := ns + [(a, b, flowFieldZ[a, b])];
      } else {
        ns' := ns;
      }
    }

    /** The scan for the lowest entry: starting from the first, an entry
        replaces the current one only when its label is strictly lower. */
    method LowestOf(ns: seq<(int, int, int)>) returns (lowest: (int, int, int))
      requires |ns| >= 1
      ensures lowest == ns[LowestIndex(ns)]
    {
      lowest := ns[0];
      var i := 1;
      assert ns[..1] == [ns[0]];
      while i < |ns|
        invariant 1 <= i <= |ns| && lowest == ns[LowestIndex(ns[..i])]
      {
        assert ns[..i + 1][..i] == ns[..i];
        if ns[i].2 < lowest.2 {
          lowest := ns[i];
        }
        i := i + 1;
      }
      assert ns[..i] == ns;
    }

    /** Every cell of `path` after the first is labelled, and from the
        second on the labels strictly decrease. */
    ghost predicate Downhill(g: seq<seq<int>>, path: seq<(int, int)>)
      requires Shape(g)
    {
      (forall k :: 1 <= k < |path| ==> LabelAt(g, path[k]) >= 1) &&
      (forall k :: 1 <= k < |path| - 1 ==> LabelAt(g, path[k + 1]) < LabelAt(g, path[k]))
    }

    /** A descent path extended by one step down stays a descent path. */
    lemma ExtendDescent(g: seq<seq<int>>, path: seq<(int, int)>, q: (int, int))
      requires Shape(g) && |path| >= 1 && Follows(g, path) && Downhill(g, path)
      requires path[|path| - 1] != (endX, endY) && Step(g, path[|path| - 1], q) && LabelAt(g, q) >= 1
      requires |path| > 1 ==> LabelAt(g, q) < LabelAt(g, path[|path| - 1])
      ensures Follows(g, path + [q]) && Downhill(g, path + [q])
    {
      assert (path + [q])[..|path|] == path;
    }

    /** One pass of the descent's loop body from (x, y): gather the
        labelled 8-neighbours and, if there are any, move to the first
        lowest. From a labelled cell other than the end the move is always
        possible and goes strictly down. */
    method Advance(x: int, y: int, ghost g: seq<seq<int>>) returns (moved: bool, nextX: int, nextY: int)
      requires Valid() && InGrid(x, y) && g == Snapshot() && Labelled(g)
      ensures moved <==> Neighbours(g, x, y) != []
      ensures moved ==> Step(g, (x, y), (nextX, nextY)) && InGrid(nextX, nextY) && g[nextX][nextY] >= 1
      ensures moved && g[x][y] >= 1 && (x, y) != (endX, endY) ==> g[nextX][nextY] < g[x][y]
      ensures !moved ==> g[x][y] < 1 || (x, y) == (endX, endY)
    {
      var neighbours := GatherNeighbours(x, y, g);
      if g[x][y] >= 1 && (x, y) != (endX, endY) {
        StepDown(g, x, y);
      }
      if |neighbours| == 0 {
        return false, x, y;
      }
      var lowest := LowestOf(neighbours);
      NeighboursExact(g, x, y, lowest.0, lowest.1, lowest.2);
      return true, lowest.0, lowest.1;
    }

    /** The path from the start cell down the labels: each step goes to the
        first lowest labelled 8-neighbour, until the end cell is reached or
        no 8-neighbour is labelled. */
    method Descend() returns (path: seq<(int, int)>, noPath: bool)
      requires Valid() && InGrid(startX, startY) && Labelled(Snapshot())
      ensures |path| >= 1 && path[0] == (startX, startY)
      ensures Follows(Snapshot(), path)
      ensures !noPath ==> path[|path| - 1] == (endX, endY)
      ensures noPath ==> |path| == 1 && (startX, startY) != (endX, endY) && Neighbours(Snapshot(), startX, startY) == []
      ensures Snapshot()[startX][startY] >= 1 ==> !noPath
      ensures Downhill(Snapshot(), path)
    {
      ghost var g := Snapshot();
      path := [(startX, startY)];
      var locX, locY := startX, startY;
      noPath := false;
      while !(locX == endX && locY == endY) && !noPath
        invariant InGrid(locX, locY) && |path| >= 1 && path[0] == (startX, startY) && path[|path| - 1] == (locX, locY)
        invariant Follows(g, path)
        invariant Downhill(g, path)
        invariant noPath ==> |path| == 1 && (startX, startY) != (endX, endY) && Neighbours(g, startX, startY) == []
        invariant noPath ==> g[startX][startY] < 1
        decreases if noPath then 0 else 1, if g[locX][locY] >= 1 then 0 else 1, LabelAt(g, (locX, locY))
      {
        var moved, nextX, nextY := Advance(locX, locY, g);
        if !moved {
          if |path| > 1 {
            assert false;
          }
          noPath := true;
        } else {
          ExtendDescent(g, path, (nextX, nextY));
          locX, locY := nextX, nextY;
          path := path + [(locX, locY)];
        }
      }
    }

    /** One frame of `on_user_update` up to the drawing: the mouse, the Q and
        A keys, the labels, the wave from the end cell and the path from the
        start cell. */
    method Update(mouseX: int, mouseY: int, left: bool, right: bool, q: bool, a: bool) returns (path: seq<(int, int)>, noPath: bool)
      requires Valid() && InGrid(endX, endY)
      requires left ==> 0 <= Selected(mouseX, mouseY).1 * mapWidth + Selected(mouseX, mouseY).0 < mapWidth * mapHeight
      requires right ==> InGrid(Selected(mouseX, mouseY).0, Selected(mouseX, mouseY).1)
      requires !right ==> InGrid(startX, startY)
      modifies obstacleMap, flowFieldZ, this`startX, this`startY, this`wave
      ensures Labelled(Snapshot()) && Closed(Snapshot()) && Graded(Snapshot())
      ensures forall x, y :: InGrid(x, y) && (x != endX || y != endY) ==> (flowFieldZ[x, y] == -1 <==> Blocked(x, y))
      ensures |path| >= 1 && path[0] == (startX, startY) && Follows(Snapshot(), path) && Downhill(Snapshot(), path)
      ensures !noPath ==> path[|path| - 1] == (endX, endY)
      ensures LabelAt(Snapshot(), (startX, startY)) >= 1 ==> !noPath
    {
      Click(mouseX, mouseY, left, right);
      AdjustWave(q, a);
      InitLabels();
      Propagate();
      path, noPath := Descend();
    }
  }
}
