/**
 * Geometry of the maze: the logical W x H cell grid, the doubled
 * (2H+1) x (2W+1) wall/ground map that stores it (row-major, stride
 * 2W+1), the direction tables, and what carving passages does to the map.
 * In the map `true` is a wall and `false` is ground.
 */
module Grid {
  import opened Indexing

  // ---------------------------------------------------------------------
  // Dimensions and direction tables
  // ---------------------------------------------------------------------

  /** Columns of the doubled map for a maze `w` cells wide (RMW). */
  function Cols(w: int): int { 2 * w + 1 }

  /** Rows of the doubled map for a maze `h` cells high (RMH). */
  function Rows(h: int): int { 2 * h + 1 }

  /** Number of entries of the doubled map. */
  function MapSize(w: int, h: int): int { Rows(h) * Cols(w) }

  /** Direction codes 0 up, 1 down, 2 left, 3 right. */
  type Dir = d: int | 0 <= d < 4

  /** A draw of the uniform distribution over the four directions. */
  function DrawDir(n: nat): Dir
  {
    n % 4
  }

  /** Row (y) offset of each direction. */
  const OffR: seq<int> := [1, -1, 0, 0]

  /** Column (x) offset of each direction. */
  const OffC: seq<int> := [0, 0, -1, 1]

  /** Offset in the logical cell numbering of each direction (offa). */
  function OffA(w: int, d: Dir): (r: int)
    ensures r == OffR[d] * w + OffC[d]
  {
    [w, -w, -1, 1][d]
  }

  lemma DirectionsAreUnitSteps(d: Dir)
    ensures (OffR[d] == 0) != (OffC[d] == 0)
    ensures -1 <= OffR[d] <= 1 && -1 <= OffC[d] <= 1
  {
  }

  // ---------------------------------------------------------------------
  // 4-adjacency in a row-major grid
  // ---------------------------------------------------------------------

  /** `a` and `b` are 4-neighbours in a grid of stride `cols`. */
  ghost predicate Adjacent(cols: int, a: int, b: int)
    requires cols > 0
  {
    var ar, ac, br, bc := a / cols, a % cols, b / cols, b % cols;
    (ar == br && (ac - bc == 1 || bc - ac == 1)) ||
    (ac == bc && (ar - br == 1 || br - ar == 1))
  }

  lemma AdjacentByCoordinates(cols: int, ar: int, ac: int, br: int, bc: int)
    requires 0 <= ac < cols && 0 <= bc < cols
    requires (ar == br && (ac - bc == 1 || bc - ac == 1)) || (ac == bc && (ar - br == 1 || br - ar == 1))
    ensures Adjacent(cols, Index(cols, ar, ac), Index(cols, br, bc))
  {
    IndexDecode(cols, ar, ac);
    IndexDecode(cols, br, bc);
  }

  lemma AdjacentSymmetric(cols: int, a: int, b: int)
    requires cols > 0 && Adjacent(cols, a, b)
    ensures Adjacent(cols, b, a)
  {
  }

  // ---------------------------------------------------------------------
  // The map after `initialize`
  // ---------------------------------------------------------------------

  /** Map where every even row and every even column is wall. */
  function InitialGrid(w: nat, h: nat): (g: seq<bool>)
    ensures |g| == MapSize(w, h)
  {
    seq(MapSize(w, h), i => (i / Cols(w)) % 2 == 0 || (i % Cols(w)) % 2 == 0)
  }

  /** Cell (row, col) of the initial map is a wall iff row or col is even. */
  lemma InitialGridAt(w: nat, h: nat, row: int, col: int)
    requires 0 <= row < Rows(h) && 0 <= col < Cols(w)
    ensures 0 <= Index(Cols(w), row, col) < MapSize(w, h)
    ensures InitialGrid(w, h)[Index(Cols(w), row, col)] <==> (row % 2 == 0 || col % 2 == 0)
  {
    IndexBounds(Cols(w), Rows(h), row, col);
    IndexDecode(Cols(w), row, col);
  }

  // ---------------------------------------------------------------------
  // Logical cells and carving
  // ---------------------------------------------------------------------

  /** Column (abscissa) of logical cell `c`. */
  function CellX(w: int, c: int): int requires w > 0 { c % w }

  /** Row (ordinate) of logical cell `c`. */
  function CellY(w: int, c: int): int requires w > 0 { c / w }

  /** The map index of the node that stands for logical cell `c`. */
  function NodeIndex(w: int, c: int): int
    requires w > 0
  {
    Index(Cols(w), 2 * CellY(w, c) + 1, 2 * CellX(w, c) + 1)
  }

  /** One carve: from logical cell `cell` one step in direction `dir`. */
  datatype Carve = Carve(cell: int, dir: Dir)

  /** The carve starts at an in-bounds cell and stays in bounds. */
  ghost predicate ValidCarve(w: int, h: int, p: Carve)
  {
    w > 0 && h > 0 && 0 <= p.cell < w * h &&
    0 <= CellX(w, p.cell) + OffC[p.dir] < w &&
    0 <= CellY(w, p.cell) + OffR[p.dir] < h
  }

  /** The logical cell a carve reaches. */
  function Target(w: int, p: Carve): int
  {
    p.cell + OffA(w, p.dir)
  }

  /** Map row of the wall cell a carve opens (ty*2+1+offr). */
  function CarveRow(w: int, p: Carve): int requires w > 0
  {
    CellY(w, p.cell) * 2 + 1 + OffR[p.dir]
  }

  /** Map column of the wall cell a carve opens (tx*2+1+offc). */
  function CarveCol(w: int, p: Carve): int requires w > 0
  {
    CellX(w, p.cell) * 2 + 1 + OffC[p.dir]
  }

  /** Map index of the wall cell a carve opens. */
  function CarveIndex(w: int, p: Carve): int requires w > 0
  {
    Index(Cols(w), CarveRow(w, p), CarveCol(w, p))
  }

  /**
   * Direction `d` leads from logical cell `cur` to an in-bounds cell that
   * `visited` does not mark.
   */
  ghost predicate FreshStep(w: int, h: int, cur: int, d: int, visited: seq<bool>)
  {
    0 <= d < 4 && ValidCarve(w, h, Carve(cur, d)) &&
    0 <= Target(w, Carve(cur, d)) < |visited| && !visited[Target(w, Carve(cur, d))]
  }

  /** The reached cell has the expected coordinates and is in bounds. */
  lemma TargetCoordinates(w: int, h: int, p: Carve)
    requires ValidCarve(w, h, p)
    ensures CellX(w, Target(w, p)) == CellX(w, p.cell) + OffC[p.dir]
    ensures CellY(w, Target(w, p)) == CellY(w, p.cell) + OffR[p.dir]
    ensures 0 <= Target(w, p) < w * h
  {
    var x, y := CellX(w, p.cell), CellY(w, p.cell);
    var nx, ny := x + OffC[p.dir], y + OffR[p.dir];
    assert p.cell == Index(w, y, x);
    assert Target(w, p) == Index(w, ny, nx);
    IndexDecode(w, ny, nx);
    IndexBounds(w, h, ny, nx);
  }

  /**
   * The opened cell lies strictly inside the border and has exactly one
   * odd coordinate, so it is neither a border cell nor an even/even cell,
   * nor a node.
   */
  lemma CarveShape(w: int, h: int, p: Carve)
    requires ValidCarve(w, h, p)
    ensures 1 <= CarveRow(w, p) <= 2 * h - 1 && 1 <= CarveCol(w, p) <= 2 * w - 1
    ensures (CarveRow(w, p) % 2 == 0) != (CarveCol(w, p) % 2 == 0)
    ensures 0 <= CarveIndex(w, p) < MapSize(w, h)
    ensures CarveIndex(w, p) / Cols(w) == CarveRow(w, p)
    ensures CarveIndex(w, p) % Cols(w) == CarveCol(w, p)
  {
    IndexBounds(w, h, CellY(w, p.cell), CellX(w, p.cell));
    IndexSplit(w, h, p.cell);
    IndexBounds(Cols(w), Rows(h), CarveRow(w, p), CarveCol(w, p));
    IndexDecode(Cols(w), CarveRow(w, p), CarveCol(w, p));
  }

  /** The set of map cells opened by a list of carves. */
  function Opened(w: int, ps: seq<Carve>): (s: set<int>)
    requires w > 0
    ensures forall k :: 0 <= k < |ps| ==> CarveIndex(w, ps[k]) in s
    ensures forall i :: i in s ==> exists k :: 0 <= k < |ps| && CarveIndex(w, ps[k]) == i
  {
    if ps == [] then {}
    else
      var front := ps[..|ps| - 1];
      assert forall k :: 0 <= k < |front| ==> front[k] == ps[k];
      Opened(w, front) + {CarveIndex(w, ps[|ps| - 1])}
  }

  /** The map after opening the cell of each carve, in order, starting from `base`. */
  function Carved(base: seq<bool>, w: int, h: int, ps: seq<Carve>): (g: seq<bool>)
    requires |base| == MapSize(w, h)
    requires forall k :: 0 <= k < |ps| ==> ValidCarve(w, h, ps[k])
    ensures |g| == |base|
  {
    if ps == [] then base
    else
      var last := ps[|ps| - 1];
      CarveShape(w, h, last);
      Carved(base, w, h, ps[..|ps| - 1])[CarveIndex(w, last) := false]
  }

  /** Carving only ever opens the carved cells: everything else keeps its base value. */
  lemma {:induction false} CarvedAt(base: seq<bool>, w: int, h: int, ps: seq<Carve>, i: int)
    requires w > 0
    requires |base| == MapSize(w, h)
    requires forall k :: 0 <= k < |ps| ==> ValidCarve(w, h, ps[k])
    requires 0 <= i < |base|
    ensures Carved(base, w, h, ps)[i] <==> base[i] && i !in Opened(w, ps)
  {
    if ps != [] {
      var front := ps[..|ps| - 1];
      assert forall k :: 0 <= k < |front| ==> front[k] == ps[k];
      CarvedAt(base, w, h, front, i);
    }
  }

  /**
   * After carving from the initial map, a map cell is ground iff it is a
   * node (odd row and odd column) or it is the cell opened by some carve.
   */
  lemma GroundCells(w: nat, h: nat, ps: seq<Carve>, row: int, col: int)
    requires w > 0 && h > 0
    requires forall k :: 0 <= k < |ps| ==> ValidCarve(w, h, ps[k])
    requires 0 <= row < Rows(h) && 0 <= col < Cols(w)
    ensures 0 <= Index(Cols(w), row, col) < MapSize(w, h)
    ensures !Carved(InitialGrid(w, h), w, h, ps)[Index(Cols(w), row, col)] <==>
              (row % 2 == 1 && col % 2 == 1) || Index(Cols(w), row, col) in Opened(w, ps)
  {
    InitialGridAt(w, h, row, col);
    CarvedAt(InitialGrid(w, h), w, h, ps, Index(Cols(w), row, col));
  }

  /**
   * Border cells and even/even cells remain walls, and nodes remain
   * ground, whatever is carved.
   */
  lemma WallsAndNodesKept(w: nat, h: nat, ps: seq<Carve>, row: int, col: int)
    requires w > 0 && h > 0
    requires forall k :: 0 <= k < |ps| ==> ValidCarve(w, h, ps[k])
    requires 0 <= row < Rows(h) && 0 <= col < Cols(w)
    ensures 0 <= Index(Cols(w), row, col) < MapSize(w, h)
    ensures ((row % 2 == 0 && col % 2 == 0) || row == 0 || col == 0 || row == 2 * h || col == 2 * w)
              ==> Carved(InitialGrid(w, h), w, h, ps)[Index(Cols(w), row, col)]
    ensures row % 2 == 1 && col % 2 == 1 ==> !Carved(InitialGrid(w, h), w, h, ps)[Index(Cols(w), row, col)]
  {
    GroundCells(w, h, ps, row, col);
    var i := Index(Cols(w), row, col);
    if i in Opened(w, ps) {
      var k :| 0 <= k < |ps| && CarveIndex(w, ps[k]) == i;
      CarveShape(w, h, ps[k]);
      IndexDecode(Cols(w), row, col);
    }
  }

  // ---------------------------------------------------------------------
  // Tree structure of the carves
  // ---------------------------------------------------------------------

  predicate NoDup<T(==)>(s: seq<T>)
  {
    forall i, j :: 0 <= i < j < |s| ==> s[i] != s[j]
  }

  /**
   * `order` lists visited logical cells in the order they were reached, and
   * carve k joins an already visited cell to the newly visited `order[k+1]`.
   */
  ghost predicate TreeOrder(w: int, h: int, order: seq<int>, ps: seq<Carve>)
  {
    |order| >= 1 && |ps| == |order| - 1 && NoDup(order) &&
    (forall i :: 0 <= i < |order| ==> 0 <= order[i] < w * h) &&
    (forall k :: 0 <= k < |ps| ==> ValidCarve(w, h, ps[k])) &&
    (forall k :: 0 <= k < |ps| ==> ps[k].cell in order[..k + 1] && Target(w, ps[k]) == order[k + 1])
  }

  /** Visiting a fresh neighbour of a visited cell keeps the tree order. */
  lemma TreeOrderExtend(w: int, h: int, order: seq<int>, ps: seq<Carve>, p: Carve)
    requires TreeOrder(w, h, order, ps) && ValidCarve(w, h, p)
    requires p.cell in order && Target(w, p) !in order
    ensures TreeOrder(w, h, order + [Target(w, p)], ps + [p])
  {
    TargetCoordinates(w, h, p);
    var order', ps' := order + [Target(w, p)], ps + [p];
    forall k | 0 <= k < |ps'|
      ensures ps'[k].cell in order'[..k + 1] && Target(w, ps'[k]) == order'[k + 1]
    {
      assert order'[..k + 1] == order[..k + 1] || k == |ps|;
      if k == |ps| {
        assert order'[..k + 1] == order;
      }
    }
  }

  /** Marking a cell and appending it to the visiting order keeps the two in agreement. */
  lemma MarkVisited(visited: seq<bool>, order: seq<int>, t: int)
    requires forall c :: 0 <= c < |visited| ==> (visited[c] <==> c in order)
    requires 0 <= t < |visited|
    ensures forall c :: 0 <= c < |visited| ==> (visited[t := true][c] <==> c in order + [t])
  {
  }

  /** Carving one more passage updates exactly its own cell. */
  lemma CarvedSnoc(base: seq<bool>, w: int, h: int, ps: seq<Carve>, p: Carve)
    requires |base| == MapSize(w, h)
    requires forall k :: 0 <= k < |ps| ==> ValidCarve(w, h, ps[k])
    requires ValidCarve(w, h, p)
    ensures 0 <= CarveIndex(w, p) < |base|
    ensures Carved(base, w, h, ps + [p]) == Carved(base, w, h, ps)[CarveIndex(w, p) := false]
  {
    CarveShape(w, h, p);
    assert (ps + [p])[..|ps|] == ps;
  }

  /** A walk over ground cells of `g` whose consecutive entries are 4-neighbours. */
  ghost predicate GroundWalk(g: seq<bool>, cols: int, walk: seq<int>)
    requires cols > 0
  {
    |walk| >= 1 &&
    (forall i :: 0 <= i < |walk| ==> 0 <= walk[i] < |g| && !g[walk[i]]) &&
    (forall i :: 0 <= i < |walk| - 1 ==> Adjacent(cols, walk[i], walk[i + 1]))
  }

  /** The node of a carve's cell, the opened cell and the node of its target are a walk. */
  lemma CarveStep(w: nat, h: nat, p: Carve)
    requires ValidCarve(w, h, p)
    ensures Adjacent(Cols(w), NodeIndex(w, p.cell), CarveIndex(w, p))
    ensures Adjacent(Cols(w), CarveIndex(w, p), NodeIndex(w, Target(w, p)))
  {
    TargetCoordinates(w, h, p);
    CarveShape(w, h, p);
    var x, y := CellX(w, p.cell), CellY(w, p.cell);
    AdjacentByCoordinates(Cols(w), 2 * y + 1, 2 * x + 1, CarveRow(w, p), CarveCol(w, p));
    AdjacentByCoordinates(Cols(w), CarveRow(w, p), CarveCol(w, p),
                          2 * (y + OffR[p.dir]) + 1, 2 * (x + OffC[p.dir]) + 1);
  }

  lemma NodeInRange(w: nat, h: nat, c: int)
    requires w > 0 && h > 0 && 0 <= c < w * h
    ensures 0 <= NodeIndex(w, c) < MapSize(w, h)
    ensures NodeIndex(w, c) / Cols(w) == 2 * CellY(w, c) + 1
    ensures NodeIndex(w, c) % Cols(w) == 2 * CellX(w, c) + 1
  {
    IndexSplit(w, h, c);
    IndexBounds(Cols(w), Rows(h), 2 * CellY(w, c) + 1, 2 * CellX(w, c) + 1);
    IndexDecode(Cols(w), 2 * CellY(w, c) + 1, 2 * CellX(w, c) + 1);
  }

  /**
   * Connectivity: in the carved map, the node of every visited cell is
   * reached from the node of the first visited cell by a ground walk.
   */
  lemma {:induction false} ReachableFromStart(w: nat, h: nat, order: seq<int>, ps: seq<Carve>, i: int)
    returns (walk: seq<int>)
    requires TreeOrder(w, h, order, ps) && 0 <= i < |order|
    ensures GroundWalk(Carved(InitialGrid(w, h), w, h, ps), Cols(w), walk)
    ensures walk[0] == NodeIndex(w, order[0]) && walk[|walk| - 1] == NodeIndex(w, order[i])
    decreases i
  {
    var g := Carved(InitialGrid(w, h), w, h, ps);
    if i == 0 {
      walk := [NodeIndex(w, order[0])];
      NodeGround(w, h, ps, order[0]);
    } else {
      var p := ps[i - 1];
      var j :| 0 <= j <= i - 1 && order[j] == p.cell;
      var prefix := ReachableFromStart(w, h, order, ps, j);
      CarveStep(w, h, p);
      CarveShape(w, h, p);
      CarvedAt(InitialGrid(w, h), w, h, ps, CarveIndex(w, p));
      NodeGround(w, h, ps, order[i]);
      assert Target(w, p) == order[i];
      walk := WalkExtend(g, Cols(w), prefix, CarveIndex(w, p), NodeIndex(w, order[i]));
    }
  }

  /** A ground walk extended by two more ground cells, each next to the one before. */
  lemma WalkExtend(g: seq<bool>, cols: int, prefix: seq<int>, a: int, b: int) returns (walk: seq<int>)
    requires cols > 0 && GroundWalk(g, cols, prefix)
    requires 0 <= a < |g| && !g[a] && 0 <= b < |g| && !g[b]
    requires Adjacent(cols, prefix[|prefix| - 1], a) && Adjacent(cols, a, b)
    ensures walk == prefix + [a, b] && GroundWalk(g, cols, walk)
  {
    walk := prefix + [a, b];
    forall k | 0 <= k < |walk| - 1 ensures Adjacent(cols, walk[k], walk[k + 1]) {
      if k < |prefix| - 1 {
        assert walk[k] == prefix[k] && walk[k + 1] == prefix[k + 1];
      }
    }
  }

  lemma NodeGround(w: nat, h: nat, ps: seq<Carve>, c: int)
    requires w > 0 && h > 0 && 0 <= c < w * h
    requires forall k :: 0 <= k < |ps| ==> ValidCarve(w, h, ps[k])
    ensures 0 <= NodeIndex(w, c) < MapSize(w, h)
    ensures !Carved(InitialGrid(w, h), w, h, ps)[NodeIndex(w, c)]
  {
    IndexSplit(w, h, c);
    NodeCellGround(w, h, ps, CellY(w, c), CellX(w, c));
  }

  /** The odd/odd map cell of logical row y and column x is ground. */
  lemma NodeCellGround(w: nat, h: nat, ps: seq<Carve>, y: int, x: int)
    requires 0 <= y < h && 0 <= x < w
    requires forall k :: 0 <= k < |ps| ==> ValidCarve(w, h, ps[k])
    ensures 0 <= Index(Cols(w), 2 * y + 1, 2 * x + 1) < MapSize(w, h)
    ensures !Carved(InitialGrid(w, h), w, h, ps)[Index(Cols(w), 2 * y + 1, 2 * x + 1)]
  {
    InitialGridAt(w, h, 2 * y + 1, 2 * x + 1);
    CarvedKeepsGround(InitialGrid(w, h), w, h, ps, Index(Cols(w), 2 * y + 1, 2 * x + 1));
  }

  /** Carving only opens walls: a ground cell of the base stays ground. */
  lemma {:induction false} CarvedKeepsGround(base: seq<bool>, w: int, h: int, ps: seq<Carve>, i: int)
    requires |base| == MapSize(w, h)
    requires forall k :: 0 <= k < |ps| ==> ValidCarve(w, h, ps[k])
    requires 0 <= i < |base| && !base[i]
    ensures !Carved(base, w, h, ps)[i]
  {
    if ps != [] {
      var front := ps[..|ps| - 1];
      assert forall k :: 0 <= k < |front| ==> front[k] == ps[k];
      CarvedKeepsGround(base, w, h, front, i);
    }
  }

  /** Two unit steps with the same midpoint join the same two points. */
  lemma SameMidpoint(y1: int, x1: int, d1: Dir, y2: int, x2: int, d2: Dir)
    requires 2 * y1 + OffR[d1] == 2 * y2 + OffR[d2] && 2 * x1 + OffC[d1] == 2 * x2 + OffC[d2]
    ensures (y1 == y2 && x1 == x2 && d1 == d2) ||
            (y1 == y2 + OffR[d2] && x1 == x2 + OffC[d2] && y2 == y1 + OffR[d1] && x2 == x1 + OffC[d1])
  {
  }

  /** Two carves open the same map cell only if they join the same two logical cells. */
  lemma SameOpenedCell(w: nat, h: nat, p1: Carve, p2: Carve)
    requires ValidCarve(w, h, p1) && ValidCarve(w, h, p2)
    requires CarveIndex(w, p1) == CarveIndex(w, p2)
    ensures (p1.cell == p2.cell && Target(w, p1) == Target(w, p2)) ||
            (p1.cell == Target(w, p2) && Target(w, p1) == p2.cell)
  {
    CarveShape(w, h, p1);
    CarveShape(w, h, p2);
    var y1, x1, y2, x2 := CellY(w, p1.cell), CellX(w, p1.cell), CellY(w, p2.cell), CellX(w, p2.cell);
    SameMidpoint(y1, x1, p1.dir, y2, x2, p2.dir);
    TargetCoordinates(w, h, p1);
    TargetCoordinates(w, h, p2);
    if y1 == y2 && x1 == x2 && p1.dir == p2.dir {
      CellByCoordinates(w, h, p1.cell, p2.cell);
    } else {
      CellByCoordinates(w, h, p1.cell, Target(w, p2));
      CellByCoordinates(w, h, Target(w, p1), p2.cell);
    }
  }

  /** Logical cells with the same coordinates are the same cell. */
  lemma CellByCoordinates(w: int, h: int, a: int, b: int)
    requires w > 0 && 0 <= a < w * h && 0 <= b < w * h
    requires CellX(w, a) == CellX(w, b) && CellY(w, a) == CellY(w, b)
    ensures a == b
  {
    IndexSplit(w, h, a);
    IndexSplit(w, h, b);
  }

  /**
   * No two carves of a tree order open the same map cell: each carve joins
   * a visited cell to a cell that was not visited before, so no carve can
   * repeat an earlier passage.
   */
  lemma CarvesOpenDistinctCells(w: nat, h: nat, order: seq<int>, ps: seq<Carve>)
    requires TreeOrder(w, h, order, ps)
    ensures forall k1, k2 :: 0 <= k1 < k2 < |ps| ==> CarveIndex(w, ps[k1]) != CarveIndex(w, ps[k2])
  {
    forall k1, k2 | 0 <= k1 < k2 < |ps| ensures CarveIndex(w, ps[k1]) != CarveIndex(w, ps[k2]) {
      if CarveIndex(w, ps[k1]) == CarveIndex(w, ps[k2]) {
        SameOpenedCell(w, h, ps[k1], ps[k2]);
        assert false;
      }
    }
  }

  /** Pairwise distinct carves open exactly as many cells as there are carves. */
  lemma {:induction false} OpenedCount(w: int, ps: seq<Carve>)
    requires w > 0
    requires forall k1, k2 :: 0 <= k1 < k2 < |ps| ==> CarveIndex(w, ps[k1]) != CarveIndex(w, ps[k2])
    ensures |Opened(w, ps)| == |ps|
  {
    if ps != [] {
      var front := ps[..|ps| - 1];
      assert forall k :: 0 <= k < |front| ==> front[k] == ps[k];
      OpenedCount(w, front);
      assert CarveIndex(w, ps[|ps| - 1]) !in Opened(w, front);
    }
  }

  /** A duplicate-free sequence has as many distinct elements as entries. */
  lemma {:induction false} NoDupSetCard(s: seq<int>)
    requires NoDup(s)
    ensures |set x | x in s| == |s|
  {
    if s != [] {
      var t := s[..|s| - 1];
      NoDupSetCard(t);
      assert (set x | x in s) == (set x | x in t) + {s[|s| - 1]};
    }
  }

  /** A duplicate-free sequence of values below n has at most n entries. */
  lemma NoDupBound(s: seq<int>, n: nat)
    requires NoDup(s) && forall i :: 0 <= i < |s| ==> 0 <= s[i] < n
    ensures |s| <= n
  {
    NoDupSetCard(s);
    SubsetCard((set x | x in s), Range(n));
  }

  /** The integers 0..n-1. */
  function Range(n: nat): (r: set<int>)
    ensures forall i :: i in r <==> 0 <= i < n
    ensures |r| == n
  {
    if n == 0 then {} else Range(n - 1) + {n - 1}
  }

  lemma SubsetCard<T>(a: set<T>, b: set<T>)
    requires a <= b
    ensures |a| <= |b|
    decreases a
  {
    if a != {} {
      var x :| x in a;
      SubsetCard(a - {x}, b - {x});
    }
  }

  /** n distinct values below n are all of 0..n-1. */
  lemma Pigeonhole(s: seq<int>, n: nat)
    requires NoDup(s) && |s| == n && forall i :: 0 <= i < |s| ==> 0 <= s[i] < n
    ensures forall c :: 0 <= c < n ==> c in s
  {
    var a := set x | x in s;
    NoDupSetCard(s);
    forall c | 0 <= c < n ensures c in s {
      if c !in s {
        SubsetCard(a, Range(n) - {c});
      }
    }
  }

  /**
   * A spanning tree over the logical cells: when all w*h cells are in a
   * tree order, every cell was visited and exactly w*h - 1 distinct
   * passage cells are opened.
   */
  lemma SpanningTree(w: nat, h: nat, order: seq<int>, ps: seq<Carve>)
    requires TreeOrder(w, h, order, ps) && |order| == w * h
    ensures |Opened(w, ps)| == w * h - 1
    ensures forall c :: 0 <= c < w * h ==> c in order
  {
    CarvesOpenDistinctCells(w, h, order, ps);
    OpenedCount(w, ps);
    Pigeonhole(order, w * h);
  }

  /**
   * Connectivity of the spanning tree: the node of every logical cell is
   * reached from the start node by a walk over ground cells.
   */
  lemma AllNodesReachable(w: nat, h: nat, order: seq<int>, ps: seq<Carve>, c: int)
    returns (walk: seq<int>)
    requires TreeOrder(w, h, order, ps) && |order| == w * h && 0 <= c < w * h
    ensures GroundWalk(Carved(InitialGrid(w, h), w, h, ps), Cols(w), walk)
    ensures walk[0] == NodeIndex(w, order[0]) && walk[|walk| - 1] == NodeIndex(w, c)
  {
    Pigeonhole(order, w * h);
    assert c in order;
    var i :| 0 <= i < |order| && order[i] == c;
    walk := ReachableFromStart(w, h, order, ps, i);
  }

  // ---------------------------------------------------------------------
  // The hint search
  // ---------------------------------------------------------------------

  /**
   * The search target of the hint: map row 1, column 2w-1, the cell just
   * left of the top-right corner's border. With stride 2w+1 its index is 4w.
   */
  function Goal(w: int): (g: int)
    ensures g == Index(Cols(w), 1, Cols(w) - 2)
  {
    4 * w
  }

  /**
   * `h` extends the search stack `start` into a hint: it begins with
   * `start`, ends at `target`, repeats no cell, stays inside the map, and
   * after the seed it steps only onto ground cells, each a 4-neighbour of
   * the one before.
   */
  ghost predicate HintPath(g: seq<bool>, cols: int, target: int, start: seq<int>, h: seq<int>)
    requires cols > 0
  {
    1 <= |start| <= |h| && h[..|start|] == start && h[|h| - 1] == target && NoDup(h) &&
    (forall i :: 0 <= i < |h| ==> 0 <= h[i] < |g|) &&
    (forall i :: |start| <= i < |h| ==> !g[h[i]]) &&
    (forall i :: |start| - 1 <= i < |h| - 1 ==> Adjacent(cols, h[i], h[i + 1]))
  }

  /** A hint for the stack with one more ground neighbour pushed is a hint for the stack itself. */
  lemma HintPathPop(g: seq<bool>, cols: int, target: int, start: seq<int>, q: int, h: seq<int>)
    requires cols > 0 && |start| >= 1
    requires 0 <= q < |g| && !g[q] && Adjacent(cols, start[|start| - 1], q)
    requires HintPath(g, cols, target, start + [q], h)
    ensures HintPath(g, cols, target, start, h)
  {
    assert h[..|start|] == (h[..|start| + 1])[..|start|];
    assert h[|start|] == q;
  }
}
