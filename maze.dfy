/**
 * The maze object: the doubled wall/ground map of a width x height maze,
 * its generator (initialize + randomize = refresh) and the backtracking
 * hint search (dfs) with its `path` and `hint` vectors.
 */
module MazeModel {
  import opened Indexing
  import opened Grid

  class Maze {
    /** Logical columns (MAZE_WIDTH). */
    const width: int
    /** Logical rows (MAZE_HEIGHT). */
    const height: int
    /** The doubled map, row-major with stride 2*width+1; true is wall. */
    const mazemap: array<bool>
    /** The last path the hint search found. */
    var hint: seq<int>
    /** The search stack of the hint search. */
    var path: seq<int>

    ghost predicate Valid()
      reads this
    {
      width >= 1 && height >= 1 && mazemap.Length == MapSize(width, height)
    }

    /** The default constructor: an allocated map of the right size and an empty path. */
    constructor (w: int, h: int)
      requires w >= 1 && h >= 1
      ensures Valid() && width == w && height == h
      ensures path == [] && hint == [] && fresh(mazemap)
    {
      width, height := w, h;
      mazemap := new bool[MapSize(w, h)];
      path, hint := [], [];
    }

    /** Every even row and every even column becomes wall, every other cell ground. */
    method Initialize()
      requires Valid()
      modifies mazemap
      ensures mazemap[..] == InitialGrid(width, height)
    {
      ghost var g := InitialGrid(width, height);
      var cols := Cols(width);
      var iter := 0;
      var i := 0;
      while i < Rows(height)
        invariant 0 <= i <= Rows(height)
        invariant iter == i * cols && iter <= mazemap.Length
        invariant forall n :: 0 <= n < iter ==> mazemap[n] == g[n]
      {
        MulSucc(i, cols);
        MulLeq(i + 1, Rows(height), cols);
        var j := 0;
        while j < cols
          invariant 0 <= j <= cols
          invariant iter == i * cols + j && iter - j + cols <= mazemap.Length
          invariant forall n :: 0 <= n < iter ==> mazemap[n] == g[n]
        {
          InitialGridAt(width, height, i, j);
          if i % 2 == 0 || j % 2 == 0 {
            mazemap[iter] := true;
          } else {
            mazemap[iter] := false;
          }
          j, iter := j + 1, iter + 1;
        }
        i := i + 1;
      }
      assert iter == mazemap.Length == |g|;
      assert mazemap[..] == g;
    }

    /**
     * The direction search of one walk step: up to four random directions
     * are drawn, and the first that leads to an in-bounds cell not yet
     * visited is taken. `offs` is -1 when all four draws failed (or `rng`
     * ran out); `k'` is the position of the next unused draw.
     */
    method ChooseDirection(cur: int, isAccessed: seq<bool>, rng: seq<nat>, k: nat) returns (offs: int, k': nat)
      requires Valid() && 0 <= cur < width * height && |isAccessed| == width * height && k <= |rng|
      ensures k <= k' <= |rng|
      ensures offs == -1 ==> k' == |rng| || k' == k + 4
      ensures offs != -1 ==> 0 <= offs < 4 && k < k' && offs == DrawDir(rng[k' - 1])
      ensures offs != -1 ==> FreshStep(width, height, cur, offs, isAccessed)
    {
      var tx := cur % width;
      var ty := cur / width;
      offs, k' := -1, k;
      var j := 0;
      while j < 4 && offs == -1 && k' < |rng|
        invariant 0 <= j <= 4 && k <= k' <= |rng|
        invariant offs == -1 ==> k' == k + j
        invariant offs != -1 ==> 0 <= offs < 4 && k < k' && offs == DrawDir(rng[k' - 1])
        invariant offs != -1 ==> FreshStep(width, height, cur, offs, isAccessed)
      {
        var around := DrawDir(rng[k']);
        k' := k' + 1;
        var nx := tx + OffC[around];
        var ny := ty + OffR[around];
        if ny >= 0 && nx >= 0 && ny < height && nx < width {
          TargetCoordinates(width, height, Carve(cur, around));
          if !isAccessed[cur + OffA(width, around)] {
            offs := around;
          }
        }
        j := j + 1;
      }
    }

    /**
     * Opens the wall between logical cell `cur` and its neighbour in
     * direction `offs`: the map entry (2y+1+offr, 2x+1+offc).
     */
    method OpenPassage(cur: int, offs: Dir, ghost base: seq<bool>, ghost carves: seq<Carve>)
      requires Valid() && ValidCarve(width, height, Carve(cur, offs))
      requires |base| == MapSize(width, height)
      requires forall k :: 0 <= k < |carves| ==> ValidCarve(width, height, carves[k])
      requires mazemap[..] == Carved(base, width, height, carves)
      modifies mazemap
      ensures mazemap[..] == Carved(base, width, height, carves + [Carve(cur, offs)])
    {
      ghost var p := Carve(cur, offs);
      CarveShape(width, height, p);
      CarvedSnoc(base, width, height, carves, p);
      var tx := cur % width * 2 + 1 + OffC[offs];
      var ty := cur / width * 2 + 1 + OffR[offs];
      assert tx == CarveCol(width, p) && ty == CarveRow(width, p);
      mazemap[ty * Cols(width) + tx] := false;
    }

    /**
     * The randomized walk with restarts. Every draw of the random number
     * generator takes the next entry of `rng`, reduced into the drawn
     * interval; the walk stops early when `rng` runs out. `order` and
     * `carves` are the visiting order and the passages carved.
     */
    method Randomize(rng: seq<nat>) returns (complete: bool, ghost order: seq<int>, ghost carves: seq<Carve>)
      requires Valid()
      modifies mazemap
      ensures forall k :: 0 <= k < |carves| ==> ValidCarve(width, height, carves[k])
      ensures mazemap[..] == Carved(old(mazemap[..]), width, height, carves)
      ensures order == [] <==> rng == []
      ensures rng == [] ==> carves == []
      ensures order != [] ==> TreeOrder(width, height, order, carves)
      ensures complete <==> |order| == width * height
    {
      ghost var base := mazemap[..];
      var size := width * height;
      complete, order, carves := false, [], [];
      if |rng| == 0 {
        return;
      }
      var k := 0;
      var cur := rng[k] % size;
      k := k + 1;
      var accessed := [cur];
      var isAccessed := seq(size, _ => false)[cur := true];
      var exhausted := false;
      while |accessed| < size && !exhausted
        invariant 0 <= k <= |rng|
        invariant |isAccessed| == size && 1 <= |accessed| <= size
        invariant TreeOrder(width, height, accessed, carves)
        invariant forall c :: 0 <= c < size ==> (isAccessed[c] <==> c in accessed)
        invariant 0 <= cur < size && isAccessed[cur]
        invariant mazemap[..] == Carved(base, width, height, carves)
        decreases |rng| - k, if exhausted then 0 else 1
      {
        var offs;
        offs, k := ChooseDirection(cur, isAccessed, rng, k);
        if offs < 0 {
          if k == |rng| {
            exhausted := true;
          } else {
            var tcur := rng[k] % |accessed|;
            k := k + 1;
            cur := accessed[tcur];
          }
        } else {
          cur, accessed, isAccessed, carves := Advance(cur, offs, accessed, isAccessed, base, carves);
        }
      }
      complete := |accessed| == size;
      order := accessed;
    }

    /**
     * One carving step of the walk: open the wall towards the fresh
     * neighbour in direction `offs`, move there and mark it visited.
     */
    method Advance(cur: int, offs: int, accessed: seq<int>, isAccessed: seq<bool>, ghost base: seq<bool>, ghost carves: seq<Carve>)
      returns (cur': int, accessed': seq<int>, isAccessed': seq<bool>, ghost carves': seq<Carve>)
      requires Valid() && |base| == MapSize(width, height) && |isAccessed| == width * height
      requires TreeOrder(width, height, accessed, carves) && 0 <= cur < width * height && cur in accessed
      requires forall c :: 0 <= c < width * height ==> (isAccessed[c] <==> c in accessed)
      requires FreshStep(width, height, cur, offs, isAccessed)
      requires mazemap[..] == Carved(base, width, height, carves)
      modifies mazemap
      ensures cur' == cur + OffA(width, offs) && accessed' == accessed + [cur'] && carves' == carves + [Carve(cur, offs)]
      ensures TreeOrder(width, height, accessed', carves') && |accessed'| == |accessed| + 1
      ensures |isAccessed'| == width * height && 0 <= cur' < width * height && isAccessed'[cur']
      ensures forall c :: 0 <= c < width * height ==> (isAccessed'[c] <==> c in accessed')
      ensures mazemap[..] == Carved(base, width, height, carves')
    {
      var p := Carve(cur, offs);
      TreeOrderExtend(width, height, accessed, carves, p);
      MarkVisited(isAccessed, accessed, Target(width, p));
      OpenPassage(cur, offs, base, carves);
      cur' := cur + OffA(width, offs);
      isAccessed' := isAccessed[cur' := true];
      accessed' := accessed + [cur'];
      carves' := carves + [p];
    }

    /** initialize, then randomize. */
    method Refresh(rng: seq<nat>) returns (complete: bool, ghost order: seq<int>, ghost carves: seq<Carve>)
      requires Valid()
      modifies mazemap
      ensures forall k :: 0 <= k < |carves| ==> ValidCarve(width, height, carves[k])
      ensures mazemap[..] == Carved(InitialGrid(width, height), width, height, carves)
      ensures order == [] <==> rng == []
      ensures order != [] ==> TreeOrder(width, height, order, carves)
      ensures complete <==> |order| == width * height
      ensures complete ==> |Opened(width, carves)| == width * height - 1
    {
      Initialize();
      complete, order, carves := Randomize(rng);
      if complete {
        SpanningTree(width, height, order, carves);
      }
    }

    /**
     * The backtracking hint search from map cell `pos`, the top of `path`.
     * Arriving at the goal copies the current stack into `hint`; otherwise
     * each of the four directions is tried in turn.
     */
    method Dfs(pos: int)
      requires Valid() && |path| >= 1 && path[|path| - 1] == pos && NoDup(path)
      requires forall i :: 0 <= i < |path| ==> 0 <= path[i] < mazemap.Length
      modifies this
      ensures path == old(path)
      ensures hint == old(hint) || HintPath(mazemap[..], Cols(width), Goal(width), path, hint)
      decreases mazemap.Length - |path|, 1
    {
      if pos == Goal(width) {
        hint := path;
        return;
      }
      var i := 0;
      while i < 4
        invariant path == old(path)
        invariant hint == old(hint) || HintPath(mazemap[..], Cols(width), Goal(width), path, hint)
      {
        TryNeighbour(pos, i);
        i := i + 1;
      }
    }

    /**
     * One direction of the search from `pos`: an in-bounds ground neighbour
     * not yet on the stack is pushed, searched from and popped again.
     */
    method TryNeighbour(pos: int, d: Dir)
      requires Valid() && |path| >= 1 && path[|path| - 1] == pos && NoDup(path)
      requires forall i :: 0 <= i < |path| ==> 0 <= path[i] < mazemap.Length
      modifies this
      ensures path == old(path)
      ensures hint == old(hint) || HintPath(mazemap[..], Cols(width), Goal(width), path, hint)
      decreases mazemap.Length - |path|, 0
    {
      var cols := Cols(width);
      IndexSplit(cols, Rows(height), pos);
      var y := pos / cols;
      var x := pos % cols;
      var nx := x + OffC[d];
      var ny := y + OffR[d];
      if ny >= 0 && nx >= 0 && ny < Rows(height) && nx < cols {
        IndexBounds(cols, Rows(height), ny, nx);
        var q := ny * cols + nx;
        if !mazemap[q] && q !in path {
          ghost var stack, found, g := path, hint, mazemap[..];
          path := path + [q];
          NoDupBound(path, mazemap.Length);
          Dfs(q);
          ghost var pushed := path;
          path := path[..|path| - 1];
          assert path == stack && pushed == stack + [q];
          if hint != found {
            assert Index(cols, y, x) == stack[|stack| - 1] && Index(cols, ny, nx) == q;
            AdjacentByCoordinates(cols, y, x, ny, nx);
            assert HintPath(g, cols, Goal(width), pushed, hint);
            HintPathPop(g, cols, Goal(width), stack, q, hint);
          }
        }
      }
    }
  }
}
