/**
 * The discrete part of one frame of the game loop: move acceptance under
 * the key gate, committing a move once the moving interval has passed,
 * and the restart, quit, hint and win checks, in that order.
 *
 * `Step` is the specification of a frame on values; `Game.Frame` is the
 * frame itself over the mouse object and the maze, proved against it.
 */
module Play {
  import opened Indexing
  import opened Grid
  import opened MazeModel

  /** A frame that comes more than this long after a move re-arms the key gate. */
  const KeyGate: real := 0.1
  /** Time a move takes before it is committed (mouse_moving_interval). */
  const MouseMovingInterval: real := 0.15
  /** Minimum time between two restarts or two hint toggles (key_interval). */
  const KeyInterval: real := 0.25

  /**
   * Keys held in this frame. `left` is A or the left arrow, `down` is S or
   * the down arrow, `right` is D or the right arrow, `up` is W or the up
   * arrow; `enter` is the restart key, `escape` quits, `space` toggles the hint.
   */
  datatype Keys = Keys(left: bool, down: bool, right: bool, up: bool, enter: bool, escape: bool, space: bool)

  /** Map column and row of the mouse, and its pending move. */
  datatype Cursor = Cursor(x: int, y: int, isMoving: bool, toMove: int)

  /** The time stamps the loop keeps. */
  datatype Times = Times(prev: real, printed: real, start: real, hintPrev: real, newPrev: real)

  /** The state a frame reads and updates. */
  datatype Control = Control(cursor: Cursor, accKey: bool, isHinted: bool, times: Times)

  datatype Outcome = Running | Quit | Won

  /**
   * What a frame does: the new state, how the loop goes on, the direction
   * accepted in this frame (-1 for none), whether the game restarted and
   * whether the hint search runs.
   */
  datatype Effect = Effect(next: Control, outcome: Outcome, accepted: int, restart: bool, search: bool)

  // ---------------------------------------------------------------------
  // The mouse start position
  // ---------------------------------------------------------------------

  /** Start column: the maze width, made odd by stepping one left. */
  function StartX(w: int): int
  {
    w - (if w % 2 == 0 then 1 else 0)
  }

  /** Start row: the maze height, made odd by stepping one up. */
  function StartY(h: int): int
  {
    h + (if h % 2 == 0 then 1 else 0)
  }

  function StartCursor(w: int, h: int): Cursor
  {
    Cursor(StartX(w), StartY(h), false, -1)
  }

  // ---------------------------------------------------------------------
  // Reading the map around the mouse
  // ---------------------------------------------------------------------

  /** Strictly inside the wall border of the doubled map. */
  predicate Inside(w: int, h: int, x: int, y: int)
  {
    1 <= x <= 2 * w - 1 && 1 <= y <= 2 * h - 1
  }

  /** Map cell at column x, row y of a map of the right size is a wall. */
  function At(w: int, h: int, g: seq<bool>, x: int, y: int): bool
    requires |g| == MapSize(w, h) && 0 <= x < Cols(w) && 0 <= y < Rows(h)
  {
    IndexBounds(Cols(w), Rows(h), y, x);
    g[Index(Cols(w), y, x)]
  }

  /** `g` is a map produced by `refresh`: the initial map with some passages carved. */
  ghost predicate IsMaze(w: int, h: int, g: seq<bool>, ps: seq<Carve>)
  {
    w >= 1 && h >= 1 && (forall k :: 0 <= k < |ps| ==> ValidCarve(w, h, ps[k])) &&
    g == Carved(InitialGrid(w, h), w, h, ps)
  }

  /**
   * The mouse is on ground strictly inside the border, and a pending move
   * goes to a ground cell.
   */
  predicate Safe(w: int, h: int, g: seq<bool>, c: Cursor)
    requires |g| == MapSize(w, h)
  {
    Inside(w, h, c.x, c.y) && !At(w, h, g, c.x, c.y) &&
    (c.isMoving ==> 0 <= c.toMove < 4 && !At(w, h, g, c.x + OffC[c.toMove], c.y + OffR[c.toMove]))
  }

  /** The start position is a node (odd column, odd row), so it is safe in every maze. */
  lemma StartSafe(w: int, h: int, g: seq<bool>, ps: seq<Carve>)
    requires IsMaze(w, h, g, ps)
    ensures StartX(w) % 2 == 1 && StartY(h) % 2 == 1
    ensures Safe(w, h, g, StartCursor(w, h))
  {
    var x, y := StartX(w) / 2, StartY(h) / 2;
    assert 2 * x + 1 == StartX(w) && 2 * y + 1 == StartY(h);
    NodeCellGround(w, h, ps, y, x);
  }

  /** In a maze every ground cell is strictly inside the border. */
  lemma GroundIsInside(w: int, h: int, g: seq<bool>, ps: seq<Carve>, x: int, y: int)
    requires IsMaze(w, h, g, ps)
    requires 0 <= x < Cols(w) && 0 <= y < Rows(h) && !At(w, h, g, x, y)
    ensures Inside(w, h, x, y)
  {
    WallsAndNodesKept(w, h, ps, y, x);
  }

  // ---------------------------------------------------------------------
  // Move acceptance
  // ---------------------------------------------------------------------

  /** The key that asks for direction d (0 up, 1 down, 2 left, 3 right). */
  function KeyFor(k: Keys, d: Dir): bool
  {
    [k.up, k.down, k.left, k.right][d]
  }

  /** Direction d is asked for and leads to a ground cell. */
  predicate Enabled(w: int, h: int, g: seq<bool>, c: Cursor, k: Keys, d: Dir)
    requires |g| == MapSize(w, h) && Inside(w, h, c.x, c.y)
  {
    KeyFor(k, d) && !At(w, h, g, c.x + OffC[d], c.y + OffR[d])
  }

  /** The order in which the directions are tried: left, down, right, up. */
  const Priority: seq<Dir> := [2, 1, 3, 0]

  /** Reference definition: the first enabled direction of `order`, or -1. */
  function FirstEnabled(w: int, h: int, g: seq<bool>, c: Cursor, k: Keys, order: seq<Dir>): (d: int)
    requires |g| == MapSize(w, h) && Inside(w, h, c.x, c.y)
    ensures d == -1 <==> forall i :: 0 <= i < |order| ==> !Enabled(w, h, g, c, k, order[i])
    ensures d != -1 ==> d in order && Enabled(w, h, g, c, k, d)
  {
    if order == [] then -1
    else if Enabled(w, h, g, c, k, order[0]) then order[0]
    else FirstEnabled(w, h, g, c, k, order[1..])
  }

  /** The direction the key checks of a frame accept, or -1. */
  function Accept(w: int, h: int, g: seq<bool>, c: Cursor, k: Keys): (d: int)
    requires |g| == MapSize(w, h) && Inside(w, h, c.x, c.y)
    ensures d == -1 || 0 <= d < 4
  {
    if k.left && !At(w, h, g, c.x - 1, c.y) then 2
    else if k.down && !At(w, h, g, c.x, c.y - 1) then 1
    else if k.right && !At(w, h, g, c.x + 1, c.y) then 3
    else if k.up && !At(w, h, g, c.x, c.y + 1) then 0
    else -1
  }

  /**
   * Acceptance takes the first direction, in the order left, down, right,
   * up, whose key is held and whose neighbouring cell is ground.
   */
  lemma AcceptIsFirstEnabled(w: int, h: int, g: seq<bool>, c: Cursor, k: Keys)
    requires |g| == MapSize(w, h) && Inside(w, h, c.x, c.y)
    ensures Accept(w, h, g, c, k) == FirstEnabled(w, h, g, c, k, Priority)
  {
    var left, down := Enabled(w, h, g, c, k, 2), Enabled(w, h, g, c, k, 1);
    var right, up := Enabled(w, h, g, c, k, 3), Enabled(w, h, g, c, k, 0);
    assert left == (k.left && !At(w, h, g, c.x - 1, c.y));
    assert down == (k.down && !At(w, h, g, c.x, c.y - 1));
    assert right == (k.right && !At(w, h, g, c.x + 1, c.y));
    assert up == (k.up && !At(w, h, g, c.x, c.y + 1));
    assert Accept(w, h, g, c, k) == if left then 2 else if down then 1 else if right then 3 else if up then 0 else -1;
    var p0, p1, p2: seq<Dir> := [0], [3, 0], [1, 3, 0];
    assert p0[1..] == [] && p1[1..] == p0 && p2[1..] == p1 && Priority[1..] == p2;
    var f0 := FirstEnabled(w, h, g, c, k, p0);
    assert f0 == if up then 0 else -1;
    var f1 := FirstEnabled(w, h, g, c, k, p1);
    assert f1 == if right then 3 else f0;
    var f2 := FirstEnabled(w, h, g, c, k, p2);
    assert f2 == if down then 1 else f1;
    assert FirstEnabled(w, h, g, c, k, Priority) == if left then 2 else f2;
  }

  // ---------------------------------------------------------------------
  // One frame
  // ---------------------------------------------------------------------

  /** The state after the movement part of a frame, and the direction accepted (-1 for none). */
  datatype Moved = Moved(state: Control, accepted: int)

  /**
   * The acceptance half of the movement part: the key gate re-arms after a
   * pause longer than KeyGate; a standing mouse with the gate open accepts
   * a direction, closes the gate and stamps the time. The mouse does not
   * change cell.
   */
  function Acceptance(w: int, h: int, g: seq<bool>, s: Control, k: Keys, now: real): (m: Moved)
    requires |g| == MapSize(w, h) && Inside(w, h, s.cursor.x, s.cursor.y)
    requires s.cursor.isMoving ==> 0 <= s.cursor.toMove < 4
    ensures m.state.cursor.x == s.cursor.x && m.state.cursor.y == s.cursor.y
    ensures m.state.cursor.isMoving ==> 0 <= m.state.cursor.toMove < 4
  {
    var c, t := s.cursor, s.times;
    var acc0 := if now - t.prev > KeyGate then true else s.accKey;
    var d := if !c.isMoving && acc0 then Accept(w, h, g, c, k) else -1;
    var c1 := if d != -1 then c.(isMoving := true, toMove := d) else c;
    var acc1 := if d != -1 then false else acc0;
    var t1 := if d != -1 then t.(prev := now, printed := now) else t;
    Moved(Control(c1, acc1, s.isHinted, t1), d)
  }

  /**
   * The commit half of the movement part: a moving mouse whose move has
   * lasted MouseMovingInterval steps into the neighbouring cell and stops.
   */
  function Commit(s: Control, now: real): (r: Control)
    requires s.cursor.isMoving ==> 0 <= s.cursor.toMove < 4
    ensures r.accKey == s.accKey && r.isHinted == s.isHinted && r.times == s.times
    ensures r.cursor != s.cursor <==> s.cursor.isMoving && now - s.times.printed >= MouseMovingInterval
    ensures r.cursor != s.cursor ==>
              !r.cursor.isMoving && r.cursor.toMove == s.cursor.toMove &&
              r.cursor.x == s.cursor.x + OffC[s.cursor.toMove] && r.cursor.y == s.cursor.y + OffR[s.cursor.toMove]
  {
    var c := s.cursor;
    if c.isMoving && now - s.times.printed >= MouseMovingInterval
    then s.(cursor := Cursor(c.x + OffC[c.toMove], c.y + OffR[c.toMove], false, c.toMove))
    else s
  }

  /** The movement part of a frame: acceptance, then commit. */
  function Movement(w: int, h: int, g: seq<bool>, s: Control, k: Keys, now: real): (m: Moved)
    requires |g| == MapSize(w, h) && Inside(w, h, s.cursor.x, s.cursor.y)
    requires s.cursor.isMoving ==> 0 <= s.cursor.toMove < 4
    ensures m.accepted == -1 || 0 <= m.accepted < 4
    ensures m.state.isHinted == s.isHinted && m.state.times.start == s.times.start &&
            m.state.times.hintPrev == s.times.hintPrev && m.state.times.newPrev == s.times.newPrev
    ensures m.accepted != -1 ==> !m.state.accKey && m.state.times.prev == now && m.state.times.printed == now
  {
    var m := Acceptance(w, h, g, s, k, now);
    Moved(Commit(m.state, now), m.accepted)
  }

  /**
   * The checks that follow the movement, in the source's order: restart,
   * quit, hint toggle, win. A restart ends the frame at once.
   */
  function Checks(w: int, h: int, m: Moved, k: Keys, now: real, later: real): (e: Effect)
    ensures e.accepted == m.accepted
    ensures e.restart ==> e.outcome == Running && !e.search
    ensures !e.restart ==> e.next.cursor == m.state.cursor && e.next.times.prev == m.state.times.prev
  {
    var s := m.state;
    if k.enter && s.accKey && now - s.times.newPrev >= KeyInterval then
      Effect(Control(StartCursor(w, h), true, false, Times(later, later, later, later, later)), Running, m.accepted, true, false)
    else if k.escape then
      Effect(s, Quit, m.accepted, false, false)
    else
      var toggle := k.space && s.accKey && now - s.times.hintPrev >= KeyInterval;
      var s' := if toggle then s.(isHinted := !s.isHinted, accKey := false, times := s.times.(hintPrev := now)) else s;
      var won := s'.cursor.x + 2 == Cols(w) && s'.cursor.y - 1 == 0;
      Effect(s', if won then Won else Running, m.accepted, false, toggle && s'.isHinted)
  }

  /**
   * One pass of the game loop. `now` is the frame's clock reading and
   * `later` the clock reading taken after a restart.
   */
  function Step(w: int, h: int, g: seq<bool>, s: Control, k: Keys, now: real, later: real): (e: Effect)
    requires |g| == MapSize(w, h) && Inside(w, h, s.cursor.x, s.cursor.y)
    requires s.cursor.isMoving ==> 0 <= s.cursor.toMove < 4
    ensures e.accepted == -1 || 0 <= e.accepted < 4
    ensures e.restart ==> e.next.cursor == StartCursor(w, h) && e.next.times == Times(later, later, later, later, later)
  {
    Checks(w, h, Movement(w, h, g, s, k, now), k, now, later)
  }

  /**
   * One frame of a run: from map `g` and state `s`, with input `inp`, the
   * frame ends in state `s'` with outcome `o`, and the map becomes `g'`,
   * which differs from `g` only after a restart.
   */
  ghost predicate FrameStep(w: int, h: int, g: seq<bool>, s: Control, inp: Input, o: Outcome, s': Control, g': seq<bool>)
  {
    |g| == MapSize(w, h) && Safe(w, h, g, s.cursor) &&
    var e := Step(w, h, g, s, inp.keys, inp.now, inp.later);
    o == e.outcome && s' == e.next && (!e.restart ==> g' == g)
  }

  /**
   * A run of frames: frame j starts from map `maps[j]` and state
   * `states[j]`, takes input j, and ends with `states[j + 1]`, map
   * `maps[j + 1]` and outcome `outcomes[j]`.
   */
  ghost predicate FrameTrace(w: int, h: int, inputs: seq<Input>, maps: seq<seq<bool>>, states: seq<Control>, outcomes: seq<Outcome>)
  {
    |outcomes| <= |inputs| && |maps| == |outcomes| + 1 && |states| == |outcomes| + 1 &&
    forall j :: 0 <= j < |outcomes| ==> FrameStep(w, h, maps[j], states[j], inputs[j], outcomes[j], states[j + 1], maps[j + 1])
  }

  /** A run of frames extended by one more frame. */
  lemma FrameTraceSnoc(w: int, h: int, inputs: seq<Input>, maps: seq<seq<bool>>, states: seq<Control>, outcomes: seq<Outcome>,
                       g: seq<bool>, s: Control, o: Outcome)
    requires FrameTrace(w, h, inputs, maps, states, outcomes) && |outcomes| < |inputs|
    requires FrameStep(w, h, maps[|outcomes|], states[|outcomes|], inputs[|outcomes|], o, s, g)
    ensures FrameTrace(w, h, inputs, maps + [g], states + [s], outcomes + [o])
  {
    var maps', states', outcomes' := maps + [g], states + [s], outcomes + [o];
    forall j | 0 <= j < |outcomes'|
      ensures FrameStep(w, h, maps'[j], states'[j], inputs[j], outcomes'[j], states'[j + 1], maps'[j + 1])
    {
      assert maps'[j] == maps[j] && states'[j] == states[j];
      if j < |outcomes| {
        assert maps'[j + 1] == maps[j + 1] && states'[j + 1] == states[j + 1] && outcomes'[j] == outcomes[j];
      }
    }
  }

  /** Acceptance keeps the mouse safe: an accepted direction leads to ground. */
  lemma AcceptanceKeepsSafe(w: int, h: int, g: seq<bool>, s: Control, k: Keys, now: real)
    requires |g| == MapSize(w, h) && Safe(w, h, g, s.cursor)
    ensures Safe(w, h, g, Acceptance(w, h, g, s, k, now).state.cursor)
  {
    AcceptIsFirstEnabled(w, h, g, s.cursor, k);
  }

  /** In a maze a committed move keeps the mouse safe. */
  lemma CommitKeepsSafe(w: int, h: int, g: seq<bool>, ps: seq<Carve>, s: Control, now: real)
    requires IsMaze(w, h, g, ps) && Safe(w, h, g, s.cursor)
    ensures Safe(w, h, g, Commit(s, now).cursor)
  {
    var c := s.cursor;
    if c.isMoving && now - s.times.printed >= MouseMovingInterval {
      GroundIsInside(w, h, g, ps, c.x + OffC[c.toMove], c.y + OffR[c.toMove]);
    }
  }

  /** In a maze the movement part keeps the mouse safe. */
  lemma MovementKeepsSafe(w: int, h: int, g: seq<bool>, ps: seq<Carve>, s: Control, k: Keys, now: real)
    requires IsMaze(w, h, g, ps) && Safe(w, h, g, s.cursor)
    ensures Safe(w, h, g, Movement(w, h, g, s, k, now).state.cursor)
  {
    AcceptanceKeepsSafe(w, h, g, s, k, now);
    CommitKeepsSafe(w, h, g, ps, Acceptance(w, h, g, s, k, now).state, now);
  }

  /**
   * A move is accepted only when the mouse stands still and the key gate
   * is open (armed, or re-armed by a long enough pause), and always into
   * the first enabled direction; an accepted move closes the gate.
   */
  lemma StepAcceptance(w: int, h: int, g: seq<bool>, s: Control, k: Keys, now: real, later: real)
    requires |g| == MapSize(w, h) && Inside(w, h, s.cursor.x, s.cursor.y)
    requires s.cursor.isMoving ==> 0 <= s.cursor.toMove < 4
    ensures var e := Step(w, h, g, s, k, now, later);
      (e.accepted != -1 ==> !s.cursor.isMoving && (s.accKey || now - s.times.prev > KeyGate)) &&
      (e.accepted != -1 ==> e.accepted == FirstEnabled(w, h, g, s.cursor, k, Priority)) &&
      (!s.cursor.isMoving && (s.accKey || now - s.times.prev > KeyGate) ==>
         e.accepted == FirstEnabled(w, h, g, s.cursor, k, Priority)) &&
      (e.accepted != -1 && !e.restart ==> !e.next.accKey && e.next.times.prev == now)
  {
    AcceptIsFirstEnabled(w, h, g, s.cursor, k);
  }

  /**
   * In a maze a frame keeps the mouse safe. Without a restart it either
   * stays where it was or steps one cell, changing exactly one coordinate
   * by one, onto the ground cell that was checked when the move was
   * accepted; a restart puts it back at the start.
   */
  lemma StepKeepsSafe(w: int, h: int, g: seq<bool>, ps: seq<Carve>, s: Control, k: Keys, now: real, later: real)
    requires IsMaze(w, h, g, ps) && Safe(w, h, g, s.cursor)
    ensures var e := Step(w, h, g, s, k, now, later);
      Safe(w, h, g, e.next.cursor) &&
      (e.restart ==> e.next.cursor == StartCursor(w, h)) &&
      (!e.restart ==>
        var dx, dy := e.next.cursor.x - s.cursor.x, e.next.cursor.y - s.cursor.y;
        (dx == 0 && dy == 0) || ((dx == 0) != (dy == 0) && -1 <= dx <= 1 && -1 <= dy <= 1 && !e.next.cursor.isMoving))
  {
    MovementKeepsSafe(w, h, g, ps, s, k, now);
    if Step(w, h, g, s, k, now, later).restart {
      StartSafe(w, h, g, ps);
    }
  }

  /**
   * A frame accepts at most one of: a move, a restart, a hint toggle.
   * A restart ends the frame before the quit, hint and win checks.
   */
  lemma StepExclusive(w: int, h: int, g: seq<bool>, s: Control, k: Keys, now: real, later: real)
    requires |g| == MapSize(w, h) && Inside(w, h, s.cursor.x, s.cursor.y)
    requires s.cursor.isMoving ==> 0 <= s.cursor.toMove < 4
    ensures var e := Step(w, h, g, s, k, now, later);
      (e.accepted != -1 ==> !e.restart && e.next.isHinted == s.isHinted && !e.search) &&
      (e.restart ==> e.outcome == Running && !e.search && !e.next.isHinted && e.next.accKey)
  {
  }

  /**
   * The checks after the move run in the order restart, quit, hint, win:
   * escape quits unless a restart came first, and the game is won exactly
   * when neither did and the mouse stands on the goal cell (map row 1,
   * column 2w-1), whose index is the target of the hint search.
   */
  lemma StepOutcome(w: int, h: int, g: seq<bool>, s: Control, k: Keys, now: real, later: real)
    requires |g| == MapSize(w, h) && Inside(w, h, s.cursor.x, s.cursor.y)
    requires s.cursor.isMoving ==> 0 <= s.cursor.toMove < 4
    ensures var e := Step(w, h, g, s, k, now, later);
      (e.outcome == Quit <==> !e.restart && k.escape) &&
      (e.outcome == Won <==> !e.restart && !k.escape && e.next.cursor.x == Cols(w) - 2 && e.next.cursor.y == 1) &&
      (e.outcome == Won ==> Index(Cols(w), e.next.cursor.y, e.next.cursor.x) == Goal(w))
  {
  }

  /**
   * The hint toggles exactly when no restart or quit came first, space is
   * held, the gate is open and no move was accepted in this frame, and the
   * last toggle is at least KeyInterval ago. A toggle closes the gate and
   * stamps the time; the search runs exactly when the hint turns on.
   */
  lemma StepHint(w: int, h: int, g: seq<bool>, s: Control, k: Keys, now: real, later: real)
    requires |g| == MapSize(w, h) && Inside(w, h, s.cursor.x, s.cursor.y)
    requires s.cursor.isMoving ==> 0 <= s.cursor.toMove < 4
    ensures var e := Step(w, h, g, s, k, now, later);
      var gate := (s.accKey || now - s.times.prev > KeyGate) && e.accepted == -1;
      (!e.restart && !k.escape ==>
        (e.next.isHinted != s.isHinted <==> k.space && gate && now - s.times.hintPrev >= KeyInterval)) &&
      (!e.restart && e.next.isHinted != s.isHinted ==> !e.next.accKey && e.next.times.hintPrev == now) &&
      (e.search <==> !e.restart && e.next.isHinted && !s.isHinted)
  {
  }

  // ---------------------------------------------------------------------
  // The objects
  // ---------------------------------------------------------------------

  class Mouse {
    var x: int
    var y: int
    var isMoving: bool
    var toMove: int

    /** A mouse at the start position, standing still, with no move pending. */
    constructor (w: int, h: int)
      ensures State() == StartCursor(w, h)
    {
      x, y := StartX(w), StartY(h);
      isMoving, toMove := false, -1;
    }

    function State(): Cursor
      reads this
    {
      Cursor(x, y, isMoving, toMove)
    }

    /** Assignment of a new default mouse: back to the start position. */
    method Reset(w: int, h: int)
      modifies this
      ensures State() == StartCursor(w, h)
    {
      x, y := StartX(w), StartY(h);
      isMoving, toMove := false, -1;
    }

    /** Shift the mouse by (dx, dy); the screen position is not modelled. */
    method Move(dx: int, dy: int)
      modifies this
      ensures x == old(x) + dx && y == old(y) + dy
      ensures isMoving == old(isMoving) && toMove == old(toMove)
    {
      x := x + dx;
      y := y + dy;
    }
  }

  /** One frame's inputs to the loop. */
  datatype Input = Input(now: real, keys: Keys, rng: seq<nat>, later: real)

  class Game {
    const width: int
    const height: int
    const maze: Maze
    const mouse: Mouse
    var accKey: bool
    var isHinted: bool
    var prevTime: real
    var printTime: real
    var startTime: real
    var hintPrevTime: real
    var newPrevTime: real
    /** The passages of the current maze. */
    ghost var carves: seq<Carve>

    ghost predicate Valid()
      reads this, maze, maze.mazemap, mouse
    {
      maze.Valid() && maze.width == width && maze.height == height &&
      IsMaze(width, height, maze.mazemap[..], carves) && Safe(width, height, maze.mazemap[..], mouse.State())
    }

    function Snapshot(): Control
      reads this, mouse
    {
      Control(mouse.State(), accKey, isHinted, Times(prevTime, printTime, startTime, hintPrevTime, newPrevTime))
    }

    /**
     * Setting up the loop: a freshly generated maze, the gate armed, the
     * hint off and the mouse at the start. `t0` is the first clock
     * reading, `t1` the one taken after the first drawing.
     */
    constructor (w: int, h: int, rng: seq<nat>, t0: real, t1: real)
      requires w >= 1 && h >= 1
      ensures Valid() && width == w && height == h
      ensures Snapshot() == Control(StartCursor(w, h), true, false, Times(t0, t0, t1, t1, t1))
      ensures fresh(maze) && fresh(maze.mazemap) && fresh(mouse)
    {
      width, height := w, h;
      var m := new Maze(w, h);
      var complete, order, cs := m.Refresh(rng);
      var mo := new Mouse(w, h);
      mo.Move(0, 0);
      maze, mouse := m, mo;
      accKey, isHinted := true, false;
      prevTime, printTime := t0, t0;
      startTime, hintPrevTime, newPrevTime := t1, t1, t1;
      carves := cs;
      new;
      StartSafe(w, h, maze.mazemap[..], carves);
    }

    /** The key checks that choose the move direction. */
    method ChooseMove(k: Keys) returns (d: int)
      requires Valid()
      ensures d == Accept(width, height, maze.mazemap[..], mouse.State(), k)
    {
      var cols := Cols(width);
      var x, y := mouse.x, mouse.y;
      IndexBounds(cols, Rows(height), y, x - 1);
      IndexBounds(cols, Rows(height), y - 1, x);
      IndexBounds(cols, Rows(height), y, x + 1);
      IndexBounds(cols, Rows(height), y + 1, x);
      if k.left && !maze.mazemap[y * cols + x - 1] {
        d := 2;
      } else if k.down && !maze.mazemap[(y - 1) * cols + x] {
        d := 1;
      } else if k.right && !maze.mazemap[y * cols + x + 1] {
        d := 3;
      } else if k.up && !maze.mazemap[(y + 1) * cols + x] {
        d := 0;
      } else {
        d := -1;
      }
    }

    /** The acceptance half of the movement part (see `Acceptance`). */
    method AcceptPhase(now: real, k: Keys) returns (d: int)
      requires Valid()
      modifies this, mouse
      ensures carves == old(carves)
      ensures Moved(Snapshot(), d) == Acceptance(width, height, maze.mazemap[..], old(Snapshot()), k, now)
    {
      var deltaTime := now - prevTime;
      if deltaTime > KeyGate {
        accKey := true;
      }
      d := -1;
      if !mouse.isMoving && accKey {
        d := ChooseMove(k);
        if d != -1 {
          mouse.toMove := d;
          mouse.isMoving := true;
          prevTime, printTime := now, now;
          accKey := false;
        }
      }
    }

    /** The commit half of the movement part (see `Commit`). */
    method CommitPhase(now: real)
      requires mouse.isMoving ==> 0 <= mouse.toMove < 4
      modifies mouse
      ensures Snapshot() == Commit(old(Snapshot()), now)
    {
      if mouse.isMoving {
        if now - printTime >= MouseMovingInterval {
          mouse.isMoving := false;
          mouse.Move(OffC[mouse.toMove], OffR[mouse.toMove]);
        }
      }
    }

    /** The movement part of a frame (see `Movement`). */
    method MovePhase(now: real, k: Keys) returns (d: int)
      requires Valid()
      modifies this, mouse
      ensures Valid() && carves == old(carves)
      ensures Moved(Snapshot(), d) == Movement(width, height, maze.mazemap[..], old(Snapshot()), k, now)
    {
      ghost var s := Snapshot();
      d := AcceptPhase(now, k);
      ghost var m := Snapshot();
      CommitPhase(now);
      assert Snapshot() == Commit(m, now);
      MovementKeepsSafe(width, height, maze.mazemap[..], carves, s, k, now);
    }

    /** A freshly generated maze in place of the current one; the result is its passages. */
    method NewMaze(rng: seq<nat>) returns (ghost cs: seq<Carve>)
      requires maze.Valid() && maze.width == width && maze.height == height
      modifies maze.mazemap
      ensures IsMaze(width, height, maze.mazemap[..], cs)
    {
      var complete;
      ghost var order;
      complete, order, cs := maze.Refresh(rng);
    }

    /**
     * The restart branch: a new maze, the gate armed, the hint off, the
     * mouse back at the start and every time stamp set to `later`. The
     * search stack and the last hint are left as they were.
     */
    method Restart(rng: seq<nat>, later: real)
      requires Valid()
      modifies this, mouse, maze.mazemap
      ensures Valid()
      ensures Snapshot() == Control(StartCursor(width, height), true, false, Times(later, later, later, later, later))
      ensures maze.path == old(maze.path) && maze.hint == old(maze.hint)
    {
      accKey := true;
      prevTime, printTime := later, later;
      isHinted := false;
      mouse.Reset(width, height);
      mouse.Move(0, 0);
      startTime, hintPrevTime, newPrevTime := later, later, later;
      carves := NewMaze(rng);
      StartSafe(width, height, maze.mazemap[..], carves);
    }

    /**
     * The hint branch: the hint flips and the gate closes; when the hint
     * turns on, the search stack is reset to the mouse cell and the search
     * runs from there.
     */
    method ToggleHint(now: real)
      requires Valid()
      modifies this, maze
      ensures Valid()
      ensures Snapshot() == old(Snapshot()).(isHinted := !old(isHinted), accKey := false, times := old(Snapshot()).times.(hintPrev := now))
      ensures isHinted ==>
                maze.path == [Index(Cols(width), mouse.y, mouse.x)] &&
                (maze.hint == old(maze.hint) || HintPath(maze.mazemap[..], Cols(width), Goal(width), maze.path, maze.hint))
      ensures !isHinted ==> maze.path == old(maze.path) && maze.hint == old(maze.hint)
    {
      hintPrevTime := now;
      isHinted := !isHinted;
      if isHinted {
        var cols := Cols(width);
        var pos := mouse.y * cols + mouse.x;
        IndexBounds(cols, Rows(height), mouse.y, mouse.x);
        maze.path := [pos];
        maze.Dfs(pos);
      }
      accKey := false;
    }

    /** One pass of the game loop. */
    method Frame(input: Input) returns (outcome: Outcome)
      requires Valid()
      modifies this, mouse, maze, maze.mazemap
      ensures Valid()
      ensures var e := Step(width, height, old(maze.mazemap[..]), old(Snapshot()), input.keys, input.now, input.later);
        Snapshot() == e.next && outcome == e.outcome &&
        (!e.restart ==> maze.mazemap[..] == old(maze.mazemap[..])) &&
        (e.search ==>
           maze.path == [Index(Cols(width), mouse.y, mouse.x)] &&
           (maze.hint == old(maze.hint) || HintPath(maze.mazemap[..], Cols(width), Goal(width), maze.path, maze.hint))) &&
        (!e.search ==> maze.path == old(maze.path) && maze.hint == old(maze.hint))
    {
      var now, k := input.now, input.keys;
      var d := MovePhase(now, k);
      if k.enter && accKey && now - newPrevTime >= KeyInterval {
        Restart(input.rng, input.later);
        return Running;
      }
      if k.escape {
        return Quit;
      }
      if k.space && accKey && now - hintPrevTime >= KeyInterval {
        ToggleHint(now);
      }
      if mouse.x + 2 == Cols(width) && mouse.y - 1 == 0 {
        return Won;
      }
      return Running;
    }

    /**
     * The loop: frames run until one quits (0) or wins (1); running out of
     * frames stands for the window being closed (0). The ghost results are
     * the maps, states and outcomes of the frames that ran.
     */
    method Run(inputs: seq<Input>) returns (result: int, ghost maps: seq<seq<bool>>, ghost states: seq<Control>, ghost outcomes: seq<Outcome>)
      requires Valid()
      modifies this, mouse, maze, maze.mazemap
      ensures Valid()
      ensures FrameTrace(width, height, inputs, maps, states, outcomes)
      ensures maps[0] == old(maze.mazemap[..]) && states[0] == old(Snapshot())
      ensures maps[|outcomes|] == maze.mazemap[..] && states[|outcomes|] == Snapshot()
      ensures forall j :: 0 <= j < |outcomes| - 1 ==> outcomes[j] == Running
      ensures result == 1 <==> |outcomes| > 0 && outcomes[|outcomes| - 1] == Won
      ensures result == 0 <==>
                (|outcomes| > 0 && outcomes[|outcomes| - 1] == Quit) ||
                (|outcomes| == |inputs| && forall j :: 0 <= j < |outcomes| ==> outcomes[j] == Running)
      ensures result == 1 ==> mouse.x == Cols(width) - 2 && mouse.y == 1
    {
      maps, states, outcomes := [maze.mazemap[..]], [Snapshot()], [];
      var i := 0;
      while i < |inputs|
        invariant 0 <= i <= |inputs| && |outcomes| == i
        invariant Valid()
        invariant FrameTrace(width, height, inputs, maps, states, outcomes)
        invariant maps[0] == old(maze.mazemap[..]) && states[0] == old(Snapshot())
        invariant maps[i] == maze.mazemap[..] && states[i] == Snapshot()
        invariant forall j :: 0 <= j < i ==> outcomes[j] == Running
      {
        var outcome := Frame(inputs[i]);
        FrameTraceSnoc(width, height, inputs, maps, states, outcomes, maze.mazemap[..], Snapshot(), outcome);
        maps, states, outcomes := maps + [maze.mazemap[..]], states + [Snapshot()], outcomes + [outcome];
        if outcome == Quit {
          return 0, maps, states, outcomes;
        }
        if outcome == Won {
          return 1, maps, states, outcomes;
        }
        i := i + 1;
      }
      return 0, maps, states, outcomes;
    }
  }
}
