/**
 * The A* search of the C++ ports: `Pathfinder::findPath` of
 * game_integrated/simple_rts/test_pathfinding.cpp, with an expansion budget
 * of 1000, and of game_integrated/simple_rts/simple_game_advanced.cpp,
 * without a budget. The two share one search loop, `Search`.
 *
 * The map is 1200 x 800 cut into 32-unit cells: 37 x 25 cells, by integer
 * division. Neighbours are the eight surrounding cells; a straight step
 * costs 1 and a diagonal one 1.414; the heuristic is octile.
 *
 * The open list is a `std::priority_queue` of node pointers, and the search
 * lowers the `f` of a node that is already in the queue. That breaks the
 * heap invariant, so the order in which nodes leave the queue is whatever
 * the heap algorithms make of the damaged heap. The model pops an arbitrary
 * open node, and everything it proves holds for every pop order. Each node
 * enters the queue once, when it is created, so the open list is a set.
 */
module AStar {
  import opened Common
  import opened GridPath

  /** `1200 / GRID_SIZE` and `800 / GRID_SIZE`. */
  const MapWidth: int := 37
  const MapHeight: int := 25

  /** The expansion budget of test_pathfinding.cpp. */
  const Budget: nat := 1000

  predicate InMap(c: Cell)
  {
    0 <= c.x < MapWidth && 0 <= c.y < MapHeight
  }

  /** Every cell of the map. */
  function MapCells(): set<Cell>
  {
    set x: int, y: int | 0 <= x < MapWidth && 0 <= y < MapHeight :: Cell(x, y)
  }

  lemma InMapCells(c: Cell)
    ensures c in MapCells() <==> InMap(c)
  {
    if InMap(c) {
      assert c == Cell(c.x, c.y);
    }
  }

  /**
   * `(int)(v / GRID_SIZE)` on both axes. The cast truncates toward zero,
   * so the cell 0 takes in the coordinates from -32 to 32, exclusive.
   */
  function CellAt(p: Point): Cell
  {
    Cell(TruncToInt(p.x / 32.0), TruncToInt(p.y / 32.0))
  }

  /**
   * On non-negative coordinates the truncating cast is the floor, so
   * `CellAt` agrees with the cell of the JavaScript grid, and the centre
   * of a cell lies in that cell.
   */
  lemma CellAtFacts(p: Point, c: Cell)
    ensures 0.0 <= p.x && 0.0 <= p.y ==> CellAt(p) == CellOf(p)
    ensures 0 <= c.x && 0 <= c.y ==> CellAt(Centre(c)) == c
    ensures -32.0 < p.x < 32.0 ==> CellAt(p).x == 0
  {
    if 0 <= c.x && 0 <= c.y {
      var q := Centre(c);
      assert (c.x * 32) as real <= q.x && (c.y * 32) as real <= q.y;
    }
  }

  /** `moveCost`: 1.414 for a diagonal step, 1 for a straight one. */
  function StepCost(a: Cell, b: Cell): real
  {
    if a.x != b.x && a.y != b.y then 1.414 else 1.0
  }

  /** `heuristic(x1, y1, x2, y2)`: the octile distance with diagonal cost 1.414. */
  function Octile(a: Cell, b: Cell): real
  {
    var dx, dy := Abs(a.x - b.x), Abs(a.y - b.y);
    (dx + dy) as real + (1.414 - 2.0) * Min(dx, dy) as real
  }

  /**
   * The heuristic is the length of a shortest eight-way walk on an empty
   * grid: the longer axis difference, of which the shorter one is walked
   * diagonally. It is zero exactly on the goal, and symmetric.
   */
  lemma OctileFacts(a: Cell, b: Cell)
    ensures var dx, dy := Abs(a.x - b.x), Abs(a.y - b.y);
      Octile(a, b) == Max(dx, dy) as real + 0.414 * Min(dx, dy) as real
    ensures 0.0 <= Octile(a, b)
    ensures Octile(a, b) == 0.0 <==> a == b
    ensures Octile(a, b) == Octile(b, a)
  {}

  /**
   * The heuristic is consistent: one step never lowers it by more than the
   * step costs, so it never overestimates the cost of a walk to the goal.
   */
  lemma OctileConsistent(a: Cell, b: Cell, c: Cell)
    requires Adjacent(a, b)
    ensures Octile(a, c) <= StepCost(a, b) + Octile(b, c)
  {
    var ax, ay := Abs(a.x - c.x), Abs(a.y - c.y);
    var bx, bY := Abs(b.x - c.x), Abs(b.y - c.y);
    OctileFacts(a, c);
    OctileFacts(b, c);
    if a.x != b.x && a.y != b.y {
      DiagonalStep(ax, ay, bx, bY);
    } else if a.x != b.x {
      StraightStep(ax, ay, bx);
    } else {
      StraightStep(ay, ax, bY);
    }
  }

  /** The octile length of a walk `dx` across and `dy` along: the longer side plus 0.414 per diagonal. */
  function OctileOf(dx: nat, dy: nat): real
  {
    Max(dx, dy) as real + 0.414 * Min(dx, dy) as real
  }

  /** One diagonal step changes each axis difference by at most one. */
  lemma DiagonalStep(dx1: nat, dy1: nat, dx2: nat, dy2: nat)
    requires dx1 <= dx2 + 1 && dy1 <= dy2 + 1
    ensures OctileOf(dx1, dy1) <= 1.414 + OctileOf(dx2, dy2)
  {
    assert Max(dx1, dy1) <= Max(dx2, dy2) + 1;
    assert Min(dx1, dy1) <= Min(dx2, dy2) + 1;
  }

  /** One straight step changes one axis difference by at most one and keeps the other. */
  lemma StraightStep(ax: nat, y: nat, bx: nat)
    requires ax <= bx + 1
    ensures OctileOf(ax, y) <= 1.0 + OctileOf(bx, y)
    ensures OctileOf(y, ax) <= 1.0 + OctileOf(y, bx)
  {
  }

  /**
   * The search may step from `c` onto `n`: an in-map neighbour that is not
   * blocked, unless it is the goal, which is never treated as blocked.
   */
  predicate CanStep(blocked: set<Cell>, goal: Cell, c: Cell, n: Cell)
  {
    InMap(n) && Adjacent(n, c) && (n !in blocked || n == goal)
  }

  /** A walk of such steps. */
  ghost predicate Walk(blocked: set<Cell>, goal: Cell, cells: seq<Cell>)
  {
    forall i | 0 <= i < |cells| - 1 :: CanStep(blocked, goal, cells[i], cells[i + 1])
  }

  /** A route from `start` to `goal`: a walk that begins at the one and ends at the other. */
  ghost predicate IsRoute(start: Cell, goal: Cell, blocked: set<Cell>, cells: seq<Cell>)
  {
    |cells| >= 1 && cells[0] == start && cells[|cells| - 1] == goal && Walk(blocked, goal, cells)
  }

  /** A parent map whose only root is `start`. */
  ghost predicate Rooted(start: Cell, parent: map<Cell, Cell>, depth: map<Cell, nat>)
  {
    Links(parent, depth) && depth.Keys == parent.Keys + {start} && start !in parent
  }

  /**
   * The state of the search between two steps: a tree rooted at the start
   * whose nodes are split into open and closed ones.
   */
  ghost predicate Discovered(start: Cell, goal: Cell, blocked: set<Cell>, open: set<Cell>, closed: set<Cell>,
                             g: map<Cell, real>, parent: map<Cell, Cell>, depth: map<Cell, nat>)
  {
    Rooted(start, parent, depth) && Partitioned(start, goal, open, closed, g, depth) &&
    Grown(blocked, goal, closed, parent, depth)
  }

  /** Every created node is open or closed, never both; the goal is never closed; once anything is closed, the start is. */
  ghost predicate Partitioned(start: Cell, goal: Cell, open: set<Cell>, closed: set<Cell>, g: map<Cell, real>,
                              depth: map<Cell, nat>)
  {
    start in depth && depth[start] == 0 &&
    g.Keys == depth.Keys && open !! closed && open + closed == depth.Keys &&
    goal !in closed && (closed != {} ==> start in closed)
  }

  /** Each node with a parent is one level below it, its parent is closed, and the search may step from it onto the node. */
  ghost predicate Grown(blocked: set<Cell>, goal: Cell, closed: set<Cell>, parent: map<Cell, Cell>, depth: map<Cell, nat>)
  {
    forall k | k in parent ::
      parent[k] in depth && k in depth &&
      depth[k] == depth[parent[k]] + 1 && parent[k] in closed && CanStep(blocked, goal, parent[k], k)
  }

  /** Every cell the search may step onto from a cell of `cells` has been created. */
  ghost predicate Expanded(blocked: set<Cell>, goal: Cell, cells: set<Cell>, known: set<Cell>)
  {
    forall c, n | c in cells && CanStep(blocked, goal, c, n) :: n in known
  }

  /**
   * Following the parents back from any created node gives a route from
   * the start to it, one cell longer than its depth.
   */
  lemma {:induction false} ChainIsRoute(start: Cell, goal: Cell, blocked: set<Cell>, open: set<Cell>,
                                        closed: set<Cell>, g: map<Cell, real>, parent: map<Cell, Cell>,
                                        depth: map<Cell, nat>, c: Cell)
    requires Discovered(start, goal, blocked, open, closed, g, parent, depth) && c in depth
    ensures var r := [start] + Chain(parent, depth, c);
      |r| == depth[c] + 1 && r[|r| - 1] == c && Walk(blocked, goal, r)
    decreases depth[c]
  {
    var r := [start] + Chain(parent, depth, c);
    if c in parent {
      var p := parent[c];
      ChainIsRoute(start, goal, blocked, open, closed, g, parent, depth, p);
      var pre := [start] + Chain(parent, depth, p);
      assert r == pre + [c];
      forall i | 0 <= i < |r| - 1
        ensures CanStep(blocked, goal, r[i], r[i + 1])
      {
        if i < |r| - 2 {
          assert r[i] == pre[i] && r[i + 1] == pre[i + 1];
        }
      }
    } else {
      assert c == start;
    }
  }

  /** A search state in which the goal was created: the parents lead back from it along a route. */
  lemma FoundRoute(start: Cell, goal: Cell, blocked: set<Cell>, open: set<Cell>, closed: set<Cell>,
                   g: map<Cell, real>, parent: map<Cell, Cell>, depth: map<Cell, nat>)
    requires Discovered(start, goal, blocked, open, closed, g, parent, depth) && goal in depth
    ensures Rooted(start, parent, depth)
    ensures IsRoute(start, goal, blocked, [start] + Chain(parent, depth, goal))
  {
    ChainIsRoute(start, goal, blocked, open, closed, g, parent, depth, goal);
  }

  /** A search state with nothing open in which the goal was never found. */
  lemma Exhausted(start: Cell, goal: Cell, blocked: set<Cell>, closed: set<Cell>,
                  g: map<Cell, real>, parent: map<Cell, Cell>, depth: map<Cell, nat>)
    requires Discovered(start, goal, blocked, {}, closed, g, parent, depth)
    requires Expanded(blocked, goal, closed, depth.Keys)
    ensures forall cells :: !IsRoute(start, goal, blocked, cells)
  {
    assert depth.Keys == closed;
    forall cells
      ensures !IsRoute(start, goal, blocked, cells)
    {
      NoRoute(start, goal, blocked, closed, cells);
    }
  }

  /**
   * When nothing is open, the closed cells are everything the search can
   * reach; as the goal is not among them, no route to it exists.
   */
  lemma NoRoute(start: Cell, goal: Cell, blocked: set<Cell>, closed: set<Cell>, cells: seq<Cell>)
    requires start in closed && goal !in closed && Expanded(blocked, goal, closed, closed)
    ensures !IsRoute(start, goal, blocked, cells)
  {
    if IsRoute(start, goal, blocked, cells) {
      var i := 0;
      while i < |cells| - 1
        invariant 0 <= i < |cells| && cells[i] in closed
      {
        assert CanStep(blocked, goal, cells[i], cells[i + 1]);
        i := i + 1;
      }
    }
  }

  /** The state before the first pop: the start alone, open, at cost 0. */
  lemma Initially(start: Cell, goal: Cell, blocked: set<Cell>)
    ensures Discovered(start, goal, blocked, {start}, {}, map[start := 0.0], map[], map[start := 0])
    ensures Expanded(blocked, goal, {}, {start})
  {}

  /** Closing an open node other than the goal keeps the search state. */
  lemma CloseNode(start: Cell, goal: Cell, blocked: set<Cell>, open: set<Cell>, closed: set<Cell>,
                  g: map<Cell, real>, parent: map<Cell, Cell>, depth: map<Cell, nat>, current: Cell)
    requires Discovered(start, goal, blocked, open, closed, g, parent, depth)
    requires Expanded(blocked, goal, closed, depth.Keys)
    requires current in open && current != goal
    ensures Discovered(start, goal, blocked, open - {current}, closed + {current}, g, parent, depth)
    ensures Expanded(blocked, goal, (closed + {current}) - {current}, depth.Keys)
  {
    if closed == {} {
      assert parent.Keys == {};
      assert current == start;
    }
    assert (closed + {current}) - {current} == closed;
  }

  /** Every created node is a cell of the map, or the start. */
  lemma KnownCell(start: Cell, goal: Cell, blocked: set<Cell>, open: set<Cell>, closed: set<Cell>,
                  g: map<Cell, real>, parent: map<Cell, Cell>, depth: map<Cell, nat>, c: Cell)
    requires Discovered(start, goal, blocked, open, closed, g, parent, depth) && c in depth
    ensures c in MapCells() + {start}
  {
    if c != start {
      InMapCells(c);
    }
  }

  /** Adding a new element of `universe` to a subset of it. */
  lemma Grow<T>(universe: set<T>, s: set<T>, x: T)
    requires s <= universe && x in universe && x !in s
    ensures s + {x} <= universe && |s + {x}| == |s| + 1
    ensures |universe - (s + {x})| < |universe - s|
  {
    assert universe - (s + {x}) == (universe - s) - {x};
  }

  /**
   * Hanging a node that is not closed below the closed node `current`,
   * whether it is new (and then becomes open) or already open, keeps the
   * search state.
   */
  lemma Attach(start: Cell, goal: Cell, blocked: set<Cell>, open: set<Cell>, closed: set<Cell>,
               g: map<Cell, real>, parent: map<Cell, Cell>, depth: map<Cell, nat>, current: Cell, n: Cell, cost: real)
    requires Discovered(start, goal, blocked, open, closed, g, parent, depth)
    requires current in closed && n !in closed && CanStep(blocked, goal, current, n)
    ensures var depth' := depth[n := depth[current] + 1];
      Discovered(start, goal, blocked, open + {n}, closed, g[n := cost], parent[n := current], depth')
  {
    var depth' := depth[n := depth[current] + 1];
    var parent' := parent[n := current];
    assert n != start;
    assert Links(parent', depth') by {
      forall k | k in parent'
        ensures k in depth' && parent'[k] in depth' && depth'[parent'[k]] < depth'[k]
      {
        if k != n {
          assert parent[k] in closed;
        }
      }
    }
    assert Grown(blocked, goal, closed, parent', depth') by {
      forall k | k in parent'
        ensures parent'[k] in depth' && k in depth' && depth'[k] == depth'[parent'[k]] + 1
      {
        if k != n {
          assert parent[k] in closed;
        }
      }
    }
  }

  /**
   * One pass of the neighbour loops for the offset `(dx, dy)` from the
   * closed node `current`. The neighbour is skipped when it is `current`
   * itself, off the map, blocked (unless it is the goal) or closed. A new
   * neighbour is created with `current` as parent and pushed; an open one
   * takes `current` as parent only when that lowers its `g`.
   */
  method Consider(start: Cell, goal: Cell, blocked: set<Cell>, current: Cell, dx: int, dy: int,
                  open: set<Cell>, closed: set<Cell>, g: map<Cell, real>, parent: map<Cell, Cell>,
                  ghost depth: map<Cell, nat>)
    returns (open': set<Cell>, g': map<Cell, real>, parent': map<Cell, Cell>, ghost depth': map<Cell, nat>)
    requires -1 <= dx <= 1 && -1 <= dy <= 1 && current in closed
    requires Discovered(start, goal, blocked, open, closed, g, parent, depth)
    ensures Discovered(start, goal, blocked, open', closed, g', parent', depth')
    ensures depth.Keys <= depth'.Keys
    ensures CanStep(blocked, goal, current, Cell(current.x + dx, current.y + dy)) ==>
      Cell(current.x + dx, current.y + dy) in depth'
  {
    open', g', parent', depth' := open, g, parent, depth;
    if dx == 0 && dy == 0 {
      return;
    }
    var nx, ny := current.x + dx, current.y + dy;
    if nx < 0 || nx >= MapWidth || ny < 0 || ny >= MapHeight {
      return;
    }
    var n := Cell(nx, ny);
    if n in blocked && !(nx == goal.x && ny == goal.y) {
      return;
    }
    if n in closed {
      return;
    }
    var moveCost := if dx != 0 && dy != 0 then 1.414 else 1.0;
    var newG := g[current] + moveCost;
    assert CanStep(blocked, goal, current, n);
    if n !in g {
      Attach(start, goal, blocked, open, closed, g, parent, depth, current, n, newG);
      g' := g[n := newG];
      parent' := parent[n := current];
      depth' := depth[n := depth[current] + 1];
      open' := open + {n};
    } else if newG < g[n] {
      Attach(start, goal, blocked, open, closed, g, parent, depth, current, n, newG);
      g' := g[n := newG];
      parent' := parent[n := current];
      depth' := depth[n := depth[current] + 1];
    }
  }

  /** The two neighbour loops of `findPath` for the node `current` just closed. */
  method Expand(start: Cell, goal: Cell, blocked: set<Cell>, current: Cell,
                open: set<Cell>, closed: set<Cell>, g: map<Cell, real>, parent: map<Cell, Cell>,
                ghost depth: map<Cell, nat>)
    returns (open': set<Cell>, g': map<Cell, real>, parent': map<Cell, Cell>, ghost depth': map<Cell, nat>)
    requires current in closed
    requires Discovered(start, goal, blocked, open, closed, g, parent, depth)
    requires Expanded(blocked, goal, closed - {current}, depth.Keys)
    ensures Discovered(start, goal, blocked, open', closed, g', parent', depth')
    ensures Expanded(blocked, goal, closed, depth'.Keys)
  {
    open', g', parent', depth' := open, g, parent, depth;
    for dx := -1 to 2
      invariant Discovered(start, goal, blocked, open', closed, g', parent', depth')
      invariant depth.Keys <= depth'.Keys
      invariant forall n | CanStep(blocked, goal, current, n) && n.x - current.x < dx :: n in depth'
    {
      for dy := -1 to 2
        invariant Discovered(start, goal, blocked, open', closed, g', parent', depth')
        invariant depth.Keys <= depth'.Keys
        invariant forall n | CanStep(blocked, goal, current, n) &&
          (n.x - current.x < dx || (n.x - current.x == dx && n.y - current.y < dy)) :: n in depth'
      {
        ghost var known := depth'.Keys;
        open', g', parent', depth' := Consider(start, goal, blocked, current, dx, dy, open', closed, g', parent', depth');
        forall n | CanStep(blocked, goal, current, n) &&
          (n.x - current.x < dx || (n.x - current.x == dx && n.y - current.y < dy + 1))
          ensures n in depth'
        {
          if n.x - current.x == dx && n.y - current.y == dy {
            assert n == Cell(current.x + dx, current.y + dy);
          } else {
            assert n in known;
          }
        }
      }
    }
  }

  /**
   * One iteration of the search loop: an open node is taken; the goal ends
   * the search, any other node is closed and expanded.
   */
  method Pop(start: Cell, goal: Cell, blocked: set<Cell>, open: set<Cell>, closed: set<Cell>,
             g: map<Cell, real>, parent: map<Cell, Cell>, ghost depth: map<Cell, nat>, ghost universe: set<Cell>)
    returns (found: bool, open': set<Cell>, closed': set<Cell>, g': map<Cell, real>, parent': map<Cell, Cell>,
             ghost depth': map<Cell, nat>)
    requires open != {} && universe == MapCells() + {start} && closed <= universe
    requires Discovered(start, goal, blocked, open, closed, g, parent, depth)
    requires Expanded(blocked, goal, closed, depth.Keys)
    ensures Discovered(start, goal, blocked, open', closed', g', parent', depth')
    ensures Expanded(blocked, goal, closed', depth'.Keys) && closed' <= universe
    ensures found ==> goal in open' && closed' == closed
    ensures !found ==> |closed'| == |closed| + 1 && |universe - closed'| < |universe - closed|
  {
    var current :| current in open;
    if current == goal {
      return true, open, closed, g, parent, depth;
    }
    KnownCell(start, goal, blocked, open, closed, g, parent, depth, current);
    Grow(universe, closed, current);
    CloseNode(start, goal, blocked, open, closed, g, parent, depth, current);
    closed' := closed + {current};
    open', g', parent', depth' := Expand(start, goal, blocked, current, open - {current}, closed', g, parent, depth);
    found := false;
  }

  /**
   * The search loop of `findPath` from the start cell to the goal cell:
   * pop an open node; stop on the goal; otherwise close it and expand it.
   * With `cap` it stops after that many pops, as the 1000-iteration loop
   * of test_pathfinding.cpp does. A found goal ends a route from the start
   * along the parents; the pops never outnumber the cells of the map plus
   * the start; and a search that ends without the goal and within its
   * budget proves that no route exists.
   */
  method Search(start: Cell, goal: Cell, blocked: set<Cell>, cap: Option<nat>)
    returns (found: bool, parent: map<Cell, Cell>, ghost depth: map<Cell, nat>, iterations: nat)
    ensures found ==> (Rooted(start, parent, depth) && goal in depth &&
      IsRoute(start, goal, blocked, [start] + Chain(parent, depth, goal)))
    ensures cap.Some? ==> iterations <= cap.value
    ensures iterations <= |MapCells() + {start}|
    ensures !found && (cap.None? || iterations < cap.value) ==>
      forall cells :: !IsRoute(start, goal, blocked, cells)
  {
    var open: set<Cell> := {start};
    var closed: set<Cell> := {};
    var g: map<Cell, real> := map[start := 0.0];
    parent := map[];
    depth := map[start := 0];
    iterations := 0;
    found := false;
    ghost var universe := MapCells() + {start};
    Initially(start, goal, blocked);
    while !found && open != {} && (cap.None? || iterations < cap.value)
      invariant Discovered(start, goal, blocked, open, closed, g, parent, depth)
      invariant Expanded(blocked, goal, closed, depth.Keys)
      invariant closed <= universe
      invariant found ==> goal in open && iterations == |closed| + 1
      invariant !found ==> iterations == |closed|
      invariant cap.Some? ==> iterations <= cap.value
      decreases |universe - closed| + (if found then 0 else 1)
    {
      found, open, closed, g, parent, depth := Pop(start, goal, blocked, open, closed, g, parent, depth, universe);
      iterations := iterations + 1;
    }
    if found {
      FoundRoute(start, goal, blocked, open, closed, g, parent, depth);
      KnownCell(start, goal, blocked, open, closed, g, parent, depth, goal);
      Grow(universe, closed, goal);
      SubsetCard(closed + {goal}, universe);
    } else {
      SubsetCard(closed, universe);
      if cap.None? || iterations < cap.value {
        Exhausted(start, goal, blocked, closed, g, parent, depth);
      }
    }
  }

  /** One step up the parents, prepending the node: the chain is split one node higher. */
  lemma PrependStep(start: Cell, parent: map<Cell, Cell>, depth: map<Cell, nat>, c: Cell, cells: seq<Cell>)
    requires Rooted(start, parent, depth) && c in depth
    ensures Centres([c] + cells) == [Centre(c)] + Centres(cells)
    ensures c in parent ==> Chain(parent, depth, c) + cells == Chain(parent, depth, parent[c]) + ([c] + cells)
    ensures c !in parent ==> c == start && Chain(parent, depth, c) + cells == cells
  {
    assert ([c] + cells)[1..] == cells;
    if c in parent {
      ghost var above := Chain(parent, depth, parent[c]);
      assert Chain(parent, depth, c) == above + [c];
      assert (above + [c]) + cells == above + ([c] + cells);
    } else {
      assert Chain(parent, depth, c) == [];
    }
  }

  /**
   * The reconstruction loop of `findPath`: from the goal node up the
   * parent pointers until the null one past the root, each node's cell
   * centre is inserted at the front, so the path runs from the start
   * cell's centre to the goal cell's.
   */
  method Reconstruct(start: Cell, parent: map<Cell, Cell>, goal: Cell, ghost depth: map<Cell, nat>)
    returns (path: seq<Point>)
    requires Rooted(start, parent, depth) && goal in depth
    ensures path == Centres([start] + Chain(parent, depth, goal))
  {
    path := [];
    var cur: Option<Cell> := Some(goal);
    ghost var cells: seq<Cell> := [];
    while cur.Some?
      invariant cur.Some? ==> (cur.value in depth &&
        Chain(parent, depth, goal) == Chain(parent, depth, cur.value) + cells)
      invariant cur.None? ==> cells == [start] + Chain(parent, depth, goal)
      invariant path == Centres(cells)
      decreases if cur.Some? then depth[cur.value] + 1 else 0
    {
      var c := cur.value;
      PrependStep(start, parent, depth, c, cells);
      path := [Centre(c)] + path;
      if c in parent {
        cur := Some(parent[c]);
      } else {
        cur := None;
      }
      cells := [c] + cells;
    }
  }

  /** The cells the obstacle points of test_pathfinding.cpp block: those that fall on the map. */
  function BlockedBy(points: seq<Point>): set<Cell>
  {
    set p | p in points && InMap(CellAt(p)) :: CellAt(p)
  }

  /** The loop that fills `obstacleGrid`, the grid modelled as the set of its true cells. */
  method ObstacleGrid(obstacles: seq<Point>) returns (blocked: set<Cell>)
    ensures blocked == BlockedBy(obstacles)
    ensures blocked <= MapCells()
  {
    blocked := {};
    for i := 0 to |obstacles|
      invariant blocked == BlockedBy(obstacles[..i])
    {
      var c := CellAt(obstacles[i]);
      assert obstacles[..i + 1] == obstacles[..i] + [obstacles[i]];
      if c.x >= 0 && c.x < MapWidth && c.y >= 0 && c.y < MapHeight {
        blocked := blocked + {c};
      }
    }
    assert obstacles[..|obstacles|] == obstacles;
    forall c | c in blocked
      ensures c in MapCells()
    {
      InMapCells(c);
    }
  }

  /**
   * `findPath(start, goal, obstacles)` of test_pathfinding.cpp: at most
   * 1000 pops. A found route gives the centres of its cells, from the
   * start cell's to the goal cell's; otherwise the path is the raw goal
   * point alone, and when fewer than 1000 pops were made, no route exists.
   */
  method BudgetedFindPath(start: Point, goal: Point, obstacles: seq<Point>)
    returns (path: seq<Point>, ghost route: Option<seq<Cell>>, ghost expansions: nat)
    ensures expansions <= Budget
    ensures route.Some? ==>
      IsRoute(CellAt(start), CellAt(goal), BlockedBy(obstacles), route.value) && path == Centres(route.value)
    ensures route.None? ==> path == [goal]
    ensures route.None? && expansions < Budget ==>
      forall cells :: !IsRoute(CellAt(start), CellAt(goal), BlockedBy(obstacles), cells)
  {
    var s, t := CellAt(start), CellAt(goal);
    var blocked := ObstacleGrid(obstacles);
    var found, parent, depth, count := Search(s, t, blocked, Some(Budget));
    expansions := count;
    if found {
      path := Reconstruct(s, parent, t, depth);
      route := Some([s] + Chain(parent, depth, t));
    } else {
      path := [goal];
      route := None;
    }
  }
}
