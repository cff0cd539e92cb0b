/**
 * The grid pathfinder of game_integrated/test/pathfinding.js.
 *
 * The world is cut into 32-unit cells; the search runs over a 40 x 30 grid
 * with eight-way neighbours and a Manhattan heuristic. The JavaScript keys
 * its maps and its closed set by the string "x,y"; that string is injective
 * on integer cells, so the model keys them by the cell itself.
 *
 * The scores carry a quirk that decides how the search behaves.
 * `gScore.get(key) || Infinity` reads the start cell's score 0 as falsy and
 * yields Infinity, so every tentative score is Infinity, every cell after the
 * start gets the f-score Infinity, and the comparator `fa - fb` of the sort
 * evaluates Infinity - Infinity = NaN, which a sort treats as "equal". A
 * stable sort then keeps insertion order, so the open list is a FIFO queue
 * and the search is breadth-first in direction order. The model keeps the
 * scores and the sort, and proves that they leave the order alone.
 */
module GridPath {
  import opened Common

  datatype Cell = Cell(x: int, y: int)

  const CellSize: int := 32
  const GridWidth: int := 40
  const GridHeight: int := 30

  /** `Math.floor(coord / 32)` on both axes. */
  function CellOf(p: Point): (c: Cell)
    ensures (c.x * 32) as real <= p.x < (c.x * 32 + 32) as real
    ensures (c.y * 32) as real <= p.y < (c.y * 32 + 32) as real
  {
    Cell(FloorToInt(p.x / 32.0), FloorToInt(p.y / 32.0))
  }

  /** The waypoint of a cell: its centre `(x*32+16, y*32+16)`. */
  function Centre(c: Cell): (p: Point)
    ensures CellOf(p) == c
  {
    Point((c.x * 32 + 16) as real, (c.y * 32 + 16) as real)
  }

  /** The waypoints of a list of cells: their centres, in order. */
  function Centres(cells: seq<Cell>): seq<Point>
  {
    if cells == [] then [] else [Centre(cells[0])] + Centres(cells[1..])
  }

  lemma {:induction false} CentresAt(cells: seq<Cell>)
    ensures |Centres(cells)| == |cells|
    ensures forall i | 0 <= i < |cells| :: Centres(cells)[i] == Centre(cells[i])
  {
    if cells != [] {
      CentresAt(cells[1..]);
    }
  }

  predicate InGrid(c: Cell)
  {
    0 <= c.x < GridWidth && 0 <= c.y < GridHeight
  }

  /** Two distinct cells that touch by a side or a corner. */
  predicate Adjacent(a: Cell, b: Cell)
  {
    a != b && Abs(a.x - b.x) <= 1 && Abs(a.y - b.y) <= 1
  }

  /** Every cell of the grid. */
  function GridCells(): set<Cell>
  {
    set x, y | 0 <= x < GridWidth && 0 <= y < GridHeight :: Cell(x, y)
  }

  lemma InGridCells(c: Cell)
    ensures c in GridCells() <==> InGrid(c)
  {
    if InGrid(c) {
      assert c == Cell(c.x, c.y);
    }
  }

  /** `heuristic(a, b)`: the Manhattan distance between two cells. */
  function Heuristic(a: Cell, b: Cell): nat
  {
    Abs(a.x - b.x) + Abs(a.y - b.y)
  }

  /**
   * The heuristic is a metric on cells, and one eight-way step changes it by
   * at most 2.
   */
  lemma HeuristicMetric(a: Cell, b: Cell, c: Cell)
    ensures Heuristic(a, b) == 0 <==> a == b
    ensures Heuristic(a, b) == Heuristic(b, a)
    ensures Heuristic(a, c) <= Heuristic(a, b) + Heuristic(b, c)
    ensures Adjacent(a, b) ==> 1 <= Heuristic(a, b) <= 2
  {}

  /** The neighbour offsets, in the order `getNeighbors` tries them. */
  const Directions: seq<Cell> :=
    [Cell(0, -1), Cell(1, 0), Cell(0, 1), Cell(-1, 0),
     Cell(1, -1), Cell(1, 1), Cell(-1, 1), Cell(-1, -1)]

  function Offset(c: Cell, d: Cell): Cell
  {
    Cell(c.x + d.x, c.y + d.y)
  }

  /** The in-grid cells `node + d` for the offsets `dirs`, in order. */
  function NeighbourList(node: Cell, dirs: seq<Cell>): seq<Cell>
  {
    if dirs == [] then []
    else
      var c := Offset(node, dirs[|dirs| - 1]);
      NeighbourList(node, dirs[..|dirs| - 1]) + (if InGrid(c) then [c] else [])
  }

  lemma {:induction false} NeighbourListMembers(node: Cell, dirs: seq<Cell>, c: Cell)
    ensures c in NeighbourList(node, dirs) <==>
      InGrid(c) && exists i | 0 <= i < |dirs| :: c == Offset(node, dirs[i])
  {
    if dirs != [] {
      var last := |dirs| - 1;
      NeighbourListMembers(node, dirs[..last], c);
      if InGrid(c) && (exists i | 0 <= i < |dirs| :: c == Offset(node, dirs[i])) {
        var i :| 0 <= i < |dirs| && c == Offset(node, dirs[i]);
        if i < last {
          assert dirs[..last][i] == dirs[i];
        }
      }
      if exists i | 0 <= i < last :: c == Offset(node, dirs[..last][i]) {
        var i :| 0 <= i < last && c == Offset(node, dirs[..last][i]);
        assert dirs[i] == dirs[..last][i];
      }
    }
  }

  lemma NeighbourListStep(node: Cell, dirs: seq<Cell>, i: nat)
    requires i < |dirs|
    ensures NeighbourList(node, dirs[..i + 1]) ==
      NeighbourList(node, dirs[..i]) + (if InGrid(Offset(node, dirs[i])) then [Offset(node, dirs[i])] else [])
  {
    assert dirs[..i + 1][..i] == dirs[..i];
  }

  /** The index in `Directions` of a non-zero offset of at most one on each axis. */
  function DirectionIndex(dx: int, dy: int): (i: nat)
    requires -1 <= dx <= 1 && -1 <= dy <= 1 && (dx, dy) != (0, 0)
    ensures i < |Directions| && Directions[i] == Cell(dx, dy)
  {
    if (dx, dy) == (0, -1) then 0
    else if (dx, dy) == (1, 0) then 1
    else if (dx, dy) == (0, 1) then 2
    else if (dx, dy) == (-1, 0) then 3
    else if (dx, dy) == (1, -1) then 4
    else if (dx, dy) == (1, 1) then 5
    else if (dx, dy) == (-1, 1) then 6
    else 7
  }

  /** The eight offsets reach exactly the cells adjacent to a node. */
  lemma NeighboursAreAdjacent(node: Cell, c: Cell)
    ensures c in NeighbourList(node, Directions) <==> InGrid(c) && Adjacent(c, node)
  {
    NeighbourListMembers(node, Directions, c);
    if InGrid(c) && Adjacent(c, node) {
      var i := DirectionIndex(c.x - node.x, c.y - node.y);
      assert c == Offset(node, Directions[i]);
    }
  }

  /** The in-grid offsets of `node` are exactly the in-grid cells adjacent to it. */
  lemma NeighboursExact(node: Cell)
    ensures forall c :: c in NeighbourList(node, Directions) <==> InGrid(c) && Adjacent(c, node)
  {
    forall c
      ensures c in NeighbourList(node, Directions) <==> InGrid(c) && Adjacent(c, node)
    {
      NeighboursAreAdjacent(node, c);
    }
  }

  /** A JavaScript score: a number that may be `Infinity`. */
  datatype Score = Finite(n: int) | Infinity

  /** `score + k` for a finite `k`. */
  function Plus(s: Score, k: int): Score
  {
    match s
    case Finite(n) => Finite(n + k)
    case Infinity => Infinity
  }

  /** `a >= b` on scores. */
  predicate AtLeast(a: Score, b: Score)
  {
    match (a, b)
    case (_, Infinity) => a.Infinity?
    case (Infinity, Finite(_)) => true
    case (Finite(m), Finite(n)) => m >= n
  }

  /**
   * `scores.get(c) || Infinity`: a missing entry is `undefined` and a 0 is
   * falsy, and both become Infinity.
   */
  function ScoreOr(scores: map<Cell, Score>, c: Cell): (s: Score)
    ensures c !in scores || scores[c] == Finite(0) ==> s == Infinity
    ensures c in scores && scores[c] != Finite(0) ==> s == scores[c]
  {
    if c in scores && scores[c] != Finite(0) then scores[c] else Infinity
  }

  /** The value of the comparator `a - b`, which may be NaN. */
  datatype Difference = Number(n: int) | PlusInfinity | MinusInfinity | NaN

  function Minus(a: Score, b: Score): Difference
  {
    match (a, b)
    case (Finite(m), Finite(n)) => Number(m - n)
    case (Infinity, Finite(_)) => PlusInfinity
    case (Finite(_), Infinity) => MinusInfinity
    case (Infinity, Infinity) => NaN
  }

  /**
   * Whether the comparator orders `a` after `b`. A sort reads the comparator
   * result as a number and treats NaN like 0, so only a positive result
   * moves an element.
   */
  predicate After(f: map<Cell, Score>, a: Cell, b: Cell)
  {
    match Minus(ScoreOr(f, a), ScoreOr(f, b))
    case Number(n) => n > 0
    case PlusInfinity => true
    case MinusInfinity => false
    case NaN => false
  }

  /** Stable insertion of `c` into `sorted`: `c` goes after every element it is not before. */
  function Insert(f: map<Cell, Score>, sorted: seq<Cell>, c: Cell): seq<Cell>
  {
    if sorted == [] then [c]
    else if After(f, sorted[|sorted| - 1], c) then
      Insert(f, sorted[..|sorted| - 1], c) + [sorted[|sorted| - 1]]
    else sorted + [c]
  }

  /** `openList.sort(comparator)`: the stable sort by the comparator on f-scores. */
  function SortByScore(f: map<Cell, Score>, xs: seq<Cell>): seq<Cell>
  {
    if xs == [] then []
    else Insert(f, SortByScore(f, xs[..|xs| - 1]), xs[|xs| - 1])
  }

  /**
   * When every score in the list reads as Infinity, every comparison is NaN
   * and the stable sort leaves the list as it is; so does a list of at most
   * one element.
   */
  lemma {:induction false} SortKeepsOrder(f: map<Cell, Score>, xs: seq<Cell>)
    requires |xs| <= 1 || forall c | c in xs :: ScoreOr(f, c) == Infinity
    ensures SortByScore(f, xs) == xs
  {
    if |xs| == 1 {
      assert SortByScore(f, xs[..0]) == [];
    } else if xs != [] {
      var init := xs[..|xs| - 1];
      assert forall c | c in init :: c in xs;
      SortKeepsOrder(f, init);
      if init != [] {
        assert init[|init| - 1] in xs;
        assert !After(f, init[|init| - 1], xs[|xs| - 1]);
      }
      assert init + [xs[|xs| - 1]] == xs;
    }
  }

  /** Whether obstacle point `obs` blocks `node`: it lies within 32 of the cell's corner on both axes. */
  predicate Blocks(obs: Point, node: Cell)
  {
    RAbs(obs.x - (node.x * 32) as real) < 32.0 && RAbs(obs.y - (node.y * 32) as real) < 32.0
  }

  /**
   * An obstacle blocks the cell it lies in, and besides it at most the cells
   * one step right, down, or both; a point on a cell corner blocks only that
   * cell.
   */
  lemma BlockFootprint(obs: Point, node: Cell)
    ensures Blocks(obs, CellOf(obs))
    ensures Blocks(obs, node) ==>
      node.x - CellOf(obs).x in {0, 1} && node.y - CellOf(obs).y in {0, 1}
    ensures Blocks(obs, node) && obs == Point((CellOf(obs).x * 32) as real, (CellOf(obs).y * 32) as real) ==>
      node == CellOf(obs)
  {}

  /** `BlockFootprint` for a list of obstacle points. */
  lemma ObstacleFootprint(obstacles: seq<Point>, node: Cell)
    ensures (exists j | 0 <= j < |obstacles| :: node == CellOf(obstacles[j])) ==>
      exists j | 0 <= j < |obstacles| :: Blocks(obstacles[j], node)
    ensures (exists j | 0 <= j < |obstacles| :: Blocks(obstacles[j], node)) ==>
      exists j | 0 <= j < |obstacles| ::
        node.x - CellOf(obstacles[j]).x in {0, 1} && node.y - CellOf(obstacles[j]).y in {0, 1}
  {
    if j :| 0 <= j < |obstacles| && node == CellOf(obstacles[j]) {
      BlockFootprint(obstacles[j], node);
    }
    if j :| 0 <= j < |obstacles| && Blocks(obstacles[j], node) {
      BlockFootprint(obstacles[j], node);
    }
  }

  /** A grid cell no obstacle point blocks. */
  predicate Passable(obstacles: seq<Point>, c: Cell)
  {
    InGrid(c) && forall j | 0 <= j < |obstacles| :: !Blocks(obstacles[j], c)
  }

  /**
   * What the search has not yet exhausted: every passable cell next to a
   * closed cell is closed or waiting on the open list.
   */
  ghost predicate Frontier(obstacles: seq<Point>, openList: seq<Cell>, closedList: set<Cell>)
  {
    forall c, n | c in closedList && Adjacent(n, c) && Passable(obstacles, n) :: n in closedList || n in openList
  }

  /**
   * Closing the head of the open list and pushing its passable neighbours
   * that are not closed, while keeping the rest of the open list, keeps the
   * frontier.
   */
  lemma ExpandKeepsFrontier(obstacles: seq<Point>, openList: seq<Cell>, closedList: set<Cell>, openList': seq<Cell>)
    requires openList != [] && Frontier(obstacles, openList, closedList)
    requires forall c | c in openList[1..] :: c in openList'
    requires forall n | Adjacent(n, openList[0]) && Passable(obstacles, n) && n !in closedList + {openList[0]} ::
      n in openList'
    ensures Frontier(obstacles, openList', closedList + {openList[0]})
  {
    forall c, n | c in closedList + {openList[0]} && Adjacent(n, c) && Passable(obstacles, n)
      ensures n in closedList + {openList[0]} || n in openList'
    {
      if c in closedList && n in openList && n != openList[0] {
        var i :| 0 <= i < |openList| && openList[i] == n;
        assert openList[1..][i - 1] == n;
      }
    }
  }

  /** Once the open list is empty, every cell of a route from a closed start is closed. */
  lemma {:induction false} RouteClosed(start: Cell, target: Cell, obstacles: seq<Point>, closedList: set<Cell>,
                                       cells: seq<Cell>, i: nat)
    requires Frontier(obstacles, [], closedList) && start in closedList
    requires IsRoute(start, target, obstacles, cells) && i < |cells|
    ensures cells[i] in closedList
  {
    assert Passable(obstacles, cells[i]);
    if i > 0 {
      RouteClosed(start, target, obstacles, closedList, cells, i - 1);
      assert Adjacent(cells[i - 1], cells[i]);
    }
  }

  /** A search that ran out of cells without closing the target proves there is no route to it. */
  lemma Exhausted(start: Cell, target: Cell, obstacles: seq<Point>, closedList: set<Cell>)
    requires Frontier(obstacles, [], closedList) && start in closedList && target !in closedList
    ensures forall cells :: !IsRoute(start, target, obstacles, cells)
  {
    forall cells | IsRoute(start, target, obstacles, cells)
      ensures false
    {
      RouteClosed(start, target, obstacles, closedList, cells, |cells| - 1);
    }
  }

  /**
   * A path found by the search: a non-empty walk of eight-way steps from a
   * cell next to `start` to `target`, through unblocked grid cells, never
   * visiting `start`.
   */
  ghost predicate IsRoute(start: Cell, target: Cell, obstacles: seq<Point>, cells: seq<Cell>)
  {
    |cells| >= 1 &&
    Adjacent(cells[0], start) &&
    cells[|cells| - 1] == target &&
    (forall i | 0 <= i < |cells| - 1 :: Adjacent(cells[i], cells[i + 1])) &&
    (forall i | 0 <= i < |cells| ::
      InGrid(cells[i]) && cells[i] != start &&
      forall j | 0 <= j < |obstacles| :: !Blocks(obstacles[j], cells[i]))
  }

  /** A `cameFrom` map whose parent links strictly decrease a depth. */
  ghost predicate Links(cameFrom: map<Cell, Cell>, depth: map<Cell, nat>)
  {
    forall k | k in cameFrom :: k in depth && cameFrom[k] in depth && depth[cameFrom[k]] < depth[k]
  }

  /** The cells from the end of the `cameFrom` chain up to `c`, `c` last, the root excluded. */
  ghost function Chain(cameFrom: map<Cell, Cell>, depth: map<Cell, nat>, c: Cell): seq<Cell>
    requires Links(cameFrom, depth) && c in depth
    decreases depth[c]
  {
    if c in cameFrom then Chain(cameFrom, depth, cameFrom[c]) + [c] else []
  }

  /**
   * A `cameFrom` map built by the search: every parent link joins adjacent,
   * unblocked grid cells, depth grows by one along a link, and the only cell
   * without a parent is `start`, at depth 0.
   */
  ghost predicate SearchTree(start: Cell, obstacles: seq<Point>, cameFrom: map<Cell, Cell>, depth: map<Cell, nat>)
  {
    Links(cameFrom, depth) &&
    depth.Keys == cameFrom.Keys + {start} && start !in cameFrom && depth[start] == 0 &&
    forall k | k in cameFrom ::
      depth[k] == depth[cameFrom[k]] + 1 && Adjacent(k, cameFrom[k]) && InGrid(k) &&
      forall j | 0 <= j < |obstacles| :: !Blocks(obstacles[j], k)
  }

  /**
   * Following `cameFrom` back from any cell other than `start` gives a route
   * from `start` to that cell, one cell per unit of depth.
   */
  lemma {:induction false} ChainIsRoute(start: Cell, obstacles: seq<Point>,
                                        cameFrom: map<Cell, Cell>, depth: map<Cell, nat>, c: Cell)
    requires SearchTree(start, obstacles, cameFrom, depth) && c in depth
    ensures |Chain(cameFrom, depth, c)| == depth[c]
    ensures c != start ==> IsRoute(start, c, obstacles, Chain(cameFrom, depth, c))
    decreases depth[c]
  {
    if c in cameFrom {
      var p := cameFrom[c];
      ChainIsRoute(start, obstacles, cameFrom, depth, p);
      var pre := Chain(cameFrom, depth, p);
      var chain := pre + [c];
      assert Chain(cameFrom, depth, c) == chain;
      if p == start {
        assert pre == [];
      } else {
        assert IsRoute(start, p, obstacles, pre);
        assert chain[|chain| - 2] == p;
        forall i | 0 <= i < |chain| - 1
          ensures Adjacent(chain[i], chain[i + 1])
        {
          if i < |chain| - 2 {
            assert chain[i] == pre[i] && chain[i + 1] == pre[i + 1];
          }
        }
      }
      forall i | 0 <= i < |chain|
        ensures InGrid(chain[i]) && chain[i] != start
        ensures forall j | 0 <= j < |obstacles| :: !Blocks(obstacles[j], chain[i])
      {
        if i < |chain| - 1 {
          assert chain[i] == pre[i];
        }
      }
    }
  }

  /**
   * The search state between two expansions, once the start cell has been
   * expanded: the open list holds distinct discovered cells that are not
   * closed, every discovered cell other than the start has the scores
   * Infinity and a closed parent, and the parent links form a search tree.
   */
  ghost predicate Explored(start: Cell, target: Cell, obstacles: seq<Point>, universe: set<Cell>,
                           openList: seq<Cell>, closedList: set<Cell>, cameFrom: map<Cell, Cell>,
                           gScore: map<Cell, Score>, fScore: map<Cell, Score>, depth: map<Cell, nat>)
  {
    (forall c | c in openList :: c in universe && c !in closedList && c in cameFrom) &&
    (forall i, j | 0 <= i < j < |openList| :: openList[i] != openList[j]) &&
    closedList <= universe && start in closedList && target !in closedList &&
    start in gScore && gScore[start] == Finite(0) &&
    (forall c | c in cameFrom ::
      c in gScore && gScore[c] == Infinity && c in fScore && fScore[c] == Infinity &&
      cameFrom[c] in closedList) &&
    closedList <= cameFrom.Keys + {start} &&
    SearchTree(start, obstacles, cameFrom, depth)
  }

  /** The search state before the first expansion. */
  ghost predicate Initial(start: Cell, openList: seq<Cell>, closedList: set<Cell>, cameFrom: map<Cell, Cell>,
                          gScore: map<Cell, Score>, depth: map<Cell, nat>)
  {
    openList == [start] && closedList == {} && cameFrom == map[] &&
    gScore == map[start := Finite(0)] && depth == map[start := 0]
  }

  /**
   * Reaching the target at the head of the open list: the chain of parents
   * ending at the target is empty when the target is the start, and a
   * route from the start otherwise.
   */
  lemma FoundTarget(start: Cell, target: Cell, obstacles: seq<Point>, universe: set<Cell>,
                    openList: seq<Cell>, closedList: set<Cell>, cameFrom: map<Cell, Cell>,
                    gScore: map<Cell, Score>, fScore: map<Cell, Score>, depth: map<Cell, nat>)
    requires openList != [] && openList[0] == target
    requires Initial(start, openList, closedList, cameFrom, gScore, depth) ||
             Explored(start, target, obstacles, universe, openList, closedList, cameFrom, gScore, fScore, depth)
    ensures Links(cameFrom, depth) && target in depth
    ensures start == target ==> Chain(cameFrom, depth, target) == []
    ensures start != target ==>
      IsRoute(start, target, obstacles, Chain(cameFrom, depth, target)) &&
      InGrid(target) && forall j | 0 <= j < |obstacles| :: !Blocks(obstacles[j], target)
  {
    ChainIsRoute(start, obstacles, cameFrom, depth, target);
    if start != target {
      var route := Chain(cameFrom, depth, target);
      assert route[|route| - 1] == target;
    }
  }

  /**
   * Closing the head of the open list: it is the start or a discovered cell,
   * it was not closed, and once it is closed the state is explored again.
   */
  lemma CloseHead(start: Cell, target: Cell, obstacles: seq<Point>, universe: set<Cell>,
                  openList: seq<Cell>, closedList: set<Cell>, cameFrom: map<Cell, Cell>,
                  gScore: map<Cell, Score>, fScore: map<Cell, Score>, depth: map<Cell, nat>)
    requires start in universe && openList != [] && openList[0] != target
    requires Initial(start, openList, closedList, cameFrom, gScore, depth) ||
             Explored(start, target, obstacles, universe, openList, closedList, cameFrom, gScore, fScore, depth)
    ensures openList[0] in universe && openList[0] !in closedList
    ensures openList[0] == start || openList[0] in cameFrom
    ensures Explored(start, target, obstacles, universe, openList[1..], closedList + {openList[0]},
                     cameFrom, gScore, fScore, depth)
  {
    var current := openList[0];
    if !Initial(start, openList, closedList, cameFrom, gScore, depth) {
      forall c | c in openList[1..]
        ensures c in universe && c !in closedList + {current} && c in cameFrom
      {
        var i :| 0 <= i < |openList[1..]| && openList[1..][i] == c;
        assert openList[i + 1] == c;
      }
    }
  }

  /**
   * Discovering an unclosed, unblocked grid cell next to the cell being
   * expanded keeps the state explored.
   */
  lemma Discover(start: Cell, target: Cell, obstacles: seq<Point>, universe: set<Cell>,
                 openList: seq<Cell>, closedList: set<Cell>, cameFrom: map<Cell, Cell>,
                 gScore: map<Cell, Score>, fScore: map<Cell, Score>, depth: map<Cell, nat>,
                 current: Cell, neighbor: Cell)
    requires Explored(start, target, obstacles, universe, openList, closedList, cameFrom, gScore, fScore, depth)
    requires current in closedList && (current == start || current in cameFrom)
    requires GridCells() <= universe && InGrid(neighbor) && Adjacent(neighbor, current)
    requires neighbor !in closedList && neighbor !in openList
    requires forall j | 0 <= j < |obstacles| :: !Blocks(obstacles[j], neighbor)
    ensures Explored(start, target, obstacles, universe, openList + [neighbor], closedList,
                     cameFrom[neighbor := current], gScore[neighbor := Infinity],
                     fScore[neighbor := Infinity], depth[neighbor := depth[current] + 1])
  {
    InGridCells(neighbor);
    var open' := openList + [neighbor];
    var cameFrom', depth' := cameFrom[neighbor := current], depth[neighbor := depth[current] + 1];
    forall c | c in open'
      ensures c in universe && c !in closedList && c in cameFrom'
    {
      if c != neighbor {
        assert c in openList;
      }
    }
    forall i, j | 0 <= i < j < |open'|
      ensures open'[i] != open'[j]
    {
      if j < |openList| {
        assert open'[i] == openList[i] && open'[j] == openList[j];
      } else {
        assert open'[i] == openList[i];
      }
    }
    forall k | k in cameFrom'
      ensures k in depth' && cameFrom'[k] in depth' && depth'[k] == depth'[cameFrom'[k]] + 1
    {
      if k != neighbor {
        assert cameFrom'[k] == cameFrom[k] != neighbor;
      }
    }
    assert SearchTree(start, obstacles, cameFrom', depth');
  }

  lemma SubsetCard<T>(a: set<T>, b: set<T>)
    requires a <= b
    ensures |a| <= |b|
  {
    assert b == a + (b - a);
  }

  /**
   * `class Pathfinder`: the start and target cells of one query, the obstacle
   * points, and the grid size.
   */
  class Pathfinder {
    const start: Cell
    const target: Cell
    const obstacles: seq<Point>
    const gridWidth: int
    const gridHeight: int

    /** Both endpoints are mapped to their cells; the grid is 40 x 30. */
    constructor(startX: real, startY: real, targetX: real, targetY: real, obstacles: seq<Point>)
      ensures start == CellOf(Point(startX, startY)) && target == CellOf(Point(targetX, targetY))
      ensures this.obstacles == obstacles
      ensures gridWidth == GridWidth && gridHeight == GridHeight
    {
      start := CellOf(Point(startX, startY));
      target := CellOf(Point(targetX, targetY));
      this.obstacles := obstacles;
      gridWidth := 40;
      gridHeight := 30;
    }

    /**
     * `isObstacle(node)`: some obstacle point blocks the cell. The cell an
     * obstacle lies in is blocked, and a blocked cell is that cell or the one
     * right of it, below it, or both.
     */
    predicate IsObstacle(node: Cell)
      ensures (exists j | 0 <= j < |obstacles| :: node == CellOf(obstacles[j])) ==> IsObstacle(node)
      ensures IsObstacle(node) ==> exists j | 0 <= j < |obstacles| ::
        node.x - CellOf(obstacles[j]).x in {0, 1} && node.y - CellOf(obstacles[j]).y in {0, 1}
    {
      ObstacleFootprint(obstacles, node);
      exists j | 0 <= j < |obstacles| :: Blocks(obstacles[j], node)
    }

    /**
     * `getNeighbors(node)`: the in-grid cells among the eight offsets, in
     * direction order; they are exactly the in-grid cells adjacent to `node`.
     */
    method GetNeighbors(node: Cell) returns (neighbors: seq<Cell>)
      requires gridWidth == GridWidth && gridHeight == GridHeight
      ensures neighbors == NeighbourList(node, Directions)
      ensures forall c :: c in neighbors <==> InGrid(c) && Adjacent(c, node)
    {
      neighbors := OffsetsInGrid(node, Directions);
      NeighboursExact(node);
    }

    /** The loop of `getNeighbors` over a table of offsets: the in-grid cells `node + d`, in table order. */
    method OffsetsInGrid(node: Cell, dirs: seq<Cell>) returns (neighbors: seq<Cell>)
      requires gridWidth == GridWidth && gridHeight == GridHeight
      ensures neighbors == NeighbourList(node, dirs)
    {
      neighbors := [];
      for i := 0 to |dirs|
        invariant neighbors == NeighbourList(node, dirs[..i])
      {
        var dir := dirs[i];
        var newX := node.x + dir.x;
        var newY := node.y + dir.y;
        NeighbourListStep(node, dirs, i);
        if newX >= 0 && newX < gridWidth && newY >= 0 && newY < gridHeight {
          neighbors := neighbors + [Cell(newX, newY)];
        }
      }
      assert dirs[..|dirs|] == dirs;
    }

    /**
     * `reconstructPath(cameFrom, current)`: the centres of the cells on the
     * `cameFrom` chain ending at `current`, the chain's root excluded. The
     * ghost `depth` only measures the chain for termination.
     */
    method ReconstructPath(cameFrom: map<Cell, Cell>, current: Cell, ghost depth: map<Cell, nat>)
      returns (path: seq<Point>)
      requires Links(cameFrom, depth) && current in depth
      ensures path == Centres(Chain(cameFrom, depth, current))
    {
      path := [];
      var cur := current;
      ghost var cells: seq<Cell> := [];
      while cur in cameFrom
        invariant cur in depth
        invariant Chain(cameFrom, depth, current) == Chain(cameFrom, depth, cur) + cells
        invariant path == Centres(cells)
        decreases depth[cur]
      {
        ghost var parent := Chain(cameFrom, depth, cameFrom[cur]);
        assert Chain(cameFrom, depth, cur) == parent + [cur];
        assert (parent + [cur]) + cells == parent + ([cur] + cells);
        assert ([cur] + cells)[1..] == cells;
        assert Centres([cur] + cells) == [Centre(cur)] + Centres(cells);
        path := [Centre(cur)] + path;
        cells := [cur] + cells;
        cur := cameFrom[cur];
      }
      assert Chain(cameFrom, depth, cur) == [];
      assert Chain(cameFrom, depth, current) == cells;
    }

    /**
     * The neighbour loop of `findPath` for the cell `current` just closed:
     * each in-grid neighbour that is neither closed nor blocked is pushed on
     * the open list if it is new; a neighbour already open keeps its parent,
     * because its tentative score, Infinity, is never better than its own.
     */
    method ExpandNeighbors(current: Cell, openList: seq<Cell>, closedList: set<Cell>, cameFrom: map<Cell, Cell>,
                           gScore: map<Cell, Score>, fScore: map<Cell, Score>,
                           ghost depth: map<Cell, nat>, ghost universe: set<Cell>)
      returns (openList': seq<Cell>, cameFrom': map<Cell, Cell>, gScore': map<Cell, Score>,
               fScore': map<Cell, Score>, ghost depth': map<Cell, nat>)
      requires gridWidth == GridWidth && gridHeight == GridHeight && universe == GridCells() + {start}
      requires current in closedList && (current == start || current in cameFrom)
      requires Explored(start, target, obstacles, universe, openList, closedList, cameFrom, gScore, fScore, depth)
      ensures Explored(start, target, obstacles, universe, openList', closedList, cameFrom', gScore', fScore', depth')
      ensures forall c | c in openList :: c in openList'
      ensures forall n | Adjacent(n, current) && Passable(obstacles, n) && n !in closedList :: n in openList'
    {
      openList', cameFrom', gScore', fScore', depth' := openList, cameFrom, gScore, fScore, depth;
      var neighbors := GetNeighbors(current);
      assert ScoreOr(gScore', current) == Infinity;
      for k := 0 to |neighbors|
        invariant current == start || current in cameFrom'
        invariant Explored(start, target, obstacles, universe, openList', closedList, cameFrom', gScore', fScore', depth')
        invariant forall c | c in openList :: c in openList'
        invariant forall i | 0 <= i < k && neighbors[i] !in closedList && !IsObstacle(neighbors[i]) ::
          neighbors[i] in openList'
      {
        var neighbor := neighbors[k];
        if neighbor in closedList {
          continue;
        }
        if IsObstacle(neighbor) {
          continue;
        }
        var tentativeGScore := Plus(ScoreOr(gScore', current), 1);
        ghost var open0 := openList';
        if neighbor !in openList' {
          openList' := openList' + [neighbor];
        } else if AtLeast(tentativeGScore, ScoreOr(gScore', neighbor)) {
          continue;
        }
        Discover(start, target, obstacles, universe, open0, closedList, cameFrom', gScore', fScore', depth',
                 current, neighbor);
        cameFrom' := cameFrom'[neighbor := current];
        gScore' := gScore'[neighbor := tentativeGScore];
        fScore' := fScore'[neighbor := Plus(tentativeGScore, Heuristic(neighbor, target))];
        depth' := depth'[neighbor := depth'[current] + 1];
      }
      forall n | Adjacent(n, current) && Passable(obstacles, n) && n !in closedList
        ensures n in openList'
      {
        var i :| 0 <= i < |neighbors| && neighbors[i] == n;
      }
    }

    /**
     * `findPath()`.
     *
     * - When the start cell is the target cell the path is empty.
     * - When the search reaches the target, `route` holds the cells it
     *   found: an eight-way walk from next to the start to the target through
     *   unblocked grid cells, and the path is their centres.
     * - Otherwise the path is the single centre of the target cell; in
     *   particular that is the answer for a target cell that is blocked or
     *   outside the grid.
     * - Each cell is expanded at most once, so `expansions` never exceeds the
     *   number of grid cells plus the start cell.
     */
    method FindPath() returns (path: seq<Point>, ghost route: Option<seq<Cell>>, ghost expansions: nat)
      requires gridWidth == GridWidth && gridHeight == GridHeight
      ensures start == target ==> path == [] && route == None
      ensures route.Some? ==>
        start != target && IsRoute(start, target, obstacles, route.value) && path == Centres(route.value)
      ensures start != target && route == None ==> path == [Centre(target)]
      ensures start != target && (!InGrid(target) || IsObstacle(target)) ==> route == None
      ensures start != target && route == None ==> forall cells :: !IsRoute(start, target, obstacles, cells)
      ensures expansions <= |GridCells() + {start}|
    {
      var openList: seq<Cell> := [start];
      var closedList: set<Cell> := {};
      var cameFrom: map<Cell, Cell> := map[];
      var gScore: map<Cell, Score> := map[start := Finite(0)];
      var fScore: map<Cell, Score> := map[start := Finite(Heuristic(start, target))];
      ghost var depth: map<Cell, nat> := map[start := 0];
      ghost var universe := GridCells() + {start};
      expansions := 0;
      ghost var first := true;

      while openList != []
        invariant closedList <= universe && expansions == |closedList|
        invariant first ==> Initial(start, openList, closedList, cameFrom, gScore, depth)
        invariant !first ==> Explored(start, target, obstacles, universe, openList, closedList, cameFrom, gScore, fScore, depth)
        invariant Frontier(obstacles, openList, closedList)
        decreases universe - closedList
      {
        SortKeepsOrder(fScore, openList);
        openList := SortByScore(fScore, openList);
        var current := openList[0];

        if current == target {
          FoundTarget(start, target, obstacles, universe, openList, closedList, cameFrom, gScore, fScore, depth);
          openList := openList[1..];
          path := ReconstructPath(cameFrom, current, depth);
          SubsetCard(closedList, universe);
          if current == start {
            route := None;
          } else {
            route := Some(Chain(cameFrom, depth, current));
          }
          return;
        }

        CloseHead(start, target, obstacles, universe, openList, closedList, cameFrom, gScore, fScore, depth);
        ghost var open0, closed0 := openList, closedList;
        openList := openList[1..];
        closedList := closedList + {current};
        expansions := expansions + 1;

        openList, cameFrom, gScore, fScore, depth :=
          ExpandNeighbors(current, openList, closedList, cameFrom, gScore, fScore, depth, universe);
        ExpandKeepsFrontier(obstacles, open0, closed0, openList);
        first := false;
      }
      Exhausted(start, target, obstacles, closedList);
      SubsetCard(closedList, universe);
      path := [Centre(target)];
      route := None;
    }
  }
}
