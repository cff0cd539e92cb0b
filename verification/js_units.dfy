/**
 * The unit of game_integrated/simple_rts/unit.js: a class whose position,
 * path, path cursor, order and cooldown change as the simulation runs.
 *
 * `update` and `executeOrder` call into the combat rules, which in turn read
 * and write units; Dafny modules cannot import each other in a cycle, so
 * those two methods live in the module `JsUnitTick` and take the unit as a
 * parameter. Everything else of the class is here.
 */
module JsUnits {
  import opened Common
  import opened Archetypes
  import GridPath

  /** `currentOrder.type`, with the target object of an ATTACK order. */
  datatype Order = Move | Attack(target: Unit) | Stop | Hold

  /** A unit's path, path cursor and order: the part of its state orders and moves rewrite. */
  datatype Plan = Plan(path: seq<Point>, pathIndex: nat, order: Option<Order>)

  /** Moving toward `w` from `(x, y)` by `s`: the new position. */
  function StepToward(x: real, y: real, w: Point, d: real, s: real): (p: Point)
    requires d != 0.0
  {
    Point(x + (w.x - x) / d * s, y + (w.y - y) / d * s)
  }

  /** The offsets of a step as multiples of the vector toward the waypoint. */
  lemma StepOffsets(x: real, y: real, w: Point, d: real, s: real, dx: real, dy: real, k: real)
    requires d != 0.0 && dx == w.x - x && dy == w.y - y && k == s / d
    ensures StepToward(x, y, w, d, s).x - x == k * dx && StepToward(x, y, w, d, s).y - y == k * dy
    ensures w.x - StepToward(x, y, w, d, s).x == (1.0 - k) * dx && w.y - StepToward(x, y, w, d, s).y == (1.0 - k) * dy
  {}

  lemma ScaleBack(d: real, s: real, k: real)
    requires 0.0 < d && 0.0 <= s && k == s / d
    ensures k * d == s && (1.0 - k) * d == d - s
    ensures 0.0 <= k && (s <= d ==> k <= 1.0)
  {}

  /**
   * A step of length `s` toward a waypoint at distance `d` covers exactly
   * `s`, and when it does not overshoot it leaves `d - s` to go.
   */
  lemma StepLength(norm: Norm, x: real, y: real, w: Point, s: real)
    requires Euclidean(norm) && 0.0 <= s && norm(w.x - x, w.y - y) != 0.0
    ensures var d := norm(w.x - x, w.y - y);
      var p := StepToward(x, y, w, d, s);
      norm(p.x - x, p.y - y) == s &&
      (s <= d ==> norm(w.x - p.x, w.y - p.y) == d - s)
  {
    var dx, dy := w.x - x, w.y - y;
    var d := norm(dx, dy);
    assert SquareRootAt(norm, dx, dy);
    var k := s / d;
    ScaleBack(d, s, k);
    var p := StepToward(x, y, w, d, s);
    StepOffsets(x, y, w, d, s, dx, dy, k);
    NormScale(norm, dx, dy, k);
    NormArguments(norm, p.x - x, p.y - y, k * dx, k * dy);
    if s <= d {
      var j := 1.0 - k;
      NormScale(norm, dx, dy, j);
      NormArguments(norm, w.x - p.x, w.y - p.y, j * dx, j * dy);
    }
  }

  /**
   * `updateMovement(deltaTime)` takes a unit of speed `speed` from the
   * position `(x0, y0)` and the plan `p` to the position `(x1, y1)` and the
   * plan `q`: with no waypoint under the cursor nothing happens. Within 3 of
   * the waypoint the cursor advances, and running off the end clears the
   * path, resets the cursor and ends a MOVE order (only a MOVE order).
   * Otherwise the unit steps `speed * deltaTime * 60` toward the waypoint.
   */
  predicate Moved(x0: real, y0: real, p: Plan, x1: real, y1: real, q: Plan, speed: real, deltaTime: real, norm: Norm)
  {
    (p.path == [] || p.pathIndex >= |p.path| ==>
      x1 == x0 && y1 == y0 && q == p) &&
    (p.path != [] && p.pathIndex < |p.path| ==>
      var w := p.path[p.pathIndex];
      var distance := norm(w.x - x0, w.y - y0);
      (distance < 3.0 ==>
        x1 == x0 && y1 == y0 &&
        (p.pathIndex + 1 < |p.path| ==> q == Plan(p.path, p.pathIndex + 1, p.order)) &&
        (p.pathIndex + 1 >= |p.path| ==> q == Plan([], 0, if p.order == Some(Move) then None else p.order))) &&
      (distance >= 3.0 ==>
        Point(x1, y1) == StepToward(x0, y0, w, distance, speed * deltaTime * 60.0) && q == p))
  }

  class Unit {
    const id: nat
    const kind: UnitKind
    const owner: int
    var x: real
    var y: real
    const maxHp: real
    var hp: real
    const maxShield: real
    var shield: real
    const speed: real
    const attackPower: real
    const attackRange: real
    const maxAttackCooldown: real
    var attackCooldown: real
    const armor: real
    const size: real
    const color: string
    var isSelected: bool
    var currentOrder: Option<Order>
    var path: seq<Point>
    var pathIndex: nat

    /**
     * The invariant every method keeps: the path cursor points into the path
     * unless the path is empty, the cooldown lies in [0, maxAttackCooldown],
     * and the shield lies in [0, maxShield].
     */
    ghost predicate Valid()
      reads this`path, this`pathIndex, this`attackCooldown, this`shield
    {
      (path == [] || pathIndex < |path|) &&
      0.0 <= attackCooldown <= maxAttackCooldown &&
      0.0 <= shield <= maxShield
    }

    /**
     * `new Unit(type, owner, x, y)`: the stats of the archetype, full hit
     * points and shield, no cooldown, no path and no order. The random id
     * of the original is replaced by an id the caller draws from a counter.
     */
    constructor(id: nat, kind: UnitKind, owner: int, x: real, y: real)
      ensures this.id == id && this.kind == kind && this.owner == owner
      ensures this.x == x && this.y == y
      ensures var a := Data(kind);
        maxHp == a.maxHp && hp == a.maxHp && maxShield == a.maxShield && shield == a.maxShield &&
        speed == a.speed && attackPower == a.attackPower && attackRange == a.attackRange &&
        maxAttackCooldown == a.attackCooldown && armor == a.armor && size == a.size && color == a.color
      ensures attackCooldown == 0.0 && !isSelected && currentOrder == None
      ensures path == [] && pathIndex == 0
      ensures Valid()
    {
      StatsPositive(kind);
      var a := Data(kind);
      this.id := id;
      this.kind := kind;
      this.owner := owner;
      this.x := x;
      this.y := y;
      maxHp := a.maxHp;
      hp := a.maxHp;
      maxShield := a.maxShield;
      shield := a.maxShield;
      speed := a.speed;
      attackPower := a.attackPower;
      attackRange := a.attackRange;
      maxAttackCooldown := a.attackCooldown;
      attackCooldown := 0.0;
      armor := a.armor;
      size := a.size;
      color := a.color;
      isSelected := false;
      currentOrder := None;
      path := [];
      pathIndex := 0;
    }

    /** `isDead()`. */
    predicate IsDead()
      reads this
    {
      hp <= 0.0
    }

    /** The unit's path, path cursor and order, as one value. */
    function CurrentPlan(): Plan
      reads this`path, this`pathIndex, this`currentOrder
    {
      Plan(path, pathIndex, currentOrder)
    }

    /** `updateMovement(deltaTime)`: the move `Moved` describes, at the unit's speed. */
    method UpdateMovement(deltaTime: real, norm: Norm)
      modifies this`x, this`y, this`path, this`pathIndex, this`currentOrder
      ensures Moved(old(x), old(y), old(CurrentPlan()), x, y, CurrentPlan(), speed, deltaTime, norm)
      ensures currentOrder == old(currentOrder) || currentOrder.None?
      ensures old(Valid()) ==> Valid()
    {
      if |path| == 0 {
        return;
      }
      if pathIndex >= |path| {
        return;
      }
      var target := path[pathIndex];
      var dx := target.x - x;
      var dy := target.y - y;
      var distance := norm(dx, dy);
      if distance < 3.0 {
        pathIndex := pathIndex + 1;
        if pathIndex >= |path| {
          path := [];
          pathIndex := 0;
          if currentOrder == Some(Move) {
            currentOrder := None;
          }
        }
      } else {
        var moveSpeed := speed * deltaTime * 60.0;
        x := x + (dx / distance) * moveSpeed;
        y := y + (dy / distance) * moveSpeed;
      }
    }

    /**
     * `moveTo(x, y)`: a path from the pathfinder over an empty obstacle list,
     * with the cursor at its start. The path is empty exactly when the unit
     * already stands in the target's cell; otherwise it ends at the centre of
     * the target's cell.
     */
    method MoveTo(tx: real, ty: real)
      modifies this`path, this`pathIndex
      ensures pathIndex == 0
      ensures path == [] <==> GridPath.CellOf(Point(x, y)) == GridPath.CellOf(Point(tx, ty))
      ensures path != [] ==> path[|path| - 1] == GridPath.Centre(GridPath.CellOf(Point(tx, ty)))
      ensures old(Valid()) ==> Valid()
    {
      var pathfinder := new GridPath.Pathfinder(x, y, tx, ty, []);
      var found, route, expansions := pathfinder.FindPath();
      if route.Some? {
        GridPath.CentresAt(route.value);
      }
      path := found;
      pathIndex := 0;
    }

    /** `attackTarget(target)`: the order becomes ATTACK on `target`. */
    method AttackTarget(target: Unit)
      modifies this`currentOrder
      ensures currentOrder == Some(Attack(target))
    {
      currentOrder := Some(Attack(target));
    }

    /** `stop()`: the order becomes STOP and the path is dropped. */
    method Stop()
      modifies this`currentOrder, this`path
      ensures currentOrder == Some(Order.Stop) && path == []
      ensures old(Valid()) ==> Valid()
    {
      currentOrder := Some(Order.Stop);
      path := [];
    }

    /** `hold()`: the order becomes HOLD and the path is dropped. */
    method Hold()
      modifies this`currentOrder, this`path
      ensures currentOrder == Some(Order.Hold) && path == []
      ensures old(Valid()) ==> Valid()
    {
      currentOrder := Some(Order.Hold);
      path := [];
    }
  }

  /** A list of units with no unit twice. */
  predicate Distinct(s: seq<Unit>)
  {
    forall a, b :: 0 <= a < b < |s| ==> s[a] != s[b]
  }
}
