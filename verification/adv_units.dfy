/**
 * The units of game_integrated/simple_rts/simple_game_advanced.cpp, the
 * fixed-point port: their stats, the A* `Pathfinder::findPath` over the
 * other units, and a unit's `moveTo`, `attack`, `update`, `updateMovement`,
 * `updateCombat`, `performAttack` and `findNearestEnemy`.
 *
 * A unit's `attackTarget` pointer is modelled by the target's id, looked up
 * in the unit list it is given: a target that has left the list was
 * removed because it died, so "absent" and "dead" behave alike.
 */
module AdvancedUnits {
  import opened Common
  import opened Damage
  import opened GridPath
  import opened AStar
  import opened FixedPoint

  datatype UnitType = Marine | Zealot

  /** A row of `UNIT_STATS`; the draw colour is left out. */
  datatype UnitData = UnitData(
    name: string, maxHp: Fp8, maxShield: Fp8, topSpeed: Fp8, acceleration: Fp8, turnRate: Fp8,
    attackPower: Fp8, attackRange: Fp8, attackCooldown: Fp8, size: Fp8, haltDistance: Fp8)

  /** `fp8(0.1f)`: 0.1 * 256 = 25.6, truncated. */
  const Tenth: Fp8 := FromReal(0.1)
  /** `fp8(0.9f)`, the coasting decay per frame. */
  const Decay: Fp8 := FromReal(0.9)
  /** `fp8(0.5f)`, the share of the overlap each unit of a pair is pushed. */
  const Half: Fp8 := FromReal(0.5)
  /** `fp8(10)`, the distance at which a waypoint counts as reached. */
  const Arrival: Fp8 := FromInt(10)
  /** `fp8(60)`, frames per second. */
  const FrameRate: Fp8 := FromInt(60)
  /** `fp8(999999)`, the starting distance of the nearest-enemy search. */
  const FarAway: Fp8 := FromInt(999999)

  lemma ConstantRaws()
    ensures Tenth.raw == 25 && Decay.raw == 230 && Half.raw == 128
    ensures Arrival.raw == 2560 && FrameRate.raw == 15360 && FarAway.raw == 255999744
  {}

  /**
   * `UNIT_STATS[type]`. Every unit has positive hit points, speed, attack
   * power and size, and its attack cooldown is at least 0.1, so the unit
   * that has just attacked cannot attack again in the same frame.
   */
  function Stats(t: UnitType): (d: UnitData)
    ensures d.maxHp.raw > 0 && d.maxShield.raw >= 0
    ensures d.topSpeed.raw > 0 && d.acceleration.raw > 0 && d.attackPower.raw > 0 && d.size.raw > 0
    ensures d.attackCooldown.raw >= Tenth.raw
  {
    match t
    case Marine =>
      UnitData("Marine", FromInt(40), FromInt(0), FromReal(4.0), FromReal(1.0), FromReal(0.3),
        FromInt(6), FromInt(120), FromInt(15), FromInt(16), FromInt(8))
    case Zealot =>
      UnitData("Zealot", FromInt(100), FromInt(60), FromReal(3.0), FromReal(0.8), FromReal(0.25),
        FromInt(16), FromInt(20), FromInt(22), FromInt(18), FromInt(10))
  }

  /** Shield and hit points in `fp8`. */
  datatype Health = Health(shield: Fp8, hp: Fp8)

  function AsVitals(h: Health): Vitals
  {
    Vitals(ToReal(h.shield), ToReal(h.hp))
  }

  /**
   * The damage step of `performAttack` on `fp8` values. It is the shared
   * shield-first rule, computed exactly: `fp8` addition and subtraction
   * lose nothing.
   */
  function Strike(h: Health, damage: Fp8): (r: Health)
    ensures AsVitals(r) == ApplyDamage(AsVitals(h), ToReal(damage))
  {
    if h.shield.raw > 0 then
      var s := Sub(h.shield, damage);
      if s.raw < 0 then Health(Zero, Add(h.hp, s)) else Health(s, h.hp)
    else
      Health(h.shield, Sub(h.hp, damage))
  }

  /** The cell `findPath` computes for a position: each coordinate over 32, truncated. */
  function CellOfVec(v: Vec): Cell
  {
    CellAt(Point(ToReal(v.x), ToReal(v.y)))
  }

  /** The waypoint `Vec2` of each point, in order. */
  function Waypoints(points: seq<Point>): (w: seq<Vec>)
    ensures |w| == |points| && forall i :: 0 <= i < |points| ==> w[i] == VecOf(points[i])
  {
    seq(|points|, i requires 0 <= i < |points| => VecOf(points[i]))
  }

  /**
   * What `findPath(start, goal, ...)` may return when the cells in
   * `blocked` hold units: the goal alone when either end lies off the map
   * or when no route exists, and otherwise the cell centres of some route.
   */
  ghost predicate Planned(start: Vec, goal: Vec, blocked: set<Cell>, path: seq<Vec>)
  {
    PlannedCells(CellOfVec(start), CellOfVec(goal), goal, blocked, path)
  }

  /** `Planned`, from cell `s` to cell `t`, where `goal` is the point in cell `t` the unit was sent to. */
  ghost predicate PlannedCells(s: Cell, t: Cell, goal: Vec, blocked: set<Cell>, path: seq<Vec>)
  {
    if !InMap(s) || !InMap(t) then path == [goal]
    else if exists cells :: AStar.IsRoute(s, t, blocked, cells) then
      exists cells :: AStar.IsRoute(s, t, blocked, cells) && path == Waypoints(Centres(cells))
    else path == [goal]
  }

  /**
   * A planned path is never empty, and it ends where the unit was sent:
   * at the goal itself or at the centre of the goal's cell; when there is
   * a route, it begins at the centre of the unit's own cell.
   */
  lemma PlannedEnds(start: Vec, goal: Vec, blocked: set<Cell>, path: seq<Vec>)
    requires Planned(start, goal, blocked, path)
    ensures |path| >= 1
    ensures path[|path| - 1] == goal || path[|path| - 1] == VecOf(Centre(CellOfVec(goal)))
    ensures path != [goal] ==> path[0] == VecOf(Centre(CellOfVec(start)))
  {
    var s, t := CellOfVec(start), CellOfVec(goal);
    if InMap(s) && InMap(t) && exists cells :: AStar.IsRoute(s, t, blocked, cells) {
      var cells :| AStar.IsRoute(s, t, blocked, cells) && path == Waypoints(Centres(cells));
      CentresAt(cells);
    }
  }

  /** A unit is dead once its hit points are not positive (`hp.toFloat() <= 0`). */
  predicate Dead(u: Unit)
    reads u`hp
  {
    u.hp.raw <= 0
  }

  /** The cells of the map that hold a living unit of `units`. */
  function UnitCells(units: seq<Unit>): set<Cell>
    reads units`hp, units`position
  {
    set u | u in units && !Dead(u) && InMap(CellOfVec(u.position)) :: CellOfVec(u.position)
  }

  /** Only cells of the map are ever blocked, and each holds a living unit. */
  lemma UnitCellsOnMap(units: seq<Unit>)
    ensures UnitCells(units) <= MapCells()
    ensures forall c | c in UnitCells(units) :: exists k :: 0 <= k < |units| && !Dead(units[k]) && CellOfVec(units[k].position) == c
  {
    forall c | c in UnitCells(units)
      ensures c in MapCells()
      ensures exists k :: 0 <= k < |units| && !Dead(units[k]) && CellOfVec(units[k].position) == c
    {
      var u :| u in units && !Dead(u) && InMap(CellOfVec(u.position)) && CellOfVec(u.position) == c;
      InMapCells(c);
      var k :| 0 <= k < |units| && units[k] == u;
    }
  }

  /** The loop that fills `obstacleGrid`, the grid modelled as the set of its true cells. */
  method UnitGrid(obstacles: seq<Unit>) returns (blocked: set<Cell>)
    ensures blocked == UnitCells(obstacles)
  {
    blocked := {};
    for i := 0 to |obstacles|
      invariant blocked == UnitCells(obstacles[..i])
    {
      var u := obstacles[i];
      assert obstacles[..i + 1] == obstacles[..i] + [u];
      if Dead(u) {
        continue;
      }
      var c := CellOfVec(u.position);
      if c.x >= 0 && c.x < MapWidth && c.y >= 0 && c.y < MapHeight {
        blocked := blocked + {c};
      }
    }
    assert obstacles[..|obstacles|] == obstacles;
  }

  /**
   * `Pathfinder::findPath(start, goal, obstacles)`: off the map at either
   * end, the goal alone; otherwise an A* search over the cells of the
   * living obstacles, without a limit on its pops, whose route is returned
   * as the centres of its cells, or the goal alone when it finds none.
   */
  method FindPath(start: Vec, goal: Vec, obstacles: seq<Unit>) returns (path: seq<Vec>)
    ensures Planned(start, goal, UnitCells(obstacles), path)
  {
    var s, t := CellOfVec(start), CellOfVec(goal);
    if !InMap(s) || !InMap(t) {
      return [goal];
    }
    var blocked := UnitGrid(obstacles);
    var found, parent, depth, _ := Search(s, t, blocked, None);
    if found {
      var points := Reconstruct(s, parent, t, depth);
      path := Waypoints(points);
      ghost var cells := [s] + Chain(parent, depth, t);
      assert AStar.IsRoute(s, t, blocked, cells) && path == Waypoints(Centres(cells));
      assert PlannedCells(s, t, goal, blocked, path);
    } else {
      path := [goal];
      assert !exists cells :: AStar.IsRoute(s, t, blocked, cells);
      assert PlannedCells(s, t, goal, blocked, path);
    }
  }

  /** The units other than `me` that are alive, in order: the obstacles a unit plans around. */
  function Others(units: seq<Unit>, me: Unit): seq<Unit>
    reads units`hp
  {
    if |units| == 0 then []
    else
      var u := units[|units| - 1];
      Others(units[..|units| - 1], me) + (if u != me && !Dead(u) then [u] else [])
  }

  /** The obstacles are exactly the living units other than `me`. */
  /** A unit is never among its own others. */
  lemma {:induction false} NotAmongOthers(units: seq<Unit>, me: Unit)
    ensures me !in Others(units, me)
  {
    if |units| > 0 {
      NotAmongOthers(units[..|units| - 1], me);
    }
  }

  lemma {:induction false} OthersMembers(units: seq<Unit>, me: Unit)
    ensures forall k :: 0 <= k < |Others(units, me)| ==>
      Others(units, me)[k] in units && Others(units, me)[k] != me && !Dead(Others(units, me)[k])
    ensures forall k :: 0 <= k < |units| && units[k] != me && !Dead(units[k]) ==> units[k] in Others(units, me)
  {
    if |units| > 0 {
      var front := units[..|units| - 1];
      OthersMembers(front, me);
      forall k | 0 <= k < |units| - 1
        ensures units[k] == front[k]
      {}
    }
  }

  /**
   * The fold of `findNearestEnemy` over the first `n` units, `live`
   * telling which are alive: the index of the nearest living unit of
   * another owner, and its distance, or no unit and 999999 when none is
   * nearer than that. Ties keep the earlier unit, since only a strictly
   * smaller distance replaces the best.
   */
  function Scan(units: seq<Unit>, live: seq<bool>, owner: int, pos: Vec, n: nat): (r: (Option<nat>, Fp8))
    requires n <= |units| == |live|
    reads units`position
    ensures r.0.Some? ==> r.0.value < n
  {
    if n == 0 then (None, FarAway)
    else
      var best := Scan(units, live, owner, pos, n - 1);
      var u := units[n - 1];
      if u.owner == owner || !live[n - 1] then best
      else
        var dist := Length(VSub(u.position, pos));
        if dist.raw < best.1.raw then (Some(n - 1), dist) else best
  }

  /**
   * What the fold finds: no unit, with distance 999999, when no living
   * enemy among the first `n` is nearer than that; otherwise a living
   * enemy at the distance it reports, which no living enemy among the
   * first `n` beats, and every earlier one is strictly farther.
   */
  lemma {:induction false} ScanNearest(units: seq<Unit>, live: seq<bool>, owner: int, pos: Vec, n: nat)
    requires n <= |units| == |live|
    ensures var r := Scan(units, live, owner, pos, n);
      r.0.None? ==> r.1 == FarAway
    ensures var r := Scan(units, live, owner, pos, n);
      r.0.Some? ==> (Hostile(units[r.0.value], live[r.0.value], owner) &&
        r.1 == Length(VSub(units[r.0.value].position, pos)) && r.1.raw < FarAway.raw)
    ensures var r := Scan(units, live, owner, pos, n);
      forall k :: 0 <= k < n && Hostile(units[k], live[k], owner) ==> r.1.raw <= Length(VSub(units[k].position, pos)).raw
    ensures var r := Scan(units, live, owner, pos, n);
      r.0.Some? ==> forall k :: 0 <= k < r.0.value && Hostile(units[k], live[k], owner) ==>
        r.1.raw < Length(VSub(units[k].position, pos)).raw
  {
    if n > 0 {
      ScanNearest(units, live, owner, pos, n - 1);
    }
  }

  /** A unit that does not belong to `owner`, alive by `alive`. */
  predicate Hostile(u: Unit, alive: bool, owner: int)
  {
    u.owner != owner && alive
  }

  /** Which units are alive, in order. */
  function Lives(units: seq<Unit>): (live: seq<bool>)
    reads units`hp
    ensures |live| == |units| && forall k :: 0 <= k < |units| ==> live[k] == !Dead(units[k])
  {
    if |units| == 0 then []
    else Lives(units[..|units| - 1]) + [!Dead(units[|units| - 1])]
  }

  /** The index of the first unit of `units` with id `id`. */
  function Find(units: seq<Unit>, id: int): (r: Option<nat>)
    ensures r.Some? ==> r.value < |units| && units[r.value].id == id
    ensures r.Some? ==> forall k :: 0 <= k < r.value ==> units[k].id != id
    ensures r.None? ==> forall k :: 0 <= k < |units| ==> units[k].id != id
  {
    if |units| == 0 then None
    else if units[0].id == id then Some(0)
    else match Find(units[1..], id)
      case None => None
      case Some(k) => Some(k + 1)
  }

  /**
   * What `updateCombat` does: chase the ordered target along a new path
   * (`Pursue`), keep following the current path (`Follow`), stop in range
   * while the weapon cools down (`Hold`), fire at a unit (`Fire`, which
   * also stops the unit when the unit is the ordered target), or nothing.
   */
  datatype Action = Pursue(k: nat) | Follow | Hold | Fire(k: nat, halt: bool) | Idle

  /** `Unit`: the fields the simulation reads and writes. */
  class Unit {
    const id: int
    const kind: UnitType
    const owner: int
    var position: Vec
    var velocity: Vec
    var moveTarget: Vec
    var hp: Fp8
    var shield: Fp8
    var attackCooldown: Fp8
    var isSelected: bool
    var attackTarget: Option<int>
    var isMoving: bool
    var hasPath: bool
    var path: seq<Vec>
    var pathIndex: nat

    /** `Unit(id, type, owner, pos)`: at rest where it stands, at full hit points and shield. */
    constructor(id: int, kind: UnitType, owner: int, pos: Vec)
      ensures this.id == id && this.kind == kind && this.owner == owner
      ensures position == pos && velocity == ZeroVec && moveTarget == pos
      ensures hp == Stats(kind).maxHp && shield == Stats(kind).maxShield && attackCooldown == Zero
      ensures !isSelected && attackTarget == None && !isMoving && !hasPath && path == [] && pathIndex == 0
    {
      this.id := id;
      this.kind := kind;
      this.owner := owner;
      position := pos;
      velocity := ZeroVec;
      moveTarget := pos;
      attackCooldown := Zero;
      isSelected := false;
      attackTarget := None;
      isMoving := false;
      hasPath := false;
      path := [];
      pathIndex := 0;
      hp := Stats(kind).maxHp;
      shield := Stats(kind).maxShield;
    }

    function Data(): UnitData
    {
      Stats(kind)
    }

    function CurrentHealth(): Health
      reads this`shield, this`hp
    {
      Health(shield, hp)
    }

    function MotionState(): Motion
      reads this`position, this`velocity, this`pathIndex, this`hasPath, this`isMoving
    {
      Motion(position, velocity, pathIndex, hasPath, isMoving)
    }

    /**
     * The loop that gathers the obstacles of `moveTo`, `attack` and
     * `updateCombat`: every other unit that is alive.
     */
    method Obstacles(allUnits: seq<Unit>) returns (obstacles: seq<Unit>)
      ensures obstacles == Others(allUnits, this)
    {
      obstacles := [];
      for i := 0 to |allUnits|
        invariant obstacles == Others(allUnits[..i], this)
      {
        var u := allUnits[i];
        assert allUnits[..i + 1][..i] == allUnits[..i];
        if u != this && !Dead(u) {
          obstacles := obstacles + [u];
        }
      }
      assert allUnits[..|allUnits|] == allUnits;
    }

    /**
     * `moveTo(target, allUnits)`: the target becomes the move target, any
     * attack order is dropped, and the path is planned from the unit's
     * position around the other living units.
     */
    method MoveTo(target: Vec, allUnits: seq<Unit>) returns (ghost blocked: set<Cell>)
      modifies this`moveTarget, this`attackTarget, this`hasPath, this`isMoving, this`path, this`pathIndex
      ensures moveTarget == target && attackTarget == None && hasPath && isMoving && pathIndex == 0
      ensures blocked == old(UnitCells(Others(allUnits, this)))
      ensures Planned(old(position), target, blocked, path)
    {
      ghost var others := Others(allUnits, this);
      blocked := UnitCells(others);
      var obstacles := Obstacles(allUnits);
      assert obstacles == others;
      var route := FindPath(position, target, obstacles);
      moveTarget := target;
      attackTarget := None;
      hasPath := true;
      isMoving := true;
      path := route;
      pathIndex := 0;
    }

    /**
     * `attack(target, allUnits)`: the target becomes the attack target;
     * a present target also becomes the move target and gets a fresh path.
     * Unlike `moveTo`, this does not set `isMoving`.
     */
    method Attack(target: Option<Unit>, allUnits: seq<Unit>) returns (ghost blocked: set<Cell>)
      modifies this`attackTarget, this`moveTarget, this`hasPath, this`path, this`pathIndex
      ensures attackTarget == (if target.Some? then Some(target.value.id) else None)
      ensures target.None? ==> unchanged(this`moveTarget, this`hasPath, this`path, this`pathIndex)
      ensures target.Some? ==> (moveTarget == target.value.position && hasPath && pathIndex == 0 &&
        blocked == old(UnitCells(Others(allUnits, this))) && Planned(old(position), moveTarget, blocked, path))
    {
      ghost var others := Others(allUnits, this);
      blocked := UnitCells(others);
      if target.Some? {
        var obstacles := Obstacles(allUnits);
        assert obstacles == others;
        var route := FindPath(position, target.value.position, obstacles);
        moveTarget := target.value.position;
        path := route;
        pathIndex := 0;
        hasPath := true;
      }
      attackTarget := if target.Some? then Some(target.value.id) else None;
    }

    /** `updateMovement(deltaTime)`: one step of `Move`. */
    method UpdateMovement(deltaTime: Fp8)
      modifies this`position, this`velocity, this`pathIndex, this`hasPath, this`isMoving
      ensures MotionState() == Move(old(MotionState()), path, Data(), deltaTime)
    {
      if !hasPath && !isMoving {
        velocity := VScale(velocity, Decay);
        if Length(velocity).raw < Tenth.raw {
          velocity := Vec(Zero, Zero);
        }
        position := VAdd(position, VScale(velocity, deltaTime));
        return;
      }
      if pathIndex < |path| {
        var waypoint := path[pathIndex];
        var diff := VSub(waypoint, position);
        var distance := Length(diff);
        if distance.raw < Arrival.raw {
          pathIndex := pathIndex + 1;
          if pathIndex >= |path| {
            hasPath := false;
            isMoving := false;
          }
          return;
        }
        var direction := Normalize(diff);
        var targetVel := VScale(direction, Data().topSpeed);
        var accelVec := VScale(VScale(VSub(targetVel, velocity), Data().acceleration), deltaTime);
        velocity := VAdd(velocity, accelVec);
        var currentSpeed := Length(velocity);
        if currentSpeed.raw > Data().topSpeed.raw {
          velocity := VScale(Normalize(velocity), Data().topSpeed);
        }
        position := VAdd(position, VScale(VScale(velocity, deltaTime), FrameRate));
      } else {
        hasPath := false;
        isMoving := false;
      }
    }

    /** The index of the ordered target in `units`, when it is there and alive. */
    function LiveTarget(units: seq<Unit>): (r: Option<nat>)
      reads this`attackTarget, units`hp
      ensures r.Some? ==> r.value < |units| && !Dead(units[r.value])
    {
      if attackTarget.None? then None
      else match Find(units, attackTarget.value)
        case None => None
        case Some(k) => if Dead(units[k]) then None else Some(k)
    }

    /** The current path is used up: there is none, or the cursor is past its end. */
    function PathDone(): bool
      reads this`hasPath, this`pathIndex, this`path
    {
      !hasPath || pathIndex >= |path|
    }

    /**
     * The decision `updateCombat` takes for this unit with cooldown
     * `cooldown`, `target` being the index of its ordered target when that
     * one is listed and alive, `live` telling which listed units are alive
     * and `pathDone` whether its path is used up. A live ordered target
     * out of range is chased, with a new path only once the current one is
     * used up; in range the unit stops and fires when its cooldown is below
     * 0.1. Without a live ordered target the unit fires at the nearest
     * living enemy when that one is strictly within range and the cooldown
     * is below 0.1.
     */
    function Decide(units: seq<Unit>, live: seq<bool>, target: Option<nat>, cooldown: Fp8, pathDone: bool): (a: Action)
      requires |live| == |units| && (target.Some? ==> target.value < |units|)
      reads this`position, units`position
      ensures (a.Pursue? || a.Fire?) ==> a.k < |units|
    {
      match target
      case Some(k) =>
        var dist := Length(VSub(units[k].position, position));
        if dist.raw > Data().attackRange.raw then
          if pathDone then Pursue(k) else Follow
        else if cooldown.raw < Tenth.raw then Fire(k, true)
        else Hold
      case None =>
        match Scan(units, live, owner, position, |units|).0
        case Some(k) =>
          var dist := Length(VSub(units[k].position, position));
          if dist.raw < Data().attackRange.raw && cooldown.raw < Tenth.raw then Fire(k, false) else Idle
        case None => Idle
    }

    /**
     * Every shot `Decide` orders is at a listed unit within range with the
     * weapon ready; a stopping shot and a chase are at the ordered target,
     * and an automatic shot at a living enemy no other living enemy is
     * nearer than. A chase is after a target out of range once the path is
     * used up. The ordered target is acted on exactly when there is one;
     * without one, the unit fires whenever a living enemy is strictly in
     * range and the weapon is ready.
     */
    lemma DecideSound(units: seq<Unit>, live: seq<bool>, target: Option<nat>, cooldown: Fp8, pathDone: bool)
      requires |live| == |units| && (target.Some? ==> target.value < |units|)
      ensures var a := Decide(units, live, target, cooldown, pathDone);
        a.Fire? ==> (cooldown.raw < Tenth.raw &&
          Length(VSub(units[a.k].position, position)).raw <= Data().attackRange.raw)
      ensures var a := Decide(units, live, target, cooldown, pathDone);
        (a.Pursue? || (a.Fire? && a.halt)) ==> target == Some(a.k)
      ensures var a := Decide(units, live, target, cooldown, pathDone);
        a.Fire? && !a.halt ==> (Hostile(units[a.k], live[a.k], owner) &&
          forall j :: 0 <= j < |units| && Hostile(units[j], live[j], owner) ==>
            Length(VSub(units[a.k].position, position)).raw <= Length(VSub(units[j].position, position)).raw)
      ensures var a := Decide(units, live, target, cooldown, pathDone);
        a.Pursue? ==> (Length(VSub(units[a.k].position, position)).raw > Data().attackRange.raw && pathDone)
      ensures var a := Decide(units, live, target, cooldown, pathDone);
        (a.Pursue? || a.Follow? || a.Hold? || (a.Fire? && a.halt)) <==> target.Some?
      ensures var a := Decide(units, live, target, cooldown, pathDone);
        (target.None? && cooldown.raw < Tenth.raw &&
         exists j :: 0 <= j < |units| && Hostile(units[j], live[j], owner) &&
           Length(VSub(units[j].position, position)).raw < Data().attackRange.raw) ==> a.Fire?
    {
      ScanNearest(units, live, owner, position, |units|);
    }

    /** `findNearestEnemy(allUnits)`: the index of the unit `Scan` picks. */
    method FindNearestEnemy(allUnits: seq<Unit>) returns (nearest: Option<nat>)
      ensures nearest == Scan(allUnits, Lives(allUnits), owner, position, |allUnits|).0
    {
      nearest := None;
      var minDist := FarAway;
      for i := 0 to |allUnits|
        invariant (nearest, minDist) == Scan(allUnits, Lives(allUnits), owner, position, i)
      {
        var unit := allUnits[i];
        if unit.owner == owner || Dead(unit) {
          continue;
        }
        var dist := Length(VSub(unit.position, position));
        if dist.raw < minDist.raw {
          minDist := dist;
          nearest := Some(i);
        }
      }
    }

    /** `performAttack(target)`: the target takes this unit's attack power, shield first, with no armour. */
    method PerformAttack(target: Unit)
      modifies target`shield, target`hp
      ensures target.CurrentHealth() == Strike(old(target.CurrentHealth()), Data().attackPower)
    {
      var damage := Data().attackPower;
      if target.shield.raw > 0 {
        target.shield := Sub(target.shield, damage);
        if target.shield.raw < 0 {
          target.hp := Add(target.hp, target.shield);
          target.shield := Zero;
        }
      } else {
        target.hp := Sub(target.hp, damage);
      }
    }

    /**
     * The chase branch of `updateCombat`: the target's position becomes the
     * move target, and a path to it is planned around the other living units.
     */
    method Chase(allUnits: seq<Unit>, target: Unit) returns (ghost blocked: set<Cell>)
      modifies this`moveTarget, this`path, this`pathIndex, this`hasPath, this`isMoving
      ensures moveTarget == target.position && pathIndex == 0 && hasPath && isMoving
      ensures blocked == old(UnitCells(Others(allUnits, this)))
      ensures Planned(old(position), moveTarget, blocked, path)
    {
      ghost var others := Others(allUnits, this);
      blocked := UnitCells(others);
      var obstacles := Obstacles(allUnits);
      assert obstacles == others;
      var route := FindPath(position, target.position, obstacles);
      moveTarget := target.position;
      path := route;
      pathIndex := 0;
      hasPath := true;
      isMoving := true;
    }

    /** The firing branch of `updateCombat`: `performAttack` on the target, and the cooldown restarts. */
    method Shoot(target: Unit)
      modifies target`shield, target`hp, this`attackCooldown
      ensures attackCooldown == Data().attackCooldown
      ensures target.CurrentHealth() == Strike(old(target.CurrentHealth()), Data().attackPower)
    {
      PerformAttack(target);
      attackCooldown := Data().attackCooldown;
    }

    /**
     * The branch of `updateCombat` for an ordered target that is alive,
     * unit `k` of the list: chase it when out of range, with a new path
     * once the current one is used up; otherwise stop, and fire when the
     * cooldown is below 0.1.
     */
    method Engage(allUnits: seq<Unit>, k: nat, target: Unit, ghost live: seq<bool>) returns (ghost action: Action, ghost blocked: set<Cell>)
      requires LiveTarget(allUnits) == Some(k) && target == allUnits[k] && |live| == |allUnits|
      modifies this`moveTarget, this`path, this`pathIndex, this`hasPath, this`isMoving, this`attackCooldown
      modifies target`shield, target`hp
      ensures action == old(Decide(allUnits, live, Some(k), attackCooldown, PathDone()))
      ensures action.Pursue? || action.Follow? || action.Hold? || action == Fire(k, true)
      ensures blocked == old(UnitCells(Others(allUnits, this)))
      ensures action.Pursue? ==> (action.k == k && moveTarget == target.position && pathIndex == 0 &&
        hasPath && isMoving && Planned(position, moveTarget, blocked, path))
      ensures !action.Pursue? ==> (moveTarget == old(moveTarget) && path == old(path) && pathIndex == old(pathIndex))
      ensures action.Hold? || action.Fire? ==> !hasPath && !isMoving
      ensures action.Follow? ==> hasPath == old(hasPath) && isMoving == old(isMoving)
      ensures action.Fire? ==> (attackCooldown == Data().attackCooldown &&
        target.CurrentHealth() == Strike(old(target.CurrentHealth()), Data().attackPower))
      ensures !action.Fire? ==> attackCooldown == old(attackCooldown) && unchanged(target`shield, target`hp)
    {
      blocked := UnitCells(Others(allUnits, this));
      var dist := Length(VSub(target.position, position));
      if dist.raw > Data().attackRange.raw {
        if !hasPath || pathIndex >= |path| {
          action := Pursue(k);
          blocked := Chase(allUnits, target);
        } else {
          action := Follow;
        }
      } else {
        hasPath := false;
        isMoving := false;
        if attackCooldown.raw < Tenth.raw {
          action := Fire(k, true);
          Shoot(target);
        } else {
          action := Hold;
        }
      }
    }

    /**
     * The branch of `updateCombat` without a live ordered target: fire at
     * the nearest enemy when it is strictly within range and the cooldown
     * is below 0.1.
     */
    method AutoAttack(allUnits: seq<Unit>, ghost live: seq<bool>) returns (ghost action: Action)
      requires live == Lives(allUnits)
      modifies this`attackCooldown, allUnits`shield, allUnits`hp
      ensures action == old(Decide(allUnits, live, None, attackCooldown, PathDone()))
      ensures action.Idle? || (action.Fire? && !action.halt)
      ensures action.Fire? ==> (attackCooldown == Data().attackCooldown &&
        allUnits[action.k].CurrentHealth() == Strike(old(allUnits[action.k].CurrentHealth()), Data().attackPower))
      ensures action.Idle? ==> attackCooldown == old(attackCooldown)
      ensures forall j :: 0 <= j < |allUnits| && !(action.Fire? && allUnits[j] == allUnits[action.k]) ==>
        allUnits[j].CurrentHealth() == old(allUnits[j].CurrentHealth())
    {
      action := Decide(allUnits, live, None, attackCooldown, PathDone());
      var nearest := FindNearestEnemy(allUnits);
      if nearest.Some? {
        var enemy := allUnits[nearest.value];
        var dist := Length(VSub(enemy.position, position));
        if dist.raw < Data().attackRange.raw && attackCooldown.raw < Tenth.raw {
          Shoot(enemy);
        }
      }
    }

    /**
     * `updateCombat(allUnits)`: carries out `Decide`, given which units are
     * alive (`live`) and the live ordered target (`target`) as they are
     * when it starts. Only the unit fired at loses shield or hit points; a
     * new path is planned only when chasing.
     */
    method UpdateCombat(allUnits: seq<Unit>, ghost live: seq<bool>, ghost target: Option<nat>)
      returns (ghost action: Action, ghost blocked: set<Cell>)
      requires live == Lives(allUnits) && target == LiveTarget(allUnits)
      modifies this`moveTarget, this`path, this`pathIndex, this`hasPath, this`isMoving, this`attackCooldown
      modifies allUnits`shield, allUnits`hp
      ensures action == old(Decide(allUnits, live, target, attackCooldown, PathDone()))
      ensures blocked == old(UnitCells(Others(allUnits, this)))
      ensures action.Pursue? ==> (moveTarget == allUnits[action.k].position && pathIndex == 0 &&
        hasPath && isMoving && Planned(position, moveTarget, blocked, path))
      ensures !action.Pursue? ==> (moveTarget == old(moveTarget) && path == old(path) && pathIndex == old(pathIndex))
      ensures action.Hold? || (action.Fire? && action.halt) ==> !hasPath && !isMoving
      ensures action.Idle? || action.Follow? || (action.Fire? && !action.halt) ==>
        hasPath == old(hasPath) && isMoving == old(isMoving)
      ensures action.Fire? ==> (attackCooldown == Data().attackCooldown &&
        allUnits[action.k].CurrentHealth() == Strike(old(allUnits[action.k].CurrentHealth()), Data().attackPower))
      ensures !action.Fire? ==> attackCooldown == old(attackCooldown)
      ensures forall j :: 0 <= j < |allUnits| && !(action.Fire? && allUnits[j] == allUnits[action.k]) ==>
        allUnits[j].CurrentHealth() == old(allUnits[j].CurrentHealth())
    {
      var t := LiveTarget(allUnits);
      if t.Some? {
        action, blocked := Engage(allUnits, t.value, allUnits[t.value], live);
      } else {
        blocked := UnitCells(Others(allUnits, this));
        action := AutoAttack(allUnits, live);
      }
    }

    /**
     * The first two steps of `update`: the cooldown runs down, then the
     * unit moves. Neither touches the ordered target nor any hit points,
     * so the live ordered target in `allUnits` stays what it was. Only this
     * unit moves, so `others`, the other living units, stay the same units
     * on the same cells.
     */
    method Advance(deltaTime: Fp8, ghost allUnits: seq<Unit>, ghost others: seq<Unit>)
      requires others == Others(allUnits, this)
      modifies this`attackCooldown, this`position, this`velocity, this`pathIndex, this`hasPath, this`isMoving
      ensures attackCooldown == Cool(old(attackCooldown), deltaTime)
      ensures MotionState() == Move(old(MotionState()), path, Data(), deltaTime)
      ensures LiveTarget(allUnits) == old(LiveTarget(allUnits))
      ensures others == Others(allUnits, this) && UnitCells(others) == old(UnitCells(others))
    {
      NotAmongOthers(allUnits, this);
      if attackCooldown.raw > 0 {
        attackCooldown := Sub(attackCooldown, Mul(deltaTime, FrameRate));
        if attackCooldown.raw < 0 {
          attackCooldown := Zero;
        }
      }
      UpdateMovement(deltaTime);
      assert others == Others(allUnits, this);
    }

    /**
     * `update(deltaTime, allUnits)`: the cooldown runs down, the unit
     * moves (`moved`), then it fights: the action is the one `Decide`
     * takes with the cooled cooldown, from the moved position, on the
     * units alive and the ordered target live at the start. A chase plans
     * a new path from the moved position around the other living units;
     * otherwise the move target and the path stay. The unit fired at takes
     * the attack power and no other listed unit is hurt.
     */
    method Update(deltaTime: Fp8, allUnits: seq<Unit>) returns (ghost action: Action, ghost moved: Motion, ghost blocked: set<Cell>)
      modifies this`attackCooldown, this`position, this`velocity, this`pathIndex, this`hasPath, this`isMoving
      modifies this`moveTarget, this`path, allUnits`shield, allUnits`hp
      ensures moved == Move(old(MotionState()), old(path), Data(), deltaTime)
      ensures position == moved.position && velocity == moved.velocity
      ensures action == Decide(allUnits, old(Lives(allUnits)), old(LiveTarget(allUnits)),
        Cool(old(attackCooldown), deltaTime), !moved.hasPath || moved.pathIndex >= |old(path)|)
      ensures attackCooldown == if action.Fire? then Data().attackCooldown else Cool(old(attackCooldown), deltaTime)
      ensures blocked == old(UnitCells(Others(allUnits, this)))
      ensures action.Pursue? ==> (moveTarget == allUnits[action.k].position && pathIndex == 0 &&
        hasPath && isMoving && Planned(position, moveTarget, blocked, path))
      ensures !action.Pursue? ==> (moveTarget == old(moveTarget) && path == old(path) && pathIndex == moved.pathIndex)
      ensures action.Hold? || (action.Fire? && action.halt) ==> !hasPath && !isMoving
      ensures action.Idle? || action.Follow? || (action.Fire? && !action.halt) ==>
        hasPath == moved.hasPath && isMoving == moved.isMoving
      ensures action.Fire? ==>
        allUnits[action.k].CurrentHealth() == Strike(old(allUnits[action.k].CurrentHealth()), Data().attackPower)
      ensures forall j :: 0 <= j < |allUnits| && !(action.Fire? && allUnits[j] == allUnits[action.k]) ==>
        allUnits[j].CurrentHealth() == old(allUnits[j].CurrentHealth())
    {
      ghost var live, target := Lives(allUnits), LiveTarget(allUnits);
      ghost var others := Others(allUnits, this);
      Advance(deltaTime, allUnits, others);
      moved := MotionState();
      action, blocked := UpdateCombat(allUnits, live, target);
    }
  }

  /**
   * The cooldown step of `update`: a positive cooldown drops by
   * `deltaTime * 60` and stops at zero.
   */
  function Cool(cooldown: Fp8, deltaTime: Fp8): (c: Fp8)
    ensures cooldown.raw <= 0 ==> c == cooldown
    ensures cooldown.raw > 0 ==> 0 <= c.raw
    ensures cooldown.raw > 0 && deltaTime.raw >= 0 ==> c.raw <= cooldown.raw
  {
    if cooldown.raw > 0 then
      var c := Sub(cooldown, Mul(deltaTime, FrameRate));
      if c.raw < 0 then Zero else c
    else cooldown
  }

  /** The fields `updateMovement` reads and writes. */
  datatype Motion = Motion(position: Vec, velocity: Vec, pathIndex: nat, hasPath: bool, isMoving: bool)

  /**
   * `updateMovement(deltaTime)` on values. A unit with neither a path nor
   * a move order coasts: its velocity decays by 0.9 and snaps to zero
   * below 0.1. Otherwise, a waypoint closer than 10 is passed, and the
   * flags drop after the last one; a farther waypoint is steered to: the
   * velocity accelerates toward the waypoint at top speed, is scaled back
   * to top speed when over it, and moves the unit `deltaTime * 60` times.
   * With the path used up, the flags drop.
   */
  function Move(m: Motion, path: seq<Vec>, data: UnitData, deltaTime: Fp8): (r: Motion)
    ensures r.pathIndex == m.pathIndex || r.pathIndex == m.pathIndex + 1
    ensures r.pathIndex == m.pathIndex + 1 <==>
      ((m.hasPath || m.isMoving) && m.pathIndex < |path| &&
       Length(VSub(path[m.pathIndex], m.position)).raw < Arrival.raw)
    ensures r.pathIndex == m.pathIndex + 1 ==> r.position == m.position && r.velocity == m.velocity
    ensures (r.hasPath ==> m.hasPath) && (r.isMoving ==> m.isMoving)
    ensures m.hasPath && !r.hasPath ==> r.pathIndex >= |path|
    ensures (m.hasPath || m.isMoving) && r.pathIndex >= |path| ==> !r.hasPath && !r.isMoving
  {
    if !m.hasPath && !m.isMoving then
      var v := VScale(m.velocity, Decay);
      var v' := if Length(v).raw < Tenth.raw then ZeroVec else v;
      m.(position := VAdd(m.position, VScale(v', deltaTime)), velocity := v')
    else if m.pathIndex < |path| then
      var diff := VSub(path[m.pathIndex], m.position);
      if Length(diff).raw < Arrival.raw then
        var i := m.pathIndex + 1;
        if i >= |path| then m.(pathIndex := i, hasPath := false, isMoving := false) else m.(pathIndex := i)
      else
        var targetVel := VScale(Normalize(diff), data.topSpeed);
        var v := VAdd(m.velocity, VScale(VScale(VSub(targetVel, m.velocity), data.acceleration), deltaTime));
        var v' := if Length(v).raw > data.topSpeed.raw then VScale(Normalize(v), data.topSpeed) else v;
        m.(position := VAdd(m.position, VScale(VScale(v', deltaTime), FrameRate)), velocity := v')
    else m.(hasPath := false, isMoving := false)
  }

  /** Decay by 0.9 never makes a velocity component larger. */
  lemma DecayShrinks(a: Fp8)
    ensures Abs(Mul(a, Decay).raw) <= Abs(a.raw)
  {
    ConstantRaws();
  }

  /** A factor within [-1, 1] times a non-negative `s` stays within [-s, s]. */
  lemma ScaledWithin(n: Fp8, s: Fp8)
    requires -FixedPoint.Unit <= n.raw <= FixedPoint.Unit && s.raw >= 0
    ensures Abs(Mul(n, s).raw) <= s.raw
  {
    if n.raw >= 0 {
      MulNonneg(n.raw, s.raw);
      MulNonneg(FixedPoint.Unit - n.raw, s.raw);
    } else {
      MulNonneg(-n.raw, s.raw);
      MulNonneg(FixedPoint.Unit + n.raw, s.raw);
    }
  }

  /**
   * A unit with neither a path nor a move order only slows down: no
   * velocity component grows, the cursor and flags stay, and a unit at
   * rest stays where it is.
   */
  lemma MoveCoast(m: Motion, path: seq<Vec>, data: UnitData, deltaTime: Fp8)
    requires !m.hasPath && !m.isMoving
    ensures var r := Move(m, path, data, deltaTime);
      Abs(r.velocity.x.raw) <= Abs(m.velocity.x.raw) && Abs(r.velocity.y.raw) <= Abs(m.velocity.y.raw)
    ensures var r := Move(m, path, data, deltaTime);
      r.pathIndex == m.pathIndex && !r.hasPath && !r.isMoving
    ensures m.velocity == ZeroVec ==> Move(m, path, data, deltaTime) == m
  {
    DecayShrinks(m.velocity.x);
    DecayShrinks(m.velocity.y);
    if m.velocity == ZeroVec {
      var v := VScale(m.velocity, Decay);
      assert v == ZeroVec;
      LengthZero(v);
      assert VScale(ZeroVec, deltaTime) == ZeroVec;
    }
  }

  /**
   * The speed cap: a unit that steers toward a waypoint ends the step with
   * each velocity component within its top speed.
   */
  lemma MoveSteer(m: Motion, path: seq<Vec>, data: UnitData, deltaTime: Fp8)
    requires (m.hasPath || m.isMoving) && m.pathIndex < |path|
    requires Length(VSub(path[m.pathIndex], m.position)).raw >= Arrival.raw
    requires data.topSpeed.raw >= 0
    ensures var r := Move(m, path, data, deltaTime);
      Abs(r.velocity.x.raw) <= data.topSpeed.raw && Abs(r.velocity.y.raw) <= data.topSpeed.raw
  {
    var diff := VSub(path[m.pathIndex], m.position);
    var targetVel := VScale(Normalize(diff), data.topSpeed);
    var v := VAdd(m.velocity, VScale(VScale(VSub(targetVel, m.velocity), data.acceleration), deltaTime));
    if Length(v).raw > data.topSpeed.raw {
      var n := Normalize(v);
      ScaledWithin(n.x, data.topSpeed);
      ScaledWithin(n.y, data.topSpeed);
    } else {
      LengthCovers(v);
    }
  }
}
