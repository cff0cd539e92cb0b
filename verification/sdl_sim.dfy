/**
 * The SDL port game_integrated/simple_rts/simple_game_sdl.cpp: the units
 * of the console port, with a path and a cursor instead of a bare target
 * point, and a game that answers the mouse: a right click orders the
 * selection, a drag selects the player's units inside a rectangle.
 *
 * An `attackTarget` is a reference to the target unit. The game's list
 * holds raw pointers that are dropped from the list, not freed, when a
 * unit dies; a dead unit stays readable and, being dead, is never acted on.
 */
module SdlSim {
  import opened Common
  import opened Damage
  import opened FloatRules
  import JsCollision

  /** The two unit types of this port's table: no Zergling. */
  type SdlType = t: UnitType | t != Zergling witness Marine

  /** The distance under which a waypoint counts as reached. */
  const Arrival: real := 3.0

  /** `isDead()`: no hit points left. */
  predicate Dead(u: Unit)
    reads u`hp
  {
    u.hp <= 0.0
  }

  /** Shield and hit points of `u`. */
  function VitalsOf(u: Unit): Vitals
    reads u`shield, u`hp
  {
    Vitals(u.shield, u.hp)
  }

  /** The unit `u` holds as its attack target, as a frame. */
  function TargetSet(u: Unit): set<Unit>
    reads u`attackTarget
  {
    if u.attackTarget.Some? then {u.attackTarget.value} else {}
  }

  /** The unit `target` names, as a frame. */
  function OptionSet(target: Option<Unit>): set<Unit>
  {
    if target.Some? then {target.value} else {}
  }

  /** No unit is listed twice. */
  predicate Distinct(s: seq<Unit>)
  {
    forall a, b :: 0 <= a < b < |s| ==> s[a] != s[b]
  }

  /** A unit of a player other than `owner`, alive by `alive`. */
  predicate Enemy(u: Unit, alive: bool, owner: int)
  {
    alive && u.owner != owner
  }

  /**
   * The scan of `findNearestEnemy` over the first `n` units, `live`
   * telling which are alive: the index of the first enemy strictly nearer
   * than every one before it, starting from 999999, and the distance
   * reached.
   */
  function Scan(units: seq<Unit>, live: seq<bool>, owner: int, from: Point, n: nat, norm: Norm): (r: (Option<nat>, real))
    requires n <= |units| == |live|
    reads units`position
    ensures r.0.Some? ==> r.0.value < n
  {
    if n == 0 then (None, FarAway)
    else
      var prev := Scan(units, live, owner, from, n - 1, norm);
      var dist := Distance(from, units[n - 1].position, norm);
      if Enemy(units[n - 1], live[n - 1], owner) && dist < prev.1 then (Some(n - 1), dist) else prev
  }

  /**
   * The scan finds the nearest enemy: none of the first `n` is nearer,
   * every one before it is strictly farther, and with nothing found no
   * enemy is nearer than 999999.
   */
  lemma {:induction false} ScanNearest(units: seq<Unit>, live: seq<bool>, owner: int, from: Point, n: nat, norm: Norm)
    requires n <= |units| == |live|
    ensures var r := Scan(units, live, owner, from, n, norm);
      r.0.None? ==> r.1 == FarAway
    ensures var r := Scan(units, live, owner, from, n, norm);
      r.0.Some? ==> (Enemy(units[r.0.value], live[r.0.value], owner) && r.1 == Distance(from, units[r.0.value].position, norm) &&
        r.1 < FarAway)
    ensures var r := Scan(units, live, owner, from, n, norm);
      forall k :: 0 <= k < n && Enemy(units[k], live[k], owner) ==> r.1 <= Distance(from, units[k].position, norm)
    ensures var r := Scan(units, live, owner, from, n, norm);
      r.0.Some? ==> forall k :: 0 <= k < r.0.value && Enemy(units[k], live[k], owner) ==>
        r.1 < Distance(from, units[k].position, norm)
  {
    if n > 0 {
      ScanNearest(units, live, owner, from, n - 1, norm);
    }
  }

  /** A path cursor `updateMovement` can read: an empty path at 0, or an index into the path. */
  predicate Cursor(path: seq<Point>, pathIndex: nat)
  {
    (|path| == 0 && pathIndex == 0) || pathIndex < |path|
  }

  /** Where a unit stands and where it is going. */
  datatype Motion = Motion(position: Point, path: seq<Point>, pathIndex: nat)

  /**
   * `updateMovement` on values. Without a path the unit stays. Nearer
   * than 3 to the current waypoint it stays and the cursor advances; past
   * the last waypoint the path is cleared and the cursor reset. Otherwise
   * it takes one straight step of `speed * deltaTime * 60` toward the
   * waypoint.
   */
  function Walk(m: Motion, speed: real, deltaTime: real, norm: Norm): (r: Motion)
    requires Cursor(m.path, m.pathIndex)
    ensures Cursor(r.path, r.pathIndex)
  {
    if |m.path| == 0 then m
    else
      var goal := m.path[m.pathIndex];
      if Distance(m.position, goal, norm) < Arrival then
        if m.pathIndex + 1 >= |m.path| then Motion(m.position, [], 0)
        else Motion(m.position, m.path, m.pathIndex + 1)
      else Motion(StepToward(m.position, goal, speed * deltaTime * FrameRate, norm), m.path, m.pathIndex)
  }

  /**
   * A frame of walking either stands still and moves the cursor on by
   * one (clearing the path after its last waypoint), or keeps the cursor
   * and ends exactly one step nearer the waypoint, or one step minus the
   * distance past it when the step is longer.
   */
  lemma WalkFacts(m: Motion, speed: real, deltaTime: real, norm: Norm)
    requires Cursor(m.path, m.pathIndex) && Euclidean(norm) && speed >= 0.0 && deltaTime >= 0.0
    ensures var r := Walk(m, speed, deltaTime, norm);
      |m.path| == 0 ==> r == m
    ensures var r := Walk(m, speed, deltaTime, norm);
      |m.path| > 0 && Distance(m.position, m.path[m.pathIndex], norm) < Arrival ==>
        r.position == m.position &&
        (if m.pathIndex + 1 < |m.path| then r.path == m.path && r.pathIndex == m.pathIndex + 1
         else r.path == [] && r.pathIndex == 0)
    ensures |m.path| > 0 ==>
      var r := Walk(m, speed, deltaTime, norm);
      var d, s := Distance(m.position, m.path[m.pathIndex], norm), speed * deltaTime * FrameRate;
      d >= Arrival ==>
        r.path == m.path && r.pathIndex == m.pathIndex &&
        Distance(r.position, m.path[m.pathIndex], norm) == (if s <= d then d - s else s - d)
  {
    if |m.path| > 0 {
      var goal := m.path[m.pathIndex];
      if Distance(m.position, goal, norm) >= Arrival {
        StepDistance(m.position, goal, speed * deltaTime * FrameRate, norm);
      }
    }
  }

  /** What `updateCombat` does in a frame. */
  datatype Action = Chase | Fire(victim: Unit, ordered: bool) | Hold | Idle

  class Unit {
    const id: int
    const kind: SdlType
    const owner: int
    var position: Point
    var hp: real
    var shield: real
    var attackCooldown: real
    var isSelected: bool
    var targetPos: Point
    var attackTarget: Option<Unit>
    var path: seq<Point>
    var pathIndex: nat

    /** The path cursor is readable. */
    ghost predicate Valid()
      reads this`path, this`pathIndex
    {
      Cursor(path, pathIndex)
    }

    /** `Unit(id, type, owner, pos)`: full health and shield, no cooldown, no order, no path. */
    constructor(id: int, kind: SdlType, owner: int, pos: Point)
      ensures this.id == id && this.kind == kind && this.owner == owner
      ensures position == pos && targetPos == pos && attackCooldown == 0.0
      ensures hp == Stats(kind).maxHp && shield == Stats(kind).maxShield
      ensures !isSelected && attackTarget == None && path == [] && pathIndex == 0
      ensures Valid()
    {
      this.id := id;
      this.kind := kind;
      this.owner := owner;
      position := pos;
      attackCooldown := 0.0;
      isSelected := false;
      attackTarget := None;
      pathIndex := 0;
      hp := Stats(kind).maxHp;
      shield := Stats(kind).maxShield;
      targetPos := pos;
      path := [];
    }

    function Data(): UnitData
    {
      Stats(kind)
    }

    /** Position, path and cursor, as a value. */
    function MotionState(): Motion
      reads this`position, this`path, this`pathIndex
    {
      Motion(position, path, pathIndex)
    }

    /**
     * `moveTo(target)`: the target point is set, the attack order dropped,
     * and the path becomes the single waypoint `target`.
     */
    method MoveTo(target: Point)
      modifies this`targetPos, this`attackTarget, this`path, this`pathIndex
      ensures targetPos == target && attackTarget == None && path == [target] && pathIndex == 0
      ensures Valid()
    {
      targetPos := target;
      attackTarget := None;
      path := [target];
      pathIndex := 0;
    }

    /**
     * `attack(target)`: the order is set and the target point moves to
     * where the target stands; the path is left as it was.
     */
    method Attack(target: Option<Unit>)
      modifies this`attackTarget, this`targetPos
      ensures attackTarget == target
      ensures targetPos == if target.Some? then target.value.position else old(targetPos)
    {
      attackTarget := target;
      if target.Some? {
        targetPos := target.value.position;
      }
    }

    /** `updateMovement(deltaTime)`: the frame of walking `Walk` gives. */
    method UpdateMovement(deltaTime: real, norm: Norm)
      requires Valid()
      modifies this`position, this`path, this`pathIndex
      ensures MotionState() == Walk(old(MotionState()), Data().speed, deltaTime, norm)
      ensures Valid()
    {
      if |path| == 0 {
        return;
      }
      var target := path[pathIndex];
      var dx, dy := target.x - position.x, target.y - position.y;
      var distance := norm(dx, dy);
      if distance < Arrival {
        pathIndex := pathIndex + 1;
        if pathIndex >= |path| {
          path := [];
          pathIndex := 0;
        }
      } else {
        var direction := Normalize(dx, dy, norm);
        var moveSpeed := Data().speed * deltaTime * FrameRate;
        position := Point(position.x + direction.x * moveSpeed, position.y + direction.y * moveSpeed);
      }
    }

    /** The ordered target, when there is one and it is alive. */
    function LiveTarget(): (r: Option<Unit>)
      reads this`attackTarget, TargetSet(this)`hp
      ensures r.Some? ==> attackTarget == r && !Dead(r.value)
    {
      if attackTarget.Some? && !Dead(attackTarget.value) then attackTarget else None
    }

    /**
     * The decision `updateCombat` takes for this unit with cooldown
     * `cooldown`, `target` being its ordered target when that one is alive
     * and `live` telling which listed units are alive. A live ordered
     * target out of range is chased. In range, the unit fires when its
     * cooldown is at or below zero. Without a live ordered target, the
     * unit fires at the nearest living enemy when that one is within range
     * and the cooldown is at or below zero.
     */
    function Decide(units: seq<Unit>, live: seq<bool>, target: Option<Unit>, cooldown: real, norm: Norm): Action
      requires |live| == |units|
      reads this`position, units`position, OptionSet(target)`position
    {
      match target
      case Some(t) =>
        if Distance(position, t.position, norm) > Data().attackRange then Chase
        else if cooldown <= 0.0 then Fire(t, true)
        else Hold
      case None =>
        match Scan(units, live, owner, position, |units|, norm).0
        case Some(k) =>
          if Distance(position, units[k].position, norm) <= Data().attackRange && cooldown <= 0.0
          then Fire(units[k], false)
          else Idle
        case None => Idle
    }

    /**
     * Every shot `Decide` orders is at a unit within range with the
     * cooldown run out; an ordered shot is at the ordered target, and an
     * automatic one at a living listed enemy no living enemy is nearer
     * than. A chase is after the ordered target out of range. The ordered
     * target is acted on exactly when there is one; without one, the unit
     * fires whenever a living enemy is in range and the cooldown has run
     * out.
     */
    lemma DecideSound(units: seq<Unit>, live: seq<bool>, target: Option<Unit>, cooldown: real, norm: Norm)
      requires |live| == |units|
      ensures var a := Decide(units, live, target, cooldown, norm);
        a.Fire? ==> (Distance(position, a.victim.position, norm) <= Data().attackRange && cooldown <= 0.0)
      ensures var a := Decide(units, live, target, cooldown, norm);
        a.Fire? && a.ordered ==> target == Some(a.victim)
      ensures var a := Decide(units, live, target, cooldown, norm);
        a.Fire? && !a.ordered ==> ((exists k :: 0 <= k < |units| && units[k] == a.victim && live[k]) &&
          a.victim.owner != owner &&
          forall k :: 0 <= k < |units| && Enemy(units[k], live[k], owner) ==>
            Distance(position, a.victim.position, norm) <= Distance(position, units[k].position, norm))
      ensures var a := Decide(units, live, target, cooldown, norm);
        a.Chase? ==> (target.Some? && Distance(position, target.value.position, norm) > Data().attackRange)
      ensures var a := Decide(units, live, target, cooldown, norm);
        (a.Chase? || a.Hold? || (a.Fire? && a.ordered)) <==> target.Some?
      ensures var a := Decide(units, live, target, cooldown, norm);
        (target.None? && cooldown <= 0.0 &&
         exists k :: 0 <= k < |units| && Enemy(units[k], live[k], owner) &&
           Distance(position, units[k].position, norm) <= Data().attackRange) ==> a.Fire?
    {
      ScanNearest(units, live, owner, position, |units|, norm);
    }

    /** `findNearestEnemy(allUnits)`: the unit `Scan` picks. */
    method FindNearestEnemy(allUnits: seq<Unit>, norm: Norm) returns (nearest: Option<nat>)
      ensures nearest == Scan(allUnits, Lives(allUnits), owner, position, |allUnits|, norm).0
    {
      nearest := None;
      var minDist := FarAway;
      for i := 0 to |allUnits|
        invariant (nearest, minDist) == Scan(allUnits, Lives(allUnits), owner, position, i, norm)
      {
        var unit := allUnits[i];
        if unit.owner == owner || Dead(unit) {
          continue;
        }
        var dist := Distance(position, unit.position, norm);
        if dist < minDist {
          minDist := dist;
          nearest := Some(i);
        }
      }
    }

    /**
     * `performAttack(target)`: the target takes this unit's attack power,
     * shield first, by the shared damage rule.
     */
    method PerformAttack(target: Unit)
      modifies target`shield, target`hp
      ensures VitalsOf(target) == ApplyDamage(old(VitalsOf(target)), Data().attackPower)
    {
      var damage := Data().attackPower;
      if target.shield > 0.0 {
        target.shield := target.shield - damage;
        if target.shield < 0.0 {
          target.hp := target.hp + target.shield;
          target.shield := 0.0;
        }
      } else {
        target.hp := target.hp - damage;
      }
    }

    /**
     * `updateCombat(allUnits)`: the action is the one `Decide` takes on
     * the state at the call, given as `live` and `target`. A chase calls
     * `moveTo` on the target's position, so the unit walks there and the
     * attack order is gone. A shot strikes the victim and resets the
     * cooldown. No other listed unit and no other ordered target is hurt.
     */
    method UpdateCombat(allUnits: seq<Unit>, norm: Norm, ghost live: seq<bool>, ghost target: Option<Unit>)
      returns (ghost action: Action)
      requires live == Lives(allUnits) && target == LiveTarget()
      modifies this`targetPos, this`attackTarget, this`path, this`pathIndex, this`attackCooldown
      modifies allUnits`shield, allUnits`hp, TargetSet(this)`shield, TargetSet(this)`hp
      ensures action == old(Decide(allUnits, live, target, attackCooldown, norm))
      ensures action.Chase? ==> (old(attackTarget).Some? && targetPos == old(attackTarget.value.position) &&
        attackTarget == None && path == [targetPos] && pathIndex == 0)
      ensures !action.Chase? ==> unchanged(this`targetPos, this`attackTarget, this`path, this`pathIndex)
      ensures action.Fire? ==> (attackCooldown == Data().attackCooldown &&
        VitalsOf(action.victim) == ApplyDamage(old(VitalsOf(action.victim)), Data().attackPower))
      ensures !action.Fire? ==> attackCooldown == old(attackCooldown)
      ensures forall w :: (w in allUnits || w in old(TargetSet(this))) && !(action.Fire? && w == action.victim) ==>
        VitalsOf(w) == old(VitalsOf(w))
    {
      action := Decide(allUnits, live, target, attackCooldown, norm);
      DecideSound(allUnits, live, target, attackCooldown, norm);
      if attackTarget.Some? && !Dead(attackTarget.value) {
        var t := attackTarget.value;
        var dist := Distance(position, t.position, norm);
        if dist > Data().attackRange {
          targetPos := t.position;
          MoveTo(targetPos);
        } else if attackCooldown <= 0.0 {
          PerformAttack(t);
          attackCooldown := Data().attackCooldown;
        }
      } else {
        var nearest := FindNearestEnemy(allUnits, norm);
        if nearest.Some? {
          var enemy := allUnits[nearest.value];
          var dist := Distance(position, enemy.position, norm);
          if dist <= Data().attackRange && attackCooldown <= 0.0 {
            PerformAttack(enemy);
            attackCooldown := Data().attackCooldown;
          }
        }
      }
    }

    /**
     * The part of `update` before the fight: the cooldown runs down and
     * the unit walks.
     */
    method Advance(deltaTime: real, norm: Norm)
      requires Valid()
      modifies this`attackCooldown, this`position, this`path, this`pathIndex
      ensures attackCooldown == Cool(old(attackCooldown), deltaTime)
      ensures MotionState() == Walk(old(MotionState()), Data().speed, deltaTime, norm)
      ensures Valid()
    {
      if attackCooldown > 0.0 {
        attackCooldown := attackCooldown - deltaTime * FrameRate;
      }
      UpdateMovement(deltaTime, norm);
    }

    /**
     * `update(deltaTime, allUnits)`: the cooldown runs down, the unit
     * walks, then it fights: the action is the one `Decide` takes where
     * the walk left it, with the cooled cooldown and the units alive at
     * the start. The cooldown ends as the cooled one unless the unit
     * fired. A chase replaces the walked path with the target's position
     * and drops the order; otherwise the order stays. A shot strikes the
     * victim, and no other listed unit and no other ordered target is hurt.
     */
    method Update(deltaTime: real, allUnits: seq<Unit>, norm: Norm) returns (ghost action: Action)
      requires Valid()
      modifies this`attackCooldown, this`position, this`targetPos, this`attackTarget, this`path, this`pathIndex
      modifies allUnits`shield, allUnits`hp, TargetSet(this)`shield, TargetSet(this)`hp
      ensures var walked := Walk(old(MotionState()), Data().speed, deltaTime, norm);
        position == walked.position &&
        (!action.Chase? ==> path == walked.path && pathIndex == walked.pathIndex)
      ensures action == Decide(allUnits, old(Lives(allUnits)), old(LiveTarget()), Cool(old(attackCooldown), deltaTime), norm)
      ensures attackCooldown == if action.Fire? then Data().attackCooldown else Cool(old(attackCooldown), deltaTime)
      ensures action.Chase? ==> old(attackTarget).Some? && targetPos == old(attackTarget).value.position
      ensures action.Chase? ==> attackTarget == None && path == [targetPos] && pathIndex == 0
      ensures !action.Chase? ==> attackTarget == old(attackTarget) && targetPos == old(targetPos)
      ensures action.Fire? ==> VitalsOf(action.victim) == ApplyDamage(old(VitalsOf(action.victim)), Data().attackPower)
      ensures forall w :: (w in allUnits || w in old(TargetSet(this))) && !(action.Fire? && w == action.victim) ==>
        VitalsOf(w) == old(VitalsOf(w))
      ensures Valid()
    {
      ghost var live, target := Lives(allUnits), LiveTarget();
      Advance(deltaTime, norm);
      action := UpdateCombat(allUnits, norm, live, target);
    }
  }

  /** The centres of the units, in order. */
  function Positions(units: seq<Unit>): (ps: seq<Point>)
    reads units`position
    ensures |ps| == |units| && forall k :: 0 <= k < |units| ==> ps[k] == units[k].position
  {
    if |units| == 0 then []
    else Positions(units[..|units| - 1]) + [units[|units| - 1].position]
  }

  /** Which units are alive, in order. */
  function Lives(units: seq<Unit>): (live: seq<bool>)
    reads units`hp
    ensures |live| == |units| && forall k :: 0 <= k < |units| ==> live[k] == !Dead(units[k])
  {
    if |units| == 0 then []
    else Lives(units[..|units| - 1]) + [!Dead(units[|units| - 1])]
  }

  /** The sizes of the units, in order. */
  function Sizes(units: seq<Unit>): (ss: seq<real>)
    ensures |ss| == |units| && forall k :: 0 <= k < |units| ==> ss[k] == Stats(units[k].kind).size
  {
    seq(|units|, k requires 0 <= k < |units| => Stats(units[k].kind).size)
  }

  /**
   * The body of the inner loop of `resolveCollisions`: units `i` and `j`,
   * when both are alive and overlap at a positive distance, are pushed
   * apart. Their new centres are those `PairStep` gives; every other unit
   * stays where it was.
   */
  method CheckPair(units: seq<Unit>, i: nat, j: nat, norm: Norm, ghost ps: seq<Point>, ghost live: seq<bool>)
    returns (ghost qs: seq<Point>)
    requires Distinct(units)
    requires i < j < |units| && |ps| == |units| == |live|
    requires forall k :: 0 <= k < |units| ==> ps[k] == units[k].position && live[k] == !Dead(units[k])
    modifies {units[i], units[j]}`position
    ensures qs == PairStep(ps, live, Sizes(units), i, j, norm)
    ensures forall k :: 0 <= k < |units| ==> qs[k] == units[k].position && live[k] == !Dead(units[k])
  {
    var u1, u2 := units[i], units[j];
    qs := PairStep(ps, live, Sizes(units), i, j, norm);
    if Dead(u1) || Dead(u2) {
      return;
    }
    var p1, p2 := u1.position, u2.position;
    var dx, dy := p1.x - p2.x, p1.y - p2.y;
    var distance := norm(dx, dy);
    var s1, s2 := u1.Data().size, u2.Data().size;
    var minDist := s1 + s2;
    if distance < minDist && distance > 0.0 {
      var overlap := minDist - distance;
      var direction := Normalize(dx, dy, norm);
      var push := Point(direction.x * (overlap * 0.5), direction.y * (overlap * 0.5));
      ResolveByNormalize(p1, p2, s1, s2, norm, direction, overlap * 0.5);
      assert ps[i] == p1 && ps[j] == p2 && Sizes(units)[i] == s1 && Sizes(units)[j] == s2;
      ghost var r := JsCollision.Resolve(p1, p2, s1, s2, norm);
      assert r.0 == Point(p1.x + push.x, p1.y + push.y);
      assert r.1 == Point(p2.x - push.x, p2.y - push.y);
      assert qs == ps[i := r.0][j := r.1];
      u1.position := Point(p1.x + push.x, p1.y + push.y);
      u2.position := Point(p2.x - push.x, p2.y - push.y);
    } else {
      assert qs == ps;
    }
    assert forall k :: 0 <= k < |units| && k != i && k != j ==> units[k] != u1 && units[k] != u2;
  }

  /**
   * One pass of the outer loop of `resolveCollisions`: unit `i` against
   * every later unit, in order. What is left of the pass afterwards ends
   * where it would have before.
   */
  method CheckRow(units: seq<Unit>, i: nat, norm: Norm, ghost ps: seq<Point>, ghost live: seq<bool>)
    returns (ghost qs: seq<Point>)
    requires Distinct(units)
    requires i < |units| && |ps| == |units| == |live|
    requires forall k :: 0 <= k < |units| ==> ps[k] == units[k].position && live[k] == !Dead(units[k])
    modifies units`position
    ensures |qs| == |units|
    ensures forall k :: 0 <= k < |units| ==> qs[k] == units[k].position && live[k] == !Dead(units[k])
    ensures Sweep(qs, live, Sizes(units), JsCollision.PairsFrom(|units|, i + 1, i + 2), norm) ==
      Sweep(ps, live, Sizes(units), JsCollision.PairsFrom(|units|, i, i + 1), norm)
  {
    var n := |units|;
    ghost var sizes := Sizes(units);
    qs := ps;
    for j := i + 1 to n
      invariant |qs| == n
      invariant forall k :: 0 <= k < n ==> qs[k] == units[k].position && live[k] == !Dead(units[k])
      invariant qs == JsCollision.FoldRow(Step(live, sizes, norm), ps, i, j)
    {
      qs := CheckPair(units, i, j, norm, qs, live);
    }
    RowDone(ps, qs, live, sizes, n, i, norm);
  }

  /**
   * `CollisionSystem::resolveCollisions(units)`: every unordered pair
   * `i < j`, in index order, is tested and, when both units are alive and
   * overlap at a positive distance, pushed apart; each push sees the
   * centres the earlier pushes left.
   */
  method ResolveCollisions(units: seq<Unit>, norm: Norm)
    requires Distinct(units)
    modifies units`position
    ensures Positions(units) == Sweep(old(Positions(units)), Lives(units), Sizes(units), JsCollision.Pairs(|units|), norm)
  {
    var n := |units|;
    ghost var live, sizes := Lives(units), Sizes(units);
    ghost var ps := Positions(units);
    ghost var goal := Sweep(ps, live, sizes, JsCollision.Pairs(n), norm);
    for i := 0 to n
      invariant |ps| == n
      invariant forall k :: 0 <= k < n ==> ps[k] == units[k].position && live[k] == !Dead(units[k])
      invariant Sweep(ps, live, sizes, JsCollision.PairsFrom(n, i, i + 1), norm) == goal
    {
      ps := CheckRow(units, i, norm, ps, live);
    }
    assert Positions(units) == ps;
    assert Lives(units) == live;
  }

  /** The units of `s` that are alive, in their order: the `remove_if` of `update`. */
  function Living(s: seq<Unit>): seq<Unit>
    reads s`hp
  {
    if |s| == 0 then []
    else
      var rest := Living(s[..|s| - 1]);
      if !Dead(s[|s| - 1]) then rest + [s[|s| - 1]] else rest
  }

  /**
   * The filter keeps exactly the listed units that are alive, and a list
   * without repeats stays without repeats.
   */
  lemma {:induction false} LivingFacts(s: seq<Unit>)
    ensures forall k :: 0 <= k < |Living(s)| ==> Living(s)[k] in s && !Dead(Living(s)[k])
    ensures forall k :: 0 <= k < |s| && !Dead(s[k]) ==> s[k] in Living(s)
    ensures Distinct(s) ==> Distinct(Living(s))
  {
    if |s| > 0 {
      var n := |s| - 1;
      var front := s[..n];
      LivingFacts(front);
      assert forall k :: 0 <= k < n ==> front[k] == s[k];
      if Distinct(s) {
        assert Distinct(front);
        assert s[n] !in front;
      }
    }
  }

  /** The targets the units of `units` hold. */
  function OrderTargets(units: seq<Unit>): set<Unit>
    reads units`attackTarget
  {
    set k, t | 0 <= k < |units| && t in TargetSet(units[k]) :: t
  }

  /** A living unit whose circle holds the point `pos`, edge included. */
  predicate Hit(u: Unit, pos: Point, norm: Norm)
    reads u`hp, u`position
  {
    !Dead(u) && Distance(u.position, pos, norm) <= Stats(u.kind).size
  }

  /** The index `findUnitAt` stops at among the first `n` units: the first hit, if any. */
  function FirstHit(units: seq<Unit>, pos: Point, n: nat, norm: Norm): (r: Option<nat>)
    requires n <= |units|
    reads units`hp, units`position
    ensures r.Some? ==> r.value < n && Hit(units[r.value], pos, norm)
    ensures forall k :: 0 <= k < n && (r.None? || k < r.value) ==> !Hit(units[k], pos, norm)
  {
    if n == 0 then None
    else
      var r := FirstHit(units, pos, n - 1, norm);
      if r.Some? then r else if Hit(units[n - 1], pos, norm) then Some(n - 1) else None
  }

  /** A living unit of player 0 inside the rectangle, borders included. */
  predicate Picked(u: Unit, minX: real, maxX: real, minY: real, maxY: real)
    reads u`hp, u`position
  {
    u.owner == 0 && !Dead(u) && minX <= u.position.x <= maxX && minY <= u.position.y <= maxY
  }

  /** The units of `s` that `Picked` keeps, in order. */
  function Picks(s: seq<Unit>, minX: real, maxX: real, minY: real, maxY: real): (r: seq<Unit>)
    reads s`hp, s`position
    ensures forall k :: 0 <= k < |r| ==> r[k] in s && Picked(r[k], minX, maxX, minY, maxY)
    ensures forall k :: 0 <= k < |s| && Picked(s[k], minX, maxX, minY, maxY) ==> s[k] in r
  {
    if |s| == 0 then []
    else
      var front := s[..|s| - 1];
      var rest := Picks(front, minX, maxX, minY, maxY);
      assert forall k :: 0 <= k < |s| - 1 ==> s[k] == front[k];
      if Picked(s[|s| - 1], minX, maxX, minY, maxY) then rest + [s[|s| - 1]] else rest
  }

  /** A right click on `target` makes `u` attack: the target is a unit of another player. */
  predicate Attacks(u: Unit, target: Option<Unit>)
  {
    target.Some? && target.value.owner != u.owner
  }

  /**
   * `u` holds the order a right click at `pos` on `target` gives: attack
   * the target at its position, or drop any target and walk to `pos`.
   */
  predicate Obeys(u: Unit, target: Option<Unit>, pos: Point)
    reads u`attackTarget, u`targetPos, u`path, u`pathIndex
    reads if target.Some? then {target.value} else {}
  {
    if Attacks(u, target) then u.attackTarget == target && u.targetPos == target.value.position
    else u.attackTarget == None && u.targetPos == pos && u.path == [pos] && u.pathIndex == 0
  }

  class Game {
    var units: seq<Unit>
    var selectedUnits: seq<Unit>
    var nextUnitId: int

    /** The invariant: no unit is listed twice, and every listed unit's cursor is readable. */
    ghost predicate Valid()
      reads this, units`path, units`pathIndex
    {
      Distinct(units) && forall k :: 0 <= k < |units| ==> units[k].Valid()
    }

    /** `Game()`: no units and no selection yet; `init` and its roster are not part of this model. */
    constructor()
      ensures units == [] && selectedUnits == [] && nextUnitId == 0 && Valid()
    {
      units := [];
      selectedUnits := [];
      nextUnitId := 0;
    }

    /** `findUnitAt(pos)`: the first living unit whose circle holds `pos`, or none. */
    method FindUnitAt(pos: Point, norm: Norm) returns (found: Option<Unit>)
      ensures var i := FirstHit(units, pos, |units|, norm);
        found == if i.Some? then Some(units[i.value]) else None
    {
      for i := 0 to |units|
        invariant FirstHit(units, pos, i, norm) == None
      {
        var unit := units[i];
        if Dead(unit) {
          continue;
        }
        var diff := Point(pos.x - unit.position.x, pos.y - unit.position.y);
        if norm(diff.x, diff.y) <= unit.Data().size {
          FirstHitAt(units, pos, i, |units|, norm);
          return Some(unit);
        }
      }
      return None;
    }

    /**
     * `selectUnitsInRect(start, end)`: the previous selection loses its
     * flags; the selection becomes the living units of player 0 inside the
     * rectangle spanned by the two corners, borders included, in list
     * order, each with its flag set.
     */
    method SelectUnitsInRect(start: Point, end: Point)
      modifies this`selectedUnits, selectedUnits`isSelected, units`isSelected
      ensures selectedUnits ==
        Picks(units, RMin(start.x, end.x), RMax(start.x, end.x), RMin(start.y, end.y), RMax(start.y, end.y))
      ensures forall k :: 0 <= k < |selectedUnits| ==> selectedUnits[k].isSelected
      ensures forall k :: 0 <= k < |old(selectedUnits)| && old(selectedUnits)[k] !in selectedUnits ==>
        !old(selectedUnits)[k].isSelected
      ensures forall u :: u in units && u !in old(selectedUnits) && u !in selectedUnits ==> u.isSelected == old(u.isSelected)
    {
      ClearFlags();
      var minX, maxX := RMin(start.x, end.x), RMax(start.x, end.x);
      var minY, maxY := RMin(start.y, end.y), RMax(start.y, end.y);
      ghost var cleared := old(selectedUnits);
      selectedUnits := [];
      var us := units;
      for i := 0 to |us|
        invariant selectedUnits == Picks(us[..i], minX, maxX, minY, maxY)
        invariant forall k :: 0 <= k < |selectedUnits| ==> selectedUnits[k].isSelected
        invariant forall k :: 0 <= k < |cleared| && cleared[k] !in selectedUnits ==> !cleared[k].isSelected
        invariant forall u :: u in us && u !in cleared && u !in selectedUnits ==> u.isSelected == old(u.isSelected)
      {
        PickNext(us, i, minX, maxX, minY, maxY, cleared);
      }
      assert us[..|us|] == us;
    }

    /** One turn of the second loop of `selectUnitsInRect`: the loop's facts carry from `i` to `i + 1`. */
    method PickNext(us: seq<Unit>, i: nat, minX: real, maxX: real, minY: real, maxY: real, ghost cleared: seq<Unit>)
      requires i < |us|
      requires selectedUnits == Picks(us[..i], minX, maxX, minY, maxY)
      requires forall k :: 0 <= k < |selectedUnits| ==> selectedUnits[k].isSelected
      requires forall k :: 0 <= k < |cleared| && cleared[k] !in selectedUnits ==> !cleared[k].isSelected
      modifies this`selectedUnits, {us[i]}`isSelected
      ensures selectedUnits == Picks(us[..i + 1], minX, maxX, minY, maxY)
      ensures forall k :: 0 <= k < |selectedUnits| ==> selectedUnits[k].isSelected
      ensures forall k :: 0 <= k < |cleared| && cleared[k] !in selectedUnits ==> !cleared[k].isSelected
      ensures us[i] !in selectedUnits ==> us[i].isSelected == old(us[i].isSelected)
      ensures forall u :: u in old(selectedUnits) ==> u in selectedUnits
    {
      assert us[..i + 1][..i] == us[..i];
      PickUnit(us[i], minX, maxX, minY, maxY);
    }

    /** The body of the second loop of `selectUnitsInRect` for one unit. */
    method PickUnit(unit: Unit, minX: real, maxX: real, minY: real, maxY: real)
      modifies this`selectedUnits, unit`isSelected
      ensures selectedUnits == old(selectedUnits) + if Picked(unit, minX, maxX, minY, maxY) then [unit] else []
      ensures Picked(unit, minX, maxX, minY, maxY) ==> unit.isSelected
      ensures !Picked(unit, minX, maxX, minY, maxY) ==> unit.isSelected == old(unit.isSelected)
    {
      if unit.owner != 0 || Dead(unit) {
        return;
      }
      if unit.position.x >= minX && unit.position.x <= maxX && unit.position.y >= minY && unit.position.y <= maxY {
        selectedUnits := selectedUnits + [unit];
        unit.isSelected := true;
      }
    }

    /** The first loop of `selectUnitsInRect`: every selected unit loses its flag. */
    method ClearFlags()
      modifies selectedUnits`isSelected
      ensures forall k :: 0 <= k < |selectedUnits| ==> !selectedUnits[k].isSelected
    {
      for i := 0 to |selectedUnits|
        invariant forall k :: 0 <= k < i ==> !selectedUnits[k].isSelected
      {
        selectedUnits[i].isSelected := false;
      }
    }

    /**
     * `onRightClick(pos)`: with nothing selected nothing happens. Otherwise
     * the unit under the point, if any, is looked up once; each selected
     * unit attacks it when it belongs to another player, keeping its path,
     * and otherwise moves to `pos`.
     */
    method OnRightClick(pos: Point, norm: Norm) returns (target: Option<Unit>)
      requires Valid()
      modifies selectedUnits`attackTarget, selectedUnits`targetPos, selectedUnits`path, selectedUnits`pathIndex
      ensures |selectedUnits| > 0 ==>
        var i := old(FirstHit(units, pos, |units|, norm));
        target == if i.Some? then Some(units[i.value]) else None
      ensures forall k :: 0 <= k < |selectedUnits| ==> Obeys(selectedUnits[k], target, pos)
      ensures forall k :: 0 <= k < |selectedUnits| && Attacks(selectedUnits[k], target) ==>
        selectedUnits[k].path == old(selectedUnits[k].path) && selectedUnits[k].pathIndex == old(selectedUnits[k].pathIndex)
      ensures Valid()
    {
      target := None;
      if |selectedUnits| == 0 {
        return;
      }
      target := FindUnitAt(pos, norm);
      var sel := selectedUnits;
      ghost var paths := seq(|sel|, k requires 0 <= k < |sel| reads sel => sel[k].path);
      ghost var indices := seq(|sel|, k requires 0 <= k < |sel| reads sel => sel[k].pathIndex);
      for i := 0 to |sel|
        invariant Valid()
        invariant forall k :: 0 <= k < i ==> Obeys(sel[k], target, pos)
        invariant forall k :: 0 <= k < |sel| && Attacks(sel[k], target) ==>
          sel[k].path == paths[k] && sel[k].pathIndex == indices[k]
      {
        OrderNext(sel, i, target, pos, paths, indices);
      }
    }

    /** One turn of the loop of `onRightClick`: the loop's facts carry from `i` to `i + 1`. */
    method OrderNext(sel: seq<Unit>, i: nat, target: Option<Unit>, pos: Point,
                     ghost paths: seq<seq<Point>>, ghost indices: seq<nat>)
      requires Valid() && i < |sel| == |paths| == |indices|
      requires forall k :: 0 <= k < i ==> Obeys(sel[k], target, pos)
      requires forall k :: 0 <= k < |sel| && Attacks(sel[k], target) ==>
        sel[k].path == paths[k] && sel[k].pathIndex == indices[k]
      modifies {sel[i]}`attackTarget, {sel[i]}`targetPos, {sel[i]}`path, {sel[i]}`pathIndex
      ensures Valid()
      ensures forall k :: 0 <= k < i + 1 ==> Obeys(sel[k], target, pos)
      ensures forall k :: 0 <= k < |sel| && Attacks(sel[k], target) ==>
        sel[k].path == paths[k] && sel[k].pathIndex == indices[k]
    {
      OrderUnit(sel[i], target, pos);
    }

    /** The body of the loop of `onRightClick` for one selected unit. */
    method OrderUnit(unit: Unit, target: Option<Unit>, pos: Point)
      requires Valid()
      modifies unit`attackTarget, unit`targetPos, unit`path, unit`pathIndex
      ensures Obeys(unit, target, pos)
      ensures Attacks(unit, target) ==> unit.path == old(unit.path) && unit.pathIndex == old(unit.pathIndex)
      ensures Valid()
    {
      if target.Some? && target.value.owner != unit.owner {
        unit.Attack(target);
      } else {
        unit.MoveTo(pos);
      }
    }

    /**
     * The unit loop of `update`: each unit alive when its turn comes runs
     * `Unit::update` with the whole list; dead units are skipped. Orders
     * are only ever dropped, never set.
     */
    method UpdateUnits(deltaTime: real, norm: Norm)
      requires Valid()
      modifies units`attackCooldown, units`position, units`targetPos, units`attackTarget, units`path, units`pathIndex
      modifies units`shield, units`hp, OrderTargets(units)`shield, OrderTargets(units)`hp
      ensures Valid()
      ensures forall k :: 0 <= k < |units| ==>
        units[k].attackTarget == old(units[k].attackTarget) || units[k].attackTarget == None
    {
      var us := units;
      for i := 0 to |us|
        invariant Valid()
        invariant forall k :: 0 <= k < |us| ==> us[k].attackTarget == old(us[k].attackTarget) || us[k].attackTarget == None
      {
        var u := us[i];
        if !Dead(u) {
          assert TargetSet(u) <= old(OrderTargets(units));
          ghost var action := u.Update(deltaTime, us, norm);
        }
      }
    }

    /** The last step of `update`: the list keeps only the units that are alive. */
    method RemoveDead()
      requires Valid()
      modifies this`units
      ensures units == Living(old(units))
      ensures forall k :: 0 <= k < |units| ==> !Dead(units[k])
      ensures Valid()
    {
      LivingFacts(units);
      units := Living(units);
    }

    /**
     * `update(deltaTime)`: the unit loop, then one collision pass over the
     * whole list from the centres `afterUpdates` the units had then, which
     * moves living units only; finally the dead leave the list, the
     * survivors keeping their order.
     */
    method Update(deltaTime: real, norm: Norm) returns (ghost afterUpdates: seq<Point>)
      requires Valid()
      modifies this`units, units`attackCooldown, units`position, units`targetPos, units`attackTarget
      modifies units`path, units`pathIndex, units`shield, units`hp, OrderTargets(units)`shield, OrderTargets(units)`hp
      ensures units == Living(old(units))
      ensures forall k :: 0 <= k < |units| ==> !Dead(units[k])
      ensures |afterUpdates| == |old(units)|
      ensures Positions(old(units)) ==
        Sweep(afterUpdates, Lives(old(units)), Sizes(old(units)), JsCollision.Pairs(|old(units)|), norm)
      ensures Valid()
    {
      UpdateUnits(deltaTime, norm);
      ghost var list := units;
      afterUpdates := Positions(list);
      ResolveCollisions(units, norm);
      ghost var survivors := Living(list);
      RemoveDead();
      assert units == survivors;
    }
  }

  /** `FirstHit` over a longer prefix keeps a hit found earlier. */
  lemma {:induction false} FirstHitAt(units: seq<Unit>, pos: Point, i: nat, n: nat, norm: Norm)
    requires i < n <= |units| && FirstHit(units, pos, i, norm) == None && Hit(units[i], pos, norm)
    ensures FirstHit(units, pos, n, norm) == Some(i)
    decreases n
  {
    if n > i + 1 {
      FirstHitAt(units, pos, i, n - 1, norm);
    }
  }
}
