/**
 * The console port game_integrated/simple_rts/simple_rts.cpp: units that
 * walk straight to their target point, fight with a cooldown, push each
 * other apart, and a game that runs frames, orders a general attack and
 * counts the units of each side.
 *
 * An `attackTarget` is a reference to the target unit. The source holds a
 * raw pointer that outlives the erase of a dead unit; here the dead unit
 * stays readable and, being dead, is never acted on.
 */
module SimpleRts {
  import opened Common
  import opened Damage
  import opened FloatRules
  import JsCollision

  /** `isDead()`: no hit points left. */
  predicate Dead(u: Unit)
    reads u`hp
  {
    u.hp <= 0.0
  }

  /** Shield and hit points of `u`. */
  function VitalsOf(u: Unit): Vitals
    reads u`shield, u`hp
  {
    Vitals(u.shield, u.hp)
  }

  /** The unit `u` holds as its attack target, as a frame. */
  function TargetSet(u: Unit): set<Unit>
    reads u`attackTarget
  {
    if u.attackTarget.Some? then {u.attackTarget.value} else {}
  }

  /** The unit `target` names, as a frame. */
  function OptionSet(target: Option<Unit>): set<Unit>
  {
    if target.Some? then {target.value} else {}
  }

  /** No unit is listed twice, as in the game's vector of owning pointers. */
  predicate Distinct(s: seq<Unit>)
  {
    forall a, b :: 0 <= a < b < |s| ==> s[a] != s[b]
  }

  /** Which units a scan looks at: the living enemies of a player, or the living units of one. */
  datatype Side = EnemyOf(player: int) | OwnedBy(player: int)

  predicate Eligible(u: Unit, alive: bool, side: Side)
  {
    alive && match side
      case EnemyOf(p) => u.owner != p
      case OwnedBy(p) => u.owner == p
  }

  /**
   * The scan of `findNearestEnemy` and of the inner loop of
   * `commandAttack` over the first `n` units, `live` telling which are
   * alive: the index of the first eligible unit strictly nearer than every
   * one before it, starting from 999999, and the distance reached.
   */
  function Scan(units: seq<Unit>, live: seq<bool>, side: Side, from: Point, n: nat, norm: Norm): (r: (Option<nat>, real))
    requires n <= |units| == |live|
    reads units`position
    ensures r.0.Some? ==> r.0.value < n
  {
    if n == 0 then (None, FarAway)
    else
      var prev := Scan(units, live, side, from, n - 1, norm);
      var dist := Distance(from, units[n - 1].position, norm);
      if Eligible(units[n - 1], live[n - 1], side) && dist < prev.1 then (Some(n - 1), dist) else prev
  }

  /**
   * The scan finds the nearest eligible unit: none of the first `n` is
   * nearer, every one before it is strictly farther, and with nothing
   * found no eligible unit is nearer than 999999.
   */
  lemma {:induction false} ScanNearest(units: seq<Unit>, live: seq<bool>, side: Side, from: Point, n: nat, norm: Norm)
    requires n <= |units| == |live|
    ensures var r := Scan(units, live, side, from, n, norm);
      r.0.None? ==> r.1 == FarAway
    ensures var r := Scan(units, live, side, from, n, norm);
      r.0.Some? ==> (Eligible(units[r.0.value], live[r.0.value], side) && r.1 == Distance(from, units[r.0.value].position, norm) &&
        r.1 < FarAway)
    ensures var r := Scan(units, live, side, from, n, norm);
      forall k :: 0 <= k < n && Eligible(units[k], live[k], side) ==> r.1 <= Distance(from, units[k].position, norm)
    ensures var r := Scan(units, live, side, from, n, norm);
      r.0.Some? ==> forall k :: 0 <= k < r.0.value && Eligible(units[k], live[k], side) ==>
        r.1 < Distance(from, units[k].position, norm)
  {
    if n > 0 {
      ScanNearest(units, live, side, from, n - 1, norm);
    }
  }

  /**
   * The loop of `findNearestEnemy` and of `commandAttack`: the index
   * `Scan` picks over the whole list.
   */
  method Nearest(units: seq<Unit>, side: Side, from: Point, norm: Norm) returns (nearest: Option<nat>)
    ensures nearest == Scan(units, Lives(units), side, from, |units|, norm).0
  {
    nearest := None;
    var minDist := FarAway;
    for i := 0 to |units|
      invariant (nearest, minDist) == Scan(units, Lives(units), side, from, i, norm)
    {
      var u := units[i];
      if !Eligible(u, !Dead(u), side) {
        continue;
      }
      var dist := Distance(from, u.position, norm);
      if dist < minDist {
        minDist := dist;
        nearest := Some(i);
      }
    }
  }

  /**
   * `updateMovement` on values: a unit more than 3 from its target point
   * takes one straight step of `speed * deltaTime * 60` toward it;
   * otherwise it stays.
   */
  function Travel(position: Point, goal: Point, speed: real, deltaTime: real, norm: Norm): Point
  {
    if Distance(position, goal, norm) > 3.0 then StepToward(position, goal, speed * deltaTime * FrameRate, norm)
    else position
  }

  /**
   * A unit more than 3 from its target point ends exactly one step
   * closer, or one step minus the distance past it when the step is
   * longer; a nearer unit does not move.
   */
  lemma TravelDistance(position: Point, goal: Point, speed: real, deltaTime: real, norm: Norm)
    requires Euclidean(norm) && speed >= 0.0 && deltaTime >= 0.0
    ensures var d, s := Distance(position, goal, norm), speed * deltaTime * FrameRate;
      var p := Travel(position, goal, speed, deltaTime, norm);
      (d <= 3.0 ==> p == position) &&
      (d > 3.0 && s <= d ==> Distance(p, goal, norm) == d - s) &&
      (d > 3.0 && s > d ==> Distance(p, goal, norm) == s - d)
  {
    var d := Distance(position, goal, norm);
    if d > 3.0 {
      StepDistance(position, goal, speed * deltaTime * FrameRate, norm);
    }
  }

  /** What `updateCombat` does in a frame. */
  datatype Action = Chase | Fire(victim: Unit, ordered: bool) | Hold | Idle

  class Unit {
    const id: int
    const kind: UnitType
    const owner: int
    var position: Point
    var hp: real
    var shield: real
    var attackCooldown: real
    var isSelected: bool
    var targetPos: Point
    var attackTarget: Option<Unit>

    /** `Unit(id, type, owner, pos)`: full health and shield, no cooldown, no order, standing at `pos`. */
    constructor(id: int, kind: UnitType, owner: int, pos: Point)
      ensures this.id == id && this.kind == kind && this.owner == owner
      ensures position == pos && targetPos == pos && attackCooldown == 0.0
      ensures hp == Stats(kind).maxHp && shield == Stats(kind).maxShield
      ensures !isSelected && attackTarget == None
    {
      this.id := id;
      this.kind := kind;
      this.owner := owner;
      position := pos;
      attackCooldown := 0.0;
      isSelected := false;
      attackTarget := None;
      hp := Stats(kind).maxHp;
      shield := Stats(kind).maxShield;
      targetPos := pos;
    }

    function Data(): UnitData
    {
      Stats(kind)
    }

    /** `moveTo(target)`: a new target point, and the attack order is dropped. */
    method MoveTo(target: Point)
      modifies this`targetPos, this`attackTarget
      ensures targetPos == target && attackTarget == None
    {
      targetPos := target;
      attackTarget := None;
    }

    /** `attack(target)`: the order is set, and the unit heads for where the target stands. */
    method Attack(target: Option<Unit>)
      modifies this`attackTarget, this`targetPos
      ensures attackTarget == target
      ensures targetPos == if target.Some? then target.value.position else old(targetPos)
    {
      attackTarget := target;
      if target.Some? {
        targetPos := target.value.position;
      }
    }

    /** `updateMovement(deltaTime)`: the step `Travel` gives. */
    method UpdateMovement(deltaTime: real, norm: Norm)
      modifies this`position
      ensures position == Travel(old(position), targetPos, Data().speed, deltaTime, norm)
    {
      var dx, dy := targetPos.x - position.x, targetPos.y - position.y;
      var distance := norm(dx, dy);
      if distance > 3.0 {
        var direction := Normalize(dx, dy, norm);
        var moveSpeed := Data().speed * deltaTime * FrameRate;
        position := Point(position.x + direction.x * moveSpeed, position.y + direction.y * moveSpeed);
      }
    }

    /** The ordered target, when there is one and it is alive. */
    function LiveTarget(): (r: Option<Unit>)
      reads this`attackTarget, TargetSet(this)`hp
      ensures r.Some? ==> attackTarget == r && !Dead(r.value)
    {
      if attackTarget.Some? && !Dead(attackTarget.value) then attackTarget else None
    }

    /**
     * The decision `updateCombat` takes for this unit with cooldown
     * `cooldown`, `target` being its ordered target when that one is alive
     * and `live` telling which listed units are alive. A live ordered
     * target out of range is chased: the target point moves to it. In
     * range, the unit fires when its cooldown is at or below zero. Without
     * a live ordered target, the unit fires at the nearest living enemy
     * when that one is within range and the cooldown is at or below zero.
     */
    function Decide(units: seq<Unit>, live: seq<bool>, target: Option<Unit>, cooldown: real, norm: Norm): Action
      requires |live| == |units|
      reads this`position, units`position, OptionSet(target)`position
    {
      match target
      case Some(t) =>
        if Distance(position, t.position, norm) > Data().attackRange then Chase
        else if cooldown <= 0.0 then Fire(t, true)
        else Hold
      case None =>
        match Scan(units, live, EnemyOf(owner), position, |units|, norm).0
        case Some(k) =>
          if Distance(position, units[k].position, norm) <= Data().attackRange && cooldown <= 0.0
          then Fire(units[k], false)
          else Idle
        case None => Idle
    }

    /**
     * Every shot `Decide` orders is at a unit within range with the
     * cooldown run out; an ordered shot is at the ordered target, and an
     * automatic one at a living listed enemy no living enemy is nearer
     * than. A chase is after the ordered target out of range. The ordered
     * target is acted on exactly when there is one; without one, the unit
     * fires whenever a living enemy is in range and the cooldown has run
     * out.
     */
    lemma DecideSound(units: seq<Unit>, live: seq<bool>, target: Option<Unit>, cooldown: real, norm: Norm)
      requires |live| == |units|
      ensures var a := Decide(units, live, target, cooldown, norm);
        a.Fire? ==> (Distance(position, a.victim.position, norm) <= Data().attackRange && cooldown <= 0.0)
      ensures var a := Decide(units, live, target, cooldown, norm);
        a.Fire? && a.ordered ==> target == Some(a.victim)
      ensures var a := Decide(units, live, target, cooldown, norm);
        a.Fire? && !a.ordered ==> ((exists k :: 0 <= k < |units| && units[k] == a.victim && live[k]) &&
          a.victim.owner != owner &&
          forall k :: 0 <= k < |units| && Eligible(units[k], live[k], EnemyOf(owner)) ==>
            Distance(position, a.victim.position, norm) <= Distance(position, units[k].position, norm))
      ensures var a := Decide(units, live, target, cooldown, norm);
        a.Chase? ==> (target.Some? && Distance(position, target.value.position, norm) > Data().attackRange)
      ensures var a := Decide(units, live, target, cooldown, norm);
        (a.Chase? || a.Hold? || (a.Fire? && a.ordered)) <==> target.Some?
      ensures var a := Decide(units, live, target, cooldown, norm);
        (target.None? && cooldown <= 0.0 &&
         exists k :: 0 <= k < |units| && Eligible(units[k], live[k], EnemyOf(owner)) &&
           Distance(position, units[k].position, norm) <= Data().attackRange) ==> a.Fire?
    {
      ScanNearest(units, live, EnemyOf(owner), position, |units|, norm);
    }

    /** `findNearestEnemy(allUnits)`: the index of the unit `Scan` picks. */
    method FindNearestEnemy(allUnits: seq<Unit>, norm: Norm) returns (nearest: Option<nat>)
      ensures nearest == Scan(allUnits, Lives(allUnits), EnemyOf(owner), position, |allUnits|, norm).0
    {
      nearest := Nearest(allUnits, EnemyOf(owner), position, norm);
    }

    /**
     * `performAttack(target)`: the target takes this unit's attack power,
     * shield first, by the shared damage rule.
     */
    method PerformAttack(target: Unit)
      modifies target`shield, target`hp
      ensures VitalsOf(target) == ApplyDamage(old(VitalsOf(target)), Data().attackPower)
    {
      var damage := Data().attackPower;
      if target.shield > 0.0 {
        target.shield := target.shield - damage;
        if target.shield < 0.0 {
          target.hp := target.hp + target.shield;
          target.shield := 0.0;
        }
      } else {
        target.hp := target.hp - damage;
      }
    }

    /**
     * `updateCombat(allUnits)`: the action is the one `Decide` takes on
     * the state at the call. A chase moves the target point onto the
     * target; a shot strikes the victim and resets the cooldown; no other
     * listed unit and no other ordered target is hurt.
     */
    method UpdateCombat(allUnits: seq<Unit>, norm: Norm, ghost live: seq<bool>, ghost target: Option<Unit>)
      returns (ghost action: Action)
      requires live == Lives(allUnits) && target == LiveTarget()
      modifies this`targetPos, this`attackCooldown, allUnits`shield, allUnits`hp
      modifies TargetSet(this)`shield, TargetSet(this)`hp
      ensures action == old(Decide(allUnits, live, target, attackCooldown, norm))
      ensures action.Chase? ==> attackTarget.Some? && targetPos == attackTarget.value.position
      ensures !action.Chase? ==> targetPos == old(targetPos)
      ensures action.Fire? ==> (attackCooldown == Data().attackCooldown &&
        VitalsOf(action.victim) == ApplyDamage(old(VitalsOf(action.victim)), Data().attackPower))
      ensures !action.Fire? ==> attackCooldown == old(attackCooldown)
      ensures forall w :: (w in allUnits || w in TargetSet(this)) && !(action.Fire? && w == action.victim) ==>
        VitalsOf(w) == old(VitalsOf(w))
    {
      action := Decide(allUnits, Lives(allUnits), LiveTarget(), attackCooldown, norm);
      DecideSound(allUnits, Lives(allUnits), LiveTarget(), attackCooldown, norm);
      if attackTarget.Some? && !Dead(attackTarget.value) {
        var t := attackTarget.value;
        var dist := Distance(position, t.position, norm);
        if dist > Data().attackRange {
          targetPos := t.position;
        } else if attackCooldown <= 0.0 {
          PerformAttack(t);
          attackCooldown := Data().attackCooldown;
        }
      } else {
        var nearest := FindNearestEnemy(allUnits, norm);
        if nearest.Some? {
          var enemy := allUnits[nearest.value];
          var dist := Distance(position, enemy.position, norm);
          if dist <= Data().attackRange && attackCooldown <= 0.0 {
            PerformAttack(enemy);
            attackCooldown := Data().attackCooldown;
          }
        }
      }
    }

    /**
     * `update(deltaTime, allUnits)`: the cooldown runs down, the unit
     * steps toward its target point, then it fights: the action is the one
     * `Decide` takes where the step left it, with the cooled cooldown and
     * the units alive at the start. The cooldown ends as the cooled one
     * unless the unit fired; a shot strikes the victim, and no other listed
     * unit and no other ordered target is hurt.
     */
    method Update(deltaTime: real, allUnits: seq<Unit>, norm: Norm) returns (ghost action: Action)
      modifies this`attackCooldown, this`position, this`targetPos, allUnits`shield, allUnits`hp
      modifies TargetSet(this)`shield, TargetSet(this)`hp
      ensures position == Travel(old(position), old(targetPos), Data().speed, deltaTime, norm)
      ensures action == Decide(allUnits, old(Lives(allUnits)), old(LiveTarget()), Cool(old(attackCooldown), deltaTime), norm)
      ensures attackCooldown == if action.Fire? then Data().attackCooldown else Cool(old(attackCooldown), deltaTime)
      ensures action.Chase? ==> attackTarget.Some? && targetPos == attackTarget.value.position
      ensures !action.Chase? ==> targetPos == old(targetPos)
      ensures action.Fire? ==> VitalsOf(action.victim) == ApplyDamage(old(VitalsOf(action.victim)), Data().attackPower)
      ensures forall w :: (w in allUnits || w in TargetSet(this)) && !(action.Fire? && w == action.victim) ==>
        VitalsOf(w) == old(VitalsOf(w))
    {
      ghost var cooled, live, target := Cool(attackCooldown, deltaTime), Lives(allUnits), LiveTarget();
      if attackCooldown > 0.0 {
        attackCooldown := attackCooldown - deltaTime * FrameRate;
      }
      assert attackCooldown == cooled;
      UpdateMovement(deltaTime, norm);
      ghost var moved := position;
      action := UpdateCombat(allUnits, norm, live, target);
      assert position == moved;
    }
  }

  /** The centres of the units, in order. */
  function Positions(units: seq<Unit>): (ps: seq<Point>)
    reads units`position
    ensures |ps| == |units| && forall k :: 0 <= k < |units| ==> ps[k] == units[k].position
  {
    if |units| == 0 then []
    else Positions(units[..|units| - 1]) + [units[|units| - 1].position]
  }

  /** Which units are alive, in order. */
  function Lives(units: seq<Unit>): (live: seq<bool>)
    reads units`hp
    ensures |live| == |units| && forall k :: 0 <= k < |units| ==> live[k] == !Dead(units[k])
  {
    if |units| == 0 then []
    else Lives(units[..|units| - 1]) + [!Dead(units[|units| - 1])]
  }

  /** The sizes of the units, in order. */
  function Sizes(units: seq<Unit>): (ss: seq<real>)
    ensures |ss| == |units| && forall k :: 0 <= k < |units| ==> ss[k] == Stats(units[k].kind).size
  {
    seq(|units|, k requires 0 <= k < |units| => Stats(units[k].kind).size)
  }

  /**
   * The body of the inner loop of `resolveCollisions`: units `i` and `j`,
   * when both are alive and overlap at a positive distance, are pushed
   * apart. Their new centres are those `PairStep` gives; every other unit
   * stays where it was.
   */
  method CheckPair(units: seq<Unit>, i: nat, j: nat, norm: Norm, ghost ps: seq<Point>, ghost live: seq<bool>)
    returns (ghost qs: seq<Point>)
    requires Distinct(units)
    requires i < j < |units| && |ps| == |units| == |live|
    requires forall k :: 0 <= k < |units| ==> ps[k] == units[k].position && live[k] == !Dead(units[k])
    modifies {units[i], units[j]}`position
    ensures qs == PairStep(ps, live, Sizes(units), i, j, norm)
    ensures forall k :: 0 <= k < |units| ==> qs[k] == units[k].position && live[k] == !Dead(units[k])
  {
    var u1, u2 := units[i], units[j];
    qs := PairStep(ps, live, Sizes(units), i, j, norm);
    if Dead(u1) || Dead(u2) {
      return;
    }
    var p1, p2 := u1.position, u2.position;
    var dx, dy := p1.x - p2.x, p1.y - p2.y;
    var distance := norm(dx, dy);
    var s1, s2 := u1.Data().size, u2.Data().size;
    var minDist := s1 + s2;
    if distance < minDist && distance > 0.0 {
      var overlap := minDist - distance;
      var direction := Normalize(dx, dy, norm);
      var push := Point(direction.x * (overlap * 0.5), direction.y * (overlap * 0.5));
      ResolveByNormalize(p1, p2, s1, s2, norm, direction, overlap * 0.5);
      assert ps[i] == p1 && ps[j] == p2 && Sizes(units)[i] == s1 && Sizes(units)[j] == s2;
      ghost var r := JsCollision.Resolve(p1, p2, s1, s2, norm);
      assert r.0 == Point(p1.x + push.x, p1.y + push.y);
      assert r.1 == Point(p2.x - push.x, p2.y - push.y);
      assert qs == ps[i := r.0][j := r.1];
      u1.position := Point(p1.x + push.x, p1.y + push.y);
      u2.position := Point(p2.x - push.x, p2.y - push.y);
    } else {
      assert qs == ps;
    }
    assert forall k :: 0 <= k < |units| && k != i && k != j ==> units[k] != u1 && units[k] != u2;
  }

  /**
   * One pass of the outer loop of `resolveCollisions`: unit `i` against
   * every later unit, in order. What is left of the pass afterwards ends
   * where it would have before.
   */
  method CheckRow(units: seq<Unit>, i: nat, norm: Norm, ghost ps: seq<Point>, ghost live: seq<bool>)
    returns (ghost qs: seq<Point>)
    requires Distinct(units)
    requires i < |units| && |ps| == |units| == |live|
    requires forall k :: 0 <= k < |units| ==> ps[k] == units[k].position && live[k] == !Dead(units[k])
    modifies units`position
    ensures |qs| == |units|
    ensures forall k :: 0 <= k < |units| ==> qs[k] == units[k].position && live[k] == !Dead(units[k])
    ensures Sweep(qs, live, Sizes(units), JsCollision.PairsFrom(|units|, i + 1, i + 2), norm) ==
      Sweep(ps, live, Sizes(units), JsCollision.PairsFrom(|units|, i, i + 1), norm)
  {
    var n := |units|;
    ghost var sizes := Sizes(units);
    qs := ps;
    for j := i + 1 to n
      invariant |qs| == n
      invariant forall k :: 0 <= k < n ==> qs[k] == units[k].position && live[k] == !Dead(units[k])
      invariant qs == JsCollision.FoldRow(Step(live, sizes, norm), ps, i, j)
    {
      qs := CheckPair(units, i, j, norm, qs, live);
    }
    RowDone(ps, qs, live, sizes, n, i, norm);
  }

  /**
   * `CollisionSystem::resolveCollisions(units)`: every unordered pair
   * `i < j`, in index order, is tested and, when both units are alive and
   * overlap at a positive distance, pushed apart; each push sees the
   * centres the earlier pushes left.
   */
  method ResolveCollisions(units: seq<Unit>, norm: Norm)
    requires Distinct(units)
    modifies units`position
    ensures Positions(units) == Sweep(old(Positions(units)), Lives(units), Sizes(units), JsCollision.Pairs(|units|), norm)
  {
    var n := |units|;
    ghost var live, sizes := Lives(units), Sizes(units);
    ghost var ps := Positions(units);
    ghost var goal := Sweep(ps, live, sizes, JsCollision.Pairs(n), norm);
    for i := 0 to n
      invariant |ps| == n
      invariant forall k :: 0 <= k < n ==> ps[k] == units[k].position && live[k] == !Dead(units[k])
      invariant Sweep(ps, live, sizes, JsCollision.PairsFrom(n, i, i + 1), norm) == goal
    {
      ps := CheckRow(units, i, norm, ps, live);
    }
    assert Positions(units) == ps;
    assert Lives(units) == live;
  }

  /** The units of `s` that are alive, in their order: the `remove_if` of `update`. */
  function Living(s: seq<Unit>): seq<Unit>
    reads s`hp
  {
    if |s| == 0 then []
    else
      var rest := Living(s[..|s| - 1]);
      if !Dead(s[|s| - 1]) then rest + [s[|s| - 1]] else rest
  }

  /**
   * The filter keeps exactly the listed units that are alive, and a list
   * without repeats stays without repeats.
   */
  lemma {:induction false} LivingFacts(s: seq<Unit>)
    ensures forall k :: 0 <= k < |Living(s)| ==> Living(s)[k] in s && !Dead(Living(s)[k])
    ensures forall k :: 0 <= k < |s| && !Dead(s[k]) ==> s[k] in Living(s)
    ensures Distinct(s) ==> Distinct(Living(s))
  {
    if |s| > 0 {
      var n := |s| - 1;
      var front := s[..n];
      LivingFacts(front);
      assert forall k :: 0 <= k < n ==> front[k] == s[k];
      if Distinct(s) {
        assert Distinct(front);
        assert s[n] !in front;
      }
    }
  }

  /** The targets the units of `units` hold. */
  function OrderTargets(units: seq<Unit>): set<Unit>
    reads units`attackTarget
  {
    set k, t | 0 <= k < |units| && t in TargetSet(units[k]) :: t
  }

  /** The living units of `owner` in `units`: `countUnits(owner)` on values. */
  function Count(units: seq<Unit>, owner: int): (n: nat)
    reads units`hp
    ensures n <= |units|
  {
    if |units| == 0 then 0
    else Count(units[..|units| - 1], owner) + (if units[|units| - 1].owner == owner && !Dead(units[|units| - 1]) then 1 else 0)
  }

  /** A side counts no units exactly when every unit it owns is dead. */
  lemma {:induction false} CountNone(units: seq<Unit>, owner: int)
    ensures Count(units, owner) == 0 <==> forall k :: 0 <= k < |units| && units[k].owner == owner ==> Dead(units[k])
  {
    if |units| > 0 {
      var n := |units| - 1;
      CountNone(units[..n], owner);
      assert forall k :: 0 <= k < n ==> units[..n][k] == units[k];
    }
  }

  /**
   * The attack `commandAttack` gives unit `k`: a living unit of player 0
   * is sent at the living unit of player 1 that `Scan` picks; any other
   * unit gets no order.
   */
  function Command(units: seq<Unit>, k: nat, norm: Norm): (c: Option<nat>)
    requires k < |units|
    reads units`hp, units`position
    ensures c.Some? ==> c.value < |units|
  {
    if units[k].owner == 0 && !Dead(units[k]) then Scan(units, Lives(units), OwnedBy(1), units[k].position, |units|, norm).0
    else None
  }

  /**
   * Every order `commandAttack` gives sends a living unit of player 0 at a
   * living unit of player 1 that no other living unit of player 1 is
   * nearer to it than; a living unit of player 0 goes without an order
   * only when no living unit of player 1 is within 999999.
   */
  lemma CommandNearest(units: seq<Unit>, k: nat, norm: Norm)
    requires k < |units|
    ensures var c := Command(units, k, norm);
      c.Some? ==> (units[k].owner == 0 && !Dead(units[k]) && units[c.value].owner == 1 && !Dead(units[c.value]) &&
        forall j :: 0 <= j < |units| && units[j].owner == 1 && !Dead(units[j]) ==>
          Distance(units[k].position, units[c.value].position, norm) <= Distance(units[k].position, units[j].position, norm))
    ensures var c := Command(units, k, norm);
      c.None? && units[k].owner == 0 && !Dead(units[k]) ==>
        forall j :: 0 <= j < |units| && units[j].owner == 1 && !Dead(units[j]) ==>
          Distance(units[k].position, units[j].position, norm) >= FarAway
  {
    ScanNearest(units, Lives(units), OwnedBy(1), units[k].position, |units|, norm);
  }

  class Game {
    var units: seq<Unit>
    var nextUnitId: int

    /** The invariant: no unit is listed twice. */
    ghost predicate Valid()
      reads this
    {
      Distinct(units)
    }

    /** `Game()`: no units yet; `init` and its roster are not part of this model. */
    constructor()
      ensures units == [] && nextUnitId == 0 && Valid()
    {
      units := [];
      nextUnitId := 0;
    }

    /**
     * The unit loop of `update`: each unit alive when its turn comes runs
     * `Unit::update` with the whole list; dead units are skipped. The list
     * and every order are left alone.
     */
    method UpdateUnits(deltaTime: real, norm: Norm)
      requires Valid()
      modifies units`attackCooldown, units`position, units`targetPos, units`shield, units`hp
      modifies OrderTargets(units)`shield, OrderTargets(units)`hp
      ensures Valid()
    {
      for i := 0 to |units|
      {
        var u := units[i];
        if !Dead(u) {
          assert TargetSet(u) <= OrderTargets(units);
          ghost var action := u.Update(deltaTime, units, norm);
        }
      }
    }

    /** The last step of `update`: the list keeps only the units that are alive. */
    method RemoveDead()
      requires Valid()
      modifies this`units
      ensures units == Living(old(units))
      ensures forall k :: 0 <= k < |units| ==> !Dead(units[k])
      ensures Valid()
    {
      LivingFacts(units);
      units := Living(units);
    }

    /**
     * `update(deltaTime)`: the unit loop, then one collision pass over the
     * whole list from the centres `afterUpdates` the units had then, which
     * moves living units only; finally the dead leave the list, the
     * survivors keeping their order.
     */
    method Update(deltaTime: real, norm: Norm) returns (ghost afterUpdates: seq<Point>)
      requires Valid()
      modifies this`units, units`attackCooldown, units`position, units`targetPos, units`shield, units`hp
      modifies OrderTargets(units)`shield, OrderTargets(units)`hp
      ensures units == Living(old(units))
      ensures forall k :: 0 <= k < |units| ==> !Dead(units[k])
      ensures |afterUpdates| == |old(units)|
      ensures Positions(old(units)) ==
        Sweep(afterUpdates, Lives(old(units)), Sizes(old(units)), JsCollision.Pairs(|old(units)|), norm)
      ensures Valid()
    {
      UpdateUnits(deltaTime, norm);
      ghost var list := units;
      afterUpdates := Positions(list);
      ResolveCollisions(units, norm);
      ghost var survivors := Living(list);
      RemoveDead();
      assert units == survivors;
    }

    /**
     * The body of the loop of `commandAttack` for unit `i`: the order
     * `Command` gives it, if any, is issued with `attack`.
     */
    method CommandUnit(i: nat, unit: Unit, norm: Norm) returns (ghost order: Option<nat>)
      requires i < |units| && unit == units[i]
      modifies unit`attackTarget, unit`targetPos
      ensures order == Command(units, i, norm)
      ensures order.Some? ==> unit.attackTarget == Some(units[order.value]) && unit.targetPos == units[order.value].position
      ensures order.None? ==> unchanged(unit`attackTarget, unit`targetPos)
    {
      order := Command(units, i, norm);
      if unit.owner == 0 && !Dead(unit) {
        var nearest := Nearest(units, OwnedBy(1), unit.position, norm);
        if nearest.Some? {
          unit.Attack(Some(units[nearest.value]));
        }
      }
    }

    /**
     * `commandAttack()`: every living unit of player 0 gets the order
     * `Command` gives it at the time of the call; units without one keep
     * theirs.
     */
    method CommandAttack(norm: Norm)
      requires Valid()
      modifies units`attackTarget, units`targetPos
      ensures forall k :: 0 <= k < |units| && old(Command(units, k, norm)).Some? ==>
        units[k].attackTarget == Some(units[old(Command(units, k, norm)).value]) &&
        units[k].targetPos == old(units[Command(units, k, norm).value].position)
      ensures forall k :: 0 <= k < |units| && old(Command(units, k, norm)).None? ==>
        units[k].attackTarget == old(units[k].attackTarget) && units[k].targetPos == old(units[k].targetPos)
    {
      var us := units;
      var n := |us|;
      ghost var orders := seq(n, k requires 0 <= k < n reads us => Command(us, k, norm));
      ghost var centres := seq(n, k requires 0 <= k < n reads us => us[k].position);
      ghost var targets := seq(n, k requires 0 <= k < n reads us => us[k].attackTarget);
      ghost var aims := seq(n, k requires 0 <= k < n reads us => us[k].targetPos);
      for i := 0 to n
        invariant forall k :: 0 <= k < n ==>
          Command(us, k, norm) == orders[k] && us[k].position == centres[k] && (orders[k].Some? ==> orders[k].value < n)
        invariant forall k :: 0 <= k < i && orders[k].Some? ==>
          us[k].attackTarget == Some(us[orders[k].value]) && us[k].targetPos == centres[orders[k].value]
        invariant forall k :: 0 <= k < i && orders[k].None? ==>
          us[k].attackTarget == targets[k] && us[k].targetPos == aims[k]
        invariant forall k :: i <= k < n ==> us[k].attackTarget == targets[k] && us[k].targetPos == aims[k]
      {
        CommandNext(i, norm, orders, centres, targets, aims);
      }
    }

    /** One turn of the loop of `commandAttack`: the loop's facts carry from `i` to `i + 1`. */
    method CommandNext(i: nat, norm: Norm, ghost orders: seq<Option<nat>>, ghost centres: seq<Point>,
                       ghost targets: seq<Option<Unit>>, ghost aims: seq<Point>)
      requires Valid() && i < |units| == |orders| == |centres| == |targets| == |aims|
      requires forall k :: 0 <= k < |units| ==>
        Command(units, k, norm) == orders[k] && units[k].position == centres[k] && (orders[k].Some? ==> orders[k].value < |units|)
      requires forall k :: 0 <= k < i && orders[k].Some? ==>
        units[k].attackTarget == Some(units[orders[k].value]) && units[k].targetPos == centres[orders[k].value]
      requires forall k :: 0 <= k < i && orders[k].None? ==>
        units[k].attackTarget == targets[k] && units[k].targetPos == aims[k]
      requires forall k :: i <= k < |units| ==> units[k].attackTarget == targets[k] && units[k].targetPos == aims[k]
      modifies {units[i]}`attackTarget, {units[i]}`targetPos
      ensures forall k :: 0 <= k < |units| ==>
        Command(units, k, norm) == orders[k] && units[k].position == centres[k] && (orders[k].Some? ==> orders[k].value < |units|)
      ensures forall k :: 0 <= k < i + 1 && orders[k].Some? ==>
        units[k].attackTarget == Some(units[orders[k].value]) && units[k].targetPos == centres[orders[k].value]
      ensures forall k :: 0 <= k < i + 1 && orders[k].None? ==>
        units[k].attackTarget == targets[k] && units[k].targetPos == aims[k]
      ensures forall k :: i + 1 <= k < |units| ==> units[k].attackTarget == targets[k] && units[k].targetPos == aims[k]
    {
      var order := CommandUnit(i, units[i], norm);
      assert forall k :: 0 <= k < |units| && k != i ==> units[k] != units[i];
    }

    /** `countUnits(owner)`: the living units of `owner`. */
    method CountUnits(owner: int) returns (count: nat)
      ensures count == Count(units, owner)
    {
      count := 0;
      for i := 0 to |units|
        invariant count == Count(units[..i], owner)
      {
        assert units[..i + 1][..i] == units[..i];
        if units[i].owner == owner && !Dead(units[i]) {
          count := count + 1;
        }
      }
      assert units[..|units|] == units;
    }

    /** `isGameOver()`: one of the two sides has no living unit left. */
    method IsGameOver() returns (over: bool)
      ensures over <==> Count(units, 0) == 0 || Count(units, 1) == 0
    {
      var mine := CountUnits(0);
      var theirs := CountUnits(1);
      over := mine == 0 || theirs == 0;
    }
  }
}
