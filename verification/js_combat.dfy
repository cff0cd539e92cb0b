/**
 * `CombatSystem` of game_integrated/test/combat.js: the range test, the
 * damage rule, a single attack, the choice of the nearest enemy and the
 * automatic attack a unit makes every tick.
 */
module JsCombat {
  import opened Common
  import opened Damage
  import opened JsUnits
  import JsCollision

  /** The distance from `a` to `b` as the source measures it. */
  function Distance(a: Unit, b: Unit, norm: Norm): real
    reads a`x, a`y, b`x, b`y
  {
    norm(a.x - b.x, a.y - b.y)
  }

  /** `isInRange(attacker, target)`: the target is at most `attackRange` away. */
  predicate IsInRange(attacker: Unit, target: Unit, norm: Norm)
    reads attacker`x, attacker`y, target`x, target`y
  {
    Distance(attacker, target, norm) <= attacker.attackRange
  }

  /** The range test is a test on the squared distance; no square root is needed. */
  lemma InRangeBySquares(attacker: Unit, target: Unit, norm: Norm)
    requires Euclidean(norm) && 0.0 <= attacker.attackRange
    ensures IsInRange(attacker, target, norm) <==>
      (attacker.x - target.x) * (attacker.x - target.x) + (attacker.y - target.y) * (attacker.y - target.y)
        <= attacker.attackRange * attacker.attackRange
  {
    var dx, dy := attacker.x - target.x, attacker.y - target.y;
    NormWithin(norm, dx, dy, attacker.attackRange);
  }

  /** `calculateDamage(attacker, target)`: power minus the target's armor, at least 1. */
  function CalculateDamage(attacker: Unit, target: Unit): real
  {
    DamageAmount(attacker.attackPower, target.armor)
  }

  /**
   * `attack(attacker, target)`: nothing happens, and the answer is false,
   * when the target is out of range or the attacker is still cooling down.
   * Otherwise the damage goes through the shield first and the attacker's
   * cooldown restarts at its maximum. The attacker may be its own target.
   */
  method Attack(attacker: Unit, target: Unit, norm: Norm) returns (hit: bool)
    modifies attacker`attackCooldown, target`shield, target`hp
    ensures hit <==> IsInRange(attacker, target, norm) && old(attacker.attackCooldown) <= 0.0
    ensures hit ==>
      Vitals(target.shield, target.hp) ==
        ApplyDamage(old(Vitals(target.shield, target.hp)), CalculateDamage(attacker, target)) &&
      attacker.attackCooldown == attacker.maxAttackCooldown
    ensures hit ==> target.shield + target.hp == old(target.shield + target.hp) - CalculateDamage(attacker, target)
    ensures !hit ==> unchanged(attacker`attackCooldown, target`shield, target`hp)
    ensures old(attacker.Valid()) && old(target.Valid()) ==> attacker.Valid() && target.Valid()
  {
    if !IsInRange(attacker, target, norm) {
      return false;
    }
    if attacker.attackCooldown > 0.0 {
      return false;
    }
    var damage := CalculateDamage(attacker, target);
    ghost var before := Vitals(target.shield, target.hp);
    if target.shield > 0.0 {
      target.shield := target.shield - damage;
      if target.shield < 0.0 {
        target.hp := target.hp + target.shield;
        target.shield := 0.0;
      }
    } else {
      target.hp := target.hp - damage;
    }
    attacker.attackCooldown := attacker.maxAttackCooldown;
    ApplyDamageTotal(before, damage);
    if before.shield >= 0.0 {
      ApplyDamageShield(before, damage);
    }
    return true;
  }

  /** A unit `unit` may fight: another owner's unit with hit points left. */
  predicate IsLiveEnemy(unit: Unit, other: Unit)
    reads other`hp
  {
    other.owner != unit.owner && other.hp > 0.0
  }

  /**
   * The index `findNearestEnemy` settles on, or -1: the units are scanned in
   * order and a live enemy replaces the best so far only when it is strictly
   * closer.
   */
  function NearestIndex(unit: Unit, units: seq<Unit>, norm: Norm): (i: int)
    reads unit`x, unit`y, units`x, units`y, units`hp
    ensures -1 <= i < |units|
    ensures i >= 0 ==> IsLiveEnemy(unit, units[i])
    decreases |units|
  {
    if |units| == 0 then -1
    else
      var best := NearestIndex(unit, units[..|units| - 1], norm);
      var other := units[|units| - 1];
      if IsLiveEnemy(unit, other) &&
         (best < 0 || Distance(unit, other, norm) < Distance(unit, units[best], norm))
      then |units| - 1
      else best
  }

  /**
   * The scan finds a live enemy exactly when there is one; the one it finds
   * is at least as close as every live enemy, and strictly closer than every
   * live enemy before it, so ties go to the earliest.
   */
  lemma {:induction false} NearestIndexIsNearest(unit: Unit, units: seq<Unit>, norm: Norm)
    ensures var i := NearestIndex(unit, units, norm);
      (i < 0 <==> forall j :: 0 <= j < |units| ==> !IsLiveEnemy(unit, units[j])) &&
      (i >= 0 ==>
        (forall j :: 0 <= j < |units| && IsLiveEnemy(unit, units[j]) ==>
          Distance(unit, units[i], norm) <= Distance(unit, units[j], norm)) &&
        (forall j :: 0 <= j < i && IsLiveEnemy(unit, units[j]) ==>
          Distance(unit, units[i], norm) < Distance(unit, units[j], norm)))
    decreases |units|
  {
    if |units| > 0 {
      var n := |units| - 1;
      var prefix := units[..n];
      NearestIndexIsNearest(unit, prefix, norm);
      assert forall j :: 0 <= j < n ==> prefix[j] == units[j];
    }
  }

  /**
   * `findNearestEnemy(unit, allUnits)`: the unit `NearestIndex` picks, or
   * none when no live enemy is listed. `minDistance` starts as none, which
   * stands for the source's `Infinity`.
   */
  method FindNearestEnemy(unit: Unit, allUnits: seq<Unit>, norm: Norm) returns (nearest: Option<Unit>)
    ensures var i := NearestIndex(unit, allUnits, norm);
      nearest == if i < 0 then None else Some(allUnits[i])
    ensures nearest.None? <==> forall j :: 0 <= j < |allUnits| ==> !IsLiveEnemy(unit, allUnits[j])
    ensures nearest.Some? ==> nearest.value in allUnits && IsLiveEnemy(unit, nearest.value)
    ensures nearest.Some? ==>
      forall j :: 0 <= j < |allUnits| && IsLiveEnemy(unit, allUnits[j]) ==>
        Distance(unit, nearest.value, norm) <= Distance(unit, allUnits[j], norm)
  {
    nearest := None;
    var minDistance: Option<real> := None;
    ghost var at := -1;
    for k := 0 to |allUnits|
      invariant at == NearestIndex(unit, allUnits[..k], norm)
      invariant nearest == (if at < 0 then None else Some(allUnits[at]))
      invariant minDistance == (if at < 0 then None else Some(Distance(unit, allUnits[at], norm)))
    {
      assert allUnits[..k + 1][..k] == allUnits[..k];
      var other := allUnits[k];
      if other.owner == unit.owner {
        continue;
      }
      if other.hp <= 0.0 {
        continue;
      }
      var dx := unit.x - other.x;
      var dy := unit.y - other.y;
      var distance := norm(dx, dy);
      if minDistance.None? || distance < minDistance.value {
        minDistance := Some(distance);
        nearest := Some(other);
        at := k;
      }
    }
    assert allUnits[..|allUnits|] == allUnits;
    NearestIndexIsNearest(unit, allUnits, norm);
  }

  /** The target of the unit's ATTACK order, as a set of at most one unit. */
  function OrderedTarget(unit: Unit): set<Unit>
    reads unit`currentOrder
  {
    if unit.currentOrder.Some? && unit.currentOrder.value.Attack? then {unit.currentOrder.value.target} else {}
  }

  /**
   * The unit `autoAttack` goes for, before the cooldown is consulted. Under
   * an ATTACK order it is the ordered target, and only when that target is
   * alive and in range; under any other order, or none, it is the nearest
   * live enemy, and only when that enemy is in range.
   */
  function AutoAttackTarget(unit: Unit, allUnits: seq<Unit>, norm: Norm): (v: Option<Unit>)
    reads unit`x, unit`y, unit`currentOrder, allUnits`x, allUnits`y, allUnits`hp, OrderedTarget(unit)`x,
      OrderedTarget(unit)`y, OrderedTarget(unit)`hp
    ensures v.Some? ==> v.value.hp > 0.0 && IsInRange(unit, v.value, norm)
    ensures v.Some? ==> v.value in OrderedTarget(unit) || v.value in allUnits
    ensures OrderedTarget(unit) != {} ==> v.None? || v.value in OrderedTarget(unit)
    ensures OrderedTarget(unit) == {} && v.Some? ==>
      v.value.owner != unit.owner &&
      forall j :: 0 <= j < |allUnits| && IsLiveEnemy(unit, allUnits[j]) ==>
        Distance(unit, v.value, norm) <= Distance(unit, allUnits[j], norm)
  {
    if unit.currentOrder.Some? && unit.currentOrder.value.Attack? then
      var t := unit.currentOrder.value.target;
      if t.hp > 0.0 && IsInRange(unit, t, norm) then Some(t) else None
    else
      var i := NearestIndex(unit, allUnits, norm);
      NearestIndexIsNearest(unit, allUnits, norm);
      if i >= 0 && IsInRange(unit, allUnits[i], norm) then Some(allUnits[i]) else None
  }

  /** Which of the units have hit points left, in order. */
  function LiveFlags(units: seq<Unit>): (live: seq<bool>)
    reads units`hp
    ensures |live| == |units| && forall k :: 0 <= k < |units| ==> live[k] == (units[k].hp > 0.0)
  {
    if |units| == 0 then []
    else LiveFlags(units[..|units| - 1]) + [units[|units| - 1].hp > 0.0]
  }

  /** `other` is an enemy of `unit` that, by `live`, has hit points left. */
  predicate LivingEnemy(unit: Unit, other: Unit, live: bool)
  {
    other.owner != unit.owner && live
  }

  /** The distance from `p` to `q` as the source measures it. */
  function Gap(p: Point, q: Point, norm: Norm): real
  {
    norm(p.x - q.x, p.y - q.y)
  }

  /**
   * `units[i]`, or none when `i` is -1, is what an automatic attack without
   * an ATTACK order goes for, when the attacker `unit` stands at `at`,
   * `units[j]` stands at `spots[j]` and `live[j]` tells whether it has hit
   * points left: the nearest living enemy, the earliest listed of equally
   * near ones, provided it is in range; none exactly when no living enemy is
   * in range.
   */
  predicate NearestInRange(unit: Unit, at: Point, units: seq<Unit>, spots: seq<Point>, live: seq<bool>, i: int,
                           norm: Norm)
    requires |spots| == |units| && |live| == |units|
  {
    -1 <= i < |units| &&
    (i < 0 <==>
      forall j :: 0 <= j < |units| && LivingEnemy(unit, units[j], live[j]) ==>
        Gap(at, spots[j], norm) > unit.attackRange) &&
    (i >= 0 ==>
      LivingEnemy(unit, units[i], live[i]) && Gap(at, spots[i], norm) <= unit.attackRange &&
      (forall j :: 0 <= j < |units| && LivingEnemy(unit, units[j], live[j]) ==>
        Gap(at, spots[i], norm) <= Gap(at, spots[j], norm)) &&
      (forall j :: 0 <= j < i && LivingEnemy(unit, units[j], live[j]) ==>
        Gap(at, spots[i], norm) < Gap(at, spots[j], norm)))
  }

  /**
   * The unit `autoAttack` goes for without an ATTACK order, as a position in
   * the list, or -1 when it goes for none.
   */
  function NearestInRangeIndex(unit: Unit, allUnits: seq<Unit>, norm: Norm): (i: int)
    reads unit`x, unit`y, allUnits`x, allUnits`y, allUnits`hp
  {
    var i := NearestIndex(unit, allUnits, norm);
    if i >= 0 && IsInRange(unit, allUnits[i], norm) then i else -1
  }

  /**
   * `NearestInRangeIndex` is the nearest living enemy in range, the
   * earliest of equally near ones, and -1 exactly when no living enemy is in
   * range.
   */
  lemma NearestInRangeIsNearest(unit: Unit, allUnits: seq<Unit>, norm: Norm)
    ensures NearestInRange(unit, Point(unit.x, unit.y), allUnits, JsCollision.Positions(allUnits), LiveFlags(allUnits),
      NearestInRangeIndex(unit, allUnits, norm), norm)
  {
    NearestIndexIsNearest(unit, allUnits, norm);
    var n := NearestIndex(unit, allUnits, norm);
    var live := LiveFlags(allUnits);
    var spots := JsCollision.Positions(allUnits);
    var at := Point(unit.x, unit.y);
    forall j | 0 <= j < |allUnits|
      ensures Gap(at, spots[j], norm) == Distance(unit, allUnits[j], norm)
      ensures LivingEnemy(unit, allUnits[j], live[j]) <==> IsLiveEnemy(unit, allUnits[j])
    {}
    if n >= 0 && IsInRange(unit, allUnits[n], norm) {
      forall j | 0 <= j < |allUnits| && LivingEnemy(unit, allUnits[j], live[j])
        ensures Distance(unit, allUnits[n], norm) <= Distance(unit, allUnits[j], norm)
        ensures j < n ==> Distance(unit, allUnits[n], norm) < Distance(unit, allUnits[j], norm)
      {
        assert IsLiveEnemy(unit, allUnits[j]);
      }
    } else {
      forall j | 0 <= j < |allUnits| && LivingEnemy(unit, allUnits[j], live[j])
        ensures !IsInRange(unit, allUnits[j], norm)
      {
        assert IsLiveEnemy(unit, allUnits[j]);
      }
    }
  }

  /** Without an ATTACK order, `AutoAttackTarget` is the unit at `NearestInRangeIndex`, if any. */
  lemma AutoAttackNearest(unit: Unit, allUnits: seq<Unit>, norm: Norm)
    requires unit.currentOrder.None? || !unit.currentOrder.value.Attack?
    ensures var i := NearestInRangeIndex(unit, allUnits, norm);
      -1 <= i < |allUnits| && AutoAttackTarget(unit, allUnits, norm) == if i < 0 then None else Some(allUnits[i])
  {}

  /** `AutoAttackTarget` as a set of at most one unit: the only unit `autoAttack` may damage. */
  function AutoAttackVictims(unit: Unit, allUnits: seq<Unit>, norm: Norm): set<Unit>
    reads unit`x, unit`y, unit`currentOrder, allUnits`x, allUnits`y, allUnits`hp, OrderedTarget(unit)`x,
      OrderedTarget(unit)`y, OrderedTarget(unit)`hp
  {
    var v := AutoAttackTarget(unit, allUnits, norm);
    if v.Some? then {v.value} else {}
  }

  /**
   * `autoAttack(unit, allUnits)`: an attack on `AutoAttackTarget`, which
   * lands when the unit's cooldown has run out. Only the unit's cooldown and
   * that one target's shield and hit points may change.
   */
  method AutoAttack(unit: Unit, allUnits: seq<Unit>, norm: Norm) returns (ghost victim: Option<Unit>)
    modifies unit`attackCooldown, AutoAttackVictims(unit, allUnits, norm)`shield,
      AutoAttackVictims(unit, allUnits, norm)`hp
    ensures victim == old(AutoAttackTarget(unit, allUnits, norm))
    ensures victim.Some? && old(unit.attackCooldown) <= 0.0 ==>
      Vitals(victim.value.shield, victim.value.hp) ==
        ApplyDamage(old(Vitals(victim.value.shield, victim.value.hp)), CalculateDamage(unit, victim.value)) &&
      unit.attackCooldown == unit.maxAttackCooldown
    ensures victim.Some? && old(unit.attackCooldown) > 0.0 ==>
      unchanged(unit`attackCooldown, victim.value`shield, victim.value`hp)
    ensures victim.None? ==> unchanged(unit`attackCooldown)
    ensures victim.Some? && old(victim.value.Valid()) && old(unit.Valid()) ==> victim.value.Valid()
    ensures old(unit.Valid()) ==> unit.Valid()
  {
    victim := AutoAttackTarget(unit, allUnits, norm);
    var chosen: Option<Unit> := None;
    if unit.currentOrder.Some? && unit.currentOrder.value.Attack? {
      var t := unit.currentOrder.value.target;
      if t.hp > 0.0 && IsInRange(unit, t, norm) {
        chosen := Some(t);
      }
    } else {
      var enemy := FindNearestEnemy(unit, allUnits, norm);
      if enemy.Some? && IsInRange(unit, enemy.value, norm) {
        chosen := enemy;
      }
    }
    assert chosen == victim;
    if chosen.Some? {
      var _ := Attack(unit, chosen.value, norm);
    }
  }
}
