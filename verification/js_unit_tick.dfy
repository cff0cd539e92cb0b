/**
 * `update` and `executeOrder` of the unit in game_integrated/simple_rts/unit.js:
 * one tick of a unit's life, which decays the cooldown, carries out the
 * current order, moves, and attacks unless the unit holds position.
 */
module JsUnitTick {
  import opened Common
  import opened Damage
  import opened JsUnits
  import opened JsCombat
  import GridPath
  import JsCollision

  /**
   * The cooldown after the first step of `update`: a positive cooldown drops
   * by `deltaTime * 60` and stops at zero; any other cooldown is left alone.
   */
  function DecayedCooldown(cooldown: real, deltaTime: real): real
  {
    if cooldown > 0.0 then
      var c := cooldown - deltaTime * 60.0;
      if c < 0.0 then 0.0 else c
    else cooldown
  }

  /**
   * Decay never raises the cooldown and never takes a non-negative one below
   * zero; a frame at least `cooldown / 60` long finishes it.
   */
  lemma DecayBounds(cooldown: real, deltaTime: real)
    requires 0.0 <= cooldown && 0.0 <= deltaTime
    ensures 0.0 <= DecayedCooldown(cooldown, deltaTime) <= cooldown
    ensures deltaTime * 60.0 >= cooldown ==> DecayedCooldown(cooldown, deltaTime) == 0.0
  {}

  /** Two frames decay the cooldown as much as one frame of their total length. */
  lemma DecayAdditive(cooldown: real, dt1: real, dt2: real)
    requires 0.0 <= cooldown && 0.0 <= dt1 && 0.0 <= dt2
    ensures DecayedCooldown(DecayedCooldown(cooldown, dt1), dt2) == DecayedCooldown(cooldown, dt1 + dt2)
  {
    assert (dt1 + dt2) * 60.0 == dt1 * 60.0 + dt2 * 60.0;
  }

  /** The target of the plan's ATTACK order, as a set of at most one unit. */
  function PlanTargets(p: Plan): set<Unit>
  {
    if p.order.Some? && p.order.value.Attack? then {p.order.value.target} else {}
  }

  /** What a unit sees of a unit at one moment: its hit points and position. */
  datatype Sighting = Sighting(hp: real, x: real, y: real)

  /** The hit points and position of the target of the plan's ATTACK order. */
  function TargetSeen(p: Plan): (s: Option<Sighting>)
    reads PlanTargets(p)`x, PlanTargets(p)`y, PlanTargets(p)`hp
    ensures s.Some? <==> p.order.Some? && p.order.value.Attack?
  {
    if p.order.Some? && p.order.value.Attack? then
      var t := p.order.value.target;
      Some(Sighting(t.hp, t.x, t.y))
    else None
  }

  /**
   * `executeOrder()` turns the plan `p` of a unit standing at `(x, y)` with
   * attack range `range` into the plan `q`, where `seen` is what the unit
   * sees of the target of an ATTACK order. MOVE leaves everything to the
   * movement step. ATTACK chases a live target that is out of range with a
   * fresh path, does nothing while it is in range, and is dropped once the
   * target has no hit points. STOP empties the path and drops the order;
   * HOLD empties the path and keeps the order.
   */
  predicate Executed(p: Plan, q: Plan, x: real, y: real, range: real, seen: Option<Sighting>, norm: Norm)
    requires p.order.Some? && (seen.Some? <==> p.order.value.Attack?)
  {
    match p.order.value
    case Move => q == p
    case Attack(_) =>
      var t := seen.value;
      if t.hp > 0.0 then
        if norm(x - t.x, y - t.y) <= range then q == p
        else
          q.order == p.order && q.pathIndex == 0 &&
          (q.path == [] <==> GridPath.CellOf(Point(x, y)) == GridPath.CellOf(Point(t.x, t.y))) &&
          (q.path != [] ==> q.path[|q.path| - 1] == GridPath.Centre(GridPath.CellOf(Point(t.x, t.y))))
      else q == Plan(p.path, p.pathIndex, None)
    case Stop => q == Plan([], p.pathIndex, None)
    case Hold => q == Plan([], p.pathIndex, p.order)
  }

  /** `executeOrder()`: the unit's plan becomes what `Executed` describes. */
  method ExecuteOrder(u: Unit, norm: Norm)
    requires u.currentOrder.Some?
    modifies u`path, u`pathIndex, u`currentOrder
    ensures Executed(old(u.CurrentPlan()), u.CurrentPlan(), u.x, u.y, u.attackRange, old(TargetSeen(u.CurrentPlan())), norm)
    ensures u.currentOrder == old(u.currentOrder) || u.currentOrder.None?
    ensures old(u.Valid()) ==> u.Valid()
  {
    match u.currentOrder.value
    case Move =>
    case Attack(target) =>
      if target.hp > 0.0 {
        if !IsInRange(u, target, norm) {
          u.MoveTo(target.x, target.y);
        }
      } else {
        u.currentOrder := None;
      }
    case Stop =>
      u.path := [];
      u.currentOrder := None;
    case Hold =>
      u.path := [];
  }

  /**
   * The first three steps of `update(deltaTime, allUnits)`: the cooldown
   * decays, the order (if any) is carried out, which turns the plan into
   * `mid`, and the unit moves from where it stood along `mid`. Only the unit
   * itself changes.
   */
  method Advance(u: Unit, deltaTime: real, norm: Norm) returns (ghost mid: Plan)
    modifies u`attackCooldown, u`x, u`y, u`path, u`pathIndex, u`currentOrder
    ensures u.attackCooldown == DecayedCooldown(old(u.attackCooldown), deltaTime)
    ensures old(u.currentOrder).None? ==> mid == old(u.CurrentPlan())
    ensures old(u.currentOrder).Some? ==>
      Executed(old(u.CurrentPlan()), mid, old(u.x), old(u.y), u.attackRange, old(TargetSeen(u.CurrentPlan())), norm)
    ensures Moved(old(u.x), old(u.y), mid, u.x, u.y, u.CurrentPlan(), u.speed, deltaTime, norm)
    ensures u.currentOrder == old(u.currentOrder) || u.currentOrder.None?
    ensures 0.0 <= deltaTime && old(u.Valid()) ==> u.Valid()
  {
    if u.attackCooldown > 0.0 {
      u.attackCooldown := u.attackCooldown - deltaTime * 60.0;
      if u.attackCooldown < 0.0 {
        u.attackCooldown := 0.0;
      }
    }
    if u.currentOrder.Some? {
      ExecuteOrder(u, norm);
    }
    mid := u.CurrentPlan();
    u.UpdateMovement(deltaTime, norm);
  }

  /**
   * The last step of `update`: a unit that does not hold position makes its
   * automatic attack. `victim` is the unit that attack goes for: under an
   * ATTACK order the target when it is alive and in range; otherwise the
   * unit at the position `pick` that `NearestInRange` describes. The attack lands when the cooldown has
   * run out, and no other unit's shield or hit points change.
   */
  method Fight(u: Unit, allUnits: seq<Unit>, norm: Norm, ghost bystanders: set<Unit>)
    returns (ghost victim: Option<Unit>, ghost pick: int)
    requires OrderedTarget(u) <= bystanders
    modifies u`attackCooldown, allUnits`shield, allUnits`hp, bystanders`shield, bystanders`hp
    ensures u.currentOrder == Some(Order.Hold) ==> victim.None?
    ensures u.currentOrder.Some? && u.currentOrder.value.Attack? ==>
      var t := u.currentOrder.value.target;
      victim == if old(t.hp) > 0.0 && IsInRange(u, t, norm) then Some(t) else None
    ensures u.currentOrder.None? || u.currentOrder.value == Move || u.currentOrder.value == Order.Stop ==>
      NearestInRange(u, old(Point(u.x, u.y)), allUnits, old(JsCollision.Positions(allUnits)), old(LiveFlags(allUnits)), pick, norm) &&
      victim == if pick < 0 then None else Some(allUnits[pick])
    ensures victim.Some? ==> victim.value in allUnits || victim.value in OrderedTarget(u)
    ensures victim.Some? && old(u.attackCooldown) <= 0.0 ==>
      Vitals(victim.value.shield, victim.value.hp) ==
        ApplyDamage(old(Vitals(victim.value.shield, victim.value.hp)), CalculateDamage(u, victim.value)) &&
      u.attackCooldown == u.maxAttackCooldown
    ensures victim.None? || old(u.attackCooldown) > 0.0 ==> u.attackCooldown == old(u.attackCooldown)
    ensures forall w :: (w in allUnits || w in bystanders) && Some(w) != victim ==>
      w.shield == old(w.shield) && w.hp == old(w.hp)
    ensures victim.Some? && old(victim.value.Valid()) && old(u.Valid()) ==> victim.value.Valid()
    ensures old(u.Valid()) ==> u.Valid()
  {
    pick := -1;
    if u.currentOrder.None? || u.currentOrder.value != Order.Hold {
      if u.currentOrder.None? || !u.currentOrder.value.Attack? {
        AutoAttackNearest(u, allUnits, norm);
        NearestInRangeIsNearest(u, allUnits, norm);
        pick := NearestInRangeIndex(u, allUnits, norm);
      }
      victim := AutoAttack(u, allUnits, norm);
    } else {
      victim := None;
    }
  }

  /**
   * `update(deltaTime, allUnits)`: `Advance`, then `Fight` at the unit's new
   * position. The order is carried out, which turns the plan into `mid`; the
   * unit moves along `mid`; then, unless it holds position, it attacks the
   * unit `victim`: under an ATTACK order the target when it is alive and in
   * range, otherwise the unit at the position `pick` that `NearestInRange`
   * describes. The attack lands
   * when the decayed cooldown has run out, and no other unit's shield or
   * hit points change.
   */
  method Update(u: Unit, deltaTime: real, allUnits: seq<Unit>, norm: Norm)
    returns (ghost victim: Option<Unit>, ghost mid: Plan, ghost pick: int, ghost spots: seq<Point>)
    modifies u`attackCooldown, u`x, u`y, u`path, u`pathIndex, u`currentOrder,
      allUnits`shield, allUnits`hp, OrderedTarget(u)`shield, OrderedTarget(u)`hp
    ensures old(u.currentOrder).None? ==> mid == old(u.CurrentPlan())
    ensures old(u.currentOrder).Some? ==>
      Executed(old(u.CurrentPlan()), mid, old(u.x), old(u.y), u.attackRange, old(TargetSeen(u.CurrentPlan())), norm)
    ensures Moved(old(u.x), old(u.y), mid, u.x, u.y, u.CurrentPlan(), u.speed, deltaTime, norm)
    ensures |spots| == |allUnits|
    ensures forall k :: 0 <= k < |allUnits| ==>
      spots[k] == if allUnits[k] == u then Point(u.x, u.y) else old(Point(allUnits[k].x, allUnits[k].y))
    ensures u.currentOrder == Some(Order.Hold) ==> victim.None?
    ensures u.currentOrder.Some? && u.currentOrder.value.Attack? ==>
      var t := u.currentOrder.value.target;
      victim == if old(t.hp) > 0.0 && IsInRange(u, t, norm) then Some(t) else None
    ensures u.currentOrder.None? || u.currentOrder.value == Move || u.currentOrder.value == Order.Stop ==>
      NearestInRange(u, Point(u.x, u.y), allUnits, spots, old(LiveFlags(allUnits)), pick, norm) &&
      victim == if pick < 0 then None else Some(allUnits[pick])
    ensures victim.Some? ==> victim.value in allUnits || victim.value in old(OrderedTarget(u))
    ensures victim.Some? && DecayedCooldown(old(u.attackCooldown), deltaTime) <= 0.0 ==>
      Vitals(victim.value.shield, victim.value.hp) ==
        ApplyDamage(old(Vitals(victim.value.shield, victim.value.hp)), CalculateDamage(u, victim.value)) &&
      u.attackCooldown == u.maxAttackCooldown
    ensures victim.None? || DecayedCooldown(old(u.attackCooldown), deltaTime) > 0.0 ==>
      u.attackCooldown == DecayedCooldown(old(u.attackCooldown), deltaTime)
    ensures forall w :: (w in allUnits || w in old(OrderedTarget(u))) && Some(w) != victim ==>
      w.shield == old(w.shield) && w.hp == old(w.hp)
    ensures 0.0 <= deltaTime && old(u.Valid()) ==> u.Valid()
  {
    ghost var targets0 := OrderedTarget(u);
    ghost var live := LiveFlags(allUnits);
    mid := Advance(u, deltaTime, norm);
    assert OrderedTarget(u) <= targets0;
    assert LiveFlags(allUnits) == live;
    spots := JsCollision.Positions(allUnits);
    ghost var x1, y1, plan1 := u.x, u.y, u.CurrentPlan();
    victim, pick := Fight(u, allUnits, norm, targets0);
    assert u.x == x1 && u.y == y1 && u.CurrentPlan() == plan1;
  }
}
