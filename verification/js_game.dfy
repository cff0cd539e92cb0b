/**
 * `Game` of game_integrated/test/main.js without its canvas, DOM and
 * rendering: the initial placement of the units, the tick pipeline of
 * `update` (unit updates, collisions among the living, removal of the
 * dead) and the frame-time gate of `gameLoop`.
 */
module JsGame {
  import opened Common
  import opened Archetypes
  import opened JsUnits
  import opened JsCombat
  import opened JsUnitTick
  import opened JsCollision

  /** The number of units `init` creates. */
  const RosterSize := 17

  /** What `init` creates as its `i`-th unit: archetype, owner and position. */
  datatype Spawn = Spawn(kind: UnitKind, owner: int, at: Point)

  /**
   * The `i`-th unit of `init`: fifteen marines of player 0 on a 5-by-3
   * grid with 50 between neighbours, then two zealots of player 1.
   */
  function Roster(i: nat): (s: Spawn)
    requires i < RosterSize
    ensures s.owner == 0 <==> s.kind == Marine
    ensures s.owner == 0 || s.owner == 1
  {
    if i < 15 then Spawn(Marine, 0, Point((100 + (i % 5) * 50) as real, (100 + (i / 5) * 50) as real))
    else if i == 15 then Spawn(Zealot, 1, Point(900.0, 300.0))
    else Spawn(Zealot, 1, Point(950.0, 350.0))
  }

  /** How many of the first `n` roster entries belong to `owner`. */
  function RosterCount(n: nat, owner: int): nat
    requires n <= RosterSize
  {
    if n == 0 then 0 else RosterCount(n - 1, owner) + (if Roster(n - 1).owner == owner then 1 else 0)
  }

  /** `init` gives player 0 fifteen units and player 1 two. */
  lemma RosterCounts()
    ensures RosterCount(RosterSize, 0) == 15 && RosterCount(RosterSize, 1) == 2
  {
    var k := 0;
    while k < RosterSize
      invariant k <= RosterSize
      invariant RosterCount(k, 0) == (if k <= 15 then k else 15)
      invariant RosterCount(k, 1) == (if k <= 15 then 0 else k - 15)
    {
      k := k + 1;
    }
  }

  /** Two different marine slots of the 5-by-3 grid are at least 50 apart along one axis. */
  lemma GridApart(i: nat, j: nat)
    requires i < j < 15
    ensures var a, b := Roster(i).at, Roster(j).at;
      (a.x - b.x) * (a.x - b.x) >= 2500.0 || (a.y - b.y) * (a.y - b.y) >= 2500.0
  {
    var col, row := i % 5 - j % 5, i / 5 - j / 5;
    assert col != 0 || row != 0;
    assert Roster(i).at.x - Roster(j).at.x == (col * 50) as real;
    assert Roster(i).at.y - Roster(j).at.y == (row * 50) as real;
    if col != 0 {
      assert col * col >= 1;
      assert (col * 50) * (col * 50) == 2500 * (col * col);
    } else {
      assert row * row >= 1;
      assert (row * 50) * (row * 50) == 2500 * (row * row);
    }
  }

  /**
   * No two units of `init` overlap: the distance between any two spawn
   * points is at least the sum of the two archetypes' sizes, so the first
   * collision pass moves nobody.
   */
  lemma RosterApart(i: nat, j: nat, norm: Norm)
    requires Euclidean(norm) && i < j < RosterSize
    ensures var a, b := Roster(i), Roster(j);
      norm(a.at.x - b.at.x, a.at.y - b.at.y) >= Data(a.kind).size + Data(b.kind).size
  {
    var a, b := Roster(i), Roster(j);
    var dx, dy := a.at.x - b.at.x, a.at.y - b.at.y;
    var r := Data(a.kind).size + Data(b.kind).size;
    NormWithin(norm, dx, dy, r);
    if j < 15 {
      GridApart(i, j);
      assert r == 32.0;
    } else if i < 15 {
      assert dx <= -600.0;
      assert dx * dx >= 360000.0;
    } else {
      assert dx * dx + dy * dy == 5000.0;
    }
  }

  /** The units of `s` with hit points left, in their order: the array filter of `update`. */
  function Alive(s: seq<Unit>): seq<Unit>
    reads s`hp
    decreases |s|
  {
    if |s| == 0 then []
    else
      var rest := Alive(s[..|s| - 1]);
      if s[|s| - 1].hp > 0.0 then rest + [s[|s| - 1]] else rest
  }

  /**
   * The filter keeps exactly the listed units with hit points left, and
   * a list without repeats stays without repeats.
   */
  lemma {:induction false} AliveFacts(s: seq<Unit>)
    ensures forall k :: 0 <= k < |Alive(s)| ==> Alive(s)[k] in s && Alive(s)[k].hp > 0.0
    ensures forall k :: 0 <= k < |s| && s[k].hp > 0.0 ==> s[k] in Alive(s)
    ensures Distinct(s) ==> Distinct(Alive(s))
    decreases |s|
  {
    if |s| > 0 {
      var n := |s| - 1;
      var front := s[..n];
      AliveFacts(front);
      assert forall k :: 0 <= k < n ==> front[k] == s[k];
      if Distinct(s) {
        assert Distinct(front);
        assert s[n] !in front;
      }
    }
  }

  /** Filtering a concatenation filters the parts: the survivors keep their relative order. */
  lemma {:induction false} AliveAppend(s: seq<Unit>, t: seq<Unit>)
    ensures Alive(s + t) == Alive(s) + Alive(t)
    decreases |t|
  {
    if |t| == 0 {
      assert s + t == s;
    } else {
      var n := |t| - 1;
      assert (s + t)[..|s + t| - 1] == s + t[..n];
      AliveAppend(s, t[..n]);
    }
  }

  /** The targets of all ATTACK orders among `units`. */
  function OrderTargets(units: seq<Unit>): set<Unit>
    reads units`currentOrder
  {
    set k | 0 <= k < |units| && units[k].currentOrder.Some? && units[k].currentOrder.value.Attack? ::
      units[k].currentOrder.value.target
  }

  /**
   * One pass of the unit loop of `update`: a unit with no hit points left
   * at its turn, including one killed earlier in the same tick, is skipped
   * and nothing changes; any other unit runs its `update`.
   */
  method Turn(u: Unit, deltaTime: real, allUnits: seq<Unit>, norm: Norm) returns (ghost victim: Option<Unit>)
    modifies u`attackCooldown, u`x, u`y, u`path, u`pathIndex, u`currentOrder,
      allUnits`shield, allUnits`hp, OrderedTarget(u)`shield, OrderedTarget(u)`hp
    ensures old(u.hp) <= 0.0 ==>
      victim.None? &&
      unchanged(u`attackCooldown, u`x, u`y, u`path, u`pathIndex, u`currentOrder) &&
      unchanged(allUnits`shield, allUnits`hp)
    ensures victim.Some? ==> victim.value in allUnits || victim.value in old(OrderedTarget(u))
  {
    if u.hp > 0.0 {
      ghost var mid;
      ghost var pick, spots;
      victim, mid, pick, spots := JsUnitTick.Update(u, deltaTime, allUnits, norm);
    } else {
      victim := None;
    }
  }

  class Game {
    var units: seq<Unit>
    var lastTime: real
    /** The counter that hands out unit ids in place of random strings. */
    var nextId: nat

    /** The invariant: no unit is listed twice. */
    ghost predicate Valid()
      reads this
    {
      Distinct(units)
    }

    /** `new Game()` without the canvas: no units, `lastTime` 0, then `init`. */
    constructor()
      ensures |units| == RosterSize && Valid() && lastTime == 0.0
      ensures forall k :: 0 <= k < RosterSize ==>
        var s := Roster(k);
        units[k].kind == s.kind && units[k].owner == s.owner && units[k].x == s.at.x && units[k].y == s.at.y
    {
      units := [];
      lastTime := 0.0;
      nextId := 0;
      new;
      Init();
    }

    /** `init()`: the seventeen units of `Roster`, appended in order, each fresh with the next id. */
    method Init()
      requires Valid()
      modifies this`units, this`nextId
      ensures |units| == |old(units)| + RosterSize && units[..|old(units)|] == old(units)
      ensures var made := units[|old(units)|..];
        forall k :: 0 <= k < RosterSize ==>
          fresh(made[k]) && made[k].id == old(nextId) + k && made[k].kind == Roster(k).kind &&
          made[k].owner == Roster(k).owner && made[k].x == Roster(k).at.x && made[k].y == Roster(k).at.y
      ensures nextId == old(nextId) + RosterSize
      ensures Valid()
    {
      ghost var start := units;
      ghost var made: seq<Unit> := [];
      for i := 0 to RosterSize
        invariant units == start + made && |made| == i
        invariant nextId == old(nextId) + i
        invariant forall k :: 0 <= k < i ==>
          fresh(made[k]) && made[k].id == old(nextId) + k && made[k].kind == Roster(k).kind &&
          made[k].owner == Roster(k).owner && made[k].x == Roster(k).at.x && made[k].y == Roster(k).at.y
        invariant Distinct(units)
      {
        var s := Roster(i);
        var u := new Unit(nextId, s.kind, s.owner, s.at.x, s.at.y);
        nextId := nextId + 1;
        units := units + [u];
        made := made + [u];
      }
      assert units[|start|..] == made;
    }

    /**
     * The unit loop of `update(deltaTime)`: every listed unit takes its
     * `Turn` in list order, seeing the whole list. The list itself is
     * left alone.
     */
    method UpdateUnits(deltaTime: real, norm: Norm)
      requires Valid()
      modifies units`attackCooldown, units`x, units`y, units`path, units`pathIndex, units`currentOrder,
        units`shield, units`hp, OrderTargets(units)`shield, OrderTargets(units)`hp
      ensures Valid()
    {
      for i := 0 to |units|
        invariant forall k :: i <= k < |units| ==> units[k].currentOrder == old(units[k].currentOrder)
      {
        var u := units[i];
        assert OrderedTarget(u) <= old(OrderTargets(units));
        var _ := Turn(u, deltaTime, units, norm);
      }
    }

    /**
     * The collision step of `update`: one `checkAllCollisions` pass over
     * the units with hit points left, from the positions `before` they had.
     */
    method CollideLiving(norm: Norm) returns (ghost before: seq<Point>)
      requires Valid()
      modifies units`x, units`y
      ensures |before| == |Alive(units)|
      ensures Positions(Alive(units)) == Sweep(before, Sizes(Alive(units)), Pairs(|Alive(units)|), norm)
    {
      var aliveUnits := Alive(units);
      AliveFacts(units);
      before := Positions(aliveUnits);
      CheckAllCollisions(aliveUnits, norm);
      assert Alive(units) == aliveUnits;
    }

    /** The last step of `update`: the list keeps only the units with hit points left. */
    method RemoveDead()
      requires Valid()
      modifies this`units
      ensures units == Alive(old(units))
      ensures forall k :: 0 <= k < |units| ==> units[k].hp > 0.0
      ensures Valid()
    {
      AliveFacts(units);
      units := Alive(units);
    }

    /**
     * `update(deltaTime)`: the unit loop, then one collision pass over the
     * units still alive after it, from the positions `afterUpdates` they
     * had then; finally the dead leave the list, the survivors keeping
     * their order.
     */
    method Update(deltaTime: real, norm: Norm) returns (ghost afterUpdates: seq<Point>)
      requires Valid()
      modifies this`units, units`attackCooldown, units`x, units`y, units`path, units`pathIndex,
        units`currentOrder, units`shield, units`hp, OrderTargets(units)`shield, OrderTargets(units)`hp
      ensures units == Alive(old(units))
      ensures forall k :: 0 <= k < |units| ==> units[k].hp > 0.0
      ensures |afterUpdates| == |units|
      ensures Positions(units) == Sweep(afterUpdates, Sizes(units), Pairs(|units|), norm)
      ensures Valid()
    {
      UpdateUnits(deltaTime, norm);
      afterUpdates := CollideLiving(norm);
      ghost var survivors := Alive(units);
      ghost var moved := Positions(survivors);
      RemoveDead();
      assert units == survivors;
      assert Positions(units) == moved;
    }

    /**
     * One call of `gameLoop(currentTime)`: the frame time is measured in
     * seconds from `lastTime`, which moves to `currentTime`; the game
     * advances only for a frame shorter than one second.
     */
    method GameLoop(currentTime: real, norm: Norm) returns (advanced: bool)
      requires Valid()
      modifies this`units, this`lastTime, units`attackCooldown, units`x, units`y, units`path, units`pathIndex,
        units`currentOrder, units`shield, units`hp, OrderTargets(units)`shield, OrderTargets(units)`hp
      ensures lastTime == currentTime
      ensures advanced <==> (currentTime - old(lastTime)) / 1000.0 < 1.0
      ensures advanced ==> units == Alive(old(units))
      ensures !advanced ==> units == old(units) && unchanged(units`x, units`y, units`hp, units`currentOrder)
      ensures Valid()
    {
      var deltaTime := (currentTime - lastTime) / 1000.0;
      lastTime := currentTime;
      if deltaTime < 1.0 {
        var _ := Update(deltaTime, norm);
        advanced := true;
      } else {
        advanced := false;
      }
    }
  }
}
