/**
 * `CollisionSystem` and `Game::update` of
 * game_integrated/simple_rts/simple_game_advanced.cpp, on fixed-point
 * positions: one pass over all unordered pairs of living units that pushes
 * overlapping circles apart, and the frame that updates every living unit,
 * resolves collisions and drops the dead.
 *
 * As for the other ports, the push is defined on values first (`Push`,
 * `PairStep`, `Sweep`), and the methods that move the units are proved to
 * compute exactly those values.
 */
module AdvancedGame {
  import opened Common
  import opened FixedPoint
  import opened AdvancedUnits
  import JsCollision

  /** No unit is listed twice, as in the game's vector of unit pointers. */
  predicate Distinct(s: seq<Unit>)
  {
    forall a, b :: 0 <= a < b < |s| ==> s[a] != s[b]
  }

  /**
   * The push of `resolveCollisions` on two centres: circles closer than the
   * sum of their sizes, but more than 0.1 apart, are each pushed half the
   * overlap along the normalized difference, in opposite directions. The
   * pushes cancel exactly in fixed point, so the sum of the two centres is
   * unchanged, and a pair that is apart or too close to tell a direction
   * does not move.
   */
  function Push(p1: Vec, p2: Vec, s1: Fp8, s2: Fp8): (r: (Vec, Vec))
    ensures VAdd(r.0, r.1) == VAdd(p1, p2)
    ensures Length(VSub(p1, p2)).raw >= Add(s1, s2).raw || Length(VSub(p1, p2)).raw <= Tenth.raw ==> r == (p1, p2)
  {
    var diff := VSub(p1, p2);
    var distance := Length(diff);
    var minDist := Add(s1, s2);
    if distance.raw < minDist.raw && distance.raw > Tenth.raw then
      var overlap := Sub(minDist, distance);
      var push := VScale(VScale(Normalize(diff), overlap), Half);
      (VAdd(p1, push), VSub(p2, push))
    else (p1, p2)
  }

  /** A product with a non-negative factor keeps the sign of the other factor. */
  lemma MulSign(a: Fp8, b: Fp8)
    requires b.raw >= 0
    ensures a.raw >= 0 ==> Mul(a, b).raw >= 0
    ensures a.raw <= 0 ==> Mul(a, b).raw <= 0
  {
    if a.raw >= 0 {
      MulNonneg(a.raw, b.raw);
    } else {
      MulNonneg(-a.raw, b.raw);
    }
  }

  /** The push along one axis: it points the way the difference does. */
  lemma PushAxis(d: Fp8, n: Fp8, overlap: Fp8)
    requires overlap.raw >= 0
    requires n.raw != 0 ==> ((n.raw > 0) <==> (d.raw > 0))
    ensures var p := Mul(Mul(n, overlap), Half);
      Abs(d.raw + p.raw + p.raw) >= Abs(d.raw)
  {
    ConstantRaws();
    MulSign(n, overlap);
    MulSign(Mul(n, overlap), Half);
  }

  /**
   * A push never brings the two centres closer along either axis: the
   * difference of the centres keeps or grows its size in x and in y.
   */
  lemma PushSpreads(p1: Vec, p2: Vec, s1: Fp8, s2: Fp8)
    ensures var r := Push(p1, p2, s1, s2);
      Abs(r.0.x.raw - r.1.x.raw) >= Abs(p1.x.raw - p2.x.raw) &&
      Abs(r.0.y.raw - r.1.y.raw) >= Abs(p1.y.raw - p2.y.raw)
  {
    var diff := VSub(p1, p2);
    var distance := Length(diff);
    var minDist := Add(s1, s2);
    if distance.raw < minDist.raw && distance.raw > Tenth.raw {
      var overlap := Sub(minDist, distance);
      var n := Normalize(diff);
      PushAxis(diff.x, n.x, overlap);
      PushAxis(diff.y, n.y, overlap);
    }
  }

  /**
   * The body of the inner loop on values: pair `(i, j)` is pushed apart
   * when both units are alive. A pair that names no two units changes
   * nothing.
   */
  function PairStep(ps: seq<Vec>, live: seq<bool>, sizes: seq<Fp8>, i: nat, j: nat): (qs: seq<Vec>)
    requires |ps| == |live| == |sizes|
    ensures |qs| == |ps|
    ensures forall k {:trigger qs[k]} :: 0 <= k < |ps| && k != i && k != j ==> qs[k] == ps[k]
  {
    if !(i < j < |ps|) || !live[i] || !live[j] then ps
    else
      var r := Push(ps[i], ps[j], sizes[i], sizes[j]);
      ps[i := r.0][j := r.1]
  }

  /** The centres after the pairs of `pairs` are processed in order. */
  function Sweep(ps: seq<Vec>, live: seq<bool>, sizes: seq<Fp8>, pairs: seq<(nat, nat)>): (qs: seq<Vec>)
    requires |ps| == |live| == |sizes|
    ensures |qs| == |ps|
    decreases |pairs|
  {
    if |pairs| == 0 then ps
    else Sweep(PairStep(ps, live, sizes, pairs[0].0, pairs[0].1), live, sizes, pairs[1..])
  }

  /** `PairStep` as a step over centres of any length: a sequence that does not fit is left alone. */
  function Step(live: seq<bool>, sizes: seq<Fp8>): (seq<Vec>, nat, nat) -> seq<Vec>
  {
    (qs: seq<Vec>, a: nat, b: nat) => if |qs| == |live| == |sizes| then PairStep(qs, live, sizes, a, b) else qs
  }

  /** `Sweep` is the fold of `Step` over the pairs. */
  lemma {:induction false} SweepFold(ps: seq<Vec>, live: seq<bool>, sizes: seq<Fp8>, pairs: seq<(nat, nat)>)
    requires |ps| == |live| == |sizes|
    ensures Sweep(ps, live, sizes, pairs) == JsCollision.FoldPairs(Step(live, sizes), ps, pairs)
    decreases |pairs|
  {
    if |pairs| > 0 {
      SweepFold(PairStep(ps, live, sizes, pairs[0].0, pairs[0].1), live, sizes, pairs[1..]);
    }
  }

  /**
   * After row `i` of the pass has run over all its columns, what is left
   * of the pass ends where the pass from the row's start ends.
   */
  lemma RowDone(ps: seq<Vec>, qs: seq<Vec>, live: seq<bool>, sizes: seq<Fp8>, n: nat, i: nat)
    requires |ps| == |live| == |sizes| == |qs| && i < n
    requires qs == JsCollision.FoldRow(Step(live, sizes), ps, i, n)
    ensures Sweep(qs, live, sizes, JsCollision.PairsFrom(n, i + 1, i + 2)) ==
      Sweep(ps, live, sizes, JsCollision.PairsFrom(n, i, i + 1))
  {
    JsCollision.FoldRowPairs(Step(live, sizes), ps, n, i, n);
    JsCollision.PairsFromRowEnd(n, i);
    SweepFold(qs, live, sizes, JsCollision.PairsFrom(n, i, n));
    SweepFold(ps, live, sizes, JsCollision.PairsFrom(n, i, i + 1));
  }

  /** The raw sum of all centres, `n` times the centroid. */
  function Total(ps: seq<Vec>): Vec
  {
    if |ps| == 0 then ZeroVec
    else VAdd(Total(ps[..|ps| - 1]), ps[|ps| - 1])
  }

  /** Replacing one centre changes the sum by the difference. */
  lemma {:induction false} TotalUpdate(ps: seq<Vec>, i: nat, p: Vec)
    requires i < |ps|
    ensures Total(ps[i := p]) == VAdd(VSub(Total(ps), ps[i]), p)
    decreases |ps|
  {
    var n := |ps| - 1;
    if i == n {
      assert ps[i := p][..n] == ps[..n];
    } else {
      assert ps[i := p][..n] == ps[..n][i := p];
      TotalUpdate(ps[..n], i, p);
    }
  }

  /** The whole pass keeps the sum of the centres exactly: collisions never move the centroid. */
  lemma {:induction false} SweepKeepsTotal(ps: seq<Vec>, live: seq<bool>, sizes: seq<Fp8>, pairs: seq<(nat, nat)>)
    requires |ps| == |live| == |sizes|
    ensures Total(Sweep(ps, live, sizes, pairs)) == Total(ps)
    decreases |pairs|
  {
    if |pairs| > 0 {
      var i, j := pairs[0].0, pairs[0].1;
      var qs := PairStep(ps, live, sizes, i, j);
      if i < j < |ps| && live[i] && live[j] {
        var r := Push(ps[i], ps[j], sizes[i], sizes[j]);
        TotalUpdate(ps, i, r.0);
        TotalUpdate(ps[i := r.0], j, r.1);
      }
      assert Total(qs) == Total(ps);
      SweepKeepsTotal(qs, live, sizes, pairs[1..]);
    }
  }

  /** The pass never moves a dead unit: pairs with a dead unit are skipped. */
  lemma {:induction false} SweepKeepsDead(ps: seq<Vec>, live: seq<bool>, sizes: seq<Fp8>, pairs: seq<(nat, nat)>)
    requires |ps| == |live| == |sizes|
    ensures forall k :: 0 <= k < |ps| && !live[k] ==> Sweep(ps, live, sizes, pairs)[k] == ps[k]
    decreases |pairs|
  {
    if |pairs| > 0 {
      SweepKeepsDead(PairStep(ps, live, sizes, pairs[0].0, pairs[0].1), live, sizes, pairs[1..]);
    }
  }

  /** The centres of the units, in order. */
  function Positions(units: seq<Unit>): (ps: seq<Vec>)
    reads units`position
    ensures |ps| == |units| && forall k :: 0 <= k < |units| ==> ps[k] == units[k].position
  {
    if |units| == 0 then []
    else Positions(units[..|units| - 1]) + [units[|units| - 1].position]
  }

  /** The sizes of the units, in order. */
  function Sizes(units: seq<Unit>): (ss: seq<Fp8>)
    ensures |ss| == |units| && forall k :: 0 <= k < |units| ==> ss[k] == Stats(units[k].kind).size
  {
    seq(|units|, k requires 0 <= k < |units| => Stats(units[k].kind).size)
  }

  /**
   * The body of the inner loop of `resolveCollisions`: units `i` and `j`,
   * when both are alive and overlap, are pushed apart. Their new centres
   * are those `PairStep` gives; every other unit stays where it was.
   */
  method CheckPair(units: seq<Unit>, i: nat, j: nat, ghost ps: seq<Vec>, ghost live: seq<bool>)
    returns (ghost qs: seq<Vec>)
    requires Distinct(units)
    requires i < j < |units| && |ps| == |units| == |live|
    requires forall k :: 0 <= k < |units| ==> ps[k] == units[k].position && live[k] == !Dead(units[k])
    modifies {units[i], units[j]}`position
    ensures qs == PairStep(ps, live, Sizes(units), i, j)
    ensures forall k :: 0 <= k < |units| ==> qs[k] == units[k].position && live[k] == !Dead(units[k])
  {
    var u1, u2 := units[i], units[j];
    qs := PairStep(ps, live, Sizes(units), i, j);
    if Dead(u1) || Dead(u2) {
      return;
    }
    var diff := VSub(u1.position, u2.position);
    var distance := Length(diff);
    var minDist := Add(u1.Data().size, u2.Data().size);
    ghost var r := Push(u1.position, u2.position, u1.Data().size, u2.Data().size);
    if distance.raw < minDist.raw && distance.raw > Tenth.raw {
      var overlap := Sub(minDist, distance);
      var push := VScale(VScale(Normalize(diff), overlap), Half);
      u1.position := VAdd(u1.position, push);
      u2.position := VSub(u2.position, push);
    }
    assert u1.position == r.0 && u2.position == r.1;
    assert forall k :: 0 <= k < |units| && k != i && k != j ==> units[k] != u1 && units[k] != u2;
  }

  /**
   * One pass of the outer loop of `resolveCollisions`: unit `i` against
   * every later unit, in order. What is left of the pass afterwards ends
   * where it would have before.
   */
  method CheckRow(units: seq<Unit>, i: nat, ghost ps: seq<Vec>, ghost live: seq<bool>) returns (ghost qs: seq<Vec>)
    requires Distinct(units)
    requires i < |units| && |ps| == |units| == |live|
    requires forall k :: 0 <= k < |units| ==> ps[k] == units[k].position && live[k] == !Dead(units[k])
    modifies units`position
    ensures |qs| == |units|
    ensures forall k :: 0 <= k < |units| ==> qs[k] == units[k].position && live[k] == !Dead(units[k])
    ensures Sweep(qs, live, Sizes(units), JsCollision.PairsFrom(|units|, i + 1, i + 2)) ==
      Sweep(ps, live, Sizes(units), JsCollision.PairsFrom(|units|, i, i + 1))
  {
    var n := |units|;
    ghost var sizes := Sizes(units);
    qs := ps;
    for j := i + 1 to n
      invariant |qs| == n
      invariant forall k :: 0 <= k < n ==> qs[k] == units[k].position && live[k] == !Dead(units[k])
      invariant qs == JsCollision.FoldRow(Step(live, sizes), ps, i, j)
    {
      qs := CheckPair(units, i, j, qs, live);
    }
    RowDone(ps, qs, live, sizes, n, i);
  }

  /**
   * `CollisionSystem::resolveCollisions(units)`: every unordered pair
   * `i < j`, in index order, is tested and, when both units are alive and
   * overlap, pushed apart; each push sees the centres the earlier pushes
   * left.
   */
  method ResolveCollisions(units: seq<Unit>)
    requires Distinct(units)
    modifies units`position
    ensures Positions(units) == Sweep(old(Positions(units)), Lives(units), Sizes(units), JsCollision.Pairs(|units|))
  {
    var n := |units|;
    ghost var live, sizes := Lives(units), Sizes(units);
    ghost var ps := Positions(units);
    ghost var goal := JsCollision.FoldPairs(Step(live, sizes), ps, JsCollision.Pairs(n));
    SweepFold(ps, live, sizes, JsCollision.Pairs(n));
    for i := 0 to n
      invariant |ps| == n
      invariant forall k :: 0 <= k < n ==> ps[k] == units[k].position && live[k] == !Dead(units[k])
      invariant JsCollision.FoldPairs(Step(live, sizes), ps, JsCollision.PairsFrom(n, i, i + 1)) == goal
    {
      ghost var prev := ps;
      ps := CheckRow(units, i, ps, live);
      SweepFold(prev, live, sizes, JsCollision.PairsFrom(n, i, i + 1));
      SweepFold(ps, live, sizes, JsCollision.PairsFrom(n, i + 1, i + 2));
    }
    StateIs(units, ps, live);
  }

  /** Centres and liveness that agree with every unit are `Positions` and `Lives`. */
  lemma StateIs(units: seq<Unit>, ps: seq<Vec>, live: seq<bool>)
    requires |ps| == |live| == |units|
    requires forall k :: 0 <= k < |units| ==> ps[k] == units[k].position && live[k] == !Dead(units[k])
    ensures Positions(units) == ps && Lives(units) == live
  {
    assert Positions(units) == ps;
    assert Lives(units) == live;
  }

  /** The units of `s` that are alive, in their order: the `remove_if` of `update`. */
  function Living(s: seq<Unit>): seq<Unit>
    reads s`hp
  {
    if |s| == 0 then []
    else
      var rest := Living(s[..|s| - 1]);
      if !Dead(s[|s| - 1]) then rest + [s[|s| - 1]] else rest
  }

  /**
   * The filter keeps exactly the listed units that are alive, and a list
   * without repeats stays without repeats.
   */
  lemma {:induction false} LivingFacts(s: seq<Unit>)
    ensures forall k :: 0 <= k < |Living(s)| ==> Living(s)[k] in s && !Dead(Living(s)[k])
    ensures forall k :: 0 <= k < |s| && !Dead(s[k]) ==> s[k] in Living(s)
    ensures Distinct(s) ==> Distinct(Living(s))
  {
    if |s| > 0 {
      var n := |s| - 1;
      var front := s[..n];
      LivingFacts(front);
      assert forall k :: 0 <= k < n ==> front[k] == s[k];
      if Distinct(s) {
        assert Distinct(front);
        assert s[n] !in front;
      }
    }
  }

  class Game {
    var units: seq<Unit>

    /** The invariant: no unit is listed twice. */
    ghost predicate Valid()
      reads this
    {
      Distinct(units)
    }

    /** A game with no units; `init` and its roster are not part of this model. */
    constructor()
      ensures units == [] && Valid()
    {
      units := [];
    }

    /**
     * The unit loop of `update`: each unit alive when its turn comes runs
     * `Unit::update` with the whole list; dead units are skipped. The list
     * itself is left alone.
     */
    method UpdateUnits(deltaTime: Fp8)
      requires Valid()
      modifies units`attackCooldown, units`position, units`velocity, units`pathIndex, units`hasPath
      modifies units`isMoving, units`moveTarget, units`path, units`shield, units`hp
      ensures Valid()
    {
      for i := 0 to |units|
      {
        var u := units[i];
        if !Dead(u) {
          ghost var action, moved, blocked := u.Update(deltaTime, units);
        }
      }
    }

    /**
     * `update(deltaTime)`: the unit loop, then one collision pass over the
     * whole list from the centres `afterUpdates` the units had then, which
     * moves living units only; finally the dead leave the list, the
     * survivors keeping their order.
     */
    method Update(deltaTime: Fp8) returns (ghost afterUpdates: seq<Vec>)
      requires Valid()
      modifies this`units, units`attackCooldown, units`position, units`velocity, units`pathIndex
      modifies units`hasPath, units`isMoving, units`moveTarget, units`path, units`shield, units`hp
      ensures units == Living(old(units))
      ensures forall k :: 0 <= k < |units| ==> !Dead(units[k])
      ensures |afterUpdates| == |old(units)|
      ensures Positions(old(units)) ==
        Sweep(afterUpdates, Lives(old(units)), Sizes(old(units)), JsCollision.Pairs(|old(units)|))
      ensures Valid()
    {
      UpdateUnits(deltaTime);
      ghost var list := units;
      afterUpdates := Positions(list);
      ResolveCollisions(units);
      ghost var survivors := Living(list);
      RemoveDead();
      assert units == survivors;
    }

    /** The last step of `update`: the list keeps only the units that are alive. */
    method RemoveDead()
      requires Valid()
      modifies this`units
      ensures units == Living(old(units))
      ensures forall k :: 0 <= k < |units| ==> !Dead(units[k])
      ensures Valid()
    {
      LivingFacts(units);
      units := Living(units);
    }
  }
}
