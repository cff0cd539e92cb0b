/**
 * The rules the two floating-point C++ ports share:
 * game_integrated/simple_rts/simple_rts.cpp and
 * game_integrated/simple_rts/simple_game_sdl.cpp. Both define the same
 * `Vec2` with `length` and `normalize`, the same unit table (the console
 * port adds a third unit type), the same cooldown step, the same straight
 * step toward a point and the same collision pass. The ports' classes live
 * in their own modules; what they compute is defined here on values.
 *
 * Floats are modelled as reals and `sqrt` as the norm `norm`.
 */
module FloatRules {
  import opened Common
  import JsCollision

  datatype UnitType = Marine | Zealot | Zergling

  datatype UnitData = UnitData(name: string, maxHp: real, maxShield: real, speed: real,
                               attackPower: real, attackRange: real, attackCooldown: real, size: real)

  /** The distance `findNearestEnemy` and `commandAttack` start from. */
  const FarAway: real := 999999.0

  /** Frames per second: cooldowns and speeds are given per frame. */
  const FrameRate: real := 60.0

  /**
   * `UNIT_STATS[type]`. Every unit has positive hit points, speed, attack
   * power, cooldown and size; only the Zealot has a shield.
   */
  function Stats(t: UnitType): (d: UnitData)
    ensures d.maxHp > 0.0 && d.speed > 0.0 && d.attackPower > 0.0 && d.attackCooldown > 0.0 && d.size > 0.0
    ensures d.maxShield > 0.0 <==> t == Zealot
  {
    match t
    case Marine => UnitData("Marine", 40.0, 0.0, 3.5, 6.0, 120.0, 15.0, 16.0)
    case Zealot => UnitData("Zealot", 100.0, 60.0, 3.0, 16.0, 20.0, 22.0, 18.0)
    case Zergling => UnitData("Zergling", 35.0, 0.0, 4.5, 5.0, 15.0, 12.0, 14.0)
  }

  /**
   * The cooldown step of `update`: a positive cooldown drops by
   * `deltaTime * 60`, with no floor, so it can end below zero; a cooldown
   * at or below zero stays.
   */
  function Cool(cooldown: real, deltaTime: real): (c: real)
    ensures cooldown <= 0.0 ==> c == cooldown
    ensures cooldown > 0.0 ==> c == cooldown - deltaTime * FrameRate
  {
    if cooldown > 0.0 then cooldown - deltaTime * FrameRate else cooldown
  }

  /** The cooldown can go negative: a frame longer than the cooldown leaves it below zero. */
  lemma CoolOvershoots()
    ensures Cool(0.5, 1.0 / 60.0) == -0.5
  {}

  /** `Vec2::normalize`: the unit vector along `(dx, dy)`, or zero for the zero vector. */
  function Normalize(dx: real, dy: real, norm: Norm): (r: Point)
    ensures norm(dx, dy) > 0.0 ==> r == Point(dx / norm(dx, dy), dy / norm(dx, dy))
    ensures norm(dx, dy) <= 0.0 ==> r == Point(0.0, 0.0)
  {
    var len := norm(dx, dy);
    if len > 0.0 then Point(dx / len, dy / len) else Point(0.0, 0.0)
  }

  /** The step of `updateMovement`: `position + direction * moveSpeed`, toward `goal`. */
  function StepToward(position: Point, goal: Point, moveSpeed: real, norm: Norm): Point
  {
    var direction := Normalize(goal.x - position.x, goal.y - position.y, norm);
    Point(position.x + direction.x * moveSpeed, position.y + direction.y * moveSpeed)
  }

  /** The distance from `p` to `q`. */
  function Distance(p: Point, q: Point, norm: Norm): real
  {
    norm(q.x - p.x, q.y - p.y)
  }

  lemma ShrinkFactor(d: real, s: real, a: real, b: real)
    requires d > 0.0 && b == a - (a / d) * s
    ensures b == (1.0 - s / d) * a
  {
    assert (a / d) * s == (s / d) * a;
  }

  /**
   * The step moves straight along the line to the goal by exactly the
   * move speed: a unit short of the goal ends `moveSpeed` closer, and one
   * that overshoots ends `moveSpeed - distance` past it.
   */
  lemma StepDistance(position: Point, goal: Point, moveSpeed: real, norm: Norm)
    requires Euclidean(norm) && Distance(position, goal, norm) > 0.0 && moveSpeed >= 0.0
    ensures var d := Distance(position, goal, norm);
      var p := StepToward(position, goal, moveSpeed, norm);
      Distance(p, goal, norm) == if moveSpeed <= d then d - moveSpeed else moveSpeed - d
  {
    var dx, dy := goal.x - position.x, goal.y - position.y;
    var d := norm(dx, dy);
    var p := StepToward(position, goal, moveSpeed, norm);
    var k := 1.0 - moveSpeed / d;
    assert p == Point(position.x + (dx / d) * moveSpeed, position.y + (dy / d) * moveSpeed);
    var ex, ey := goal.x - p.x, goal.y - p.y;
    ShrinkFactor(d, moveSpeed, dx, ex);
    ShrinkFactor(d, moveSpeed, dy, ey);
    if moveSpeed <= d {
      assert 0.0 <= k;
      NormScale(norm, dx, dy, k);
      NormArguments(norm, ex, ey, k * dx, k * dy);
      assert k * d == d - moveSpeed;
    } else {
      var m := moveSpeed / d - 1.0;
      assert 0.0 <= m && ex == -(m * dx) && ey == -(m * dy);
      NormScale(norm, dx, dy, m);
      NormNegate(norm, m * dx, m * dy);
      NormArguments(norm, ex, ey, -(m * dx), -(m * dy));
      assert m * d == moveSpeed - d;
    }
  }

  /**
   * The body of the inner loop of `CollisionSystem::resolveCollisions` on
   * values: when both units are alive and their circles overlap at a
   * positive distance, the pair is pushed apart as `JsCollision.Resolve`
   * does, each half the overlap along the normalized difference. A pair
   * that names no two units, or holds a dead one, changes nothing.
   */
  function PairStep(ps: seq<Point>, live: seq<bool>, sizes: seq<real>, i: nat, j: nat, norm: Norm): (qs: seq<Point>)
    requires |ps| == |live| == |sizes|
    ensures |qs| == |ps|
    ensures forall k :: 0 <= k < |ps| && k != i && k != j ==> qs[k] == ps[k]
  {
    if !(i < j < |ps|) || !live[i] || !live[j] then ps
    else
      var distance := norm(ps[i].x - ps[j].x, ps[i].y - ps[j].y);
      if distance < sizes[i] + sizes[j] && distance > 0.0 then
        var r := JsCollision.Resolve(ps[i], ps[j], sizes[i], sizes[j], norm);
        ps[i := r.0][j := r.1]
      else ps
  }

  /**
   * The push of `resolveCollisions`, written as the C++ ports write it
   * (`normalize() * (overlap * 0.5)`), is the push of `JsCollision.Resolve`.
   */
  lemma ResolveByNormalize(p1: Point, p2: Point, s1: real, s2: real, norm: Norm, direction: Point, half: real)
    requires 0.0 < norm(p1.x - p2.x, p1.y - p2.y) < s1 + s2
    requires direction == Normalize(p1.x - p2.x, p1.y - p2.y, norm)
    requires half == (s1 + s2 - norm(p1.x - p2.x, p1.y - p2.y)) * 0.5
    ensures JsCollision.Resolve(p1, p2, s1, s2, norm) ==
      (Point(p1.x + direction.x * half, p1.y + direction.y * half),
       Point(p2.x - direction.x * half, p2.y - direction.y * half))
  {
    var dx, dy := p1.x - p2.x, p1.y - p2.y;
    var d := norm(dx, dy);
    var overlap := s1 + s2 - d;
    var px, py := (dx / d) * overlap * 0.5, (dy / d) * overlap * 0.5;
    var r := JsCollision.Resolve(p1, p2, s1, s2, norm);
    assert r.0.x == p1.x + px && r.0.y == p1.y + py;
    assert r.1.x == p2.x - px && r.1.y == p2.y - py;
    assert direction == Point(dx / d, dy / d);
    assert direction.x * half == px && direction.y * half == py;
  }

  /** The centres after the pairs of `pairs` are processed in order. */
  function Sweep(ps: seq<Point>, live: seq<bool>, sizes: seq<real>, pairs: seq<(nat, nat)>, norm: Norm): (qs: seq<Point>)
    requires |ps| == |live| == |sizes|
    ensures |qs| == |ps|
    decreases |pairs|
  {
    if |pairs| == 0 then ps
    else Sweep(PairStep(ps, live, sizes, pairs[0].0, pairs[0].1, norm), live, sizes, pairs[1..], norm)
  }

  /** `PairStep` as a step over centres of any length: a sequence that does not fit is left alone. */
  function Step(live: seq<bool>, sizes: seq<real>, norm: Norm): (seq<Point>, nat, nat) -> seq<Point>
  {
    (qs: seq<Point>, a: nat, b: nat) => if |qs| == |live| == |sizes| then PairStep(qs, live, sizes, a, b, norm) else qs
  }

  /** `Sweep` is the fold of `Step` over the pairs. */
  lemma {:induction false} SweepFold(ps: seq<Point>, live: seq<bool>, sizes: seq<real>, pairs: seq<(nat, nat)>, norm: Norm)
    requires |ps| == |live| == |sizes|
    ensures Sweep(ps, live, sizes, pairs, norm) == JsCollision.FoldPairs(Step(live, sizes, norm), ps, pairs)
    decreases |pairs|
  {
    if |pairs| > 0 {
      SweepFold(PairStep(ps, live, sizes, pairs[0].0, pairs[0].1, norm), live, sizes, pairs[1..], norm);
    }
  }

  /**
   * After row `i` of the pass has run over all its columns, what is left
   * of the pass ends where the pass from the row's start ends.
   */
  lemma RowDone(ps: seq<Point>, qs: seq<Point>, live: seq<bool>, sizes: seq<real>, n: nat, i: nat, norm: Norm)
    requires |ps| == |live| == |sizes| == |qs| && i < n
    requires qs == JsCollision.FoldRow(Step(live, sizes, norm), ps, i, n)
    ensures Sweep(qs, live, sizes, JsCollision.PairsFrom(n, i + 1, i + 2), norm) ==
      Sweep(ps, live, sizes, JsCollision.PairsFrom(n, i, i + 1), norm)
  {
    JsCollision.FoldRowPairs(Step(live, sizes, norm), ps, n, i, n);
    JsCollision.PairsFromRowEnd(n, i);
    SweepFold(qs, live, sizes, JsCollision.PairsFrom(n, i, n), norm);
    SweepFold(ps, live, sizes, JsCollision.PairsFrom(n, i, i + 1), norm);
  }

  /** The whole pass never moves the centroid of the units. */
  lemma {:induction false} SweepKeepsTotal(ps: seq<Point>, live: seq<bool>, sizes: seq<real>,
                                            pairs: seq<(nat, nat)>, norm: Norm)
    requires |ps| == |live| == |sizes|
    ensures JsCollision.Total(Sweep(ps, live, sizes, pairs, norm)) == JsCollision.Total(ps)
    decreases |pairs|
  {
    if |pairs| > 0 {
      var i, j := pairs[0].0, pairs[0].1;
      var qs := PairStep(ps, live, sizes, i, j, norm);
      if i < j < |ps| && live[i] && live[j] &&
         norm(ps[i].x - ps[j].x, ps[i].y - ps[j].y) < sizes[i] + sizes[j] &&
         norm(ps[i].x - ps[j].x, ps[i].y - ps[j].y) > 0.0 {
        var r := JsCollision.Resolve(ps[i], ps[j], sizes[i], sizes[j], norm);
        JsCollision.TotalUpdate(ps, i, r.0);
        JsCollision.TotalUpdate(ps[i := r.0], j, r.1);
      }
      assert JsCollision.Total(qs) == JsCollision.Total(ps);
      SweepKeepsTotal(qs, live, sizes, pairs[1..], norm);
    }
  }

  /** The pass never moves a dead unit: pairs with a dead unit are skipped. */
  lemma {:induction false} SweepKeepsDead(ps: seq<Point>, live: seq<bool>, sizes: seq<real>,
                                           pairs: seq<(nat, nat)>, norm: Norm)
    requires |ps| == |live| == |sizes|
    ensures forall k :: 0 <= k < |ps| && !live[k] ==> Sweep(ps, live, sizes, pairs, norm)[k] == ps[k]
    decreases |pairs|
  {
    if |pairs| > 0 {
      SweepKeepsDead(PairStep(ps, live, sizes, pairs[0].0, pairs[0].1, norm), live, sizes, pairs[1..], norm);
    }
  }

  /**
   * A pushed pair ends exactly touching: after the step the two centres
   * are the sum of their sizes apart, on the same ray as before.
   */
  lemma PairStepSeparates(ps: seq<Point>, live: seq<bool>, sizes: seq<real>, i: nat, j: nat, norm: Norm)
    requires |ps| == |live| == |sizes| && Euclidean(norm)
    requires i < j < |ps| && live[i] && live[j]
    requires 0.0 < norm(ps[i].x - ps[j].x, ps[i].y - ps[j].y) < sizes[i] + sizes[j]
    ensures var qs := PairStep(ps, live, sizes, i, j, norm);
      norm(qs[i].x - qs[j].x, qs[i].y - qs[j].y) == sizes[i] + sizes[j]
  {
    JsCollision.ResolveSeparates(ps[i], ps[j], sizes[i], sizes[j], norm);
  }
}
