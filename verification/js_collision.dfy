/**
 * `CollisionSystem` of game_integrated/simple_rts/collision.js: the overlap
 * test between two circles, the symmetric push that separates them, and the
 * single pass over all unordered pairs.
 *
 * The push is first defined on values (`Resolve`, `PairStep`, `Sweep`); the
 * methods that move the units are proved to compute exactly those values.
 */
module JsCollision {
  import opened Common
  import opened JsUnits

  /** `checkCollision(unit1, unit2)`: two different units whose circles overlap. */
  predicate CheckCollision(u1: Unit, u2: Unit, norm: Norm)
    reads u1`x, u1`y, u2`x, u2`y
  {
    if u1 == u2 then false
    else norm(u1.x - u2.x, u1.y - u2.y) < u1.size + u2.size
  }

  /**
   * Overlap is symmetric, and it is a test on the squared distance: the
   * centres are closer than the sum of the radii.
   */
  lemma CollisionSymmetric(u1: Unit, u2: Unit, norm: Norm)
    requires Euclidean(norm) && 0.0 <= u1.size + u2.size
    ensures CheckCollision(u1, u2, norm) == CheckCollision(u2, u1, norm)
    ensures CheckCollision(u1, u2, norm) <==>
      u1 != u2 &&
      (u1.x - u2.x) * (u1.x - u2.x) + (u1.y - u2.y) * (u1.y - u2.y) < (u1.size + u2.size) * (u1.size + u2.size)
  {
    var dx, dy := u1.x - u2.x, u1.y - u2.y;
    var ex, ey := u2.x - u1.x, u2.y - u1.y;
    NormNegate(norm, dx, dy);
    NormArguments(norm, -dx, -dy, ex, ey);
    NormWithin(norm, dx, dy, u1.size + u2.size);
  }

  /**
   * `resolveCollision` on positions: circles closer than the sum of their
   * radii, but not at the same centre, are each pushed half the overlap
   * along the line through their centres, in opposite directions.
   * The pushes cancel, so the sum of the two positions is unchanged.
   */
  function Resolve(p1: Point, p2: Point, s1: real, s2: real, norm: Norm): (r: (Point, Point))
    ensures r.0.x + r.1.x == p1.x + p2.x && r.0.y + r.1.y == p1.y + p2.y
    ensures norm(p1.x - p2.x, p1.y - p2.y) == 0.0 || norm(p1.x - p2.x, p1.y - p2.y) >= s1 + s2 ==> r == (p1, p2)
  {
    var dx := p1.x - p2.x;
    var dy := p1.y - p2.y;
    var distance := norm(dx, dy);
    if distance == 0.0 then (p1, p2)
    else
      var minDistance := s1 + s2;
      if distance < minDistance then
        var overlap := minDistance - distance;
        var pushX := (dx / distance) * overlap * 0.5;
        var pushY := (dy / distance) * overlap * 0.5;
        (Point(p1.x + pushX, p1.y + pushY), Point(p2.x - pushX, p2.y - pushY))
      else (p1, p2)
  }

  /** An overlapping pair at a positive distance moves by the two pushes. */
  lemma ResolveOverlap(p1: Point, p2: Point, s1: real, s2: real, norm: Norm, pushX: real, pushY: real)
    requires 0.0 != norm(p1.x - p2.x, p1.y - p2.y) < s1 + s2
    requires var d := norm(p1.x - p2.x, p1.y - p2.y);
      pushX == ((p1.x - p2.x) / d) * (s1 + s2 - d) * 0.5 && pushY == ((p1.y - p2.y) / d) * (s1 + s2 - d) * 0.5
    ensures Resolve(p1, p2, s1, s2, norm) == (Point(p1.x + pushX, p1.y + pushY), Point(p2.x - pushX, p2.y - pushY))
  {
    var d := norm(p1.x - p2.x, p1.y - p2.y);
    var overlap := s1 + s2 - d;
    assert pushX == ((p1.x - p2.x) / d) * overlap * 0.5;
    assert pushY == ((p1.y - p2.y) / d) * overlap * 0.5;
    assert d != 0.0 && d < s1 + s2;
    assert Resolve(p1, p2, s1, s2, norm).0 == Point(p1.x + pushX, p1.y + pushY);
    assert Resolve(p1, p2, s1, s2, norm).1 == Point(p2.x - pushX, p2.y - pushY);
  }

  lemma SeparationFactor(dx: real, d: real, s: real, k: real, push: real, gap: real)
    requires 0.0 < d && k == s / d && push == (dx / d) * (s - d) * 0.5 && gap == dx + push + push
    ensures gap == k * dx
  {
    assert push + push == dx * (s - d) / d;
    assert dx + dx * (s - d) / d == dx * s / d;
  }

  /**
   * After an overlapping pair is resolved, the centres lie on the same ray
   * as before, exactly `s1 + s2` apart: the circles just touch.
   */
  lemma ResolveSeparates(p1: Point, p2: Point, s1: real, s2: real, norm: Norm)
    requires Euclidean(norm)
    requires 0.0 < norm(p1.x - p2.x, p1.y - p2.y) < s1 + s2
    ensures var r := Resolve(p1, p2, s1, s2, norm);
      var k := (s1 + s2) / norm(p1.x - p2.x, p1.y - p2.y);
      r.0.x - r.1.x == k * (p1.x - p2.x) && r.0.y - r.1.y == k * (p1.y - p2.y) &&
      norm(r.0.x - r.1.x, r.0.y - r.1.y) == s1 + s2
  {
    var dx, dy := p1.x - p2.x, p1.y - p2.y;
    var d := norm(dx, dy);
    var s := s1 + s2;
    var k := s / d;
    var r := Resolve(p1, p2, s1, s2, norm);
    var pushX := (dx / d) * (s - d) * 0.5;
    var pushY := (dy / d) * (s - d) * 0.5;
    assert d == norm(p1.x - p2.x, p1.y - p2.y) && 0.0 < d < s;
    assert r.0 == Point(p1.x + pushX, p1.y + pushY);
    assert r == (Point(p1.x + pushX, p1.y + pushY), Point(p2.x - pushX, p2.y - pushY));
    var gx, gy := r.0.x - r.1.x, r.0.y - r.1.y;
    SeparationFactor(dx, d, s, k, pushX, gx);
    SeparationFactor(dy, d, s, k, pushY, gy);
    assert 0.0 <= k;
    NormScale(norm, dx, dy, k);
    NormArguments(norm, gx, gy, k * dx, k * dy);
    assert k * d == s;
  }

  /**
   * `resolveCollision(unit1, unit2)`: the two units move to the positions
   * `Resolve` gives. A unit paired with itself is at distance zero from
   * itself and does not move.
   */
  method ResolveCollision(u1: Unit, u2: Unit, norm: Norm)
    modifies u1`x, u1`y, u2`x, u2`y
    ensures u1 != u2 ==>
      (Point(u1.x, u1.y), Point(u2.x, u2.y)) ==
        Resolve(old(Point(u1.x, u1.y)), old(Point(u2.x, u2.y)), u1.size, u2.size, norm)
    ensures u1 == u2 && Euclidean(norm) ==> unchanged(u1`x, u1`y)
  {
    var dx := u1.x - u2.x;
    var dy := u1.y - u2.y;
    var distance := norm(dx, dy);
    ghost var p1, p2 := Point(u1.x, u1.y), Point(u2.x, u2.y);
    assert distance == norm(p1.x - p2.x, p1.y - p2.y);
    if u1 == u2 && Euclidean(norm) {
      NormZero(norm, dx, dy);
    }
    if distance == 0.0 {
      return;
    }
    var minDistance := u1.size + u2.size;
    if distance < minDistance {
      var overlap := minDistance - distance;
      var pushX := (dx / distance) * overlap * 0.5;
      var pushY := (dy / distance) * overlap * 0.5;
      ResolveOverlap(p1, p2, u1.size, u2.size, norm, pushX, pushY);
      u1.x := u1.x + pushX;
      u1.y := u1.y + pushY;
      u2.x := u2.x - pushX;
      u2.y := u2.y - pushY;
    }
  }

  /**
   * The unordered pairs `checkAllCollisions` visits from row `i`, column
   * `j` on, in the order it visits them: row by row, and within a row by
   * increasing column.
   */
  function PairsFrom(n: nat, i: nat, j: nat): seq<(nat, nat)>
    requires i < j && (i < n ==> j <= n)
    decreases n - i, n + 1 - j
  {
    if i >= n then []
    else if j >= n then PairsFrom(n, i + 1, i + 2)
    else [(i, j)] + PairsFrom(n, i, j + 1)
  }

  /** Every pair the whole pass visits, in order. */
  function Pairs(n: nat): seq<(nat, nat)>
  {
    PairsFrom(n, 0, 1)
  }

  /** Lexicographic order on index pairs. */
  predicate Before(p: (nat, nat), q: (nat, nat))
  {
    p.0 < q.0 || (p.0 == q.0 && p.1 < q.1)
  }

  /**
   * From row `i`, column `j`, the pass visits exactly the pairs `a < b < n`
   * at or after `(i, j)`.
   */
  lemma {:induction false} PairsFromMembers(n: nat, i: nat, j: nat)
    requires i < j && (i < n ==> j <= n)
    ensures forall a: nat, b: nat :: (a, b) in PairsFrom(n, i, j) <==> a < b < n && (i < a || (i == a && j <= b))
    decreases n - i, n + 1 - j
  {
    if i >= n {
    } else if j >= n {
      PairsFromMembers(n, i + 1, i + 2);
    } else {
      PairsFromMembers(n, i, j + 1);
      PairsFromStep(n, i, j);
      var rest := PairsFrom(n, i, j + 1);
      forall a: nat, b: nat
        ensures (a, b) in PairsFrom(n, i, j) <==> a < b < n && (i < a || (i == a && j <= b))
      {
        assert (a, b) in PairsFrom(n, i, j) <==> (a, b) == (i, j) || (a, b) in rest;
      }
    }
  }

  /** From row `i`, column `j`, the pass visits its pairs in strictly increasing order, so each once. */
  lemma {:induction false} PairsFromOrdered(n: nat, i: nat, j: nat)
    requires i < j && (i < n ==> j <= n)
    ensures forall p, q :: 0 <= p < q < |PairsFrom(n, i, j)| ==> Before(PairsFrom(n, i, j)[p], PairsFrom(n, i, j)[q])
    decreases n - i, n + 1 - j
  {
    if i >= n {
    } else if j >= n {
      PairsFromOrdered(n, i + 1, i + 2);
    } else {
      PairsFromOrdered(n, i, j + 1);
      PairsFromMembers(n, i, j + 1);
      PairsFromStep(n, i, j);
      var rest := PairsFrom(n, i, j + 1);
      var all := PairsFrom(n, i, j);
      forall p, q | 0 <= p < q < |all|
        ensures Before(all[p], all[q])
      {
        assert all[q] == rest[q - 1];
        if p == 0 {
          assert rest[q - 1] in rest;
        } else {
          assert all[p] == rest[p - 1];
        }
      }
    }
  }

  /** Inside a row, the pass visits `(i, j)` and then goes on from `(i, j + 1)`. */
  lemma PairsFromStep(n: nat, i: nat, j: nat)
    requires i < j < n
    ensures PairsFrom(n, i, j) == [(i, j)] + PairsFrom(n, i, j + 1)
  {
  }

  /** At the end of row `i` the pass goes on with the next row. */
  lemma PairsFromRowEnd(n: nat, i: nat)
    requires i < n
    ensures PairsFrom(n, i, n) == PairsFrom(n, i + 1, i + 2)
  {
  }

  /** `step` applied to `x` for each pair of `pairs` in order. */
  function FoldPairs<T>(step: (T, nat, nat) -> T, x: T, pairs: seq<(nat, nat)>): T
    decreases |pairs|
  {
    if |pairs| == 0 then x else FoldPairs(step, step(x, pairs[0].0, pairs[0].1), pairs[1..])
  }

  /** `step` applied to `x` for the pairs `(i, i + 1)` to `(i, j - 1)` of row `i`, in order. */
  function FoldRow<T>(step: (T, nat, nat) -> T, x: T, i: nat, j: nat): T
    decreases j
  {
    if j <= i + 1 then x else step(FoldRow(step, x, i, j - 1), i, j - 1)
  }

  /**
   * Running row `i` of the pass up to column `j` and then the rest of the
   * pass from `(i, j)` ends where the pass from the row's start ends.
   */
  lemma {:induction false} FoldRowPairs<T>(step: (T, nat, nat) -> T, x: T, n: nat, i: nat, j: nat)
    requires i < j <= n
    ensures FoldPairs(step, FoldRow(step, x, i, j), PairsFrom(n, i, j)) == FoldPairs(step, x, PairsFrom(n, i, i + 1))
    decreases j
  {
    if j > i + 1 {
      FoldRowPairs(step, x, n, i, j - 1);
      var y := FoldRow(step, x, i, j - 1);
      PairsFromStep(n, i, j - 1);
      assert PairsFrom(n, i, j - 1)[1..] == PairsFrom(n, i, j);
      assert FoldPairs(step, y, PairsFrom(n, i, j - 1)) == FoldPairs(step, step(y, i, j - 1), PairsFrom(n, i, j));
    }
  }

  /** The whole pass visits every unordered pair exactly once, in index order. */
  lemma PairsExact(n: nat)
    ensures forall a: nat, b: nat :: (a, b) in Pairs(n) <==> a < b < n
    ensures forall p, q :: 0 <= p < q < |Pairs(n)| ==> Before(Pairs(n)[p], Pairs(n)[q])
  {
    PairsFromMembers(n, 0, 1);
    PairsFromOrdered(n, 0, 1);
  }

  /**
   * The body of the inner loop on positions: test pair `(i, j)`, and push it
   * apart when it overlaps. A pair that names no two units changes nothing.
   */
  function PairStep(ps: seq<Point>, sizes: seq<real>, i: nat, j: nat, norm: Norm): (qs: seq<Point>)
    requires |ps| == |sizes|
    ensures |qs| == |ps|
  {
    if !(i < j < |ps|) then ps
    else if norm(ps[i].x - ps[j].x, ps[i].y - ps[j].y) < sizes[i] + sizes[j] then
      var r := Resolve(ps[i], ps[j], sizes[i], sizes[j], norm);
      ps[i := r.0][j := r.1]
    else ps
  }

  /** The positions after the pairs of `pairs` are processed in order. */
  function Sweep(ps: seq<Point>, sizes: seq<real>, pairs: seq<(nat, nat)>, norm: Norm): (qs: seq<Point>)
    requires |ps| == |sizes|
    ensures |qs| == |ps|
    decreases |pairs|
  {
    if |pairs| == 0 then ps
    else Sweep(PairStep(ps, sizes, pairs[0].0, pairs[0].1, norm), sizes, pairs[1..], norm)
  }

  /** Inside a row, the pass processes `(i, j)` first and then goes on from `(i, j + 1)`. */
  lemma SweepStep(ps: seq<Point>, sizes: seq<real>, n: nat, i: nat, j: nat, norm: Norm)
    requires |ps| == |sizes| && i < j < n
    ensures Sweep(ps, sizes, PairsFrom(n, i, j), norm) ==
      Sweep(PairStep(ps, sizes, i, j, norm), sizes, PairsFrom(n, i, j + 1), norm)
  {
    PairsFromStep(n, i, j);
    assert PairsFrom(n, i, j)[1..] == PairsFrom(n, i, j + 1);
  }

  /** The sum of all positions, `n` times the centroid. */
  function Total(ps: seq<Point>): Point
  {
    if |ps| == 0 then Point(0.0, 0.0)
    else
      var t := Total(ps[..|ps| - 1]);
      Point(t.x + ps[|ps| - 1].x, t.y + ps[|ps| - 1].y)
  }

  /** Replacing one position changes the total by the difference. */
  lemma {:induction false} TotalUpdate(ps: seq<Point>, i: nat, p: Point)
    requires i < |ps|
    ensures Total(ps[i := p]).x == Total(ps).x - ps[i].x + p.x
    ensures Total(ps[i := p]).y == Total(ps).y - ps[i].y + p.y
    decreases |ps|
  {
    var n := |ps| - 1;
    if i == n {
      assert ps[i := p][..n] == ps[..n];
    } else {
      assert ps[i := p][..n] == ps[..n][i := p];
      TotalUpdate(ps[..n], i, p);
    }
  }

  /** The whole pass never moves the centroid of the units. */
  lemma {:induction false} SweepKeepsTotal(ps: seq<Point>, sizes: seq<real>, pairs: seq<(nat, nat)>, norm: Norm)
    requires |ps| == |sizes|
    ensures Total(Sweep(ps, sizes, pairs, norm)) == Total(ps)
    decreases |pairs|
  {
    if |pairs| > 0 {
      var i, j := pairs[0].0, pairs[0].1;
      var qs := PairStep(ps, sizes, i, j, norm);
      if i < j < |ps| && norm(ps[i].x - ps[j].x, ps[i].y - ps[j].y) < sizes[i] + sizes[j] {
        var r := Resolve(ps[i], ps[j], sizes[i], sizes[j], norm);
        TotalUpdate(ps, i, r.0);
        TotalUpdate(ps[i := r.0], j, r.1);
      }
      assert Total(qs) == Total(ps);
      SweepKeepsTotal(qs, sizes, pairs[1..], norm);
    }
  }

  /** The positions of the units, in order. */
  function Positions(units: seq<Unit>): (ps: seq<Point>)
    reads units`x, units`y
    ensures |ps| == |units|
    ensures forall k :: 0 <= k < |units| ==> ps[k] == Point(units[k].x, units[k].y)
  {
    if |units| == 0 then []
    else Positions(units[..|units| - 1]) + [Point(units[|units| - 1].x, units[|units| - 1].y)]
  }

  /** The radii of the units, in order. */
  function Sizes(units: seq<Unit>): (ss: seq<real>)
    ensures |ss| == |units| && forall k :: 0 <= k < |units| ==> ss[k] == units[k].size
  {
    seq(|units|, k requires 0 <= k < |units| => units[k].size)
  }

  /**
   * The body of the inner loop of `checkAllCollisions`: units `i` and `j`
   * are pushed apart when they overlap. Their new positions are those
   * `PairStep` gives; every other unit stays where it was.
   */
  method CheckPair(units: seq<Unit>, i: nat, j: nat, norm: Norm, ghost ps: seq<Point>) returns (ghost qs: seq<Point>)
    requires Distinct(units)
    requires i < j < |units| && |ps| == |units|
    requires forall k :: 0 <= k < |units| ==> ps[k] == Point(units[k].x, units[k].y)
    modifies {units[i], units[j]}`x, {units[i], units[j]}`y
    ensures qs == PairStep(ps, Sizes(units), i, j, norm)
    ensures forall k :: 0 <= k < |units| ==> qs[k] == Point(units[k].x, units[k].y)
  {
    var u1, u2 := units[i], units[j];
    ghost var sizes := Sizes(units);
    if CheckCollision(u1, u2, norm) {
      ResolveCollision(u1, u2, norm);
    }
    qs := PairStep(ps, sizes, i, j, norm);
    assert forall k :: 0 <= k < |units| && k != i && k != j ==> units[k] != u1 && units[k] != u2;
  }

  /**
   * `checkAllCollisions(units)`: every unordered pair `i < j`, in index
   * order, is tested and, when the circles overlap, pushed apart; each push
   * sees the positions the earlier pushes left. The list holds each unit
   * once, as the game's unit list does.
   */
  method CheckAllCollisions(units: seq<Unit>, norm: Norm)
    requires Distinct(units)
    modifies units`x, units`y
    ensures Positions(units) == Sweep(old(Positions(units)), Sizes(units), Pairs(|units|), norm)
  {
    var n := |units|;
    ghost var sizes := Sizes(units);
    ghost var ps := Positions(units);
    ghost var goal := Sweep(ps, sizes, Pairs(n), norm);
    for i := 0 to n
      invariant |ps| == n
      invariant forall k :: 0 <= k < n ==> ps[k] == Point(units[k].x, units[k].y)
      invariant Sweep(ps, sizes, PairsFrom(n, i, i + 1), norm) == goal
    {
      for j := i + 1 to n
        invariant |ps| == n
        invariant forall k :: 0 <= k < n ==> ps[k] == Point(units[k].x, units[k].y)
        invariant Sweep(ps, sizes, PairsFrom(n, i, j), norm) == goal
      {
        SweepStep(ps, sizes, n, i, j, norm);
        ps := CheckPair(units, i, j, norm, ps);
      }
      PairsFromRowEnd(n, i);
    }
    assert Positions(units) == ps;
  }
}
