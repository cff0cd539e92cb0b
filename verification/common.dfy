/**
 * Shared vocabulary of the simulation model: optional values, C integer
 * semantics (truncating division and casts), and the Euclidean norm that the
 * floating-point ports compute with `sqrt`.
 *
 * A real square root cannot be constructed in Dafny, so every operation that
 * measures a distance receives the norm as a parameter `norm` and requires
 * `Euclidean(norm)`: the result is non-negative and its square is
 * `dx*dx + dy*dy`. That pins `norm` down to the exact Euclidean length.
 */
module Common {

  datatype Option<T> = None | Some(value: T)

  /** A position or a waypoint in world coordinates. */
  datatype Point = Point(x: real, y: real)

  /** An unsigned 8-bit value. */
  type Byte = x: int | 0 <= x < 0x100

  function Abs(x: int): (r: nat)
    ensures r == x || r == -x
  {
    if x < 0 then -x else x
  }

  function RAbs(x: real): (r: real)
    ensures r >= 0.0 && (r == x || r == -x)
  {
    if x < 0.0 then -x else x
  }

  function Min(a: int, b: int): int { if a < b then a else b }
  function Max(a: int, b: int): int { if a < b then b else a }
  function RMin(a: real, b: real): real { if a < b then a else b }
  function RMax(a: real, b: real): real { if a < b then b else a }

  /** C and C++ integer division: the quotient is truncated toward zero. */
  function TDiv(a: int, b: int): (q: int)
    requires b != 0
    ensures Abs(q) == Abs(a) / Abs(b)
    ensures q != 0 ==> ((q > 0) <==> ((a > 0) == (b > 0)))
  {
    DivNonneg(Abs(a), Abs(b));
    var m := Abs(a) / Abs(b);
    if (a >= 0) == (b > 0) then m else -m
  }

  lemma DivNonneg(a: nat, b: nat)
    requires b > 0
    ensures a / b >= 0
  {}

  lemma DivBounds(a: nat, b: nat)
    requires b > 0
    ensures (a / b) * b <= a < (a / b + 1) * b
  {
    var q, r := a / b, a % b;
    assert a == q * b + r && 0 <= r < b;
    assert (q + 1) * b == q * b + b;
  }

  /** C and C++ `%`: the remainder has the sign of the dividend. */
  function TRem(a: int, b: int): (r: int)
    requires b != 0
    ensures a == TDiv(a, b) * b + r
    ensures Abs(r) < Abs(b)
    ensures r != 0 ==> ((r > 0) <==> (a > 0))
  {
    var q := TDiv(a, b);
    DivBounds(Abs(a), Abs(b));
    var m := (Abs(a) / Abs(b)) * Abs(b);
    assert 0 <= Abs(a) - m < Abs(b);
    assert a >= 0 ==> q * b == m;
    assert a < 0 ==> q * b == -m;
    a - q * b
  }

  /** A C cast from a floating-point value to `int`: truncation toward zero. */
  function TruncToInt(r: real): (n: int)
    ensures RAbs(n as real) <= RAbs(r) < RAbs(n as real) + 1.0
    ensures n != 0 ==> ((n > 0) <==> (r > 0.0))
  {
    if r >= 0.0 then r.Floor else -((-r).Floor)
  }

  /** JavaScript `Math.floor`. */
  function FloorToInt(r: real): (n: int)
    ensures n as real <= r < n as real + 1.0
  {
    r.Floor
  }

  type Norm = (real, real) -> real

  /** `norm(dx, dy)` is `sqrt(dx*dx + dy*dy)` for this one vector. */
  ghost predicate SquareRootAt(norm: Norm, dx: real, dy: real)
  {
    0.0 <= norm(dx, dy) && norm(dx, dy) * norm(dx, dy) == dx * dx + dy * dy
  }

  /**
   * `norm(dx, dy)` is the Euclidean length `sqrt(dx*dx + dy*dy)`. A proof
   * uses the fact for one vector by naming `SquareRootAt` for it.
   */
  ghost predicate Euclidean(norm: Norm)
  {
    forall dx: real, dy: real :: SquareRootAt(norm, dx, dy)
  }

  /**
   * Equal arguments give equal norms. Stated as a lemma so that a proof can
   * name the two argument expressions exactly as they occur.
   */
  lemma NormArguments(norm: Norm, a: real, b: real, c: real, e: real)
    requires a == c && b == e
    ensures norm(a, b) == norm(c, e)
  {}

  /** Two non-negative reals with equal squares are equal. */
  lemma SquareRootUnique(a: real, b: real)
    requires 0.0 <= a && 0.0 <= b && a * a == b * b
    ensures a == b
  {
    SquareMonotone(a, b);
  }

  /** The product of two positive reals is positive. */
  lemma MulPos(x: real, y: real)
    requires 0.0 < x && 0.0 < y
    ensures 0.0 < x * y
  {}

  /** Squares of non-negative reals are ordered like the reals themselves. */
  lemma SquareMonotone(a: real, b: real)
    requires 0.0 <= a && 0.0 <= b
    ensures a < b <==> a * a < b * b
    ensures a <= b <==> a * a <= b * b
  {
    if a < b {
      MulPos(b - a, b + a);
      assert (b - a) * (b + a) == b * b - a * a;
    } else if b < a {
      MulPos(a - b, a + b);
      assert (a - b) * (a + b) == a * a - b * b;
    }
  }

  lemma NormZero(norm: Norm, dx: real, dy: real)
    requires Euclidean(norm)
    ensures norm(dx, dy) == 0.0 <==> dx == 0.0 && dy == 0.0
  {
    var n := norm(dx, dy);
    assert SquareRootAt(norm, dx, dy);
    SquareMonotone(0.0, RAbs(dx));
    SquareMonotone(0.0, RAbs(dy));
    SquareMonotone(0.0, n);
    assert RAbs(dx) * RAbs(dx) == dx * dx;
    assert RAbs(dy) * RAbs(dy) == dy * dy;
  }

  /** A range test on the norm is a test on the squared distance. */
  lemma NormWithin(norm: Norm, dx: real, dy: real, r: real)
    requires Euclidean(norm) && 0.0 <= r
    ensures norm(dx, dy) <= r <==> dx * dx + dy * dy <= r * r
    ensures norm(dx, dy) < r <==> dx * dx + dy * dy < r * r
  {
    assert SquareRootAt(norm, dx, dy);
    SquareMonotone(norm(dx, dy), r);
  }

  /** Comparing two norms is comparing the squared distances. */
  lemma NormCompare(norm: Norm, dx1: real, dy1: real, dx2: real, dy2: real)
    requires Euclidean(norm)
    ensures norm(dx1, dy1) < norm(dx2, dy2) <==> dx1 * dx1 + dy1 * dy1 < dx2 * dx2 + dy2 * dy2
  {
    assert SquareRootAt(norm, dx1, dy1) && SquareRootAt(norm, dx2, dy2);
    SquareMonotone(norm(dx1, dy1), norm(dx2, dy2));
  }

  /** The norm is positively homogeneous: scaling the vector by k >= 0 scales its length by k. */
  lemma NormScale(norm: Norm, dx: real, dy: real, k: real)
    requires Euclidean(norm) && 0.0 <= k
    ensures norm(k * dx, k * dy) == k * norm(dx, dy)
  {
    var n := norm(dx, dy);
    var m := norm(k * dx, k * dy);
    assert SquareRootAt(norm, dx, dy) && SquareRootAt(norm, k * dx, k * dy);
    assert m * m == (k * dx) * (k * dx) + (k * dy) * (k * dy);
    assert (k * dx) * (k * dx) + (k * dy) * (k * dy) == k * k * (dx * dx + dy * dy);
    assert (k * n) * (k * n) == k * k * (n * n);
    assert 0.0 <= k * n;
    SquareRootUnique(m, k * n);
  }

  /** The norm does not depend on the direction of the vector. */
  lemma NormNegate(norm: Norm, dx: real, dy: real)
    requires Euclidean(norm)
    ensures norm(-dx, -dy) == norm(dx, dy)
  {
    var n := norm(dx, dy);
    var m := norm(-dx, -dy);
    assert SquareRootAt(norm, dx, dy) && SquareRootAt(norm, -dx, -dy);
    assert m * m == n * n;
    SquareRootUnique(m, n);
  }

  /** `2^k`. */
  function Pow2(k: nat): (p: nat)
    ensures p >= 1
  {
    if k == 0 then 1 else 2 * Pow2(k - 1)
  }

  lemma MulNonneg(a: int, b: int)
    requires 0 <= a && 0 <= b
    ensures 0 <= a * b
  {}

  /** A factor of at least 1 in size keeps the product at least as large as the other factor. */
  lemma MulAtLeast(x: int, d: int)
    requires d > 0
    ensures x >= 1 ==> x * d >= d
    ensures x <= -1 ==> x * d <= -d
  {
    if x >= 1 {
      assert x * d == (x - 1) * d + d;
      MulNonneg(x - 1, d);
    } else if x <= -1 {
      assert x * d == -((-x - 1) * d) - d;
      MulNonneg(-x - 1, d);
    }
  }

  /** Euclidean division is unique: a quotient and remainder in range are `a / d` and `a % d`. */
  lemma ModUnique(a: int, d: int, q: int, r: int)
    requires d > 0 && a == q * d + r && 0 <= r < d
    ensures a % d == r && a / d == q
  {
    var q0, r0 := a / d, a % d;
    assert a == q0 * d + r0 && 0 <= r0 < d;
    assert (q - q0) * d == r0 - r;
    MulAtLeast(q - q0, d);
  }
}
