/**
 * The fixed-point arithmetic of game_integrated/simple_rts/simple_game_advanced.cpp:
 * `fp8`, a number held as a whole count of 1/256ths in a raw integer; `Vec2`,
 * a pair of them; and `Direction`, one of 256 headings.
 *
 * `fp8` is built from a `float`, and `Vec2::length` goes through `float`
 * and `std::sqrt`. The model computes those conversions exactly: `f * 256`
 * truncated toward zero, and the truncated square root of the raw sum of
 * squares, which is what the float expression computes when no rounding
 * intervenes.
 */
module FixedPoint {
  import opened Common

  /** `fp8`: `raw` counts 1/256ths. */
  datatype Fp8 = Fp8(raw: int)

  /** The raw value of `fp8(1)`. */
  const Unit: int := 256

  const Zero: Fp8 := Fp8(0)
  const One: Fp8 := Fp8(Unit)

  /** `toFloat`: the value the raw count stands for. */
  function ToReal(a: Fp8): real
  {
    a.raw as real / 256.0
  }

  /**
   * `fp8(float f)`: `(int)(f * 256.0f)`. The result is `f` rounded toward
   * zero to a multiple of 1/256.
   */
  function FromReal(f: real): (a: Fp8)
    ensures RAbs(ToReal(a)) <= RAbs(f) < RAbs(ToReal(a)) + 1.0 / 256.0
    ensures a.raw != 0 ==> ((a.raw > 0) <==> (f > 0.0))
  {
    Fp8(TruncToInt(f * 256.0))
  }

  /** `fp8(n)` for an integer `n`, which converts to `float` exactly. */
  function FromInt(n: int): (a: Fp8)
    ensures ToReal(a) == n as real
    ensures a == FromReal(n as real)
  {
    Fp8(n * Unit)
  }

  /** `operator+` and `operator-` act on the raw values, so they are exact. */
  function Add(a: Fp8, b: Fp8): (c: Fp8)
    ensures ToReal(c) == ToReal(a) + ToReal(b)
  {
    Fp8(a.raw + b.raw)
  }

  function Sub(a: Fp8, b: Fp8): (c: Fp8)
    ensures ToReal(c) == ToReal(a) - ToReal(b)
  {
    Fp8(a.raw - b.raw)
  }

  /** The difference undoes the sum, and the sum does not depend on the order. */
  lemma AddSub(a: Fp8, b: Fp8)
    ensures Sub(Add(a, b), b) == a && Add(Sub(a, b), b) == a
    ensures Add(a, b) == Add(b, a)
  {}

  /**
   * `operator*`: `(a * b) >> 8`. The shift of a signed value is arithmetic,
   * a division by 256 rounded down, so the product of the two numbers is
   * rounded down to a multiple of 1/256.
   */
  function Mul(a: Fp8, b: Fp8): (c: Fp8)
    ensures c.raw * Unit <= a.raw * b.raw < c.raw * Unit + Unit
  {
    Fp8(a.raw * b.raw / Unit)
  }

  /**
   * `operator/`: `(a << 8) / b`, a C division that truncates toward zero,
   * so the quotient of the two numbers is rounded toward zero to a multiple
   * of 1/256, with the sign of the quotient. The source divides without
   * checking `b`; the model requires it non-zero.
   */
  function Div(a: Fp8, b: Fp8): (c: Fp8)
    requires b.raw != 0
    ensures Abs(c.raw) * Abs(b.raw) <= Abs(a.raw) * Unit < (Abs(c.raw) + 1) * Abs(b.raw)
    ensures c.raw != 0 ==> ((c.raw > 0) <==> ((a.raw > 0) == (b.raw > 0)))
  {
    var n := a.raw * Unit;
    assert Abs(n) == Abs(a.raw) * Unit;
    DivBounds(Abs(n), Abs(b.raw));
    Fp8(TDiv(n, b.raw))
  }

  /** `fp8(1)` is neutral for `*` and `/`. */
  lemma MulOne(a: Fp8)
    ensures Mul(a, One) == a && Mul(One, a) == a
    ensures Div(a, One) == a
  {
    assert a.raw * Unit / Unit == a.raw;
    assert Abs(a.raw * Unit) == Abs(a.raw) * Unit;
    assert Abs(a.raw) * Unit / Unit == Abs(a.raw);
  }

  /** `operator<` and `operator>` compare raw values: the order of the numbers. */
  predicate Less(a: Fp8, b: Fp8)
  {
    a.raw < b.raw
  }

  lemma LessIsOrder(a: Fp8, b: Fp8)
    ensures Less(a, b) <==> ToReal(a) < ToReal(b)
    ensures Less(b, a) <==> ToReal(a) > ToReal(b)
    ensures !Less(a, b) && !Less(b, a) <==> a == b
  {}

  /** `Vec2`: a position, velocity or offset in `fp8` coordinates. */
  datatype Vec = Vec(x: Fp8, y: Fp8)

  const ZeroVec: Vec := Vec(Zero, Zero)

  /** `Vec2(float fx, float fy)`. */
  function VecOf(p: Point): Vec
  {
    Vec(FromReal(p.x), FromReal(p.y))
  }

  function VAdd(a: Vec, b: Vec): Vec
  {
    Vec(Add(a.x, b.x), Add(a.y, b.y))
  }

  function VSub(a: Vec, b: Vec): Vec
  {
    Vec(Sub(a.x, b.x), Sub(a.y, b.y))
  }

  /** Vector difference undoes vector sum, coordinate by coordinate. */
  lemma VAddSub(a: Vec, b: Vec)
    ensures VSub(VAdd(a, b), b) == a && VAdd(VSub(a, b), b) == a
  {
    AddSub(a.x, b.x);
    AddSub(a.y, b.y);
  }

  /** `operator*(fp8 scalar)`: each coordinate times the scalar. */
  function VScale(a: Vec, s: Fp8): (c: Vec)
    ensures s == One ==> c == a
  {
    MulOne(a.x);
    MulOne(a.y);
    Vec(Mul(a.x, s), Mul(a.y, s))
  }

  /** The integer square root: the largest `r` with `r * r <= n`. */
  function ISqrt(n: nat): (r: nat)
    ensures r * r <= n < (r + 1) * (r + 1)
  {
    if n == 0 then 0
    else
      var r := ISqrt(n - 1);
      if (r + 1) * (r + 1) <= n then r + 1 else r
  }

  /**
   * `length()`: `fp8(sqrt(fx * fx + fy * fy))` with `fx`, `fy` the raw
   * values over 256, which is the raw square root of the raw sum of squares,
   * truncated.
   */
  function Length(v: Vec): (len: Fp8)
    ensures len.raw >= 0
    ensures len.raw * len.raw <= v.x.raw * v.x.raw + v.y.raw * v.y.raw < (len.raw + 1) * (len.raw + 1)
  {
    Fp8(ISqrt(v.x.raw * v.x.raw + v.y.raw * v.y.raw))
  }

  /** The length is at least each coordinate. */
  lemma LengthCovers(v: Vec)
    ensures Abs(v.x.raw) <= Length(v).raw && Abs(v.y.raw) <= Length(v).raw
  {
    var l := Length(v).raw;
    SquareAbs(v.x.raw);
    SquareAbs(v.y.raw);
    RootCovers(Abs(v.x.raw), Abs(v.y.raw), l);
    RootCovers(Abs(v.y.raw), Abs(v.x.raw), l);
  }

  lemma SquareAbs(x: int)
    ensures Abs(x) * Abs(x) == x * x
  {
  }

  /** A root that bounds a sum of two squares bounds each of its parts. */
  lemma RootCovers(a: nat, b: nat, l: nat)
    requires a * a + b * b < (l + 1) * (l + 1)
    ensures a <= l
  {
    MulNonneg(b, b);
    SquareOrder(a, l + 1);
  }

  /** The length is zero only for the zero vector. */
  lemma LengthZero(v: Vec)
    ensures Length(v).raw == 0 <==> v == ZeroVec
  {
    var l := Length(v).raw;
    LengthCovers(v);
    SquareOrder(0, l);
  }

  /** Squares of naturals are ordered like the naturals. */
  lemma SquareOrder(a: nat, b: nat)
    ensures a < b <==> a * a < b * b
  {
    if a < b {
      assert b * b - a * a == (b - a) * (b + a);
      MulAtLeast(b - a, b + a);
    } else if b < a {
      assert a * a - b * b == (a - b) * (a + b);
      MulAtLeast(a - b, a + b);
    }
  }

  /**
   * `normalize()`: the zero vector when the length is below 0.001,
   * otherwise each coordinate divided by the length. Each coordinate of the
   * result keeps the sign of the input's and lies within [-1, 1].
   */
  function Normalize(v: Vec): (n: Vec)
    ensures ToReal(Length(v)) < 0.001 ==> n == ZeroVec
    ensures -Unit <= n.x.raw <= Unit && -Unit <= n.y.raw <= Unit
    ensures n.x.raw != 0 ==> ((n.x.raw > 0) <==> (v.x.raw > 0))
    ensures n.y.raw != 0 ==> ((n.y.raw > 0) <==> (v.y.raw > 0))
  {
    var len := Length(v);
    if ToReal(len) < 0.001 then ZeroVec
    else
      LengthCovers(v);
      UnitQuotient(v.x, len);
      UnitQuotient(v.y, len);
      Vec(Div(v.x, len), Div(v.y, len))
  }

  /** A coordinate divided by a length at least as large lies within [-1, 1]. */
  lemma UnitQuotient(a: Fp8, len: Fp8)
    requires len.raw > 0 && Abs(a.raw) <= len.raw
    ensures -Unit <= Div(a, len).raw <= Unit
  {
    var c := Abs(Div(a, len).raw);
    assert c * len.raw <= Abs(a.raw) * Unit <= Unit * len.raw;
    assert (c - Unit) * len.raw == c * len.raw - Unit * len.raw;
    MulAtLeast(c - Unit, len.raw);
  }

  /** The largest value of a C++ `int`. */
  const IntMax: int := 0x7FFF_FFFF

  /** `a & b` on non-negative integers, bit by bit from the lowest. */
  function BitAnd(a: nat, b: nat): nat
  {
    if a == 0 || b == 0 then 0
    else 2 * BitAnd(a / 2, b / 2) + (if a % 2 == 1 && b % 2 == 1 then 1 else 0)
  }

  /** Masking with `k` low one bits keeps the remainder modulo `2^k`. */
  lemma {:induction false} BitAndMask(a: nat, k: nat)
    ensures BitAnd(a, Pow2(k) - 1) == a % Pow2(k)
  {
    if k == 0 {
      assert Pow2(k) - 1 == 0;
    } else if a == 0 {
      ModUnique(0, Pow2(k), 0, 0);
    } else {
      var p := Pow2(k - 1);
      var m := Pow2(k) - 1;
      assert m == 2 * p - 1;
      assert m / 2 == p - 1 && m % 2 == 1;
      assert BitAnd(a, m) == 2 * BitAnd(a / 2, p - 1) + a % 2;
      BitAndMask(a / 2, k - 1);
      HalfRemainder(a, p);
      assert Pow2(k) == 2 * p;
    }
  }

  /** The remainder modulo `2p` from the remainder of the half modulo `p` and the lowest bit. */
  lemma HalfRemainder(a: nat, p: nat)
    requires p >= 1
    ensures a % (2 * p) == 2 * ((a / 2) % p) + a % 2
  {
    var h, b := a / 2, a % 2;
    var q, r := h / p, h % p;
    assert a == 2 * h + b;
    assert h == q * p + r && 0 <= r < p;
    assert 2 * (q * p) == q * (2 * p);
    ModUnique(a, 2 * p, q, 2 * r + b);
  }

  /** `2^32`: the number of values of a 32-bit `int`. */
  const Modulus32: int := 0x1_0000_0000

  /**
   * `Direction(int v)`: `v & 255` on the two's-complement 32-bit `v`,
   * read here as the unsigned value `v mod 2^32`.
   */
  function DirectionOf(v: int): int
    requires -IntMax - 1 <= v <= IntMax
  {
    BitAnd(v % Modulus32, 255)
  }

  /** The heading is the remainder of `v` modulo 256, always in 0..255. */
  lemma DirectionIsRemainder(v: int)
    requires -IntMax - 1 <= v <= IntMax
    ensures DirectionOf(v) == v % 256
    ensures 0 <= DirectionOf(v) < 256
  {
    var w := v % Modulus32;
    BitAndMask(w, 8);
    assert Pow2(8) == 256;
    var q, r := v / Modulus32, w;
    assert v == q * Modulus32 + r;
    assert v == (q * 16777216 + r / 256) * 256 + r % 256;
    ModUnique(v, 256, q * 16777216 + r / 256, r % 256);
  }
}
