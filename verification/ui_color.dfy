/**
 * The colour helpers of game_integrated/ui_custom.h: a colour is a 32-bit
 * ARGB word, alpha in the top byte, then red, green and blue.
 *
 * Words and bytes are modelled as bounded integers. A right shift by `s`
 * followed by `& 0xFF` is division by 2^s followed by `% 256`; the four
 * shifted bytes `pack` ORs together occupy disjoint bit ranges, so their OR
 * is their sum.
 */
module UiColor {
  import opened Common

  type Word = x: int | 0 <= x < 0x1_0000_0000

  /** `ch(c, s)`: the byte of `c` starting at bit `s` (a shift of 32 or more is undefined in C++). */
  function Ch(c: Word, s: nat): (b: Byte)
    requires s < 32
  {
    (c / Pow2(s)) % 0x100
  }

  /** `pack(a, r, g, b)`: the four bytes side by side, alpha on top. */
  function Pack(a: Byte, r: Byte, g: Byte, b: Byte): (c: Word)
    ensures c % 0x100 == b
    ensures c / 0x100_0000 == a
  {
    a * 0x100_0000 + r * 0x1_0000 + g * 0x100 + b
  }

  lemma Powers()
    ensures Pow2(8) == 0x100 && Pow2(16) == 0x1_0000 && Pow2(24) == 0x100_0000
  {
    assert Pow2(4) == 16;
    assert Pow2(8) == 0x100;
    assert Pow2(12) == 0x1000;
    assert Pow2(16) == 0x1_0000;
    assert Pow2(20) == 0x10_0000;
  }

  /** Dividing `hi * m + lo` by `m` leaves `hi` when `lo` is below `m`. */
  lemma DivSplit(hi: nat, lo: nat, m: nat)
    requires 0 <= lo < m
    ensures (hi * m + lo) / m == hi && (hi * m + lo) % m == lo
  {
    ModUnique(hi * m + lo, m, hi, lo);
  }

  /** Each of the four bytes `pack` is given can be read back with `ch`. */
  lemma ChPack(a: Byte, r: Byte, g: Byte, b: Byte)
    ensures Ch(Pack(a, r, g, b), 24) == a
    ensures Ch(Pack(a, r, g, b), 16) == r
    ensures Ch(Pack(a, r, g, b), 8) == g
    ensures Ch(Pack(a, r, g, b), 0) == b
  {
    Powers();
    var c := Pack(a, r, g, b);
    DivSplit(a * 0x100 + r, g * 0x100 + b, 0x1_0000);
    assert c == (a * 0x100 + r) * 0x1_0000 + (g * 0x100 + b);
    DivSplit(a, r, 0x100);
    DivSplit(a * 0x1_0000 + r * 0x100 + g, b, 0x100);
    assert c == (a * 0x1_0000 + r * 0x100 + g) * 0x100 + b;
    DivSplit(a * 0x100 + r, g, 0x100);
    assert a * 0x1_0000 + r * 0x100 + g == (a * 0x100 + r) * 0x100 + g;
  }

  /** The bytes `ch` reads are those of repeated division by 256. */
  lemma ChDigits(c: Word)
    ensures Ch(c, 0) == c % 0x100
    ensures Ch(c, 8) == (c / 0x100) % 0x100
    ensures Ch(c, 16) == (c / 0x100 / 0x100) % 0x100
    ensures Ch(c, 24) == c / 0x100 / 0x100 / 0x100
  {
    Powers();
    var q1 := c / 0x100;
    var q2 := q1 / 0x100;
    var q3 := q2 / 0x100;
    assert c / 0x1_0000 == q2 by {
      DivSplit(q2, (q1 % 0x100) * 0x100 + c % 0x100, 0x1_0000);
    }
    assert c / 0x100_0000 == q3 by {
      DivSplit(q3, (q2 % 0x100) * 0x1_0000 + (q1 % 0x100) * 0x100 + c % 0x100, 0x100_0000);
    }
  }

  /** Every colour is the pack of its four bytes. */
  lemma PackCh(c: Word)
    ensures Pack(Ch(c, 24), Ch(c, 16), Ch(c, 8), Ch(c, 0)) == c
  {
    ChDigits(c);
    var q1 := c / 0x100;
    var q2 := q1 / 0x100;
    assert c == q1 * 0x100 + c % 0x100;
    assert q1 == q2 * 0x100 + q1 % 0x100;
    assert q2 == (q2 / 0x100) * 0x100 + q2 % 0x100;
  }

  /** One channel of the blend: `(s * a + d * (255 - a)) / 255`. */
  function Mix(s: Byte, d: Byte, a: Byte): (m: Byte)
    ensures s <= d ==> s <= m <= d
    ensures d <= s ==> d <= m <= s
  {
    MixBetween(s, d, a);
    (s * a + d * (0xFF - a)) / 0xFF
  }

  /** The weighted sum of `Mix` lies between 255 times each channel. */
  lemma MixBetween(s: Byte, d: Byte, a: Byte)
    ensures s <= d ==> s * 0xFF <= s * a + d * (0xFF - a) <= d * 0xFF
    ensures d <= s ==> d * 0xFF <= s * a + d * (0xFF - a) <= s * 0xFF
  {
    var t := s * a + d * (0xFF - a);
    if s <= d {
      assert t == s * 0xFF + (d - s) * (0xFF - a);
      assert t == d * 0xFF - (d - s) * a;
      MulNonneg(d - s, 0xFF - a);
      MulNonneg(d - s, a);
    } else {
      assert t == d * 0xFF + (s - d) * a;
      assert t == s * 0xFF - (s - d) * (0xFF - a);
      MulNonneg(s - d, a);
      MulNonneg(s - d, 0xFF - a);
    }
  }

  /**
   * `alpha_blend_over(dst, src)`: a transparent source leaves `dst`, an
   * opaque one replaces it; otherwise each of red, green and blue is the
   * alpha-weighted mix of the two, and the result is opaque.
   */
  function AlphaBlendOver(dst: Word, src: Word): (c: Word)
    ensures Ch(src, 24) == 0 ==> c == dst
    ensures Ch(src, 24) == 0xFF ==> c == src
  {
    var sa := Ch(src, 24);
    if sa == 0 then dst
    else if sa == 0xFF then src
    else Pack(0xFF, Mix(Ch(src, 16), Ch(dst, 16), sa), Mix(Ch(src, 8), Ch(dst, 8), sa), Mix(Ch(src, 0), Ch(dst, 0), sa))
  }

  /** `x` lies between `p` and `q`, whichever is the larger. */
  predicate Between(x: int, p: int, q: int)
  {
    (p <= x <= q) || (q <= x <= p)
  }

  /**
   * A partly transparent source gives an opaque colour whose red, green
   * and blue each lie between the source's and the destination's.
   */
  lemma BlendBetween(dst: Word, src: Word)
    requires 0 < Ch(src, 24) < 0xFF
    ensures var c := AlphaBlendOver(dst, src);
      Ch(c, 24) == 0xFF &&
      Between(Ch(c, 16), Ch(src, 16), Ch(dst, 16)) &&
      Between(Ch(c, 8), Ch(src, 8), Ch(dst, 8)) &&
      Between(Ch(c, 0), Ch(src, 0), Ch(dst, 0))
  {
    var sa := Ch(src, 24);
    var r, g, b := Mix(Ch(src, 16), Ch(dst, 16), sa), Mix(Ch(src, 8), Ch(dst, 8), sa), Mix(Ch(src, 0), Ch(dst, 0), sa);
    ChPack(0xFF, r, g, b);
  }
}
