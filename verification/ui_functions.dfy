/**
 * Small computations of the interface in game_integrated/ui_custom.h: the
 * depth key sprites are drawn by, the width of a unit's health bar and of
 * its filled part, the rank label and the master volume.
 */
module UiFunctions {
  import opened Common

  /** A C++ `int` converted to `uint32_t`: its value modulo 2^32. */
  function Wrap(x: int): bv32
  {
    (x % 0x1_0000_0000) as bv32
  }

  /**
   * `sprite_depth_order(sprite)`: the elevation, shifted left by 13, ORed
   * with the y coordinate when the elevation is at most 4, shifted left by
   * one more bit and ORed with the turret flag.
   */
  function DepthOrder(elevation: int, y: int, turret: bool): (score: bv32)
    ensures score & 1 == if turret then 1 else 0
    ensures elevation > 4 ==> (score >> 1) & 0x1FFF == 0
  {
    DepthKey(Wrap(elevation), if elevation <= 4 then Wrap(y) else 0, turret)
  }

  /** The word `sprite_depth_order` builds from the elevation's word, the y term's word and the flag. */
  function DepthKey(elevation: bv32, yTerm: bv32, turret: bool): (score: bv32)
    ensures score & 1 == if turret then 1 else 0
    ensures yTerm == 0 ==> (score >> 1) & 0x1FFF == 0
  {
    var score: bv32 := 0 | elevation;
    var score := score << 13;
    var score := score | yTerm;
    var score := score << 1;
    score | (if turret then 1 else 0)
  }

  /**
   * With an elevation of 18 bits and a y term of 13 the three fields do not
   * overlap: the key is the elevation times 2^14 plus the y term times 2
   * plus the turret bit.
   */
  lemma DepthKeyFields(e: bv32, y: bv32, t: bool)
    requires e < 0x4_0000 && y < 0x2000
    ensures DepthKey(e, y, t) == e * 0x4000 + y * 2 + (if t then 1 else 0)
  {
  }

  /**
   * The key orders sprites by elevation first, then by the y term, and
   * turrets after the rest.
   */
  lemma DepthKeySorts(e1: bv32, y1: bv32, t1: bool, e2: bv32, y2: bv32, t2: bool)
    requires e1 < 0x4_0000 && e2 < 0x4_0000 && y1 < 0x2000 && y2 < 0x2000
    ensures e1 < e2 ==> DepthKey(e1, y1, t1) < DepthKey(e2, y2, t2)
    ensures e1 == e2 && y1 < y2 ==> DepthKey(e1, y1, t1) < DepthKey(e2, y2, t2)
    ensures e1 == e2 && y1 == y2 && !t1 && t2 ==> DepthKey(e1, y1, t1) < DepthKey(e2, y2, t2)
  {
    DepthKeyFields(e1, y1, t1);
    DepthKeyFields(e2, y2, t2);
  }

  /**
   * The health bar's width: the sprite type's bar size rounded down to one
   * more than a multiple of three (C's `%`), and at least 19.
   */
  function BarWidth(size: int): (w: int)
    ensures w >= 19 && w % 3 == 1
    ensures size >= 19 ==> w <= size < w + 3
    ensures size < 19 ==> w == 19
  {
    var w := size - TRem(size - 1, 3);
    if w < 19 then 19 else w
  }

  /**
   * `filled_width(percent)`: `percent` of the bar's width, truncated, then
   * at least 3 and otherwise rounded to the nearest multiple of three.
   */
  function FilledWidth(percent: int, width: int): (r: int)
    ensures r >= 3 && r % 3 == 0
  {
    var raw := TDiv(percent * width, 100);
    if raw < 3 then 3
    else if TRem(raw, 3) != 0 then
      if TRem(raw, 3) > 1 then raw + (3 - TRem(raw, 3)) else raw - TRem(raw, 3)
    else raw
  }

  /**
   * The filled part is the nearest multiple of three to the exact share,
   * never less than 3, and for a percentage between 0 and 100 it stays
   * inside the bar: at most the width less one.
   */
  lemma FilledWidthFits(percent: int, width: int)
    requires 0 <= percent <= 100 && width >= 19 && width % 3 == 1
    ensures var raw := (percent * width) / 100;
      var r := FilledWidth(percent, width);
      (raw >= 3 ==> raw - 1 <= r <= raw + 1) && r <= width - 1
  {
    var raw := TDiv(percent * width, 100);
    MulNonneg(percent, width);
    assert raw == (percent * width) / 100;
    assert percent * width <= 100 * width by {
      MulNonneg(100 - percent, width);
    }
    assert raw <= width;
    assert TRem(raw, 3) == raw % 3;
  }

  /** A larger percentage never fills less of the bar. */
  lemma FilledWidthMonotone(p1: int, p2: int, width: int)
    requires 0 <= p1 <= p2 && width >= 0
    ensures FilledWidth(p1, width) <= FilledWidth(p2, width)
  {
    MulNonneg(p1, width);
    MulNonneg(p2 - p1, width);
    var a, b := (p1 * width) / 100, (p2 * width) / 100;
    assert TDiv(p1 * width, 100) == a && TDiv(p2 * width, 100) == b;
    DivMono(p1 * width, p2 * width, 100);
    assert a >= 3 ==> TRem(a, 3) == a % 3;
    assert b >= 3 ==> TRem(b, 3) == b % 3;
  }

  lemma DivMono(a: nat, b: nat, d: nat)
    requires a <= b && d > 0
    ensures a / d <= b / d
  {
    DivBounds(a, d);
    DivBounds(b, d);
    MulAtLeast(a / d - b / d, d);
    assert (a / d) * d - (b / d) * d == (a / d - b / d) * d;
  }

  /**
   * `get_unit_rank_name(rank_increase)`: no label for rank 0, "+1" to "+3"
   * for ranks 1 to 3, and "+3" for anything else, negative ranks included.
   */
  function RankName(rankIncrease: int): (name: string)
    ensures name == "" <==> rankIncrease == 0
    ensures name in {"", "+1", "+2", "+3"}
    ensures 1 <= rankIncrease <= 3 ==> name == "+" + [(('0' as int) + rankIncrease) as char]
    ensures (rankIncrease < 0 || rankIncrease > 3) ==> name == "+3"
  {
    match rankIncrease
    case 0 => ""
    case 1 => "+1"
    case 2 => "+2"
    case 3 => "+3"
    case _ => "+3"
  }

  /** A sound channel: whether it plays, and its own volume in percent. */
  datatype Channel = Channel(playing: bool, volume: int)

  /** `x` clamped to `[lo, hi]`. */
  function Clamp(x: int, lo: int, hi: int): (r: int)
    requires lo <= hi
    ensures lo <= r <= hi
    ensures lo <= x <= hi ==> r == x
    ensures x < lo ==> r == lo
    ensures x > hi ==> r == hi
  {
    if x < lo then lo else if x > hi then hi else x
  }

  /** The level a channel is set to: its volume scaled by the master volume, out of 124. */
  function Level(channelVolume: int, globalVolume: int): (level: int)
    ensures 0 <= channelVolume <= 100 && 0 <= globalVolume <= 100 ==> 0 <= level <= 124
  {
    LevelRange(channelVolume, globalVolume);
    TDiv((128 - 4) * TDiv(channelVolume * globalVolume, 100), 100)
  }

  lemma LevelRange(channelVolume: int, globalVolume: int)
    ensures 0 <= channelVolume <= 100 && 0 <= globalVolume <= 100 ==>
      0 <= TDiv((128 - 4) * TDiv(channelVolume * globalVolume, 100), 100) <= 124
  {
    if 0 <= channelVolume <= 100 && 0 <= globalVolume <= 100 {
      var p := channelVolume * globalVolume;
      MulNonneg(channelVolume, globalVolume);
      MulNonneg(100 - channelVolume, globalVolume);
      MulNonneg(100 - globalVolume, 100);
      assert p <= 100 * 100;
      var q := TDiv(p, 100);
      assert q == p / 100;
      DivMono(p, 100 * 100, 100);
      assert 0 <= q <= 100;
      MulNonneg(q, 124);
      MulNonneg(100 - q, 124);
      DivMono(124 * q, 124 * 100, 100);
    }
  }

  /** A call of the native volume setter: a channel's index and the level it is set to. */
  datatype Call = Call(channel: nat, level: int)

  /** The calls `set_volume` makes, in channel order: one for each playing channel. */
  function Levels(channels: seq<Channel>, globalVolume: int): (calls: seq<Call>)
    ensures |calls| <= |channels|
    ensures forall k :: 0 <= k < |calls| ==> calls[k].channel < |channels| && channels[calls[k].channel].playing
    ensures forall k :: 0 <= k < |calls| ==> calls[k].level == Level(channels[calls[k].channel].volume, globalVolume)
    decreases |channels|
  {
    if |channels| == 0 then []
    else
      var last := |channels| - 1;
      var calls := Levels(channels[..last], globalVolume);
      if channels[last].playing then calls + [Call(last, Level(channels[last].volume, globalVolume))] else calls
  }

  /** Every playing channel gets a call, at its own level. */
  lemma {:induction false} LevelsCover(channels: seq<Channel>, globalVolume: int)
    ensures forall i :: 0 <= i < |channels| && channels[i].playing ==>
      Call(i, Level(channels[i].volume, globalVolume)) in Levels(channels, globalVolume)
    decreases |channels|
  {
    if |channels| > 0 {
      var last := |channels| - 1;
      var front := channels[..last];
      LevelsCover(front, globalVolume);
      var calls := Levels(channels, globalVolume);
      var before := Levels(front, globalVolume);
      assert forall x :: x in before ==> x in calls;
      forall i | 0 <= i < last && channels[i].playing
        ensures Call(i, Level(channels[i].volume, globalVolume)) in calls
      {
        assert front[i] == channels[i];
      }
    }
  }

  /** The calls come in strictly increasing channel order, so no channel is set twice. */
  lemma {:induction false} LevelsOrdered(channels: seq<Channel>, globalVolume: int)
    ensures forall k, l :: 0 <= k < l < |Levels(channels, globalVolume)| ==>
      Levels(channels, globalVolume)[k].channel < Levels(channels, globalVolume)[l].channel
    decreases |channels|
  {
    if |channels| > 0 {
      var last := |channels| - 1;
      var front := channels[..last];
      LevelsOrdered(front, globalVolume);
      var calls := Levels(channels, globalVolume);
      var before := Levels(front, globalVolume);
      forall k, l | 0 <= k < l < |calls|
        ensures calls[k].channel < calls[l].channel
      {
        assert calls[k] == before[k];
        if l < |before| {
          assert calls[l] == before[l];
        } else {
          assert before[k].channel < |front|;
          assert calls[l].channel == last;
        }
      }
    }
  }

  /** The sound state `set_volume` works on. */
  class Mixer {
    var globalVolume: int
    var channels: seq<Channel>

    /**
     * `set_volume(volume)`: the master volume is clamped to 0..100 and each
     * playing channel is set to its level; the levels sent are returned.
     */
    method SetVolume(volume: int) returns (calls: seq<Call>)
      modifies this`globalVolume
      ensures globalVolume == Clamp(volume, 0, 100)
      ensures calls == Levels(channels, globalVolume)
    {
      var v := volume;
      if v < 0 {
        v := 0;
      } else if v > 100 {
        v := 100;
      }
      globalVolume := v;
      calls := [];
      for i := 0 to |channels|
        invariant calls == Levels(channels[..i], globalVolume)
      {
        assert channels[..i + 1][..i] == channels[..i];
        if channels[i].playing {
          calls := calls + [Call(i, Level(channels[i].volume, globalVolume))];
        }
      }
      assert channels[..|channels|] == channels;
    }
  }
}
