/**
 * `apm_t` of game_integrated/ui_custom.h: the actions-per-minute counter.
 * A bounded history holds one entry per frame bucket, the number of
 * actions issued in it; `update` opens a bucket for the current frame when
 * it has none and averages the history, scaled from frames of 42
 * milliseconds to minutes.
 *
 * The deque is a sequence: `pop_front` drops its head, `push_back` appends.
 * Integer division is C's (`TDiv`, `TRem`).
 */
module ActionsPerMinute {
  import opened Common

  /** Frames per history bucket. */
  const Resolution: int := 1

  /** The most buckets the history keeps: ten seconds of 42-millisecond frames. */
  const HistoryLimit: nat := 10 * 1000 / 42 / Resolution

  /** Actions per bucket to actions per minute, times 256. */
  const Scale: nat := 256 * 60 * 1000 / 42 / Resolution

  /** The counter's fields as a value. */
  datatype ApmState = ApmState(history: seq<int>, currentApm: int, lastFrameDiv: int)

  /** The history is bounded and counts no negative number of actions. */
  predicate Bounded(h: seq<int>)
  {
    |h| <= HistoryLimit && forall k :: 0 <= k < |h| ==> h[k] >= 0
  }

  function Sum(h: seq<int>): int
  {
    if |h| == 0 then 0 else Sum(h[..|h| - 1]) + h[|h| - 1]
  }

  /** A new bucket at the back; at the limit the oldest bucket goes first. */
  function Push(h: seq<int>, v: int): (r: seq<int>)
    ensures |r| > 0 && r[|r| - 1] == v
    ensures |h| < HistoryLimit ==> r == h + [v]
    ensures |h| >= HistoryLimit ==> r == h[1..] + [v]
  {
    if |h| >= HistoryLimit then h[1..] + [v] else h + [v]
  }

  /** `Push` keeps the history bounded. */
  lemma PushBounded(h: seq<int>, v: int)
    requires Bounded(h) && v >= 0
    ensures Bounded(Push(h, v))
  {
  }

  /** The bucket of `frame`. */
  function Bucket(frame: int): int
  {
    TDiv(frame, Resolution)
  }

  /**
   * `add_action(frame)` as written: a frame in the current bucket adds to
   * its count, any other frame opens a bucket with one action and records
   * `frame / 12` as the current bucket.
   */
  function AfterActionAsWritten(s: ApmState, frame: int): (r: ApmState)
  {
    if |s.history| > 0 && Bucket(frame) == s.lastFrameDiv then
      s.(history := s.history[|s.history| - 1 := s.history[|s.history| - 1] + 1])
    else s.(history := Push(s.history, 1), lastFrameDiv := TDiv(frame, 12))
  }

  /**
   * Recording `frame / 12` while buckets are compared as
   * `frame / resolution` breaks the counting: two actions in frame 24 open
   * two buckets instead of counting two actions in one.
   */
  lemma AsWrittenSplitsAFrame()
    ensures var s := AfterActionAsWritten(AfterActionAsWritten(ApmState([], 0, 0), 24), 24);
      s.history == [1, 1]
  {
    var s1 := AfterActionAsWritten(ApmState([], 0, 0), 24);
    assert s1.history == [1] && s1.lastFrameDiv == 2;
    assert Bucket(24) == 24;
  }

  /**
   * `add_action(frame)` with the bucket recorded as it is compared: a frame
   * in the current bucket adds one action to it, any other frame opens a
   * bucket with one action.
   */
  function AfterAction(s: ApmState, frame: int): (r: ApmState)
    ensures r.lastFrameDiv == Bucket(frame) && r.currentApm == s.currentApm
    ensures Bounded(s.history) ==> Bounded(r.history)
    ensures |r.history| > 0
  {
    if |s.history| > 0 && Bucket(frame) == s.lastFrameDiv then
      s.(history := s.history[|s.history| - 1 := s.history[|s.history| - 1] + 1])
    else
      PushBoundedNow(s.history, 1);
      s.(history := Push(s.history, 1), lastFrameDiv := Bucket(frame))
  }

  lemma PushBoundedNow(h: seq<int>, v: int)
    requires v >= 0
    ensures Bounded(h) ==> Bounded(Push(h, v))
  {
    if Bounded(h) {
      PushBounded(h, v);
    }
  }

  /** `Sum` of a sequence whose last element grows by one grows by one. */
  lemma {:induction false} SumBumpLast(h: seq<int>)
    requires |h| > 0
    ensures Sum(h[|h| - 1 := h[|h| - 1] + 1]) == Sum(h) + 1
  {
    var g := h[|h| - 1 := h[|h| - 1] + 1];
    assert g[..|g| - 1] == h[..|h| - 1];
  }

  /** Each action is counted once: below the limit the history gains exactly one action. */
  lemma AddActionCounts(s: ApmState, frame: int)
    requires |s.history| < HistoryLimit
    ensures Sum(AfterAction(s, frame).history) == Sum(s.history) + 1
  {
    var r := AfterAction(s, frame);
    if |s.history| > 0 && Bucket(frame) == s.lastFrameDiv {
      SumBumpLast(s.history);
    } else {
      assert r.history == s.history + [1];
      assert r.history[..|r.history| - 1] == s.history;
    }
  }

  /** A second action in the same frame joins the first's bucket: no bucket is opened, one action is added. */
  lemma SameFrameJoins(s: ApmState, frame: int)
    ensures var r := AfterAction(s, frame);
      var t := AfterAction(r, frame);
      |t.history| == |r.history| && Sum(t.history) == Sum(r.history) + 1
  {
    var r := AfterAction(s, frame);
    SumBumpLast(r.history);
  }

  /**
   * `update(frame)`: a frame outside the current bucket, or an empty
   * history, opens a bucket with no actions. On a frame that starts a
   * bucket the rate is recomputed as the scaled average of the buckets.
   * The history cannot be empty by then, so the source's separate check
   * for an empty history never fires.
   */
  function AfterUpdate(s: ApmState, frame: int): (r: ApmState)
    ensures Bounded(s.history) ==> Bounded(r.history)
    ensures |r.history| > 0 && r.lastFrameDiv == Bucket(frame)
  {
    var s1 := if |s.history| == 0 || Bucket(frame) != s.lastFrameDiv then
        s.(history := Push(s.history, 0), lastFrameDiv := Bucket(frame))
      else s;
    PushBoundedNow(s.history, 0);
    if TRem(frame, Resolution) != 0 then s1
    else s1.(currentApm := Sum(s1.history) * Scale / |s1.history| / 256)
  }

  lemma {:induction false} SumNonneg(h: seq<int>)
    requires forall k :: 0 <= k < |h| ==> h[k] >= 0
    ensures Sum(h) >= 0
  {
    if |h| > 0 {
      SumNonneg(h[..|h| - 1]);
    }
  }

  lemma {:induction false} SumAtMost(h: seq<int>, m: int)
    requires forall k :: 0 <= k < |h| ==> h[k] <= m
    ensures Sum(h) <= |h| * m
  {
    if |h| > 0 {
      SumAtMost(h[..|h| - 1], m);
    }
  }

  /** With an empty history `update` brings the rate to zero: the bucket it opens holds no actions. */
  lemma UpdateEmpty(s: ApmState, frame: int)
    requires s.history == []
    ensures AfterUpdate(s, frame).currentApm == 0 && AfterUpdate(s, frame).history == [0]
  {
    var r := AfterUpdate(s, frame);
    assert r.history == [0];
    assert Sum([0]) == Sum([]) + 0 == 0;
    assert TRem(frame, Resolution) == 0;
  }

  /**
   * The rate never exceeds the rate of the busiest bucket: with at most `m`
   * actions in every bucket, `update` gives at most `m * Scale / 256`.
   */
  lemma UpdateAtMost(s: ApmState, frame: int, m: nat)
    requires Bounded(s.history) && forall k :: 0 <= k < |s.history| ==> s.history[k] <= m
    ensures 0 <= AfterUpdate(s, frame).currentApm <= m * Scale / 256
  {
    var h := AfterUpdate(s, frame).history;
    assert forall k :: 0 <= k < |h| ==> 0 <= h[k] <= m;
    SumNonneg(h);
    SumAtMost(h, m);
    AverageAtMost(Sum(h), |h|, m);
  }

  /** The scaled average of `n` buckets holding `sum` actions, at most `m` each, is at most `m * Scale / 256`. */
  lemma AverageAtMost(sum: nat, n: nat, m: nat)
    requires n > 0 && sum <= n * m
    ensures 0 <= sum * Scale / n / 256 <= m * Scale / 256
  {
    var total := sum * Scale;
    MulNonneg(n * m - sum, Scale);
    assert total <= n * (m * Scale);
    DivAtMost(total, n, m * Scale);
    DivMono(total / n, m * Scale, 256);
  }

  /** Dividing a total of at most `n * c` by `n` gives at most `c`. */
  lemma DivAtMost(t: nat, n: nat, c: nat)
    requires n > 0 && t <= n * c
    ensures t / n <= c
  {
    DivBounds(t, n);
    MulAtLeast(t / n - c, n);
    assert (t / n) * n - c * n == (t / n - c) * n;
  }

  lemma DivMono(a: nat, b: nat, d: nat)
    requires a <= b && d > 0
    ensures a / d <= b / d
  {
    DivBounds(a, d);
    DivBounds(b, d);
    MulAtLeast(a / d - b / d, d);
    assert (a / d) * d - (b / d) * d == (a / d - b / d) * d;
  }

  /** `apm_t` itself: the history, the last computed rate and the current bucket. */
  class Apm {
    var history: seq<int>
    var currentApm: int
    var lastFrameDiv: int

    function State(): ApmState
      reads this
    {
      ApmState(history, currentApm, lastFrameDiv)
    }

    ghost predicate Valid()
      reads this
    {
      Bounded(history)
    }

    constructor()
      ensures State() == ApmState([], 0, 0) && Valid()
    {
      history := [];
      currentApm := 0;
      lastFrameDiv := 0;
    }

    /** `add_action(frame)`, with the bucket recorded as it is compared. */
    method AddAction(frame: int)
      requires Valid()
      modifies this
      ensures State() == AfterAction(old(State()), frame) && Valid()
    {
      if |history| > 0 && Bucket(frame) == lastFrameDiv {
        history := history[|history| - 1 := history[|history| - 1] + 1];
      } else {
        if |history| >= HistoryLimit {
          history := history[1..];
        }
        history := history + [1];
        lastFrameDiv := Bucket(frame);
      }
    }

    /** `update(frame)`: the bucket step, then the average, summed by a loop over the history. */
    method Update(frame: int)
      requires Valid()
      modifies this
      ensures State() == AfterUpdate(old(State()), frame) && Valid()
    {
      if |history| == 0 || Bucket(frame) != lastFrameDiv {
        if |history| >= HistoryLimit {
          history := history[1..];
        }
        history := history + [0];
        lastFrameDiv := Bucket(frame);
      }
      if TRem(frame, Resolution) != 0 {
        return;
      }
      var sum := 0;
      for i := 0 to |history|
        invariant sum == Sum(history[..i])
      {
        assert history[..i + 1][..i] == history[..i];
        sum := sum + history[i];
      }
      assert history[..|history|] == history;
      currentApm := sum * Scale / |history| / 256;
    }
  }
}
