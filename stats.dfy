/**
 * The running round-trip-time accumulators of gtping.c: the sample count, the
 * sum, the sum of squares, the minimum and the maximum, kept in integer
 * microseconds. Minimum and maximum hold -1 until the first sample arrives.
 */
module RttStats {

  /** `totalTimeCount`, `totalTime`, `totalTimeSquared`, `totalMin`, `totalMax`. */
  datatype Totals = Totals(count: nat, time: int, timeSquared: int, min: int, max: int)

  /** The sentinel in `min` and `max` meaning "no sample yet". */
  const NoSample: int := -1

  /** The accumulators before any reply has been timed. */
  const Initial: Totals := Totals(0, 0, 0, NoSample, NoSample)

  /**
   * Folds one measured lag into the totals. Minimum and maximum are replaced
   * when they are negative (the sentinel test `0 > totalMin`) or when the lag
   * lies beyond them.
   */
  function AddSample(t: Totals, lag: int): (r: Totals)
    ensures r.count == t.count + 1
    ensures r.time == t.time + lag && r.timeSquared == t.timeSquared + lag * lag
    ensures r.min <= lag <= r.max
    ensures t.min < 0 ==> r.min == lag
    ensures t.max < 0 ==> r.max == lag
    ensures 0 <= t.min ==> r.min <= t.min && (r.min == t.min || r.min == lag)
    ensures 0 <= t.max ==> t.max <= r.max && (r.max == t.max || r.max == lag)
  {
    Totals(
      t.count + 1,
      t.time + lag,
      t.timeSquared + lag * lag,
      if 0 > t.min || lag < t.min then lag else t.min,
      if 0 > t.max || lag > t.max then lag else t.max)
  }

  function Sum(lags: seq<int>): (s: int)
  {
    if lags == [] then 0 else Sum(lags[..|lags| - 1]) + lags[|lags| - 1]
  }

  function SumOfSquares(lags: seq<int>): (s: int)
  {
    if lags == [] then 0 else SumOfSquares(lags[..|lags| - 1]) + lags[|lags| - 1] * lags[|lags| - 1]
  }

  /** The totals after the lags have been folded in, in arrival order. */
  function Accumulate(lags: seq<int>): (r: Totals)
    ensures r.count == |lags|
    ensures r.time == Sum(lags) && r.timeSquared == SumOfSquares(lags)
    ensures lags == [] ==> r == Initial
  {
    if lags == [] then Initial else AddSample(Accumulate(lags[..|lags| - 1]), lags[|lags| - 1])
  }

  /** Folding in one more lag is one more AddSample. */
  lemma AccumulateSnoc(lags: seq<int>, lag: int)
    ensures Accumulate(lags + [lag]) == AddSample(Accumulate(lags), lag)
  {
    assert (lags + [lag])[..|lags|] == lags;
  }

  /** Exactly one sample L gives min = max = L, sum L and sum of squares L*L. */
  lemma SingleSample(lag: int)
    ensures Accumulate([lag]) == Totals(1, lag, lag * lag, lag, lag)
  {
    assert [lag][..0] == [];
  }

  predicate AllNonNegative(lags: seq<int>)
  {
    forall i :: 0 <= i < |lags| ==> 0 <= lags[i]
  }

  /**
   * For non-negative lags the folded minimum and maximum are the least and
   * the greatest lag seen, and the sentinel is gone after the first sample.
   */
  lemma {:induction false} AccumulateBounds(lags: seq<int>)
    requires AllNonNegative(lags)
    ensures |lags| == 0 <==> Accumulate(lags).min == NoSample
    ensures |lags| == 0 <==> Accumulate(lags).max == NoSample
    ensures |lags| > 0 ==> Accumulate(lags).min in lags && Accumulate(lags).max in lags
    ensures forall i :: 0 <= i < |lags| ==> Accumulate(lags).min <= lags[i] <= Accumulate(lags).max
  {
    if lags != [] {
      var init := lags[..|lags| - 1];
      var last := lags[|lags| - 1];
      assert AllNonNegative(init);
      AccumulateBounds(init);
      var r := Accumulate(lags);
      assert r == AddSample(Accumulate(init), last);
      forall i | 0 <= i < |lags|
        ensures r.min <= lags[i] <= r.max
      {
        if i < |lags| - 1 {
          assert lags[i] == init[i];
        }
      }
      if init != [] {
        assert Accumulate(init).min in init && Accumulate(init).max in init;
      }
      assert lags == init + [last];
    }
  }

  lemma {:induction false} SumBetween(lags: seq<int>, lo: int, hi: int)
    requires forall i :: 0 <= i < |lags| ==> lo <= lags[i] <= hi
    ensures |lags| * lo <= Sum(lags) <= |lags| * hi
  {
    if lags != [] {
      var init := lags[..|lags| - 1];
      SumBetween(init, lo, hi);
      assert |lags| * lo == |init| * lo + lo;
      assert |lags| * hi == |init| * hi + hi;
    }
  }

  /**
   * For non-negative lags the mean `time / count` lies between the minimum and
   * the maximum, stated without division: count*min <= time <= count*max.
   */
  lemma MeanWithinMinMax(lags: seq<int>)
    requires AllNonNegative(lags) && lags != []
    ensures Accumulate(lags).count * Accumulate(lags).min <= Accumulate(lags).time
    ensures Accumulate(lags).time <= Accumulate(lags).count * Accumulate(lags).max
  {
    AccumulateBounds(lags);
    var r := Accumulate(lags);
    SumBetween(lags, r.min, r.max);
  }

  /**
   * A negative lag (the clock stepped back) is taken for the sentinel by the
   * next sample: whatever came before, a negative lag followed by a
   * non-negative one leaves that second lag as the minimum.
   */
  lemma NegativeMinimumIsReplaced(lags: seq<int>, neg: int, lag: int)
    requires neg < 0 <= lag
    ensures Accumulate(lags + [neg, lag]).min == lag
  {
    AccumulateSnoc(lags, neg);
    AccumulateSnoc(lags + [neg], lag);
    assert lags + [neg] + [lag] == lags + [neg, lag];
  }
}
