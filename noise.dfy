/**
 * Noise-scan detection (`find_noise_scans`): a volume whose voxel variance
 * lies strictly below `median - madThresh * MAD` of all the volumes'
 * variances is classified as a noise (calibration) scan.
 */
module Noise {
  import opened Statistics

  /** One 3-D volume, its voxels flattened; a volume has at least one voxel. */
  type Volume = v: seq<real> | |v| > 0 witness [0.0]

  /** The diagnostic record `find_noise_scans` returns. */
  datatype NoiseDetectionResult = NoiseDetectionResult(
    noiseIndices: seq<nat>,
    variances: seq<real>,
    threshold: real,
    mad: real,
    medianVariance: real)

  /** `np.var(data, axis=(0, 1, 2))`: one population variance per volume. */
  function Variances(series: seq<Volume>): (r: seq<real>)
    ensures |r| == |series|
    ensures forall i :: 0 <= i < |r| ==> r[i] == Variance(series[i]) && r[i] >= 0.0
  {
    seq(|series|, i requires 0 <= i < |series| => Variance(series[i]))
  }

  /** `abs(x - centre)`. */
  function AbsDeviation(x: real, centre: real): (r: real)
    ensures r >= 0.0
    ensures r == x - centre || r == centre - x
    ensures r == 0.0 <==> x == centre
  {
    if x >= centre then x - centre else centre - x
  }

  /**
   * `np.abs(values - centre)`: one deviation per value, in order, never
   * negative, and zero exactly where the value is the centre.
   */
  function AbsDeviations(values: seq<real>, centre: real): (r: seq<real>)
    ensures |r| == |values|
    ensures forall i :: 0 <= i < |r| ==> r[i] == AbsDeviation(values[i], centre)
    ensures forall i :: 0 <= i < |r| ==> r[i] >= 0.0
    ensures forall i :: 0 <= i < |r| ==> (r[i] == 0.0 <==> values[i] == centre)
  {
    seq(|values|, i requires 0 <= i < |values| => AbsDeviation(values[i], centre))
  }

  /** The unscaled median absolute deviation: no 1.4826 consistency factor. */
  function Mad(values: seq<real>): (r: real)
    requires |values| > 0
    ensures r >= 0.0
  {
    var deviations := AbsDeviations(values, Median(values));
    MedianAtLeast(deviations, 0.0);
    Median(deviations)
  }

  /** A strictly ascending sequence of indices. */
  predicate StrictlyAscending(s: seq<nat>)
  {
    forall i, j :: 0 <= i < j < |s| ==> s[i] < s[j]
  }

  /**
   * `np.where(values < threshold)[0]` restricted to the indices `from..|values|`:
   * the positions whose value is strictly below the threshold, in ascending order.
   */
  function IndicesBelow(values: seq<real>, threshold: real, from: nat): (r: seq<nat>)
    requires from <= |values|
    ensures StrictlyAscending(r)
    ensures forall k :: 0 <= k < |r| ==> from <= r[k] < |values|
    ensures forall i :: 0 <= i < |values| ==> (i in r <==> from <= i && values[i] < threshold)
    decreases |values| - from
  {
    if from == |values| then []
    else if values[from] < threshold then [from] + IndicesBelow(values, threshold, from + 1)
    else IndicesBelow(values, threshold, from + 1)
  }

  /**
   * `median - madThresh * mad`: with a non-negative multiplier it never
   * exceeds the median, and it is the median itself when the MAD is zero.
   */
  function Threshold(median: real, madThresh: real, mad: real): (t: real)
    ensures madThresh >= 0.0 && mad >= 0.0 ==> t <= median
    ensures mad == 0.0 ==> t == median
    ensures madThresh == 0.0 ==> t == median
  {
    ProductFacts(madThresh, mad);
    median - madThresh * mad
  }

  /** When no value from `from` on is below the threshold, nothing is reported. */
  lemma {:induction false} IndicesBelowNone(values: seq<real>, threshold: real, from: nat)
    requires from <= |values|
    requires forall i :: from <= i < |values| ==> values[i] >= threshold
    ensures IndicesBelow(values, threshold, from) == []
    decreases |values| - from
  {
    if from < |values| {
      IndicesBelowNone(values, threshold, from + 1);
    }
  }

  /**
   * `find_noise_scans` on the loaded series, with the default multiplier 50.
   * The series must hold at least one volume (NumPy answers NaN for the
   * median of nothing).
   */
  function FindNoiseScans(series: seq<Volume>, madThresh: real := 50.0): (r: NoiseDetectionResult)
    requires |series| > 0
    ensures |r.variances| == |series|
    ensures forall i :: 0 <= i < |series| ==> r.variances[i] == Variance(series[i])
    ensures r.medianVariance == Median(r.variances)
    ensures r.mad == Median(AbsDeviations(r.variances, r.medianVariance)) && r.mad >= 0.0
    ensures r.threshold == Threshold(r.medianVariance, madThresh, r.mad)
    ensures StrictlyAscending(r.noiseIndices)
    ensures forall k :: 0 <= k < |r.noiseIndices| ==> r.noiseIndices[k] < |series|
    ensures forall i :: 0 <= i < |series| ==> (i in r.noiseIndices <==> r.variances[i] < r.threshold)
  {
    var variances := Variances(series);
    var medianVariance := Median(variances);
    var mad := Mad(variances);
    var threshold := Threshold(medianVariance, madThresh, mad);
    NoiseDetectionResult(IndicesBelow(variances, threshold, 0), variances, threshold, mad, medianVariance)
  }

  // ---------------------------------------------------------------------
  // Properties of the detector

  lemma ProductNonNegative(a: real, b: real)
    requires a >= 0.0 && b >= 0.0
    ensures a * b >= 0.0
  {
  }

  lemma ProductWithZero(a: real, b: real)
    requires b == 0.0
    ensures a * b == 0.0 && b * a == 0.0
  {
  }

  /** The sign facts about `a * b` the threshold needs. */
  lemma ProductFacts(a: real, b: real)
    ensures a >= 0.0 && b >= 0.0 ==> a * b >= 0.0
    ensures a == 0.0 || b == 0.0 ==> a * b == 0.0
  {
    if a >= 0.0 && b >= 0.0 {
      ProductNonNegative(a, b);
    }
    if b == 0.0 {
      ProductWithZero(a, b);
    } else if a == 0.0 {
      ProductWithZero(b, a);
    }
  }

  /** Every variance is non-negative, and a constant-valued volume has variance zero. */
  lemma VariancesNonNegative(series: seq<Volume>, madThresh: real, i: nat)
    requires |series| > 0 && i < |series|
    ensures FindNoiseScans(series, madThresh).variances[i] >= 0.0
    ensures Constant(series[i]) ==> FindNoiseScans(series, madThresh).variances[i] == 0.0
  {
    if Constant(series[i]) {
      VarianceOfConstant(series[i]);
    }
  }

  /** With a non-negative multiplier the threshold never exceeds the median variance. */
  lemma ThresholdAtMostMedian(series: seq<Volume>, madThresh: real)
    requires |series| > 0 && madThresh >= 0.0
    ensures FindNoiseScans(series, madThresh).threshold <= FindNoiseScans(series, madThresh).medianVariance
  {
  }

  /** With a non-negative multiplier no volume at or above the median variance is flagged. */
  lemma NoFlagAtOrAboveMedian(series: seq<Volume>, madThresh: real, i: nat)
    requires |series| > 0 && madThresh >= 0.0 && i < |series|
    requires FindNoiseScans(series, madThresh).variances[i] >= FindNoiseScans(series, madThresh).medianVariance
    ensures i !in FindNoiseScans(series, madThresh).noiseIndices
  {
    ThresholdAtMostMedian(series, madThresh);
  }

  /** With multiplier zero, exactly the volumes strictly below the median variance are flagged. */
  lemma ZeroMultiplierFlagsBelowMedian(series: seq<Volume>, i: nat)
    requires |series| > 0 && i < |series|
    ensures var r := FindNoiseScans(series, 0.0);
      i in r.noiseIndices <==> r.variances[i] < r.medianVariance
  {
  }

  /**
   * When every volume has the same variance, the MAD is zero, the threshold
   * is the median variance and nothing is flagged, whatever the multiplier.
   */
  lemma UniformVariancesFlagNothing(series: seq<Volume>, madThresh: real)
    requires |series| > 0
    requires forall i :: 0 <= i < |series| ==> Variance(series[i]) == Variance(series[0])
    ensures var r := FindNoiseScans(series, madThresh);
      r.mad == 0.0 && r.threshold == r.medianVariance && r.noiseIndices == []
  {
    var r := FindNoiseScans(series, madThresh);
    var c := Variance(series[0]);
    MedianOfConstant(r.variances, c);
    var deviations := AbsDeviations(r.variances, r.medianVariance);
    MedianOfConstant(deviations, 0.0);
    IndicesBelowNone(r.variances, r.threshold, 0);
  }

  /** A one-volume series: MAD zero, threshold equal to that volume's variance, nothing flagged. */
  lemma SingleVolumeFlagsNothing(series: seq<Volume>, madThresh: real)
    requires |series| == 1
    ensures var r := FindNoiseScans(series, madThresh);
      && r.mad == 0.0
      && r.threshold == r.medianVariance == Variance(series[0])
      && r.noiseIndices == []
  {
    UniformVariancesFlagNothing(series, madThresh);
    MedianOfConstant(FindNoiseScans(series, madThresh).variances, Variance(series[0]));
  }

  /** Flagging is downward closed: a volume with no more variance than a flagged one is flagged too. */
  lemma FlaggedBelowFlagged(series: seq<Volume>, madThresh: real, i: nat, j: nat)
    requires |series| > 0 && i < |series| && j < |series|
    requires i in FindNoiseScans(series, madThresh).noiseIndices
    requires Variance(series[j]) <= Variance(series[i])
    ensures j in FindNoiseScans(series, madThresh).noiseIndices
  {
  }

  /** A series of constant-valued volumes (zero variance everywhere) has no noise scans. */
  lemma ConstantVolumesFlagNothing(series: seq<Volume>, madThresh: real)
    requires |series| > 0
    requires forall i :: 0 <= i < |series| ==> Constant(series[i])
    ensures FindNoiseScans(series, madThresh).noiseIndices == []
  {
    forall i | 0 <= i < |series|
      ensures Variance(series[i]) == 0.0
    {
      VarianceOfConstant(series[i]);
    }
    UniformVariancesFlagNothing(series, madThresh);
  }

  /**
   * The median variance, the MAD and the threshold do not depend on the
   * order of the volumes.
   */
  lemma StatisticsIgnoreVolumeOrder(series: seq<Volume>, reordered: seq<Volume>, madThresh: real)
    requires |series| > 0
    requires multiset(series) == multiset(reordered)
    ensures |reordered| > 0
    ensures var r, q := FindNoiseScans(series, madThresh), FindNoiseScans(reordered, madThresh);
      r.medianVariance == q.medianVariance && r.mad == q.mad && r.threshold == q.threshold
  {
    assert |series| == |multiset(series)| == |multiset(reordered)| == |reordered|;
    VariancesPermutation(series, reordered);
    var v, w := Variances(series), Variances(reordered);
    MedianPermutation(v, w);
    AbsDeviationsPermutation(v, w, Median(v));
    MedianPermutation(AbsDeviations(v, Median(v)), AbsDeviations(w, Median(w)));
  }

  /** Mapping `Variance` over two arrangements of the same volumes gives two arrangements of the same values. */
  lemma {:induction false} VariancesPermutation(series: seq<Volume>, reordered: seq<Volume>)
    requires multiset(series) == multiset(reordered)
    ensures multiset(Variances(series)) == multiset(Variances(reordered))
    decreases |series|
  {
    assert |series| == |multiset(series)| == |multiset(reordered)| == |reordered|;
    if series != [] {
      var x := series[0];
      assert x in multiset(reordered);
      var k :| 0 <= k < |reordered| && reordered[k] == x;
      var rest := reordered[..k] + reordered[k + 1..];
      RemoveMatching(series, reordered, k);
      VariancesPermutation(series[1..], rest);
      VariancesSplit(reordered, k);
      assert Variances(series) == [Variance(x)] + Variances(series[1..]);
    }
  }

  /** Taking the `k`-th volume out of a series takes its variance out of the variances. */
  lemma VariancesSplit(series: seq<Volume>, k: nat)
    requires k < |series|
    ensures multiset(Variances(series))
      == multiset(Variances(series[..k] + series[k + 1..])) + multiset{Variance(series[k])}
  {
    var v := Variances(series);
    var w := Variances(series[..k] + series[k + 1..]);
    assert w == v[..k] + v[k + 1..];
    assert v == v[..k] + [v[k]] + v[k + 1..];
  }

  /** Taking the `k`-th value out takes its deviation out of the deviations. */
  lemma AbsDeviationsSplit(values: seq<real>, k: nat, centre: real)
    requires k < |values|
    ensures multiset(AbsDeviations(values, centre))
      == multiset(AbsDeviations(values[..k] + values[k + 1..], centre)) + multiset{AbsDeviations(values, centre)[k]}
  {
    var d := AbsDeviations(values, centre);
    var e := AbsDeviations(values[..k] + values[k + 1..], centre);
    assert e == d[..k] + d[k + 1..];
    assert d == d[..k] + [d[k]] + d[k + 1..];
  }

  /** Absolute deviations from one centre, taken over two arrangements of the same values. */
  lemma {:induction false} AbsDeviationsPermutation(v: seq<real>, w: seq<real>, centre: real)
    requires multiset(v) == multiset(w)
    ensures multiset(AbsDeviations(v, centre)) == multiset(AbsDeviations(w, centre))
    decreases |v|
  {
    assert |v| == |multiset(v)| == |multiset(w)| == |w|;
    if v != [] {
      var x := v[0];
      assert x in multiset(w);
      var k :| 0 <= k < |w| && w[k] == x;
      var rest := w[..k] + w[k + 1..];
      RemoveMatching(v, w, k);
      AbsDeviationsPermutation(v[1..], rest, centre);
      var dv, dw := AbsDeviations(v, centre), AbsDeviations(w, centre);
      AbsDeviationsSplit(w, k, centre);
      assert multiset(dw) == multiset(AbsDeviations(rest, centre)) + multiset{dw[k]};
      assert dv == [dv[0]] + AbsDeviations(v[1..], centre);
      assert dv[0] == dw[k];
    }
  }

  /** Taking the head of `a` and a matching element of `b` out of equal multisets leaves equal multisets. */
  lemma RemoveMatching<T>(a: seq<T>, b: seq<T>, k: nat)
    requires |a| > 0 && k < |b| && b[k] == a[0]
    requires multiset(a) == multiset(b)
    ensures multiset(a[1..]) == multiset(b[..k] + b[k + 1..])
  {
    assert a == [a[0]] + a[1..];
    assert b == b[..k] + [b[k]] + b[k + 1..];
    assert multiset(a[1..]) == multiset(a) - multiset{a[0]};
    assert multiset(b[..k] + b[k + 1..]) == multiset(b) - multiset{b[k]};
  }
}
