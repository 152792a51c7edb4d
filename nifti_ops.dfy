/**
 * The array and file-name side of `nifti_ops`: splitting a 4-D series at
 * the first noise index (`split_4d_nifti`) and the `.nii` to `.nii.gz`
 * name rule of `gzip_nii`, with its effect on the set of files on disk.
 */
module NiftiOps {
  import opened Wrappers
  import opened Strings
  import opened Noise
  import opened Statistics

  /** Where a Python slice bound `n` lands in a sequence of length `len` (`a[:n]`). */
  function SliceBound(n: int, len: nat): (r: nat)
    ensures r <= len
    ensures 0 <= n <= len ==> r == n
    ensures n > len ==> r == len
    ensures n < 0 ==> r + (-n) == len || (r == 0 && -n >= len)
  {
    if n < 0 then (if len + n < 0 then 0 else len + n)
    else if n > len then len
    else n
  }

  /** The pair `split_4d_nifti` returns, volumes along the last axis. */
  datatype SplitResult<V> = SplitResult(functional: seq<V>, noise: Option<seq<V>>)

  /**
   * `split_4d_nifti` on loaded data: with no noise indices the data is
   * returned whole and the noise part is `None`; otherwise the series is cut
   * at the first noise index, everything from there on being noise.
   */
  function Split4d<V>(data: seq<V>, noiseInds: seq<int>): (r: SplitResult<V>)
    ensures noiseInds == [] ==> r.functional == data && r.noise == None
    ensures noiseInds != [] ==> r.noise.Some? && r.functional + r.noise.value == data
    ensures noiseInds != [] ==> |r.functional| == SliceBound(noiseInds[0], |data|)
  {
    if |noiseInds| > 0 then
      var cut := SliceBound(noiseInds[0], |data|);
      assert data[..cut] + data[cut..] == data;
      SplitResult(data[..cut], Some(data[cut..]))
    else
      SplitResult(data, None)
  }

  /** Only the first noise index matters. */
  lemma SplitUsesFirstIndexOnly<V>(data: seq<V>, a: seq<int>, b: seq<int>)
    requires a != [] && b != [] && a[0] == b[0]
    ensures Split4d(data, a) == Split4d(data, b)
  {
    var r, q := Split4d(data, a), Split4d(data, b);
    assert r.functional == data[..|r.functional|] && q.functional == data[..|q.functional|];
    assert r.noise.value == data[|r.functional|..] && q.noise.value == data[|q.functional|..];
  }

  /** An in-range cut keeps the volumes before it, in order, and puts the rest in the noise part. */
  lemma SplitAtIndex<V>(data: seq<V>, noiseInds: seq<int>)
    requires noiseInds != [] && 0 <= noiseInds[0] <= |data|
    ensures var r := Split4d(data, noiseInds);
      && r.functional == data[..noiseInds[0]]
      && r.noise == Some(data[noiseInds[0]..])
  {
    var r := Split4d(data, noiseInds);
    assert r.functional == data[..|r.functional|];
    assert r.noise.value == data[|r.functional|..];
  }

  /**
   * Split driven by the detector: if the flagged volumes start at `c`, no
   * flagged volume is left among the functional ones, every flagged volume
   * is in the noise part, and the noise part holds every volume from `c` on,
   * flagged or not.
   */
  lemma DetectedSplit(series: seq<Volume>, madThresh: real)
    requires |series| > 0
    ensures var d := FindNoiseScans(series, madThresh);
      var r := Split4d(series, IndexList(d.noiseIndices));
      && (d.noiseIndices == [] ==> r.functional == series && r.noise == None)
      && (d.noiseIndices != [] ==>
            && r.functional == series[..d.noiseIndices[0]]
            && r.noise == Some(series[d.noiseIndices[0]..])
            && (forall i :: 0 <= i < |r.functional| ==> i !in d.noiseIndices)
            && (forall k :: 0 <= k < |d.noiseIndices| ==> d.noiseIndices[k] >= |r.functional|))
  {
    var d := FindNoiseScans(series, madThresh);
    var inds := IndexList(d.noiseIndices);
    if d.noiseIndices != [] {
      SplitAtIndex(series, inds);
      var r := Split4d(series, inds);
    }
  }

  /**
   * The detector's indices as the integer array `split_4d_nifti` receives:
   * the same indices in the same order, none negative, so an ascending list
   * stays ascending and its first entry is its least.
   */
  function IndexList(inds: seq<nat>): (r: seq<int>)
    ensures |r| == |inds|
    ensures forall k :: 0 <= k < |r| ==> r[k] == inds[k] as int
    ensures forall k :: 0 <= k < |r| ==> r[k] >= 0
    ensures forall i: int :: i in r <==> i >= 0 && i as nat in inds
    ensures StrictlyAscending(inds) ==> forall k :: 0 < k < |r| ==> r[0] < r[k]
  {
    seq(|inds|, k requires 0 <= k < |inds| => inds[k] as int)
  }

  /**
   * An unflagged volume that follows a flagged one still lands in the noise
   * part: the split is positional and assumes the noise volumes are appended
   * at the end of the run.
   */
  lemma UnflaggedAfterCutIsNoise(series: seq<Volume>, madThresh: real, j: nat)
    requires |series| > 0 && j < |series|
    requires var d := FindNoiseScans(series, madThresh);
      d.noiseIndices != [] && d.noiseIndices[0] <= j
    ensures var d := FindNoiseScans(series, madThresh);
      var r := Split4d(series, IndexList(d.noiseIndices));
      r.noise.Some? && series[j] == r.noise.value[j - d.noiseIndices[0]]
  {
    DetectedSplit(series, madThresh);
  }

  /**
   * The gap made concrete.  In `GapSeries`, volumes 0 and 2 have
   * variance 1 and volume 1 has variance 0.  With multiplier 0 only the middle
   * volume is flagged, yet the cut at index 1 sends the unflagged volume 2
   * to the noise block as well.
   */
  const GapSeries: seq<Volume> := [[0.0, 2.0], [1.0, 1.0], [0.0, 2.0]]

  lemma MiddleFlagSendsLaterVolumeToNoise()
    ensures var d := FindNoiseScans(GapSeries, 0.0);
      var r := Split4d(GapSeries, IndexList(d.noiseIndices));
      && d.noiseIndices == [1]
      && 2 !in d.noiseIndices
      && r.functional == [GapSeries[0]]
      && r.noise == Some([GapSeries[1], GapSeries[2]])
  {
    var d := FindNoiseScans(GapSeries, 0.0);
    assert d.noiseIndices == [1] by { GapDetection(); }
    var inds := IndexList(d.noiseIndices);
    assert inds == [1];
    SplitAtIndex(GapSeries, inds);
  }

  /** On `GapSeries` with multiplier 0 the detector flags the middle volume alone. */
  lemma GapDetection()
    ensures FindNoiseScans(GapSeries, 0.0).noiseIndices == [1]
  {
    var d := FindNoiseScans(GapSeries, 0.0);
    assert d.variances == [1.0, 0.0, 1.0] by { WitnessVariances(GapSeries); }
    assert d.medianVariance == 1.0 by { WitnessMedian(d.variances); }
    assert d.mad == 0.0 by { WitnessMad(d.variances); }
    assert d.threshold == 1.0;
    WitnessIndices(d.variances, d.threshold);
  }

  lemma SpreadVariance()
    ensures Variance([0.0, 2.0]) == 1.0
  {
    var spread: seq<real> := [0.0, 2.0];
    assert spread[1..] == [2.0] && spread[1..][1..] == [];
    assert Sum(spread) == 2.0;
    assert Mean(spread) == 1.0;
    assert SumSquaredDeviations(spread, 1.0) == 2.0;
  }

  lemma WitnessVariances(series: seq<Volume>)
    requires series == [[0.0, 2.0], [1.0, 1.0], [0.0, 2.0]]
    ensures Variances(series) == [1.0, 0.0, 1.0]
  {
    SpreadVariance();
    VarianceOfConstant([1.0, 1.0]);
  }

  lemma WitnessMedian(v: seq<real>)
    requires v == [1.0, 0.0, 1.0]
    ensures Median(v) == 1.0
  {
    var t: seq<real> := [0.0, 1.0, 1.0];
    assert Sorted(t);
    assert v == [t[1], t[0], t[2]];
    assert multiset(v) == multiset(t);
    MedianPermutation(t, v);
    MedianOfSorted(t);
  }

  lemma WitnessMad(v: seq<real>)
    requires v == [1.0, 0.0, 1.0]
    ensures Median(AbsDeviations(v, 1.0)) == 0.0
  {
    var dev := AbsDeviations(v, 1.0);
    assert dev == [0.0, 1.0, 0.0];
    var t: seq<real> := [0.0, 0.0, 1.0];
    assert Sorted(t);
    assert dev == [t[0], t[2], t[1]];
    assert multiset(dev) == multiset(t);
    MedianPermutation(t, dev);
    MedianOfSorted(t);
  }

  lemma WitnessIndices(v: seq<real>, t: real)
    requires v == [1.0, 0.0, 1.0] && t == 1.0
    ensures IndicesBelow(v, t, 0) == [1]
  {
    assert IndicesBelow(v, t, 3) == [];
    assert IndicesBelow(v, t, 2) == [];
    assert IndicesBelow(v, t, 1) == [1];
  }

  /** Six volumes flagged from index 4: four functional volumes and two noise volumes. */
  lemma SixVolumesSplitAtFour<V>(data: seq<V>)
    requires |data| == 6
    ensures var r := Split4d(data, [4, 5]);
      |r.functional| == 4 && r.noise.Some? && |r.noise.value| == 2
  {
  }

  // ---------------------------------------------------------------------
  // gzip_nii

  /** The name `gzip_nii` returns: unchanged when it already ends in `.gz`, else with `.gz` appended. */
  function GzipName(path: string): (r: string)
    ensures EndsWith(r, ".gz")
    ensures |path| <= |r| && r[..|path|] == path
    ensures r == path <==> EndsWith(path, ".gz")
    ensures !EndsWith(path, ".gz") ==> |r| == |path| + 3
  {
    if EndsWith(path, ".gz") then path else path + ".gz"
  }

  /** Compressing twice is compressing once. */
  lemma GzipNameIdempotent(path: string)
    ensures GzipName(GzipName(path)) == GzipName(path)
  {
  }

  /** A `.nii` file becomes the matching `.nii.gz` file. */
  lemma GzipNiiName(base: string)
    ensures GzipName(base + ".nii") == base + ".nii.gz"
  {
    var p := base + ".nii";
    assert p[|p| - 3..] == "nii";
  }

  /** The outcome of `gzip_nii` on the files present: the new path, or the missing input file. */
  datatype GzipOutcome = Compressed(files: set<string>, gzPath: string) | FileNotFound(path: string)

  /**
   * `gzip_nii` over the set of files on disk: a `.gz` path is returned
   * without touching anything (nor checking that it exists); otherwise the `.nii` must exist, is replaced
   * by its `.gz` copy, and every other file stays as it was.
   */
  function GzipNii(files: set<string>, path: string): (r: GzipOutcome)
    ensures EndsWith(path, ".gz") ==> r == Compressed(files, path)
    ensures !EndsWith(path, ".gz") && path !in files ==> r == FileNotFound(path)
    ensures r.FileNotFound? <==> !EndsWith(path, ".gz") && path !in files
    ensures r.Compressed? ==> r.gzPath == GzipName(path)
    ensures r.Compressed? && !EndsWith(path, ".gz") ==>
      && path in files
      && r.gzPath in r.files
      && path !in r.files
      && forall f :: f != path && f != r.gzPath ==> (f in r.files <==> f in files)
  {
    if EndsWith(path, ".gz") then Compressed(files, path)
    else if path !in files then FileNotFound(path)
    else
      var gz := path + ".gz";
      assert gz != path;
      Compressed(files - {path} + {gz}, gz)
  }
}
