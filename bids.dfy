/**
 * The BIDS derivative helpers: the four output names of a run, the
 * "outputs already exist" test, the selection of magnitude runs from the
 * sorted listing of BOLD runs, the magnitude-to-phase name mapping,
 * and the JSON sidecar written next to each output.
 */
module Bids {
  import opened Strings
  import opened Paths

  const FunctionalRawTag := "_desc-functional_bold.nii.gz"
  const FunctionalNordicTag := "_desc-functional-nordic_bold.nii.gz"
  const NoiseRawTag := "_desc-noise_bold.nii.gz"
  const NoiseNordicTag := "_desc-noise-nordic_bold.nii.gz"

  /** Where the outputs of one run go: `outDir / (base + tag)` for four fixed tags. */
  datatype DerivativePaths = DerivativePaths(outDir: Path, base: string)
  {
    function FunctionalRaw(): (p: Path)
      ensures Parent(p) == outDir && Name(p) == base + FunctionalRawTag
    {
      Join(outDir, base + FunctionalRawTag)
    }

    function FunctionalNordic(): (p: Path)
      ensures Parent(p) == outDir && Name(p) == base + FunctionalNordicTag
    {
      Join(outDir, base + FunctionalNordicTag)
    }

    function NoiseRaw(): (p: Path)
      ensures Parent(p) == outDir && Name(p) == base + NoiseRawTag
    {
      Join(outDir, base + NoiseRawTag)
    }

    function NoiseNordic(): (p: Path)
      ensures Parent(p) == outDir && Name(p) == base + NoiseNordicTag
    {
      Join(outDir, base + NoiseNordicTag)
    }
  }

  /** The four derivative paths lie in the output directory, start with the base, and are pairwise distinct. */
  lemma DerivativePathsDistinct(d: DerivativePaths)
    ensures var all := [d.FunctionalRaw(), d.FunctionalNordic(), d.NoiseRaw(), d.NoiseNordic()];
      && (forall k :: 0 <= k < 4 ==> Parent(all[k]) == d.outDir)
      && (forall k :: 0 <= k < 4 ==> |d.base| <= |Name(all[k])| && Name(all[k])[..|d.base|] == d.base)
      && (forall j, k :: 0 <= j < k < 4 ==> all[j] != all[k])
  {
    var all := [d.FunctionalRaw(), d.FunctionalNordic(), d.NoiseRaw(), d.NoiseNordic()];
    assert |FunctionalRawTag| == 28 && |FunctionalNordicTag| == 35;
    assert |NoiseRawTag| == 23 && |NoiseNordicTag| == 30;
    forall j, k | 0 <= j < k < 4
      ensures all[j] != all[k]
    {
      assert |Name(all[j])| != |Name(all[k])|;
    }
  }

  // ---------------------------------------------------------------------
  // outputs_exist

  /**
   * The files `outputs_exist` looks for: always the denoised functional file;
   * with noise volumes also the raw functional and both noise files.  They
   * are distinct files of the output directory.
   */
  function ExpectedOutputs(paths: DerivativePaths, noisePresent: bool): (r: seq<Path>)
    ensures paths.FunctionalNordic() in r
    ensures |r| == if noisePresent then 4 else 1
    ensures noisePresent ==> paths.FunctionalRaw() in r && paths.NoiseRaw() in r && paths.NoiseNordic() in r
    ensures forall k :: 0 <= k < |r| ==> Parent(r[k]) == paths.outDir
    ensures forall j, k :: 0 <= j < k < |r| ==> r[j] != r[k]
  {
    DerivativePathsDistinct(paths);
    if !noisePresent then [paths.FunctionalNordic()]
    else [paths.FunctionalRaw(), paths.FunctionalNordic(), paths.NoiseRaw(), paths.NoiseNordic()]
  }

  /** `outputs_exist`: every expected file is among the files present; in particular the denoised functional file. */
  predicate OutputsExist(paths: DerivativePaths, noisePresent: bool, existing: set<Path>)
    ensures OutputsExist(paths, noisePresent, existing) ==> paths.FunctionalNordic() in existing
  {
    assert ExpectedOutputs(paths, noisePresent)[if noisePresent then 1 else 0] == paths.FunctionalNordic();
    forall k :: 0 <= k < |ExpectedOutputs(paths, noisePresent)| ==> ExpectedOutputs(paths, noisePresent)[k] in existing
  }

  /** Every file the noise-free case expects is expected in the noise case too. */
  lemma ExpectedOutputsNested(paths: DerivativePaths)
    ensures forall p :: p in ExpectedOutputs(paths, false) ==> p in ExpectedOutputs(paths, true)
  {
  }

  /** Without noise volumes, the run is done exactly when its denoised functional file exists. */
  lemma OutputsExistWithoutNoise(paths: DerivativePaths, existing: set<Path>)
    ensures OutputsExist(paths, false, existing) <==> paths.FunctionalNordic() in existing
  {
    assert ExpectedOutputs(paths, false)[0] == paths.FunctionalNordic();
  }

  /** With noise volumes, the run is done exactly when all four derivative files exist. */
  lemma OutputsExistWithNoise(paths: DerivativePaths, existing: set<Path>)
    ensures OutputsExist(paths, true, existing) <==>
      && paths.FunctionalRaw() in existing
      && paths.FunctionalNordic() in existing
      && paths.NoiseRaw() in existing
      && paths.NoiseNordic() in existing
  {
    var e := ExpectedOutputs(paths, true);
    assert e[0] == paths.FunctionalRaw() && e[1] == paths.FunctionalNordic();
    assert e[2] == paths.NoiseRaw() && e[3] == paths.NoiseNordic();
  }

  /** The noise case asks for more than the noise-free case. */
  lemma OutputsExistWithNoiseImpliesWithout(paths: DerivativePaths, existing: set<Path>)
    requires OutputsExist(paths, true, existing)
    ensures OutputsExist(paths, false, existing)
  {
    OutputsExistWithNoise(paths, existing);
    OutputsExistWithoutNoise(paths, existing);
  }

  /** Files appearing on disk never turn a finished run back into an unfinished one. */
  lemma OutputsExistMonotone(paths: DerivativePaths, noisePresent: bool, existing: set<Path>, more: set<Path>)
    requires existing <= more && OutputsExist(paths, noisePresent, existing)
    ensures OutputsExist(paths, noisePresent, more)
  {
  }

  // ---------------------------------------------------------------------
  // iter_bids_func_files

  /** The entity that marks a phase image in a BIDS file name. */
  const PhaseMarker := "part-phase"

  /** A run kept by `iter_bids_func_files`: its name does not contain "part-phase". */
  predicate IsMagnitudeFile(p: Path)
    ensures IsMagnitudeFile(p) ==> !Contains(Name(p), PhaseBoldTag)
    ensures Contains(Name(p), "_" + PhaseMarker) ==> !IsMagnitudeFile(p)
  {
    PhaseTagsCarryMarker(Name(p));
    !Contains(Name(p), PhaseMarker)
  }

  /** A name containing the phase tag, or "_part-phase", contains "part-phase". */
  lemma PhaseTagsCarryMarker(name: string)
    ensures Contains(name, PhaseBoldTag) ==> Contains(name, PhaseMarker)
    ensures Contains(name, "_" + PhaseMarker) ==> Contains(name, PhaseMarker)
  {
    assert PhaseBoldTag[1..1 + |PhaseMarker|] == PhaseMarker;
    assert OccursAt(PhaseBoldTag, PhaseMarker, 1);
    var tag := "_" + PhaseMarker;
    assert tag[1..] == PhaseMarker;
    assert OccursAt(tag, PhaseMarker, 1);
    if Contains(name, PhaseBoldTag) {
      ContainsTransitive(name, PhaseBoldTag, PhaseMarker);
    }
    if Contains(name, tag) {
      ContainsTransitive(name, tag, PhaseMarker);
    }
  }

  /** The magnitude runs of a listing, in listing order. */
  function MagnitudeFiles(listing: seq<Path>): (r: seq<Path>)
    ensures |r| <= |listing|
    ensures forall k :: 0 <= k < |r| ==> IsMagnitudeFile(r[k]) && r[k] in listing
    ensures forall p :: p in listing && IsMagnitudeFile(p) ==> p in r
  {
    if listing == [] then []
    else
      var rest := MagnitudeFiles(listing[..|listing| - 1]);
      var last := listing[|listing| - 1];
      assert listing == listing[..|listing| - 1] + [last];
      if IsMagnitudeFile(last) then rest + [last] else rest
  }

  /**
   * Selection distributes over concatenation: it keeps the listing's order,
   * so a sorted listing yields its magnitude runs in sorted order.
   */
  lemma {:induction false} MagnitudeFilesAppend(a: seq<Path>, b: seq<Path>)
    ensures MagnitudeFiles(a + b) == MagnitudeFiles(a) + MagnitudeFiles(b)
    decreases |b|
  {
    if b == [] {
      assert a + b == a;
    } else {
      var b0 := b[..|b| - 1];
      assert (a + b)[..|a + b| - 1] == a + b0;
      assert (a + b)[|a + b| - 1] == b[|b| - 1];
      MagnitudeFilesAppend(a, b0);
    }
  }

  /** On one file, selection keeps it exactly when it is a magnitude run. */
  lemma MagnitudeFilesSingle(p: Path)
    ensures MagnitudeFiles([p]) == if IsMagnitudeFile(p) then [p] else []
  {
    assert [p][..0] == [];
  }

  /**
   * `iter_bids_func_files` over the sorted glob result: yield each run whose
   * name does not contain "part-phase", in order.
   */
  method IterBidsFuncFiles(listing: seq<Path>) returns (files: seq<Path>)
    ensures files == MagnitudeFiles(listing)
  {
    files := [];
    var i := 0;
    while i < |listing|
      invariant 0 <= i <= |listing|
      invariant files == MagnitudeFiles(listing[..i])
    {
      var m := listing[i];
      assert listing[..i + 1][..i] == listing[..i];
      if IsMagnitudeFile(m) {
        files := files + [m];
      }
      i := i + 1;
    }
    assert listing[..i] == listing;
  }

  // ---------------------------------------------------------------------
  // corresponding_phase_file

  const BoldTag := "_bold.nii.gz"
  const PhaseBoldTag := "_" + PhaseMarker + BoldTag

  /**
   * `corresponding_phase_file`: the same directory, the name with every
   * "_bold.nii.gz" replaced by "_part-phase_bold.nii.gz".  `with_name`
   * raises ValueError on an empty name, hence the precondition.
   */
  function CorrespondingPhaseFile(magnitude: Path): (r: Path)
    requires Name(magnitude) != ""
    ensures Parent(r) == Parent(magnitude)
    ensures Name(r) == Replace(Name(magnitude), BoldTag, PhaseBoldTag)
  {
    WithName(magnitude, Replace(Name(magnitude), BoldTag, PhaseBoldTag))
  }

  /** A name without "_bold.nii.gz" maps to itself. */
  lemma PhaseFileWithoutBoldTag(magnitude: Path)
    requires Name(magnitude) != "" && !Contains(Name(magnitude), BoldTag)
    ensures CorrespondingPhaseFile(magnitude) == magnitude
  {
    ReplaceWithoutOccurrence(Name(magnitude), BoldTag, PhaseBoldTag);
    assert magnitude == magnitude[..|magnitude| - 1] + [Name(magnitude)];
  }

  /** The phase file of a name containing "_bold.nii.gz" is not itself selected as a magnitude run. */
  lemma PhaseFileIsNotMagnitude(magnitude: Path)
    requires Name(magnitude) != "" && Contains(Name(magnitude), BoldTag)
    ensures !IsMagnitudeFile(CorrespondingPhaseFile(magnitude))
  {
    ReplaceIntroducesNew(Name(magnitude), BoldTag, PhaseBoldTag);
    assert PhaseBoldTag[1..1 + |PhaseMarker|] == PhaseMarker;
    assert OccursAt(PhaseBoldTag, PhaseMarker, 1);
    ContainsTransitive(Name(CorrespondingPhaseFile(magnitude)), PhaseBoldTag, PhaseMarker);
  }

  /** A run name `b + "_bold.nii.gz"` becomes `b' + "_part-phase_bold.nii.gz"`, where `b'` is `b` replaced likewise. */
  lemma PhaseFileOfRunName(dir: Path, b: string)
    ensures CorrespondingPhaseFile(Join(dir, b + BoldTag))
      == Join(dir, Replace(b, BoldTag, PhaseBoldTag) + PhaseBoldTag)
  {
    BorderFreeByFirstChar(BoldTag);
    ReplaceAppendOld(b, BoldTag, PhaseBoldTag);
  }

  /** The usual case: a run name with a single "_bold.nii.gz" at its end. */
  lemma PhaseFileOfPlainRunName(dir: Path, b: string)
    requires !Contains(b, BoldTag)
    ensures CorrespondingPhaseFile(Join(dir, b + BoldTag)) == Join(dir, b + PhaseBoldTag)
  {
    PhaseFileOfRunName(dir, b);
    ReplaceWithoutOccurrence(b, BoldTag, PhaseBoldTag);
  }

  // ---------------------------------------------------------------------
  // save_with_json

  /** A JSON value as `json.load` returns it. */
  datatype Json =
    | JNull
    | JBool(b: bool)
    | JNumber(n: real)
    | JString(s: string)
    | JArray(items: seq<Json>)
    | JObject(fields: map<string, Json>)

  /**
   * `out_path.with_suffix("").with_suffix(".json")`: drop the last suffix,
   * then replace the next one with ".json".
   */
  function SidecarPath(outPath: Path): (r: Path)
    requires Name(outPath) != ""
    ensures Parent(r) == Parent(outPath)
    ensures EndsWith(Name(r), ".json")
  {
    var dropped := WithSuffix(outPath, "");
    var r := WithSuffix(dropped, ".json");
    assert Name(r)[|Name(r)| - 5..] == ".json";
    r
  }

  /** "x.nii.gz" gets the sidecar "x.json", in the same directory. */
  lemma SidecarOfNiftiGz(dir: Path, b: string)
    requires b != ""
    ensures SidecarPath(Join(dir, b + ".nii.gz")) == Join(dir, b + ".json")
  {
    var name := b + ".nii.gz";
    assert name == (b + ".nii") + ".gz";
    LastIndexOfUnique(".gz", '.', 0);
    LastIndexOfAppend(b + ".nii", ".gz", '.');
    assert Suffix(name) == ".gz";
    var stem := b + ".nii";
    assert Stem(name) == stem;
    LastIndexOfUnique(".nii", '.', 0);
    LastIndexOfAppend(b, ".nii", '.');
    assert Suffix(stem) == ".nii";
    assert Stem(stem) == b;
    var dropped := WithSuffix(Join(dir, name), "");
    assert Name(dropped) == stem + "" == stem;
    var r := WithSuffix(dropped, ".json");
    assert Name(r) == b + ".json";
    assert r == SidecarPath(Join(dir, name));
    SameParentAndName(r, Join(dir, b + ".json"));
  }

  /** What `save_with_json` writes: the sidecar path and its metadata. */
  datatype Sidecar = Sidecar(path: Path, meta: map<string, Json>)

  /** `save_with_json` either writes a sidecar or fails because the source sidecar is not a JSON object. */
  datatype SaveOutcome = Saved(sidecar: Sidecar) | SourceNotAnObject

  /** `meta["Description"] = description` on a metadata object. */
  function SetDescription(meta: map<string, Json>, description: string): (r: map<string, Json>)
    ensures "Description" in r && r["Description"] == JString(description)
    ensures r.Keys == meta.Keys + {"Description"}
    ensures forall k :: k in meta && k != "Description" ==> r[k] == meta[k]
  {
    meta["Description" := JString(description)]
  }

  /** Setting the description twice keeps only the second. */
  lemma SetDescriptionLastWins(meta: map<string, Json>, first: string, second: string)
    ensures SetDescription(SetDescription(meta, first), second) == SetDescription(meta, second)
  {
  }

  /** A metadata object that already carries the description is left unchanged. */
  lemma SetDescriptionIdempotent(meta: map<string, Json>, description: string)
    requires "Description" in meta && meta["Description"] == JString(description)
    ensures SetDescription(meta, description) == meta
  {
  }

  /**
   * The sidecar part of `save_with_json` (the NIfTI itself is written by
   * I/O).  `sidecars` holds the JSON files on disk: the metadata starts
   * empty, is replaced by the source sidecar when `jsonFile` exists, and gets
   * its "Description" set; a source sidecar that is not a JSON object makes
   * the item assignment fail.
   */
  method SaveWithJson(outPath: Path, jsonFile: Path, description: string, sidecars: map<Path, Json>)
    returns (outcome: SaveOutcome)
    requires Name(outPath) != ""
    ensures outcome.SourceNotAnObject? <==> jsonFile in sidecars && !sidecars[jsonFile].JObject?
    ensures outcome.Saved? ==> outcome.sidecar.path == SidecarPath(outPath)
    ensures outcome.Saved? && jsonFile !in sidecars ==>
      outcome.sidecar.meta == map["Description" := JString(description)]
    ensures outcome.Saved? && jsonFile in sidecars ==>
      outcome.sidecar.meta == SetDescription(sidecars[jsonFile].fields, description)
  {
    var meta: map<string, Json> := map[];
    if jsonFile in sidecars {
      var loaded := sidecars[jsonFile];
      if !loaded.JObject? {
        return SourceNotAnObject;
      }
      meta := loaded.fields;
    }
    meta := meta["Description" := JString(description)];
    var jsonOut := SidecarPath(outPath);
    outcome := Saved(Sidecar(jsonOut, meta));
  }
}
