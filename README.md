# nordic-preproc: a verified model of the decision logic

nordic-preproc prepares BIDS fMRI runs for the NORDIC denoiser. The denoiser is an external MATLAB program. The wrapper does four things:

- It detects low-variance noise (calibration) volumes in a 4-D magnitude series, wherever they lie. It uses a robust statistic: the median of the per-volume variances minus a multiple of their median absolute deviation (MAD).
- It cuts the series at the first noise volume into a functional block and a noise block. Only this cut assumes that the noise volumes trail the run.
- It names the BIDS derivative files, decides whether a run is already done, picks the magnitude runs from the dataset, and derives the matching phase image and JSON sidecar names.
- It encodes the denoiser's arguments as the MATLAB struct the external function expects.

This project models that logic in Dafny and proves what it promises. The modules follow the source:

- `Noise`: `find_noise_scans` and its result record.
- `Statistics`: the NumPy reductions the detector uses.
- `NiftiOps`: `split_4d_nifti` on an in-memory series, and the naming and file effect of `gzip_nii`.
- `Bids`: `DerivativePaths`, `outputs_exist`, `iter_bids_func_files`, `corresponding_phase_file` and `save_with_json`.
- `Backends`: `NordicArgs` and `to_matlab_struct_dict`.
- `Paths` and `Strings`: the pathlib and `str` operations those use.
- `Wrappers`: Python's `None`.

Modelling choices:

- **Numbers.** A volume is a non-empty sequence of voxel values. Values are mathematical reals, not IEEE doubles.
- **Variance.** `np.var` is the population variance: it divides by the voxel count.
- **Median.** `np.median` is the middle element of the sorted values, or the mean of the two middle elements when their number is even. Sorting is an insertion sort in the model.
- **Paths.** A path is the sequence of its components, as in pathlib's `parts`. `Name`, `Parent`, `/`, `with_name`, `suffix`, `stem` and `with_suffix` follow CPython's pathlib for the names the wrapper builds: relative paths and absolute paths below the root, joined or renamed with a non-empty single-component name. The root anchor, and joins or renames with an empty, "." or "/"-containing name, are not modelled (see "Left out"). The suffix is taken from the last dot, and the dot counts only if it is neither the first nor the last character of the name.
- **Files and listings.** Existing files are a given set. The glob result is a given sequence in `sorted` order. The JSON files on disk are a given map from path to JSON value.
- **Slicing.** `split_4d_nifti` clamps its cut index the way a Python slice bound does. The model keeps that: a cut past the end gives an empty noise block, and a negative cut counts from the end. The lemma `SplitAtIndex` states the in-range case.

## Model

| member | source | states |
|---|---|---|
| Statistics.Mean | src/nordic_preproc/noise.py:42 | the mean `np.var` centres on; the mean of values all equal to c is c |
| Statistics.Median | src/nordic_preproc/noise.py:43-44 | the median lies between the two middle elements of the sorted values (the single middle one when their number is odd) |
| Statistics.Variance | src/nordic_preproc/noise.py:42 | the population variance of a volume (mean squared deviation from the mean) is never negative |
| Statistics.VarianceOfConstant | src/nordic_preproc/noise.py:42 | a constant-valued volume has variance exactly zero |
| Statistics.Sort | src/nordic_preproc/noise.py:43 | the sort that `np.median` relies on returns a sorted permutation of its input |
| Statistics.MedianAtLeast | src/nordic_preproc/noise.py:43-44 | a lower bound of all values bounds their median |
| Statistics.MedianAtMost | src/nordic_preproc/noise.py:43-44 | an upper bound of all values bounds their median |
| Statistics.MedianOfConstant | src/nordic_preproc/noise.py:43-44 | the median of values all equal to c is c |
| Statistics.SortedUnique | src/nordic_preproc/noise.py:43 | two sorted arrangements of the same values are equal, so the sorted order is unique |
| Statistics.MedianPermutation | src/nordic_preproc/noise.py:43-44 | the median depends only on the multiset of values, not their order |
| Statistics.MedianOfSorted | src/nordic_preproc/noise.py:43 | on sorted input the median is the middle element, or the mean of the two middle elements for an even count |
| Noise.Variances | src/nordic_preproc/noise.py:42 | one variance per volume, in series order, each the population variance of that volume and non-negative |
| Noise.AbsDeviation | src/nordic_preproc/noise.py:44 | the absolute deviation is non-negative and equals x - c or c - x |
| Noise.AbsDeviations | src/nordic_preproc/noise.py:44 | one deviation per value, in order: each is the absolute deviation of that value, never negative, and zero exactly when the value equals the centre |
| Noise.Mad | src/nordic_preproc/noise.py:44 | the unscaled MAD is non-negative |
| Noise.IndicesBelow | src/nordic_preproc/noise.py:46 | `np.where(v < t)`: strictly ascending, in range, and i is listed iff v[i] < t |
| Noise.IndicesBelowNone | src/nordic_preproc/noise.py:46 | no value below the threshold means no index is reported |
| Noise.Threshold | src/nordic_preproc/noise.py:45 | median - k * MAD is at most the median when k ≥ 0, and equals the median when the MAD or k is zero |
| Noise.FindNoiseScans | src/nordic_preproc/noise.py:10-53 | the five-field record: per-volume variances, their median, the MAD ≥ 0, threshold = median - k * MAD, and noise indices strictly ascending, in range, with i flagged iff variances[i] < threshold |
| Noise.VariancesNonNegative | src/nordic_preproc/noise.py:42 | every reported variance is ≥ 0, and 0 for a constant volume |
| Noise.ThresholdAtMostMedian | src/nordic_preproc/noise.py:43-45 | with k ≥ 0 the threshold never exceeds the median variance |
| Noise.NoFlagAtOrAboveMedian | src/nordic_preproc/noise.py:43-46 | with k ≥ 0 no volume whose variance is at or above the median is flagged |
| Noise.ZeroMultiplierFlagsBelowMedian | src/nordic_preproc/noise.py:45-46 | with k = 0 exactly the volumes strictly below the median variance are flagged |
| Noise.UniformVariancesFlagNothing | src/nordic_preproc/noise.py:43-46 | equal variances everywhere give MAD 0, threshold = median, and no noise indices, for any k |
| Noise.SingleVolumeFlagsNothing | src/nordic_preproc/noise.py:43-46 | a one-volume series gives MAD 0, threshold = median = that variance, and no noise indices |
| Noise.FlaggedBelowFlagged | src/nordic_preproc/noise.py:46 | a volume whose variance is no greater than that of a flagged volume is flagged too |
| Noise.ConstantVolumesFlagNothing | src/nordic_preproc/noise.py:42-46 | a series of constant-valued volumes has no noise scans |
| Noise.StatisticsIgnoreVolumeOrder | src/nordic_preproc/noise.py:42-45 | reordering the volumes changes neither the median variance, nor the MAD, nor the threshold |
| Noise.VariancesPermutation | src/nordic_preproc/noise.py:42 | the variances of a reordered series are a reordering of the variances |
| Noise.AbsDeviationsPermutation | src/nordic_preproc/noise.py:44 | the deviations of reordered values are a reordering of the deviations |
| NiftiOps.SliceBound | src/nordic_preproc/nifti_ops.py:33-34 | a Python slice bound lands in 0..len: an in-range bound is kept, a larger one is clamped to len, and a negative one counts from the end |
| NiftiOps.Split4d | src/nordic_preproc/nifti_ops.py:12-36 | no indices return the data whole with `None`; otherwise functional + noise reconstruct the data exactly, cut at the first index |
| NiftiOps.SplitUsesFirstIndexOnly | src/nordic_preproc/nifti_ops.py:31-32 | two index lists with the same first element give the same split |
| NiftiOps.SplitAtIndex | src/nordic_preproc/nifti_ops.py:32-34 | for 0 ≤ k ≤ n the functional block is data[..k] and the noise block is data[k..], so their lengths are k and n - k |
| NiftiOps.DetectedSplit | src/nordic_preproc/nifti_ops.py:13-16 | splitting at the detector's indices leaves no flagged volume among the functional ones and puts every flagged volume in the noise block |
| NiftiOps.IndexList | src/nordic_preproc/nifti_ops.py:31-32 | the same indices in the same order, none negative, an integer is listed iff it is a detector index, and for an ascending detector list the first entry is the least |
| NiftiOps.MiddleFlagSendsLaterVolumeToNoise | src/nordic_preproc/nifti_ops.py:15-34 | for variances [1, 0, 1] and multiplier 0 only volume 1 is flagged, yet the cut at index 1 puts the unflagged volume 2 in the noise block |
| NiftiOps.GapDetection | src/nordic_preproc/noise.py:42-46 | on three equal-sized volumes with variances [1, 0, 1] and multiplier 0, the detector flags volume 1 alone |
| NiftiOps.UnflaggedAfterCutIsNoise | src/nordic_preproc/nifti_ops.py:15-16 | any volume at or after the first flagged index, flagged or not, lands in the noise block at the matching offset |
| NiftiOps.SixVolumesSplitAtFour | tests/test_split.py:16-18 | six volumes with indices [4, 5] give four functional volumes and two noise volumes |
| NiftiOps.GzipName | src/nordic_preproc/nifti_ops.py:46-48 | the name always ends in ".gz" and extends the input; it equals the input exactly when that already ends in ".gz", and is otherwise three characters longer, so exactly path + ".gz" |
| NiftiOps.GzipNameIdempotent | src/nordic_preproc/nifti_ops.py:46-48 | applying the name rule twice is applying it once |
| NiftiOps.GzipNiiName | src/nordic_preproc/nifti_ops.py:48 | "x.nii" becomes "x.nii.gz" |
| NiftiOps.GzipNii | src/nordic_preproc/nifti_ops.py:44-52 | a ".gz" path is returned and nothing changes; the outcome is FileNotFound iff the path does not end in ".gz" and is not on disk; otherwise the ".nii" is removed, the ".gz" exists, and no other file changes |
| Paths.Parent | src/nordic_preproc/bids.py:94 | the parent followed by the name rebuilds every non-empty path, so the name is its last component and the parent the rest; the empty path is its own parent |
| Paths.Join | src/nordic_preproc/bids.py:22 | `dir / name` has parent dir and name `name` |
| Paths.WithName | src/nordic_preproc/bids.py:94 | `with_name` keeps the parent and sets the name |
| Paths.Suffix | src/nordic_preproc/bids.py:70 | the suffix is empty or a dot plus at least one character, ends the name and is shorter than it, contains no further dot; it is empty only when no interior dot (neither first nor last character) is the last dot of the name |
| Paths.Stem | src/nordic_preproc/bids.py:70 | stem + suffix is the name, and a non-empty name has a non-empty stem |
| Paths.WithSuffix | src/nordic_preproc/bids.py:70 | `with_suffix` keeps the parent and replaces the suffix of the name |
| Paths.SameParentAndName | src/nordic_preproc/bids.py:70 | a non-empty path is determined by its parent and its name |
| Strings.EndsWith | src/nordic_preproc/nifti_ops.py:46 | `str.endswith`: a string ending in a suffix contains it |
| Strings.Contains | src/nordic_preproc/bids.py:88 | the `in` test on strings: a contained string is no longer than its container, and "" is in every string |
| Strings.Replace | src/nordic_preproc/bids.py:94 | `str.replace`: a replacement at least as long as the pattern never shortens the string, and one of equal length keeps its length |
| Strings.ReplaceWithoutOccurrence | src/nordic_preproc/bids.py:94 | `str.replace` without an occurrence returns the string unchanged |
| Strings.ReplaceIntroducesNew | src/nordic_preproc/bids.py:94 | `str.replace` on a string with an occurrence yields one containing the replacement |
| Strings.ReplaceAppendOld | src/nordic_preproc/bids.py:94 | for a self-non-overlapping pattern, replacing in b + pat replaces in b and turns the final pat into the replacement |
| Strings.ContainsTransitive | src/nordic_preproc/bids.py:88 | a substring of a substring is a substring |
| Strings.LastIndexOf | src/nordic_preproc/bids.py:70 | `rfind`: -1 or the position of the last occurrence |
| Bids.DerivativePaths.FunctionalRaw | src/nordic_preproc/bids.py:20-22 | out_dir / (base + "_desc-functional_bold.nii.gz") |
| Bids.DerivativePaths.FunctionalNordic | src/nordic_preproc/bids.py:24-26 | out_dir / (base + "_desc-functional-nordic_bold.nii.gz") |
| Bids.DerivativePaths.NoiseRaw | src/nordic_preproc/bids.py:28-30 | out_dir / (base + "_desc-noise_bold.nii.gz") |
| Bids.DerivativePaths.NoiseNordic | src/nordic_preproc/bids.py:32-34 | out_dir / (base + "_desc-noise-nordic_bold.nii.gz") |
| Bids.DerivativePathsDistinct | src/nordic_preproc/bids.py:20-34 | the four paths share out_dir as parent, their names start with base, and they are pairwise distinct |
| Bids.ExpectedOutputs | src/nordic_preproc/bids.py:76-81 | always includes the denoised functional file; one file without noise volumes, four with them, including the raw functional and both noise files; all in out_dir and pairwise distinct |
| Bids.ExpectedOutputsNested | src/nordic_preproc/bids.py:76-81 | every file expected without noise volumes is expected with them too |
| Bids.OutputsExist | src/nordic_preproc/bids.py:75-82 | a run reported done always has its denoised functional file on disk |
| Bids.OutputsExistWithoutNoise | src/nordic_preproc/bids.py:76-82 | `outputs_exist(paths, False)` holds iff the denoised functional file exists |
| Bids.OutputsExistWithNoise | src/nordic_preproc/bids.py:76-82 | `outputs_exist(paths, True)` holds iff all four derivative files exist |
| Bids.OutputsExistWithNoiseImpliesWithout | src/nordic_preproc/bids.py:76-82 | done with noise implies done without |
| Bids.OutputsExistMonotone | src/nordic_preproc/bids.py:82 | more files on disk never make a finished run unfinished |
| Bids.IsMagnitudeFile | src/nordic_preproc/bids.py:88 | a kept run never has the phase tag "_part-phase_bold.nii.gz", nor "_part-phase", in its name |
| Bids.MagnitudeFiles | src/nordic_preproc/bids.py:87-90 | every kept run is in the listing and has no "part-phase" in its name; every such run of the listing is kept |
| Bids.MagnitudeFilesAppend | src/nordic_preproc/bids.py:87-90 | selection distributes over concatenation, so the listing's order is kept |
| Bids.MagnitudeFilesSingle | src/nordic_preproc/bids.py:88-90 | one run is kept iff its name has no "part-phase" |
| Bids.IterBidsFuncFiles | src/nordic_preproc/bids.py:85-90 | the filtering loop yields exactly the selection of the listing |
| Bids.CorrespondingPhaseFile | src/nordic_preproc/bids.py:93-94 | same directory; the name with every "_bold.nii.gz" replaced by "_part-phase_bold.nii.gz" |
| Bids.PhaseFileWithoutBoldTag | src/nordic_preproc/bids.py:93-94 | a name without "_bold.nii.gz" maps to the same path |
| Bids.PhaseFileIsNotMagnitude | src/nordic_preproc/bids.py:88-94 | the phase file of a BOLD run contains "part-phase", so the run filter would skip it |
| Bids.PhaseFileOfRunName | src/nordic_preproc/bids.py:93-94 | dir / (b + "_bold.nii.gz") maps to dir / (b' + "_part-phase_bold.nii.gz"), where b' is b with the same replacement |
| Bids.PhaseFileOfPlainRunName | src/nordic_preproc/bids.py:93-94 | when b has no "_bold.nii.gz", dir / (b + "_bold.nii.gz") maps to dir / (b + "_part-phase_bold.nii.gz") |
| Bids.SidecarPath | src/nordic_preproc/bids.py:70 | the sidecar is in the output's directory and its name ends in ".json" |
| Bids.SidecarOfNiftiGz | src/nordic_preproc/bids.py:70 | "x.nii.gz" gets the sidecar "x.json" (so "x_bold.nii.gz" gets "x_bold.json") |
| Bids.SetDescription | src/nordic_preproc/bids.py:69 | "Description" holds the new text, the key set gains only "Description", and every other key keeps its value |
| Bids.SetDescriptionLastWins | src/nordic_preproc/bids.py:69 | a second description overrides the first |
| Bids.SetDescriptionIdempotent | src/nordic_preproc/bids.py:69 | metadata already carrying the description is unchanged |
| Bids.SaveWithJson | src/nordic_preproc/bids.py:63-72 | fails iff the source sidecar exists and is not a JSON object; otherwise writes to the sidecar path the source metadata with "Description" set, or only "Description" when there is no source sidecar |
| Backends.ToMatlabStructDict | src/nordic_preproc/backends/__init__.py:33-40 | exactly the keys temporal_phase, phase_filter_width, DIROUT and noise_volume_last, each carrying its argument unchanged; dirout goes under "DIROUT" |
| Backends.FromMatlabStructDict | src/nordic_preproc/backends/__init__.py:33-40 | the inverse of the encoding: it succeeds iff the map has exactly the four keys with values of the right kinds, re-encoding its result gives the map back, and any arguments that encode to the map are the result |
| Backends.DecodeEncode | src/nordic_preproc/backends/__init__.py:35-40 | decoding the encoding gives back the arguments |
| Backends.EncodeWellFormed | src/nordic_preproc/backends/__init__.py:35-40 | a well-formed struct is the encoding of the arguments read from its four fields |
| Backends.EncodingInjective | src/nordic_preproc/backends/__init__.py:35-40 | distinct arguments give distinct structs |
| Backends.DefaultArgs | src/nordic_preproc/backends/__init__.py:7-12 | the defaults encode as temporal_phase 1, phase_filter_width 10.0, DIROUT "./" and noise_volume_last 0 |

## Left out

- **Image I/O.** Loading and saving images (`nib.load`, `get_fdata`, `nib.save`, `save_nifti`) is foreign-library I/O. The model works on the in-memory series.
- **gzip compression.** The byte compression and the copy in `gzip_nii` are I/O. `GzipNii` models only which files exist before and after.
- **JSON files.** Writing the dataset description, `json.load`, `json.dump` and the writing of the sidecar are file I/O. `SaveWithJson` returns the path and metadata it would write.
- **Globbing.** `Path.glob` and `sorted` are I/O and Python's path ordering. `IterBidsFuncFiles` takes the sorted glob result as given.
- **Glue code.** The CLIs and the two backends (the MATLAB engine and the compiled runtime) orchestrate I/O and external processes.
- **Floating point.** IEEE-754 NaN/Inf propagation and rounding are not modelled. Variances, medians and thresholds are exact reals.
- **Key order.** Python dicts keep insertion order and `json.dump` writes keys in that order. The model's maps are unordered: they cover which keys and values are written, not their order in the file.
- **Argument coercion.** The `int()`, `float()` and `str()` calls in `to_matlab_struct_dict` are modelled as the identity, because the arguments are typed by their annotations. Coercing a value of another Python type is not modelled.
- **Randomised test.** The detection test uses random data that cannot be reproduced, so that concrete scenario is not proved. `ConstantVolumesFlagNothing` and `FlaggedBelowFlagged` state what holds for any series.
- Noise.FindNoiseScans: requires at least one volume. NumPy returns NaN for the median of an empty array rather than raising, and NaN is outside the real-number model.
- Paths.WithName, Paths.WithSuffix: require a non-empty name, because pathlib raises ValueError on an empty name. This error path is a precondition, not a modelled exception. CorrespondingPhaseFile, SidecarPath and SaveWithJson inherit the precondition.
- Paths.WithName: pathlib also raises ValueError when the new name is empty, is "." or contains "/". The model accepts such a name and makes it the last component. The source never passes one: its new names are a `replace` result on a non-empty name, or a name ending in ".json".
- Paths.Name, Paths.Parent: the root anchor is not modelled. For the root-only path ["/"] pathlib's name is "" and its parent is "/", while the model gives "/" and []. So WithName, CorrespondingPhaseFile, SidecarPath and SaveWithJson accept ["/"] where pathlib raises ValueError. The source never builds such a path.
- Paths.Join: treats the joined name as one path component. pathlib drops an empty or "." segment (`d / ""` is `d`), and a name containing "/" yields a deeper path; the model appends the name as given in all three cases. The source joins only `base` plus a fixed non-empty tag, so only a `base` containing "/" could reach the unmodelled case.
- Paths.Suffix: a name ending in "." is given no suffix. This is the rule of the pathlib versions whose `suffix` requires the dot to be followed by at least one character.
- Strings.Replace: requires a non-empty pattern. The only pattern the source uses is "_bold.nii.gz".
