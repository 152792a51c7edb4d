/**
 * The arguments handed to the external NORDIC denoiser and their encoding
 * as the MATLAB struct the MATLAB function expects.
 */
module Backends {
  import opened Wrappers

  /** `NordicArgs`, with the dataclass defaults. */
  datatype NordicArgs = NordicArgs(
    temporalPhase: int := 1,
    phaseFilterWidth: real := 10.0,
    noiseVolumeLast: int := 0,
    dirout: string := "./")

  /** A field value of the MATLAB struct. */
  datatype MatlabValue = MInt(i: int) | MFloat(f: real) | MString(s: string)

  const TemporalPhaseKey := "temporal_phase"
  const PhaseFilterWidthKey := "phase_filter_width"
  const DiroutKey := "DIROUT"
  const NoiseVolumeLastKey := "noise_volume_last"

  /** The field names of the MATLAB struct; `dirout` travels under the key "DIROUT". */
  const MatlabKeys: set<string> := {TemporalPhaseKey, PhaseFilterWidthKey, DiroutKey, NoiseVolumeLastKey}

  /** `to_matlab_struct_dict`: one key per argument, each value carried over unchanged. */
  function ToMatlabStructDict(args: NordicArgs): (m: map<string, MatlabValue>)
    ensures m.Keys == MatlabKeys
    ensures m[TemporalPhaseKey] == MInt(args.temporalPhase)
    ensures m[PhaseFilterWidthKey] == MFloat(args.phaseFilterWidth)
    ensures m[DiroutKey] == MString(args.dirout)
    ensures m[NoiseVolumeLastKey] == MInt(args.noiseVolumeLast)
  {
    map[
      TemporalPhaseKey := MInt(args.temporalPhase),
      PhaseFilterWidthKey := MFloat(args.phaseFilterWidth),
      DiroutKey := MString(args.dirout),
      NoiseVolumeLastKey := MInt(args.noiseVolumeLast)]
  }

  /**
   * Reading a struct back: the arguments a struct with exactly the four keys,
   * each of the right kind, encodes; `None` for anything else.
   */
  function FromMatlabStructDict(m: map<string, MatlabValue>): (r: Option<NordicArgs>)
    ensures r.Some? <==> WellFormedStruct(m)
    ensures r.Some? ==> ToMatlabStructDict(r.value) == m
    ensures forall a :: ToMatlabStructDict(a) == m ==> r == Some(a)
  {
    if WellFormedStruct(m) then
      var a := NordicArgs(m[TemporalPhaseKey].i, m[PhaseFilterWidthKey].f, m[NoiseVolumeLastKey].i, m[DiroutKey].s);
      EncodeWellFormed(m, a);
      Some(a)
    else
      None
  }

  /** Exactly the four keys, each holding a value of the kind its argument has. */
  predicate WellFormedStruct(m: map<string, MatlabValue>)
  {
    && m.Keys == MatlabKeys
    && m[TemporalPhaseKey].MInt? && m[PhaseFilterWidthKey].MFloat?
    && m[DiroutKey].MString? && m[NoiseVolumeLastKey].MInt?
  }

  /** A well-formed struct is the encoding of the arguments read from its fields. */
  lemma EncodeWellFormed(m: map<string, MatlabValue>, a: NordicArgs)
    requires WellFormedStruct(m)
    requires a == NordicArgs(m[TemporalPhaseKey].i, m[PhaseFilterWidthKey].f, m[NoiseVolumeLastKey].i, m[DiroutKey].s)
    ensures ToMatlabStructDict(a) == m
  {
    var e := ToMatlabStructDict(a);
    assert e.Keys == m.Keys;
    forall k | k in m
      ensures e[k] == m[k]
    {
    }
  }

  /** The encoding loses nothing: decoding it gives the arguments back. */
  lemma DecodeEncode(args: NordicArgs)
    ensures FromMatlabStructDict(ToMatlabStructDict(args)) == Some(args)
  {
  }

  /** Distinct arguments give distinct structs. */
  lemma EncodingInjective(a: NordicArgs, b: NordicArgs)
    requires ToMatlabStructDict(a) == ToMatlabStructDict(b)
    ensures a == b
  {
    DecodeEncode(a);
    DecodeEncode(b);
  }

  /** The defaults: temporal phase 1, filter width 10.0, no trailing noise volume, output in "./". */
  lemma DefaultArgs()
    ensures var m := ToMatlabStructDict(NordicArgs());
      && m[TemporalPhaseKey] == MInt(1)
      && m[PhaseFilterWidthKey] == MFloat(10.0)
      && m[DiroutKey] == MString("./")
      && m[NoiseVolumeLastKey] == MInt(0)
  {
  }
}
