/**
 * The part of `pathlib.PurePath` the derivative-naming code uses.  A path is
 * the sequence of its components (what pathlib calls `parts`): `out / name`
 * appends one component, `name` is the last component, `parent` drops it.
 */
module Paths {
  import opened Strings

  type Path = seq<string>

  /** `p.name`: the last component, "" for the empty path `Path(".")`. */
  function Name(p: Path): string
  {
    if p == [] then "" else p[|p| - 1]
  }

  /** `p.parent`: every component but the last, so that the parent and the name rebuild the path. */
  function Parent(p: Path): (r: Path)
    ensures p != [] ==> r + [Name(p)] == p
    ensures p == [] ==> r == []
  {
    if p == [] then [] else p[..|p| - 1]
  }

  /** A non-empty path is determined by its parent and its name. */
  lemma SameParentAndName(p: Path, q: Path)
    requires p != [] && q != []
    requires Parent(p) == Parent(q) && Name(p) == Name(q)
    ensures p == q
  {
    assert p == Parent(p) + [Name(p)];
    assert q == Parent(q) + [Name(q)];
  }

  /** `dir / name` for a name that is a single component. */
  function Join(dir: Path, name: string): (r: Path)
    ensures Parent(r) == dir && Name(r) == name
  {
    dir + [name]
  }

  /**
   * `p.with_name(name)`.  pathlib raises ValueError when `p` has an empty
   * name, hence the precondition.
   */
  function WithName(p: Path, name: string): (r: Path)
    requires Name(p) != ""
    ensures Parent(r) == Parent(p) && Name(r) == name
    ensures |r| == |p|
  {
    p[..|p| - 1] + [name]
  }

  /**
   * `PurePath(name).suffix`: from the last dot to the end, provided that dot is
   * neither the first nor the last character of the name; "" otherwise.
   */
  function Suffix(name: string): (r: string)
    ensures r == "" || (r[0] == '.' && |r| >= 2)
    ensures EndsWith(name, r)
    ensures r != "" ==> '.' !in r[1..] && |r| < |name|
    ensures r == "" ==> forall i :: 0 < i < |name| - 1 && name[i] == '.' ==> '.' in name[i + 1..]
  {
    var i := LastIndexOf(name, '.');
    SuffixFacts(name, i);
    if 0 < i < |name| - 1 then name[i..] else ""
  }

  /** Where the last dot lies decides the suffix: no later dot after it, and none after an earlier one is missed. */
  lemma SuffixFacts(name: string, i: int)
    requires i == LastIndexOf(name, '.')
    ensures 0 < i < |name| - 1 ==> '.' !in name[i + 1..]
    ensures !(0 < i < |name| - 1) ==>
      forall j :: 0 < j < |name| - 1 && name[j] == '.' ==> '.' in name[j + 1..]
  {
    if 0 < i < |name| - 1 {
      var tail := name[i + 1..];
      forall k | 0 <= k < |tail|
        ensures tail[k] != '.'
      {
        assert tail[k] == name[i + 1 + k];
      }
    } else {
      forall j | 0 < j < |name| - 1 && name[j] == '.'
        ensures '.' in name[j + 1..]
      {
        assert j < i;
        assert name[j + 1..][i - j - 1] == name[i];
      }
    }
  }

  /** The name without its suffix (pathlib's `stem`). */
  function Stem(name: string): (r: string)
    ensures r + Suffix(name) == name
    ensures name != "" ==> r != ""
  {
    var suf := Suffix(name);
    assert |suf| <= |name| && name[|name| - |suf|..] == suf;
    name[..|name| - |suf|]
  }

  /** The suffixes `with_suffix` accepts: "" or a dot followed by at least one character, with no separator. */
  predicate ValidSuffix(suffix: string)
  {
    (suffix == "" || (suffix[0] == '.' && |suffix| >= 2)) && '/' !in suffix
  }

  /**
   * `p.with_suffix(suffix)`: replace the suffix of the name (or append one
   * when it has none).  pathlib raises ValueError for an empty name or an
   * invalid suffix, hence the preconditions.
   */
  function WithSuffix(p: Path, suffix: string): (r: Path)
    requires Name(p) != "" && ValidSuffix(suffix)
    ensures Parent(r) == Parent(p)
    ensures Name(r) == Stem(Name(p)) + suffix
  {
    WithName(p, Stem(Name(p)) + suffix)
  }
}
