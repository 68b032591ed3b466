/**
 * `findConfigFile` in src/helpers/findConfigFile.ts (copied verbatim as
 * `findEslintConfigFile` in src/extension.ts): starting in the directory of
 * the current file and moving up to the root, the first existing name of a
 * fixed priority list is the configuration file, except that a manifest
 * counts only when its `eslintConfig` is truthy.
 */
module Locator {
  import opened Paths
  import opened Js
  import opened Disk

  /** The names looked for in each directory, flat configurations first. */
  const Candidates: seq<string> := [
    "eslint.config.js", "eslint.config.mjs", "eslint.config.cjs",
    ".eslintrc.js", ".eslintrc.cjs", ".eslintrc.json", ".eslintrc",
    "package.json"
  ]

  /** The one candidate whose contents are inspected. */
  const ManifestName: string := "package.json"

  /** What looking at one candidate path gives. */
  datatype Probe = Hit | Miss | ProbeFailed(error: Error)

  /**
   * One iteration of the inner loop: a missing file is skipped, a manifest
   * is parsed and skipped unless its `eslintConfig` is truthy (a parse error,
   * or reading the field of a `null` document, throws), any other existing
   * name is the answer.
   */
  function ProbeAt(fs: FileSystem, p: Path): (r: Probe)
    ensures r == Hit ==> PathExists(fs, p)
    ensures !PathExists(fs, p) ==> r == Miss
    ensures PathExists(fs, p) && Basename(p) != ManifestName ==> r == Hit
    ensures r.ProbeFailed? ==> Basename(p) == ManifestName && (r.error == LoadFailed(p) || r.error == TypeError)
  {
    if !PathExists(fs, p) then Miss
    else if Basename(p) != ManifestName then Hit
    else match Load(fs, p)
      case Failure(e) => ProbeFailed(e)
      case Success(doc) =>
        match GetProp(doc, "eslintConfig")
        case Failure(e) => ProbeFailed(e)
        case Success(field) => if Truthy(field) then Hit else Miss
  }

  /** The given names, joined to `dir`. */
  function InDir(dir: Path, names: seq<string>): (ps: seq<Path>)
    ensures |ps| == |names|
    ensures forall n {:trigger ps[n]} :: 0 <= n < |names| ==> ps[n] == Join(dir, names[n])
  {
    if names == [] then [] else [Join(dir, names[0])] + InDir(dir, names[1..])
  }

  /** The candidate paths in the order they are tried: every name in `dir`, then in its parent, up to the root. */
  function SearchOrder(dir: Path): (ps: seq<Path>)
    ensures |Candidates| <= |ps|
    decreases |dir|
  {
    if dir == [] then InDir(dir, Candidates) else InDir(dir, Candidates) + SearchOrder(Dirname(dir))
  }

  /**
   * The first path from position `k` on whose probe is not a miss decides:
   * a hit is the answer, a failure is the exception; when every probe misses
   * there is none.
   */
  function FirstQualifying(fs: FileSystem, ps: seq<Path>, k: nat): (r: Result<Option<Path>>)
    requires k <= |ps|
    ensures r.Success? && r.value.Some? ==> ProbeAt(fs, r.value.value) == Hit
    ensures r.Failure? ==> r.error == TypeError || r.error.LoadFailed?
    decreases |ps| - k
  {
    if k == |ps| then Success(None)
    else match ProbeAt(fs, ps[k])
      case Hit => Success(Some(ps[k]))
      case ProbeFailed(e) => Failure(e)
      case Miss => FirstQualifying(fs, ps, k + 1)
  }

  /** There is no configuration file exactly when every candidate misses. */
  lemma {:induction false} NoneIffAllMiss(fs: FileSystem, ps: seq<Path>, k: nat)
    requires k <= |ps|
    ensures FirstQualifying(fs, ps, k) == Success(None) <==> forall i :: k <= i < |ps| ==> ProbeAt(fs, ps[i]) == Miss
    decreases |ps| - k
  {
    if k < |ps| {
      FirstQualifyingStep(fs, ps, k);
      NoneIffAllMiss(fs, ps, k + 1);
    }
  }

  /** A found path is a hit with only misses before it. */
  lemma {:induction false} FoundIsFirstHit(fs: FileSystem, ps: seq<Path>, k: nat) returns (i: nat)
    requires k <= |ps|
    requires FirstQualifying(fs, ps, k).Success? && FirstQualifying(fs, ps, k).value.Some?
    ensures k <= i < |ps| && ps[i] == FirstQualifying(fs, ps, k).value.value && ProbeAt(fs, ps[i]) == Hit
    ensures forall j :: k <= j < i ==> ProbeAt(fs, ps[j]) == Miss
    decreases |ps| - k
  {
    if ProbeAt(fs, ps[k]) == Miss {
      i := FoundIsFirstHit(fs, ps, k + 1);
    } else {
      i := k;
    }
  }

  /** An exception comes from the first probe that is not a miss. */
  lemma {:induction false} FailureIsFirstProbeFailure(fs: FileSystem, ps: seq<Path>, k: nat) returns (i: nat)
    requires k <= |ps|
    requires FirstQualifying(fs, ps, k).Failure?
    ensures k <= i < |ps| && ProbeAt(fs, ps[i]) == ProbeFailed(FirstQualifying(fs, ps, k).error)
    ensures forall j :: k <= j < i ==> ProbeAt(fs, ps[j]) == Miss
    decreases |ps| - k
  {
    FirstQualifyingStep(fs, ps, k);
    if ProbeAt(fs, ps[k]) == Miss {
      i := FailureIsFirstProbeFailure(fs, ps, k + 1);
      forall j | k <= j < i
        ensures ProbeAt(fs, ps[j]) == Miss
      {
        if j > k {
          assert k + 1 <= j < i;
        }
      }
    } else {
      i := k;
    }
  }

  /** One step of the search: a miss passes on to the next position, anything else decides. */
  lemma FirstQualifyingStep(fs: FileSystem, ps: seq<Path>, k: nat)
    requires k < |ps|
    ensures ProbeAt(fs, ps[k]) == Miss ==> FirstQualifying(fs, ps, k) == FirstQualifying(fs, ps, k + 1)
    ensures ProbeAt(fs, ps[k]) == Hit ==> FirstQualifying(fs, ps, k) == Success(Some(ps[k]))
    ensures ProbeAt(fs, ps[k]).ProbeFailed? ==> FirstQualifying(fs, ps, k) == Failure(ProbeAt(fs, ps[k]).error)
  {
  }

  /** Conversely, a hit with only misses before it is what is found. */
  lemma {:induction false} FirstHitIsFound(fs: FileSystem, ps: seq<Path>, k: nat, i: nat)
    requires k <= i < |ps| && ProbeAt(fs, ps[i]) == Hit
    requires forall j :: k <= j < i ==> ProbeAt(fs, ps[j]) == Miss
    ensures FirstQualifying(fs, ps, k) == Success(Some(ps[i]))
    decreases i - k
  {
    if k < i {
      FirstHitIsFound(fs, ps, k + 1, i);
    }
  }

  /** Only the positions from `k` on matter: a prefix in front shifts them. */
  lemma {:induction false} FirstQualifyingShift(fs: FileSystem, front: seq<Path>, ps: seq<Path>, k: nat)
    requires k <= |ps|
    ensures FirstQualifying(fs, front + ps, |front| + k) == FirstQualifying(fs, ps, k)
    decreases |ps| - k
  {
    if k < |ps| {
      assert (front + ps)[|front| + k] == ps[k];
      FirstQualifyingShift(fs, front, ps, k + 1);
    }
  }

  /** The `n`-th candidate tried from `dir` is the `n`-th name in `dir` itself. */
  lemma SearchOrderHere(dir: Path, n: nat)
    requires n < |Candidates|
    ensures SearchOrder(dir)[n] == Join(dir, Candidates[n])
  {
  }

  /** After the names of `dir`, the search goes on in the parent, unless `dir` is the root. */
  lemma SearchOrderNext(fs: FileSystem, dir: Path)
    ensures FirstQualifying(fs, SearchOrder(dir), |Candidates|) ==
      if dir == [] then Success(None) else FirstQualifying(fs, SearchOrder(Dirname(dir)), 0)
  {
    if dir != [] {
      FirstQualifyingShift(fs, InDir(dir, Candidates), SearchOrder(Dirname(dir)), 0);
    }
  }

  /** `findConfigFile(currentFile)`: the search starts in the file's directory. */
  function Locate(fs: FileSystem, currentFile: Path): (r: Result<Option<Path>>)
    ensures r.Success? && r.value.Some? ==> ProbeAt(fs, r.value.value) == Hit
    ensures r.Failure? ==> r.error == TypeError || r.error.LoadFailed?
  {
    FirstQualifying(fs, SearchOrder(Dirname(currentFile)), 0)
  }

  /**
   * The body of the inner loop of `findConfigFile` for one candidate name in
   * `dir`: `continue` is a miss, `return configFilePath` a hit, and a
   * rejected `fs.readJson` or a property read on a `null` manifest an
   * exception.
   */
  method ProbeCandidate(fs: FileSystem, dir: Path, configFileName: string) returns (r: Probe)
    ensures r == ProbeAt(fs, Join(dir, configFileName))
  {
    var configFilePath := Join(dir, configFileName);
    if PathExists(fs, configFilePath) {
      if configFileName == ManifestName {
        var packageJson := Load(fs, configFilePath);
        if packageJson.Failure? {
          return ProbeFailed(packageJson.error);
        }
        var eslintConfig := GetProp(packageJson.value, "eslintConfig");
        if eslintConfig.Failure? {
          return ProbeFailed(eslintConfig.error);
        }
        if !Truthy(eslintConfig.value) {
          return Miss;
        }
      }
      return Hit;
    }
    return Miss;
  }

  /**
   * The two nested loops of `findConfigFile`: each directory's candidates in
   * priority order, then the parent, until the directory is its own parent.
   */
  method FindConfigFile(fs: FileSystem, currentFile: Path) returns (r: Result<Option<Path>>)
    ensures r == Locate(fs, currentFile)
  {
    var dir := Dirname(currentFile);
    while true
      invariant Locate(fs, currentFile) == FirstQualifying(fs, SearchOrder(dir), 0)
      decreases |dir|
    {
      for i := 0 to |Candidates|
        invariant FirstQualifying(fs, SearchOrder(dir), 0) == FirstQualifying(fs, SearchOrder(dir), i)
      {
        SearchOrderHere(dir, i);
        var probe := ProbeCandidate(fs, dir, Candidates[i]);
        match probe
        case Hit => return Success(Some(Join(dir, Candidates[i])));
        case ProbeFailed(e) => return Failure(e);
        case Miss =>
      }
      SearchOrderNext(fs, dir);
      DirnameFixedPointIsRoot(dir);
      var parentDir := Dirname(dir);
      if dir == parentDir {
        break;
      }
      dir := parentDir;
    }
    return Success(None);
  }
}
