/**
 * Properties of the upward search: the candidate list visits every name of
 * the priority list in every ancestor directory, nearest directory first;
 * the file found is the first candidate that qualifies in that order, and
 * only a manifest can make the search throw.
 */
module LocatorProperties {
  import opened Paths
  import opened Js
  import opened Disk
  import opened Locator

  /** The `n`-th candidate name in the ancestor of `d` that keeps its first `k` segments. */
  function CandidatePath(d: Path, k: nat, n: nat): Path
    requires k <= |d| && n < |Candidates|
  {
    d[..k] + [Candidates[n]]
  }

  /** Where that candidate sits in the search order from `d`. */
  function Position(d: Path, k: nat, n: nat): nat
    requires k <= |d|
  {
    8 * (|d| - k) + n
  }

  lemma {:induction false} SearchOrderLength(dir: Path)
    ensures |SearchOrder(dir)| == 8 * (|dir| + 1)
    decreases |dir|
  {
    assert |Candidates| == 8;
    if dir != [] {
      SearchOrderLength(Dirname(dir));
    }
  }

  /** Past the names of `d`, the search order is that of its parent. */
  lemma SearchOrderTail(d: Path, i: nat)
    requires |Candidates| <= i < |SearchOrder(d)|
    ensures d != []
    ensures i - |Candidates| < |SearchOrder(Dirname(d))|
    ensures SearchOrder(d)[i] == SearchOrder(Dirname(d))[i - |Candidates|]
  {
    if d == [] {
      assert false;
    } else {
      SearchOrderCons(d);
      ConcatIndex(InDir(d, Candidates), SearchOrder(Dirname(d)), i);
    }
  }

  /** The search order from a directory other than the root, split after its own names. */
  lemma SearchOrderCons(d: Path)
    requires d != []
    ensures SearchOrder(d) == InDir(d, Candidates) + SearchOrder(Dirname(d))
    ensures |InDir(d, Candidates)| == |Candidates|
  {
  }

  lemma ConcatIndex(front: seq<Path>, rest: seq<Path>, i: nat)
    requires |front| <= i < |front| + |rest|
    ensures (front + rest)[i] == rest[i - |front|]
  {
  }

  /** A candidate of an ancestor seen from the parent of `d`: the same path, eight places earlier. */
  lemma ParentCandidate(d: Path, k: nat, n: nat)
    requires k < |d| && n < |Candidates|
    ensures k <= |Dirname(d)|
    ensures Position(d, k, n) == Position(Dirname(d), k, n) + |Candidates|
    ensures CandidatePath(Dirname(d), k, n) == CandidatePath(d, k, n)
  {
    assert |Candidates| == 8;
    var parent := Dirname(d);
    assert parent[..k] == d[..k];
  }

  /** The search order lists, directory by directory from `d` up, the names in priority order. */
  lemma {:induction false} SearchOrderAt(d: Path, k: nat, n: nat)
    requires k <= |d| && n < |Candidates|
    ensures Position(d, k, n) < |SearchOrder(d)|
    ensures SearchOrder(d)[Position(d, k, n)] == CandidatePath(d, k, n)
    decreases |d|
  {
    if k == |d| {
      OwnCandidate(d, n);
    } else {
      SearchOrderLength(d);
      ParentCandidate(d, k, n);
      SearchOrderAt(Dirname(d), k, n);
      SearchOrderTail(d, Position(d, k, n));
    }
  }

  /** The first eight places are the names in `d` itself. */
  lemma OwnCandidate(d: Path, n: nat)
    requires n < |Candidates|
    ensures Position(d, |d|, n) == n < |SearchOrder(d)|
    ensures SearchOrder(d)[n] == CandidatePath(d, |d|, n)
  {
    SearchOrderHere(d, n);
    assert d[..|d|] == d;
  }

  /** Every position of the search order is one candidate in one ancestor. */
  lemma Decode(d: Path, i: nat) returns (k: nat, n: nat)
    requires i < |SearchOrder(d)|
    ensures k <= |d| && n < |Candidates| && Position(d, k, n) == i
    ensures SearchOrder(d)[i] == CandidatePath(d, k, n)
  {
    SearchOrderLength(d);
    assert |Candidates| == 8;
    n := i % 8;
    k := |d| - i / 8;
    SearchOrderAt(d, k, n);
  }

  /** Every candidate tried before the `n`-th name of ancestor `k` is in a nearer directory or of higher priority. */
  lemma Earlier(d: Path, k: nat, n: nat, j: nat) returns (k2: nat, n2: nat)
    requires k <= |d| && n < |Candidates| && j < Position(d, k, n)
    ensures j < |SearchOrder(d)|
    ensures k2 <= |d| && n2 < |Candidates|
    ensures k < k2 || (k2 == k && n2 < n)
    ensures SearchOrder(d)[j] == CandidatePath(d, k2, n2)
  {
    SearchOrderAt(d, k, n);
    k2, n2 := Decode(d, j);
  }

  /** A candidate in a nearer directory, or of higher priority in the same one, is tried earlier. */
  lemma Later(d: Path, k: nat, n: nat, k2: nat, n2: nat)
    requires k <= |d| && n < |Candidates| && k2 <= |d| && n2 < |Candidates|
    requires k < k2 || (k2 == k && n2 < n)
    ensures Position(d, k2, n2) < Position(d, k, n) < |SearchOrder(d)|
    ensures SearchOrder(d)[Position(d, k2, n2)] == CandidatePath(d, k2, n2)
  {
    SearchOrderAt(d, k, n);
    SearchOrderAt(d, k2, n2);
  }

  /** The misses before a position, read directory by directory. */
  lemma MissesBefore(fs: FileSystem, d: Path, k: nat, n: nat)
    requires k <= |d| && n < |Candidates|
    requires Position(d, k, n) <= |SearchOrder(d)|
    requires forall j :: 0 <= j < Position(d, k, n) ==> ProbeAt(fs, SearchOrder(d)[j]) == Miss
    ensures forall k2: nat, n2: nat :: k < k2 <= |d| && n2 < |Candidates| ==> ProbeAt(fs, CandidatePath(d, k2, n2)) == Miss
    ensures forall n2: nat :: n2 < n ==> ProbeAt(fs, CandidatePath(d, k, n2)) == Miss
  {
    forall k2: nat, n2: nat | k < k2 <= |d| && n2 < |Candidates|
      ensures ProbeAt(fs, CandidatePath(d, k2, n2)) == Miss
    {
      Later(d, k, n, k2, n2);
    }
    forall n2: nat | n2 < n
      ensures ProbeAt(fs, CandidatePath(d, k, n2)) == Miss
    {
      Later(d, k, n, k, n2);
    }
  }

  /**
   * The file found is a candidate that qualifies, and every candidate tried
   * before it (all names in nearer directories, and the higher-priority
   * names in its own directory) does not.
   */
  lemma NearestFirst(fs: FileSystem, currentFile: Path)
    requires Locate(fs, currentFile).Success? && Locate(fs, currentFile).value.Some?
    ensures var d := Dirname(currentFile);
      exists k: nat, n: nat :: k <= |d| && n < |Candidates| &&
        Locate(fs, currentFile).value.value == CandidatePath(d, k, n) &&
        ProbeAt(fs, CandidatePath(d, k, n)) == Hit &&
        (forall k2: nat, n2: nat :: k < k2 <= |d| && n2 < |Candidates| ==> ProbeAt(fs, CandidatePath(d, k2, n2)) == Miss) &&
        (forall n2: nat :: n2 < n ==> ProbeAt(fs, CandidatePath(d, k, n2)) == Miss)
  {
    var k, n := LocatedCandidate(fs, currentFile);
  }

  /** The candidate found, with only misses before it. */
  lemma LocatedCandidate(fs: FileSystem, currentFile: Path) returns (k: nat, n: nat)
    requires Locate(fs, currentFile).Success? && Locate(fs, currentFile).value.Some?
    ensures var d := Dirname(currentFile);
      k <= |d| && n < |Candidates| &&
      Locate(fs, currentFile).value.value == CandidatePath(d, k, n) &&
      ProbeAt(fs, CandidatePath(d, k, n)) == Hit
    ensures var d := Dirname(currentFile);
      (forall k2: nat, n2: nat :: k < k2 <= |d| && n2 < |Candidates| ==> ProbeAt(fs, CandidatePath(d, k2, n2)) == Miss) &&
      (forall n2: nat :: n2 < n ==> ProbeAt(fs, CandidatePath(d, k, n2)) == Miss)
  {
    var d := Dirname(currentFile);
    var ps := SearchOrder(d);
    var i := FoundIsFirstHit(fs, ps, 0);
    k, n := Decode(d, i);
    MissesBefore(fs, d, k, n);
  }

  /** Conversely, a qualifying candidate before which nothing qualifies is the file found. */
  lemma NearestFirstIsFound(fs: FileSystem, currentFile: Path, k: nat, n: nat)
    requires var d := Dirname(currentFile); k <= |d| && n < |Candidates|
    requires ProbeAt(fs, CandidatePath(Dirname(currentFile), k, n)) == Hit
    requires var d := Dirname(currentFile);
      forall k2: nat, n2: nat :: k < k2 <= |d| && n2 < |Candidates| ==> ProbeAt(fs, CandidatePath(d, k2, n2)) == Miss
    requires forall n2: nat :: n2 < n ==> ProbeAt(fs, CandidatePath(Dirname(currentFile), k, n2)) == Miss
    ensures Locate(fs, currentFile) == Success(Some(CandidatePath(Dirname(currentFile), k, n)))
  {
    var d := Dirname(currentFile);
    var ps := SearchOrder(d);
    SearchOrderAt(d, k, n);
    var i := Position(d, k, n);
    forall j | 0 <= j < i ensures ProbeAt(fs, ps[j]) == Miss {
      var k2, n2 := Earlier(d, k, n, j);
    }
    FirstHitIsFound(fs, ps, 0, i);
  }

  /** Nothing is found exactly when no candidate in any ancestor qualifies. */
  lemma NotFoundIffNoneQualifies(fs: FileSystem, currentFile: Path)
    ensures var d := Dirname(currentFile);
      Locate(fs, currentFile) == Success(None) <==>
        forall k: nat, n: nat :: k <= |d| && n < |Candidates| ==> ProbeAt(fs, CandidatePath(d, k, n)) == Miss
  {
    var d := Dirname(currentFile);
    var ps := SearchOrder(d);
    NoneIffAllMiss(fs, ps, 0);
    if forall k: nat, n: nat :: k <= |d| && n < |Candidates| ==> ProbeAt(fs, CandidatePath(d, k, n)) == Miss {
      forall i | 0 <= i < |ps| ensures ProbeAt(fs, ps[i]) == Miss {
        var k, n := Decode(d, i);
      }
    }
    if Locate(fs, currentFile) == Success(None) {
      forall k: nat, n: nat | k <= |d| && n < |Candidates|
        ensures ProbeAt(fs, CandidatePath(d, k, n)) == Miss
      {
        SearchOrderAt(d, k, n);
      }
    }
  }

  /**
   * The search throws only at a manifest, nearer than any qualifying
   * candidate: its parse failed, or it is `null`.
   */
  lemma OnlyManifestsThrow(fs: FileSystem, currentFile: Path)
    requires Locate(fs, currentFile).Failure?
    ensures var d := Dirname(currentFile);
      var e := Locate(fs, currentFile).error;
      exists k: nat, n: nat :: k <= |d| && n < |Candidates| && Candidates[n] == ManifestName &&
        ProbeAt(fs, CandidatePath(d, k, n)) == ProbeFailed(e) &&
        (e == LoadFailed(CandidatePath(d, k, n)) || e == TypeError) &&
        (forall k2: nat, n2: nat :: k < k2 <= |d| && n2 < |Candidates| ==> ProbeAt(fs, CandidatePath(d, k2, n2)) == Miss) &&
        (forall n2: nat :: n2 < n ==> ProbeAt(fs, CandidatePath(d, k, n2)) == Miss)
  {
    var k, n := FirstFailure(fs, currentFile);
  }

  /** The candidate whose probe failed, with only misses before it. */
  lemma FirstFailure(fs: FileSystem, currentFile: Path) returns (k: nat, n: nat)
    requires Locate(fs, currentFile).Failure?
    ensures var d := Dirname(currentFile);
      k <= |d| && n < |Candidates| && Candidates[n] == ManifestName &&
      ProbeAt(fs, CandidatePath(d, k, n)) == ProbeFailed(Locate(fs, currentFile).error)
    ensures var d := Dirname(currentFile);
      (forall k2: nat, n2: nat :: k < k2 <= |d| && n2 < |Candidates| ==> ProbeAt(fs, CandidatePath(d, k2, n2)) == Miss) &&
      (forall n2: nat :: n2 < n ==> ProbeAt(fs, CandidatePath(d, k, n2)) == Miss)
  {
    var d := Dirname(currentFile);
    var ps := SearchOrder(d);
    var i := FailureIsFirstProbeFailure(fs, ps, 0);
    k, n := Decode(d, i);
    assert Basename(CandidatePath(d, k, n)) == Candidates[n];
    MissesBefore(fs, d, k, n);
  }

  /**
   * A legacy file in `/w/a` wins over a flat configuration in `/w` for the
   * file `/w/a/b/file.js`: the nearer directory is searched completely first.
   */
  lemma NearerLegacyBeatsFartherFlat()
    ensures
      var fs := map[["w", "a", ".eslintrc.json"] := Loaded(Obj([])), ["w", "eslint.config.js"] := Loaded(Arr([]))];
      Locate(fs, ["w", "a", "b", "file.js"]) == Success(Some(["w", "a", ".eslintrc.json"]))
  {
    var fs := map[["w", "a", ".eslintrc.json"] := Loaded(Obj([])), ["w", "eslint.config.js"] := Loaded(Arr([]))];
    var file: Path := ["w", "a", "b", "file.js"];
    var d := Dirname(file);
    assert d == ["w", "a", "b"];
    assert d[..2] == ["w", "a"];
    assert CandidatePath(d, 2, 5) == ["w", "a", ".eslintrc.json"];
    forall k2: nat, n2: nat | 2 < k2 <= |d| && n2 < |Candidates|
      ensures ProbeAt(fs, CandidatePath(d, k2, n2)) == Miss
    {
      assert |CandidatePath(d, k2, n2)| == 4;
    }
    forall n2: nat | n2 < 5
      ensures ProbeAt(fs, CandidatePath(d, 2, n2)) == Miss
    {
      assert Candidates[n2] != ".eslintrc.json";
      assert CandidatePath(d, 2, n2) == ["w", "a", Candidates[n2]];
    }
    NearestFirstIsFound(fs, file, 2, 5);
  }

  /**
   * For `/w/a/b/file.js`, a lone `/w/.eslintrc.json` is found; once
   * `/w/a/eslint.config.js` exists too, the nearer directory wins.
   */
  lemma NearestDirectoryWins()
    ensures
      var file: Path := ["w", "a", "b", "file.js"];
      var fs1 := map[["w", ".eslintrc.json"] := Loaded(Obj([]))];
      var fs2 := fs1[["w", "a", "eslint.config.js"] := Loaded(Arr([]))];
      Locate(fs1, file) == Success(Some(["w", ".eslintrc.json"])) &&
      Locate(fs2, file) == Success(Some(["w", "a", "eslint.config.js"]))
  {
    LoneFarConfigFound();
    NearerFlatFound();
  }

  lemma LoneFarConfigFound()
    ensures
      var fs := map[["w", ".eslintrc.json"] := Loaded(Obj([]))];
      Locate(fs, ["w", "a", "b", "file.js"]) == Success(Some(["w", ".eslintrc.json"]))
  {
    var fs := map[["w", ".eslintrc.json"] := Loaded(Obj([]))];
    var file: Path := ["w", "a", "b", "file.js"];
    var d := Dirname(file);
    assert d == ["w", "a", "b"];
    assert d[..1] == ["w"];
    assert CandidatePath(d, 1, 5) == ["w", ".eslintrc.json"];
    forall k2: nat, n2: nat | 1 < k2 <= |d| && n2 < |Candidates|
      ensures ProbeAt(fs, CandidatePath(d, k2, n2)) == Miss
    {
      assert |CandidatePath(d, k2, n2)| == k2 + 1;
    }
    forall n2: nat | n2 < 5
      ensures ProbeAt(fs, CandidatePath(d, 1, n2)) == Miss
    {
      assert Candidates[n2] != ".eslintrc.json";
      assert CandidatePath(d, 1, n2) == ["w", Candidates[n2]];
    }
    NearestFirstIsFound(fs, file, 1, 5);
  }

  lemma NearerFlatFound()
    ensures
      var fs := map[["w", ".eslintrc.json"] := Loaded(Obj([])), ["w", "a", "eslint.config.js"] := Loaded(Arr([]))];
      Locate(fs, ["w", "a", "b", "file.js"]) == Success(Some(["w", "a", "eslint.config.js"]))
  {
    var fs := map[["w", ".eslintrc.json"] := Loaded(Obj([])), ["w", "a", "eslint.config.js"] := Loaded(Arr([]))];
    var file: Path := ["w", "a", "b", "file.js"];
    var d := Dirname(file);
    assert d == ["w", "a", "b"];
    assert d[..2] == ["w", "a"];
    assert CandidatePath(d, 2, 0) == ["w", "a", "eslint.config.js"];
    forall k2: nat, n2: nat | 2 < k2 <= |d| && n2 < |Candidates|
      ensures ProbeAt(fs, CandidatePath(d, k2, n2)) == Miss
    {
      assert |CandidatePath(d, k2, n2)| == 4;
    }
    NearestFirstIsFound(fs, file, 2, 0);
  }

  /**
   * A `package.json` without `eslintConfig`, the only candidate of its
   * directory, is skipped and the search goes on in the parent.
   */
  lemma ManifestWithoutFieldSkipped()
    ensures
      var fs := map[["w", "a", "package.json"] := Loaded(Obj([("name", Str("app"))])),
                    ["w", ".eslintrc.json"] := Loaded(Obj([]))];
      Locate(fs, ["w", "a", "file.js"]) == Success(Some(["w", ".eslintrc.json"]))
  {
    var manifest := Obj([("name", Str("app"))]);
    var fs := map[["w", "a", "package.json"] := Loaded(manifest), ["w", ".eslintrc.json"] := Loaded(Obj([]))];
    var file: Path := ["w", "a", "file.js"];
    var d := Dirname(file);
    assert d == ["w", "a"];
    assert d[..1] == ["w"] && d[..2] == d;
    assert CandidatePath(d, 1, 5) == ["w", ".eslintrc.json"];
    assert GetProp(manifest, "eslintConfig") == Success(Undefined) by {
      assert IndexOf(manifest.props, "eslintConfig") == -1;
    }
    forall n2: nat | n2 < |Candidates|
      ensures ProbeAt(fs, CandidatePath(d, 2, n2)) == Miss
    {
      assert CandidatePath(d, 2, n2) == ["w", "a", Candidates[n2]];
      if n2 == 7 {
        assert Basename(CandidatePath(d, 2, n2)) == ManifestName;
      }
    }
    forall n2: nat | n2 < 5
      ensures ProbeAt(fs, CandidatePath(d, 1, n2)) == Miss
    {
      assert Candidates[n2] != ".eslintrc.json";
      assert CandidatePath(d, 1, n2) == ["w", Candidates[n2]];
    }
    NearestFirstIsFound(fs, file, 1, 5);
  }

  /** A probe looks only at its own path. */
  lemma ProbeLocal(fs: FileSystem, p: Path, c: Content, q: Path)
    requires q != p
    ensures ProbeAt(fs[p := c], q) == ProbeAt(fs, q)
  {
    assert Load(fs[p := c], q) == Load(fs, q);
  }

  /**
   * Rewriting the file found leaves it the file found, as long as it still
   * qualifies: every candidate tried before it is a different path.
   */
  lemma LocateAfterWrite(fs: FileSystem, currentFile: Path, p: Path, c: Content)
    requires Locate(fs, currentFile) == Success(Some(p))
    requires ProbeAt(fs[p := c], p) == Hit
    ensures Locate(fs[p := c], currentFile) == Success(Some(p))
  {
    var ps := SearchOrder(Dirname(currentFile));
    var i := FoundIsFirstHit(fs, ps, 0);
    forall j | 0 <= j < i ensures ProbeAt(fs[p := c], ps[j]) == Miss {
      ProbeLocal(fs, p, c, ps[j]);
    }
    FirstHitIsFound(fs[p := c], ps, 0, i);
  }
}
