/**
 * File paths as the configuration code handles them through Node's `path`
 * module: a path is the sequence of its segments below the root, so the root
 * itself is the empty sequence and `dirname` of the root is the root.
 * Extension and base-name rules follow `path.extname` and `path.basename`
 * for a single segment.
 */
module Paths {

  /** Segments of an absolute path; `[]` is the root directory. */
  type Path = seq<string>

  /** `path.dirname`: drops the last segment; the root is its own parent. */
  function Dirname(p: Path): (d: Path)
    ensures p == [] ==> d == []
    ensures p != [] ==> |d| == |p| - 1 && d + [p[|p| - 1]] == p
  {
    if p == [] then [] else p[..|p| - 1]
  }

  /** `path.basename`: the last segment, or the empty name for the root. */
  function Basename(p: Path): string
  {
    if p == [] then "" else p[|p| - 1]
  }

  /** `path.join(dir, name)` for a plain file name. */
  function Join(dir: Path, name: string): (p: Path)
    ensures Dirname(p) == dir && Basename(p) == name
  {
    dir + [name]
  }

  /** A directory is its own parent exactly at the root. */
  lemma DirnameFixedPointIsRoot(p: Path)
    ensures Dirname(p) == p <==> p == []
  {
    if p != [] {
      assert |Dirname(p)| < |p|;
    }
  }

  predicate StartsWith(s: string, prefix: string)
  {
    |prefix| <= |s| && s[..|prefix|] == prefix
  }

  predicate EndsWith(s: string, suffix: string)
  {
    |suffix| <= |s| && s[|s| - |suffix|..] == suffix
  }

  /**
   * The index of the last `c` among the first `n` characters of `s`, or -1
   * when there is none.
   */
  function LastIndexBefore(s: string, c: char, n: nat): (i: int)
    requires n <= |s|
    ensures -1 <= i < n
  {
    if n == 0 then -1
    else if s[n - 1] == c then n - 1
    else LastIndexBefore(s, c, n - 1)
  }

  /** The index found holds `c`, and no later index before `n` does. */
  lemma {:induction false} LastIndexBeforeSpec(s: string, c: char, n: nat)
    requires n <= |s|
    ensures var i := LastIndexBefore(s, c, n);
      (i >= 0 ==> s[i] == c) && forall j :: i < j < n ==> s[j] != c
    decreases n
  {
    if n > 0 && s[n - 1] != c {
      LastIndexBeforeSpec(s, c, n - 1);
    }
  }

  /** A `c` at `i` with none after it before `n` is the one found. */
  lemma {:induction false} LastIndexBeforeAt(s: string, c: char, n: nat, i: nat)
    requires i < n <= |s| && s[i] == c
    requires forall j :: i < j < n ==> s[j] != c
    ensures LastIndexBefore(s, c, n) == i
    decreases n
  {
    if n - 1 > i {
      LastIndexBeforeAt(s, c, n - 1, i);
    }
  }

  /**
   * `path.extname` of one segment: from the last dot to the end, except that
   * a name without a dot, a name whose only dot is its first character
   * (`.eslintrc`) and the name `..` have no extension.
   */
  function Extname(name: string): string
  {
    var i := LastIndexBefore(name, '.', |name|);
    // the second test says that the name is `..`
    if i <= 0 || (i == 1 && |name| == 2 && name[0] == '.') then "" else name[i..]
  }

  /**
   * An extension is a proper suffix of the name that starts with its only
   * dot; there is none exactly when the name has no dot after its first
   * character, or is `..`.
   */
  lemma ExtnameShape(name: string)
    ensures var ext := Extname(name);
      (ext != [] ==> |ext| < |name| && EndsWith(name, ext)) &&
      (ext != [] ==> ext[0] == '.' && forall j :: 1 <= j < |ext| ==> ext[j] != '.') &&
      (ext == [] <==> LastIndexBefore(name, '.', |name|) <= 0 || name == "..")
  {
    LastIndexBeforeSpec(name, '.', |name|);
    if name == ".." {
      assert name[0] == '.' && name[1] == '.';
    }
  }

  /** The extension of a name whose last dot is at `i`. */
  lemma ExtnameFromLastDot(name: string, i: nat)
    requires i < |name| && name[i] == '.'
    requires forall j :: i < j < |name| ==> name[j] != '.'
    ensures Extname(name) == if i == 0 || name == ".." then "" else name[i..]
  {
    LastIndexBeforeAt(name, '.', |name|, i);
    if name == ".." {
      assert name[0] == '.' && name[1] == '.';
    }
  }

  /** `name.replace(/\.temp$/, '')`: removes one trailing `.temp`. */
  function StripTemp(name: string): (base: string)
    ensures EndsWith(name, ".temp") ==> base + ".temp" == name
    ensures !EndsWith(name, ".temp") ==> base == name
  {
    if EndsWith(name, ".temp") then name[..|name| - 5] else name
  }
}
