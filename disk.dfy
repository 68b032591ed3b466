/**
 * The file system as the configuration code sees it: the set of existing
 * paths, and for each what its loader makes of it, or the fact that the
 * loader rejects it. A `Loaded` file is one value: the parsed JSON
 * document for `fs.readJson`, `module.exports` for `require`, and for
 * `import()` the default export of a module that exports nothing else. A
 * `Module` file is an ECMAScript module with named exports, which only
 * `import()` can load.
 */
module Disk {
  import opened Paths
  import opened Js

  /** A value that is not a module namespace object, as a file holding one value gives. */
  type Plain = v: Value | !v.Namespace? witness Null

  datatype Content =
    | Loaded(value: Plain)
    | Module(exports: seq<(string, Value)>)  // the module's exports, as its namespace object lists them
    | Unloadable

  type FileSystem = map<Path, Content>

  /** `fs.pathExists`. */
  predicate PathExists(fs: FileSystem, p: Path)
  {
    p in fs
  }

  /** Reading a file through `fs.readJson` or `require`: a missing file and a rejected one both throw. */
  function Load(fs: FileSystem, p: Path): (r: Result<Value>)
    ensures r.Success? <==> p in fs && fs[p].Loaded?
    ensures r.Success? ==> r.value == fs[p].value
    ensures p !in fs ==> r == Failure(NoSuchFile(p))
  {
    if p !in fs then Failure(NoSuchFile(p))
    else match fs[p]
      case Loaded(v) => Success(v)
      case _ => Failure(LoadFailed(p))
  }

  /** The exports of a file `import()` can load: a lone value is the module's default export. */
  function ExportsOf(c: Content): seq<(string, Value)>
    requires !c.Unloadable?
  {
    if c.Module? then c.exports else [("default", c.value)]
  }

  /** `import()` of an ECMAScript module file: its namespace object; a missing or rejected file throws. */
  function Import(fs: FileSystem, p: Path): (r: Result<Value>)
    ensures r.Success? <==> p in fs && !fs[p].Unloadable?
    ensures r.Success? ==> r.value == Namespace(ExportsOf(fs[p]))
    ensures p !in fs ==> r == Failure(NoSuchFile(p))
  {
    if p !in fs then Failure(NoSuchFile(p))
    else if fs[p].Unloadable? then Failure(LoadFailed(p))
    else Success(Namespace(ExportsOf(fs[p])))
  }
}
