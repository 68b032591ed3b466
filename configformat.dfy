/**
 * The file-name dispatch of `readConfigFile` and `writeConfigFile` in
 * src/helpers/readConfigFile.ts (copied verbatim as `readEslintConfig` and
 * `writeEslintConfig` in src/extension.ts). The loaders and writers at the
 * leaves are abstract: a file denotes the value its loader yields, and a
 * written file is a prefix, the JSON text of a value, and a suffix, which
 * its loader gives back as the value that JSON text spells.
 */
module ConfigFormat {
  import opened Paths
  import opened Js
  import opened Disk
  import opened JsonText

  /** Base names starting with this are flat configurations. */
  const FlatConfigPrefix: string := "eslint.config."

  /** How `readConfigFile` obtains the configuration from a file. */
  datatype Loader =
    | EsImport       // `import()` of an ECMAScript module, then `config.default || config`
    | CjsRequire     // `require`, after removing the module from `require.cache`
    | ManifestField  // `fs.readJson`, then the manifest's `eslintConfig` field
    | JsonParse      // `fs.readJson`

  /**
   * The three names both branch chains test: `ext`, the extension of the whole
   * base name; `baseFileName`, the base name without a trailing `.temp`; and
   * `baseExt`, the extension of that.
   */
  datatype NameInfo = NameInfo(ext: string, baseFileName: string, baseExt: string)

  function Inspect(path: Path): (n: NameInfo)
    ensures n.baseFileName == StripTemp(Basename(path))
    ensures n.ext == n.baseExt || n.ext == ".temp" || n.ext == ""
  {
    var fileName := Basename(path);
    var baseFileName := StripTemp(fileName);
    TempExtension(fileName);
    NameInfo(Extname(fileName), baseFileName, Extname(baseFileName))
  }

  /**
   * Removing `.temp` changes the extension only by dropping `.temp` itself:
   * a name not ending in `.temp` keeps its extension, and one ending in it
   * has `.temp` or (for the name `.temp` alone) no extension.
   */
  lemma TempExtension(name: string)
    ensures Extname(name) == Extname(StripTemp(name)) || Extname(name) == ".temp" || Extname(name) == ""
  {
    if EndsWith(name, ".temp") {
      var i := |name| - 5;
      assert name[i..] == ".temp";
      LastIndexBeforeAt(name, '.', |name|, i);
      if i > 0 && name != ".." {
        assert name[i..] == ".temp";
      }
    }
  }

  predicate IsFlatName(n: NameInfo)
  {
    StartsWith(n.baseFileName, FlatConfigPrefix)
  }

  /**
   * The branch chain of `readConfigFile`: the flat tests first, with the
   * extension of the base name; an `eslint.config.` name with any other
   * extension falls through to the legacy tests, which use `ext`. `None` is
   * the unsupported-format exception.
   */
  function LoaderFor(n: NameInfo): Option<Loader>
  {
    if IsFlatName(n) && n.baseExt == ".mjs" then Some(EsImport)
    else if IsFlatName(n) && (n.baseExt == ".cjs" || n.baseExt == ".js") then Some(CjsRequire)
    else if n.ext == ".js" || n.ext == ".cjs" then Some(CjsRequire)
    else if n.baseFileName == "package.json" then Some(ManifestField)
    else if n.ext == ".json" || n.ext == "" then Some(JsonParse)
    else None
  }

  function ReadLoader(path: Path): (r: Result<Loader>)
    ensures r.Failure? <==> LoaderFor(Inspect(path)).None?
    ensures r.Failure? ==> r.error == Unsupported(path)
    ensures r.Success? ==> r.value == LoaderFor(Inspect(path)).value
  {
    match LoaderFor(Inspect(path))
    case None => Failure(Unsupported(path))
    case Some(loader) => Success(loader)
  }

  /**
   * `readConfigFile(path)`: the configuration value, or the exception raised.
   * Only the manifest branch reads a property of a value that can be null,
   * so only it can throw a `TypeError`; an ECMAScript module yields its
   * default export when that is truthy and its namespace object otherwise.
   */
  function ReadConfig(fs: FileSystem, path: Path): (r: Result<Value>)
    ensures ReadLoader(path).Failure? ==> r == Failure(Unsupported(path))
    ensures ReadLoader(path).Success? && path !in fs ==> r == Failure(NoSuchFile(path))
    ensures r.Success? ==> path in fs && (fs[path].Loaded? || (ReadLoader(path) == Success(EsImport) && fs[path].Module?))
    ensures r == Failure(TypeError) ==> ReadLoader(path) == Success(ManifestField)
    ensures ReadLoader(path) == Success(EsImport) && r.Success? ==>
      var exported := Lookup(ExportsOf(fs[path]), "default");
      Truthy(r.value) && r.value == if Truthy(exported) then exported else Namespace(ExportsOf(fs[path]))
  {
    var loader :- ReadLoader(path);
    match loader
    case EsImport =>
      var config :- Import(fs, path);
      var defaultExport := GetProp(config, "default").value;
      Success(if Truthy(defaultExport) then defaultExport else config)
    case CjsRequire => Load(fs, path)
    case ManifestField =>
      var packageJson :- Load(fs, path);
      GetProp(packageJson, "eslintConfig")
    case JsonParse => Load(fs, path)
  }

  /**
   * The text of a written file: `prefix`, then `JSON.stringify(config, null, 2)`,
   * then `suffix`; `value` is the value that JSON text spells, `Reparsed(config)`,
   * so two texts are equal exactly when their three parts are.
   */
  datatype FileText = FileText(prefix: string, value: Plain, suffix: string)

  /** What `writeConfigFile` does to the disk. */
  datatype WriteEffect = NoWrite | Overwrite(path: Path, text: FileText)

  /** The file `writeConfigFile` would produce, before the manifest is consulted. */
  datatype WritePlan =
    | Skip                   // an `eslint.config.` name with an unknown extension: return without writing
    | WriteModule(prefix: string, suffix: string)
    | WriteManifestField     // re-read the manifest and set its `eslintConfig`
    | WriteJson              // `fs.writeJson`, which ends the file with a newline
    | Reject                 // the unsupported-format exception

  /**
   * The branch chain of `writeConfigFile`. Unlike reading, an
   * `eslint.config.` name with an unknown extension returns without writing,
   * and a legacy module gets no trailing semicolon.
   */
  function WritePlanFor(n: NameInfo): WritePlan
  {
    if IsFlatName(n) then
      if n.baseExt == ".mjs" then WriteModule("export default ", ";")
      else if n.baseExt == ".cjs" || n.baseExt == ".js" then WriteModule("module.exports = ", ";")
      else Skip
    else if n.ext == ".js" || n.ext == ".cjs" then WriteModule("module.exports = ", "")
    else if n.baseFileName == "package.json" then WriteManifestField
    else if n.ext == ".json" || n.ext == "" then WriteJson
    else Reject
  }

  /**
   * `writeConfigFile(path, config)`: what it does to the disk, or the
   * exception raised. It writes only the file it was given, and what it
   * writes is JSON text.
   */
  function WriteConfig(fs: FileSystem, path: Path, config: Value): (r: Result<WriteEffect>)
    ensures r.Success? && r.value.Overwrite? ==> r.value.path == path && JsonValue(r.value.text.value)
    ensures r == Success(NoWrite) <==> WritePlanFor(Inspect(path)) == Skip
    ensures r == Failure(Unsupported(path)) <==> WritePlanFor(Inspect(path)) == Reject
  {
    match WritePlanFor(Inspect(path))
    case Skip => Success(NoWrite)
    case WriteModule(prefix, suffix) =>
      ReparsedIsJson(config);
      Success(Overwrite(path, FileText(prefix, Reparsed(config), suffix)))
    case WriteManifestField =>
      var manifest :- Load(fs, path);
      var updated :- SetProp(manifest, "eslintConfig", config);
      ReparsedIsJson(updated);
      Success(Overwrite(path, FileText("", Reparsed(updated), "\n")))
    case WriteJson =>
      ReparsedIsJson(config);
      Success(Overwrite(path, FileText("", Reparsed(config), "\n")))
    case Reject => Failure(Unsupported(path))
  }

  /**
   * The two chains agree wherever both act: a name is written as an
   * ECMAScript module, a CommonJS module, a manifest field or a JSON document
   * exactly when it is read that way, except that an `eslint.config.` name
   * with an unknown extension is never written (the reader takes it as JSON
   * when its extension is `.json` or empty, and rejects it otherwise).
   */
  lemma PlansAgree(n: NameInfo)
    requires n.ext == n.baseExt || n.ext == ".temp" || n.ext == ""
    ensures (WritePlanFor(n) == WriteModule("export default ", ";")) <==> LoaderFor(n) == Some(EsImport)
    ensures (WritePlanFor(n).WriteModule? && WritePlanFor(n).prefix == "module.exports = ") <==>
      LoaderFor(n) == Some(CjsRequire)
    ensures WritePlanFor(n) == WriteManifestField <==> LoaderFor(n) == Some(ManifestField)
    ensures WritePlanFor(n) == WriteJson ==> LoaderFor(n) == Some(JsonParse)
    ensures WritePlanFor(n) == Reject ==> LoaderFor(n) == None
    ensures WritePlanFor(n) == Skip <==>
      IsFlatName(n) && n.baseExt != ".mjs" && n.baseExt != ".cjs" && n.baseExt != ".js"
    ensures WritePlanFor(n) == Skip ==>
      (LoaderFor(n) == Some(JsonParse) <==> n.ext == ".json" || n.ext == "")
  {
    if IsFlatName(n) {
      assert n.baseFileName != "package.json" by {
        assert n.baseFileName[..|FlatConfigPrefix|] == FlatConfigPrefix;
      }
    }
  }

  /**
   * The disk after a write: the file then denotes the value its JSON text
   * spells (`module.exports = t`, `export default t;` and a JSON document
   * `t` all load back as the value of `t`); `ApplyWriteFrame` says that
   * every other file is as it was.
   */
  function ApplyWrite(fs: FileSystem, effect: WriteEffect): (r: FileSystem)
    ensures effect.NoWrite? ==> r == fs
    ensures effect.Overwrite? ==> effect.path in r && r[effect.path] == Loaded(effect.text.value)
  {
    match effect
    case NoWrite => fs
    case Overwrite(p, text) => fs[p := Loaded(text.value)]
  }

  /** A write changes no file but its own and creates no other. */
  lemma ApplyWriteFrame(fs: FileSystem, effect: WriteEffect)
    ensures forall q :: q in fs && !(effect.Overwrite? && q == effect.path) ==>
      q in ApplyWrite(fs, effect) && ApplyWrite(fs, effect)[q] == fs[q]
    ensures forall q :: q in ApplyWrite(fs, effect) ==> q in fs || (effect.Overwrite? && q == effect.path)
  {
  }
}
