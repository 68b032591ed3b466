/**
 * Properties of the file-name dispatch: reading back what was written gives
 * the written configuration, loading and saving without a change leaves the
 * disk as it was, the two branch chains agree on what they reject, and the
 * names the locator returns land in the expected branches.
 */
module ConfigFormatProperties {
  import opened Paths
  import opened Js
  import opened Disk
  import opened JsonText
  import opened ConfigFormat

  /**
   * Whatever `writeConfigFile` writes, `readConfigFile` reads back as the
   * value the JSON text of the configuration spells, and so as the
   * configuration itself when that is a JSON value; provided an ECMAScript
   * module is given a truthy configuration (a falsy default export reads back
   * as the module namespace) and a rewritten manifest is a plain object.
   */
  lemma WriteThenRead(fs: FileSystem, path: Path, config: Value)
    requires WriteConfig(fs, path, config).Success?
    requires WriteConfig(fs, path, config).value.Overwrite?
    requires ReadLoader(path) == Success(EsImport) ==> Truthy(config)
    requires ReadLoader(path) == Success(ManifestField) ==> path in fs && fs[path].Loaded? && fs[path].value.Obj?
    ensures ReadConfig(ApplyWrite(fs, WriteConfig(fs, path, config).value), path) == Success(Reparsed(config))
    ensures JsonValue(config) ==>
      ReadConfig(ApplyWrite(fs, WriteConfig(fs, path, config).value), path) == Success(config)
  {
    if ReadLoader(path) == Success(ManifestField) {
      ManifestWriteThenRead(fs, path, config);
    } else {
      PlainWriteThenRead(fs, path, config);
    }
    if JsonValue(config) {
      JsonReparsedUnchanged(config);
    }
  }

  lemma ManifestWriteThenRead(fs: FileSystem, path: Path, config: Value)
    requires ReadLoader(path) == Success(ManifestField)
    requires path in fs && fs[path].Loaded? && fs[path].value.Obj?
    ensures WriteConfig(fs, path, config).Success? && WriteConfig(fs, path, config).value.Overwrite?
    ensures ReadConfig(ApplyWrite(fs, WriteConfig(fs, path, config).value), path) == Success(Reparsed(config))
  {
    ManifestWriteSetsField(fs, path, config);
    var props := Put(fs[path].value.props, "eslintConfig", config);
    var written := Reparsed(Obj(props));
    ManifestReadsField(ApplyWrite(fs, WriteConfig(fs, path, config).value), path, written);
    ReparsedLookup(props, "eslintConfig");
  }

  /** The manifest branch reads the `eslintConfig` of the file's value. */
  lemma ManifestReadsField(fs: FileSystem, path: Path, manifest: Plain)
    requires ReadLoader(path) == Success(ManifestField)
    requires path in fs && fs[path] == Loaded(manifest) && manifest.Obj?
    ensures ReadConfig(fs, path) == Success(Lookup(manifest.props, "eslintConfig"))
  {
  }

  lemma PlainWriteThenRead(fs: FileSystem, path: Path, config: Value)
    requires ReadLoader(path) != Success(ManifestField)
    requires WriteConfig(fs, path, config).Success? && WriteConfig(fs, path, config).value.Overwrite?
    requires ReadLoader(path) == Success(EsImport) ==> Truthy(config)
    ensures ReadConfig(ApplyWrite(fs, WriteConfig(fs, path, config).value), path) == Success(Reparsed(config))
  {
    var effect := WriteConfig(fs, path, config).value;
    assert effect.path == path && effect.text.value == Reparsed(config) && ReadLoader(path).Success? by {
      PlansAgree(Inspect(path));
    }
    assert Load(ApplyWrite(fs, effect), path) == Success(Reparsed(config));
  }

  /**
   * Loading a configuration and saving it unchanged, when that writes,
   * leaves the file denoting what its JSON text spells, and every other file
   * as it was (an `eslint.config.` name with an unknown extension is not
   * written at all); a file that
   * held a JSON value is left as it was. This holds when the manifest had an
   * `eslintConfig` and an ECMAScript module only a truthy default export
   * (`ModuleReadThenWrite` says what happens to a module with more).
   */
  lemma ReadThenWriteUnchanged(fs: FileSystem, path: Path)
    requires ReadConfig(fs, path).Success?
    requires ReadConfig(fs, path).value != Undefined
    requires ReadLoader(path) == Success(EsImport) ==> fs[path].Loaded? && Truthy(fs[path].value)
    ensures WriteConfig(fs, path, ReadConfig(fs, path).value).Success?
    ensures WriteConfig(fs, path, ReadConfig(fs, path).value).value.Overwrite? ==>
      ApplyWrite(fs, WriteConfig(fs, path, ReadConfig(fs, path).value).value) ==
      fs[path := Loaded(Reparsed(fs[path].value))]
    ensures JsonValue(fs[path].value) ==> ApplyWrite(fs, WriteConfig(fs, path, ReadConfig(fs, path).value).value) == fs
  {
    var v := ReadConfig(fs, path).value;
    if ReadLoader(path) == Success(ManifestField) {
      ManifestReadThenWrite(fs, path);
    } else {
      PlainReadThenWrite(fs, path);
    }
    var effect := WriteConfig(fs, path, v).value;
    if effect.Overwrite? {
      OverwriteApplied(fs, effect, path, Reparsed(fs[path].value));
    }
    if JsonValue(fs[path].value) {
      JsonReparsedUnchanged(fs[path].value);
      RewriteLoadedValue(fs, path);
    }
  }

  /** Outside the manifest branch, a file holding one value reads as that value and is written as its JSON text. */
  lemma PlainReadThenWrite(fs: FileSystem, path: Path)
    requires ReadConfig(fs, path).Success? && ReadLoader(path) != Success(ManifestField)
    requires ReadLoader(path) == Success(EsImport) ==> fs[path].Loaded? && Truthy(fs[path].value)
    ensures path in fs && fs[path].Loaded? && ReadConfig(fs, path) == Success(fs[path].value)
    ensures WriteConfig(fs, path, fs[path].value).Success?
    ensures var effect := WriteConfig(fs, path, fs[path].value).value;
      effect.Overwrite? ==> effect.path == path && effect.text.value == Reparsed(fs[path].value)
  {
    PlansAgree(Inspect(path));
  }

  /** An overwrite stores the value of its text at its path. */
  lemma OverwriteApplied(fs: FileSystem, effect: WriteEffect, path: Path, v: Plain)
    requires effect.Overwrite? && effect.path == path && effect.text.value == v
    ensures ApplyWrite(fs, effect) == fs[path := Loaded(v)]
  {
  }

  /** Saving a manifest's own `eslintConfig` back writes the manifest's JSON text. */
  lemma ManifestReadThenWrite(fs: FileSystem, path: Path)
    requires ReadLoader(path) == Success(ManifestField)
    requires ReadConfig(fs, path).Success? && ReadConfig(fs, path).value != Undefined
    ensures path in fs && fs[path].Loaded?
    ensures WriteConfig(fs, path, ReadConfig(fs, path).value) ==
      Success(Overwrite(path, FileText("", Reparsed(fs[path].value), "\n")))
  {
    var manifest := fs[path].value;
    assert manifest.Obj?;
    assert "eslintConfig" in Keys(manifest.props);
    ManifestWriteSetsField(fs, path, ReadConfig(fs, path).value);
    PutSameValue(manifest.props, "eslintConfig");
  }

  /** Storing a file's own value leaves the disk as it was. */
  lemma RewriteLoadedValue(fs: FileSystem, path: Path)
    requires path in fs && fs[path].Loaded?
    ensures fs[path := Loaded(fs[path].value)] == fs
  {
  }

  /**
   * A name the writer rejects the reader rejects too. An `eslint.config.`
   * name with an unknown extension is silently skipped by the writer, while
   * the reader sends it on to the legacy tests, which read it as JSON or
   * reject it; the writer skips no other name.
   */
  lemma DispatchAgreement(fs: FileSystem, path: Path, config: Value)
    ensures WriteConfig(fs, path, config) == Failure(Unsupported(path)) ==>
      ReadLoader(path) == Failure(Unsupported(path))
    ensures ReadLoader(path).Failure? ==>
      WriteConfig(fs, path, config) == Failure(Unsupported(path)) || WriteConfig(fs, path, config) == Success(NoWrite)
    ensures WriteConfig(fs, path, config) == Success(NoWrite) <==>
      var base := StripTemp(Basename(path));
      StartsWith(base, FlatConfigPrefix) && Extname(base) !in {".mjs", ".cjs", ".js"}
  {
    PlansAgree(Inspect(path));
  }

  /** A manifest rewrite is the JSON text of the manifest read from disk with `eslintConfig` set. */
  lemma ManifestWriteSetsField(fs: FileSystem, path: Path, config: Value)
    requires ReadLoader(path) == Success(ManifestField)
    requires path in fs && fs[path].Loaded? && fs[path].value.Obj?
    ensures WriteConfig(fs, path, config) ==
      Success(Overwrite(path, FileText("", Reparsed(Obj(Put(fs[path].value.props, "eslintConfig", config))), "\n")))
  {
    PlansAgree(Inspect(path));
  }

  /**
   * A manifest rewrite keeps every other key of the manifest with its value;
   * when the manifest and the configuration are JSON values, it is exactly
   * the manifest with `eslintConfig` set, every key in its place.
   */
  lemma ManifestOtherKeysKept(fs: FileSystem, path: Path, config: Value)
    requires ReadLoader(path) == Success(ManifestField)
    requires path in fs && fs[path].Loaded? && fs[path].value.Obj?
    ensures WriteConfig(fs, path, config).Success? && WriteConfig(fs, path, config).value.Overwrite?
    ensures
      var before := fs[path].value.props;
      var after := WriteConfig(fs, path, config).value.text.value;
      after.Obj? && Lookup(after.props, "eslintConfig") == Reparsed(config) &&
      (forall k :: k != "eslintConfig" ==> Lookup(after.props, k) == Reparsed(Lookup(before, k)))
    ensures
      var before := fs[path].value.props;
      var after := WriteConfig(fs, path, config).value.text.value;
      JsonValue(fs[path].value) && JsonValue(config) && !config.Undefined? ==>
        after == Obj(Put(before, "eslintConfig", config)) &&
        ("eslintConfig" in Keys(before) ==> Keys(after.props) == Keys(before))
  {
    ManifestWriteSetsField(fs, path, config);
    var before := fs[path].value.props;
    var props := Put(before, "eslintConfig", config);
    forall k
      ensures Lookup(Reparsed(Obj(props)).props, k) == Reparsed(Lookup(props, k))
    {
      ReparsedLookup(props, k);
    }
    if JsonValue(fs[path].value) && JsonValue(config) && !config.Undefined? {
      PutJson(before, "eslintConfig", config);
      JsonReparsedUnchanged(Obj(props));
    }
  }

  /**
   * A module whose default export is falsy, or that has none, reads as its
   * namespace object, to which no assignment succeeds.
   */
  lemma FalsyDefaultExportIsNamespace(fs: FileSystem, path: Path)
    requires ReadLoader(path) == Success(EsImport)
    requires path in fs && !fs[path].Unloadable? && !Truthy(Lookup(ExportsOf(fs[path]), "default"))
    ensures ReadConfig(fs, path) == Success(Namespace(ExportsOf(fs[path])))
    ensures forall k, x :: SetProp(ReadConfig(fs, path).value, k, x) == Failure(TypeError)
  {
  }

  /**
   * A module with named exports and a truthy default reads as its default
   * export, and saving that unchanged leaves a module exporting only it:
   * every named export is dropped.
   */
  lemma ModuleReadThenWrite(fs: FileSystem, path: Path)
    requires ReadLoader(path) == Success(EsImport)
    requires path in fs && fs[path].Module? && Truthy(Lookup(fs[path].exports, "default"))
    ensures ReadConfig(fs, path) == Success(Lookup(fs[path].exports, "default"))
    ensures WriteConfig(fs, path, ReadConfig(fs, path).value).Success?
    ensures ApplyWrite(fs, WriteConfig(fs, path, ReadConfig(fs, path).value).value) ==
      fs[path := Loaded(Reparsed(Lookup(fs[path].exports, "default")))]
  {
    PlansAgree(Inspect(path));
  }

  /** The names of a file without the `.temp` suffix, whose last dot is at `i`. */
  lemma PlainNameInfo(path: Path, i: nat)
    requires path != []
    requires var name := path[|path| - 1];
      i < |name| && name[i] == '.' && (forall j :: i < j < |name| ==> name[j] != '.') && !EndsWith(name, ".temp")
    ensures var name := path[|path| - 1];
      var ext := if i == 0 || name == ".." then "" else name[i..];
      Inspect(path) == NameInfo(ext, name, ext)
  {
    ExtnameFromLastDot(path[|path| - 1], i);
  }

  /** The names of a file ending in `.temp`, whose stem has its last dot at `i`. */
  lemma TempNameInfo(dir: Path, stem: string, i: nat)
    requires stem != [] && i < |stem| && stem[i] == '.' && (forall j :: i < j < |stem| ==> stem[j] != '.')
    ensures var ext := if i == 0 || stem == ".." then "" else stem[i..];
      Inspect(dir + [stem + ".temp"]) == NameInfo(".temp", stem, ext)
  {
    var name := stem + ".temp";
    TempSuffixParts(stem);
    ExtnameFromLastDot(stem, i);
    assert Basename(dir + [name]) == name;
  }

  /** A name ending in `.temp` has that extension, and stripping it gives back the stem. */
  lemma TempSuffixParts(stem: string)
    requires stem != []
    ensures Extname(stem + ".temp") == ".temp"
    ensures StripTemp(stem + ".temp") == stem
  {
    var name := stem + ".temp";
    assert name[|stem|..] == ".temp";
    assert forall j :: |stem| < j < |name| ==> name[j] == ".temp"[j - |stem|];
    ExtnameFromLastDot(name, |stem|);
    assert EndsWith(name, ".temp");
    assert name[..|name| - 5] == stem;
  }

  // One lemma per candidate name, giving its loader and its write plan:
  // evaluating the string tests on a literal is cheap only one name at a time.

  lemma LoaderFlatJs(dir: Path)
    ensures ReadLoader(dir + ["eslint.config.js"]) == Success(CjsRequire)
    ensures WritePlanFor(Inspect(dir + ["eslint.config.js"])) == WriteModule("module.exports = ", ";")
  {
    PlainNameInfo(dir + ["eslint.config.js"], 13);
    assert "eslint.config.js"[13..] == ".js";
    assert StartsWith("eslint.config.js", FlatConfigPrefix);
  }

  lemma LoaderFlatMjs(dir: Path)
    ensures ReadLoader(dir + ["eslint.config.mjs"]) == Success(EsImport)
    ensures WritePlanFor(Inspect(dir + ["eslint.config.mjs"])) == WriteModule("export default ", ";")
  {
    PlainNameInfo(dir + ["eslint.config.mjs"], 13);
    assert "eslint.config.mjs"[13..] == ".mjs";
    assert StartsWith("eslint.config.mjs", FlatConfigPrefix);
  }

  lemma LoaderFlatCjs(dir: Path)
    ensures ReadLoader(dir + ["eslint.config.cjs"]) == Success(CjsRequire)
    ensures WritePlanFor(Inspect(dir + ["eslint.config.cjs"])) == WriteModule("module.exports = ", ";")
  {
    PlainNameInfo(dir + ["eslint.config.cjs"], 13);
    assert "eslint.config.cjs"[13..] == ".cjs";
    assert StartsWith("eslint.config.cjs", FlatConfigPrefix);
  }

  lemma LoaderLegacyJs(dir: Path)
    ensures ReadLoader(dir + [".eslintrc.js"]) == Success(CjsRequire)
    ensures WritePlanFor(Inspect(dir + [".eslintrc.js"])) == WriteModule("module.exports = ", "")
  {
    PlainNameInfo(dir + [".eslintrc.js"], 9);
    assert ".eslintrc.js"[9..] == ".js";
  }

  lemma LoaderLegacyCjs(dir: Path)
    ensures ReadLoader(dir + [".eslintrc.cjs"]) == Success(CjsRequire)
    ensures WritePlanFor(Inspect(dir + [".eslintrc.cjs"])) == WriteModule("module.exports = ", "")
  {
    PlainNameInfo(dir + [".eslintrc.cjs"], 9);
    assert ".eslintrc.cjs"[9..] == ".cjs";
  }

  lemma LoaderLegacyJson(dir: Path)
    ensures ReadLoader(dir + [".eslintrc.json"]) == Success(JsonParse)
    ensures WritePlanFor(Inspect(dir + [".eslintrc.json"])) == WriteJson
  {
    PlainNameInfo(dir + [".eslintrc.json"], 9);
    assert ".eslintrc.json"[9..] == ".json";
    assert !StartsWith(".eslintrc.json", FlatConfigPrefix);
  }

  lemma LoaderLegacyBare(dir: Path)
    ensures ReadLoader(dir + [".eslintrc"]) == Success(JsonParse)
    ensures WritePlanFor(Inspect(dir + [".eslintrc"])) == WriteJson
  {
    PlainNameInfo(dir + [".eslintrc"], 0);
    assert !StartsWith(".eslintrc", FlatConfigPrefix);
  }

  lemma LoaderManifest(dir: Path)
    ensures ReadLoader(dir + ["package.json"]) == Success(ManifestField)
    ensures WritePlanFor(Inspect(dir + ["package.json"])) == WriteManifestField
  {
    PlainNameInfo(dir + ["package.json"], 7);
    assert "package.json"[7..] == ".json";
    assert !StartsWith("package.json", FlatConfigPrefix);
  }

  /** The loader of each name the locator looks for, in any directory. */
  lemma CandidateLoaders(dir: Path)
    ensures ReadLoader(dir + ["eslint.config.js"]) == Success(CjsRequire)
    ensures ReadLoader(dir + ["eslint.config.mjs"]) == Success(EsImport)
    ensures ReadLoader(dir + ["eslint.config.cjs"]) == Success(CjsRequire)
    ensures ReadLoader(dir + [".eslintrc.js"]) == Success(CjsRequire)
    ensures ReadLoader(dir + [".eslintrc.cjs"]) == Success(CjsRequire)
    ensures ReadLoader(dir + [".eslintrc.json"]) == Success(JsonParse)
    ensures ReadLoader(dir + [".eslintrc"]) == Success(JsonParse)
    ensures ReadLoader(dir + ["package.json"]) == Success(ManifestField)
  {
    LoaderFlatJs(dir);
    LoaderFlatMjs(dir);
    LoaderFlatCjs(dir);
    LoaderLegacyJs(dir);
    LoaderLegacyCjs(dir);
    LoaderLegacyJson(dir);
    LoaderLegacyBare(dir);
    LoaderManifest(dir);
  }

  /** How each name the locator looks for is written, in any directory. */
  lemma CandidateWritePlans(dir: Path)
    ensures WritePlanFor(Inspect(dir + ["eslint.config.js"])) == WriteModule("module.exports = ", ";")
    ensures WritePlanFor(Inspect(dir + ["eslint.config.mjs"])) == WriteModule("export default ", ";")
    ensures WritePlanFor(Inspect(dir + ["eslint.config.cjs"])) == WriteModule("module.exports = ", ";")
    ensures WritePlanFor(Inspect(dir + [".eslintrc.js"])) == WriteModule("module.exports = ", "")
    ensures WritePlanFor(Inspect(dir + [".eslintrc.cjs"])) == WriteModule("module.exports = ", "")
    ensures WritePlanFor(Inspect(dir + [".eslintrc.json"])) == WriteJson
    ensures WritePlanFor(Inspect(dir + [".eslintrc"])) == WriteJson
    ensures WritePlanFor(Inspect(dir + ["package.json"])) == WriteManifestField
  {
    LoaderFlatJs(dir);
    LoaderFlatMjs(dir);
    LoaderFlatCjs(dir);
    LoaderLegacyJs(dir);
    LoaderLegacyCjs(dir);
    LoaderLegacyJson(dir);
    LoaderLegacyBare(dir);
    LoaderManifest(dir);
  }

  lemma InspectFlatTemp(dir: Path)
    ensures Inspect(dir + ["eslint.config.js.temp"]) == NameInfo(".temp", "eslint.config.js", ".js")
  {
    TempNameInfo(dir, "eslint.config.js", 13);
    assert "eslint.config.js" + ".temp" == "eslint.config.js.temp";
    assert "eslint.config.js"[13..] == ".js";
  }

  lemma LoaderFlatTemp(dir: Path)
    ensures ReadLoader(dir + ["eslint.config.js.temp"]) == Success(CjsRequire)
  {
    InspectFlatTemp(dir);
    assert StartsWith("eslint.config.js", FlatConfigPrefix);
  }

  lemma LoaderManifestTemp(dir: Path)
    ensures ReadLoader(dir + ["package.json.temp"]) == Success(ManifestField)
  {
    TempNameInfo(dir, "package.json", 7);
    assert "package.json" + ".temp" == "package.json.temp";
    assert !StartsWith("package.json", FlatConfigPrefix);
  }

  lemma InspectLegacyTemp(dir: Path)
    ensures Inspect(dir + [".eslintrc.json.temp"]) == NameInfo(".temp", ".eslintrc.json", ".json")
  {
    TempNameInfo(dir, ".eslintrc.json", 9);
    assert ".eslintrc.json" + ".temp" == ".eslintrc.json.temp";
    assert ".eslintrc.json"[9..] == ".json";
  }

  lemma LoaderLegacyTemp(dir: Path)
    ensures ReadLoader(dir + [".eslintrc.json.temp"]) == Failure(Unsupported(dir + [".eslintrc.json.temp"]))
  {
    InspectLegacyTemp(dir);
    assert !StartsWith(".eslintrc.json", FlatConfigPrefix);
    assert ".eslintrc.json" != "package.json";
  }

  /**
   * The `.temp` suffix is removed for the flat and manifest tests only: a
   * temporary flat configuration or manifest is understood, a temporary
   * legacy file is not.
   */
  lemma TempNames(dir: Path)
    ensures ReadLoader(dir + ["eslint.config.js.temp"]) == Success(CjsRequire)
    ensures ReadLoader(dir + ["package.json.temp"]) == Success(ManifestField)
    ensures ReadLoader(dir + [".eslintrc.json.temp"]) == Failure(Unsupported(dir + [".eslintrc.json.temp"]))
  {
    LoaderFlatTemp(dir);
    LoaderManifestTemp(dir);
    LoaderLegacyTemp(dir);
  }

  /** `eslint.config.json` is read as JSON, but writing it silently does nothing. */
  lemma FlatJsonReadButNotWritten(dir: Path, fs: FileSystem, config: Value)
    ensures ReadLoader(dir + ["eslint.config.json"]) == Success(JsonParse)
    ensures WriteConfig(fs, dir + ["eslint.config.json"], config) == Success(NoWrite)
  {
    PlainNameInfo(dir + ["eslint.config.json"], 13);
    assert "eslint.config.json"[13..] == ".json";
    assert StartsWith("eslint.config.json", FlatConfigPrefix);
  }
}
