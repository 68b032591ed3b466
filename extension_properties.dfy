/**
 * Properties of the command handler: a numeric diagnostic code gives back
 * its number as the rule name; when the handler reports success it has
 * rewritten the configuration file it found, that file then holds the rule
 * disabled, and running the command again finds the same file and writes
 * the same text.
 */
module ExtensionProperties {
  import opened Paths
  import opened Js
  import opened JsonText
  import opened Disk
  import opened ConfigUpdate
  import opened ConfigUpdateProperties
  import opened ConfigFormat
  import opened ConfigFormatProperties
  import opened Locator
  import opened LocatorProperties
  import opened Extension

  /** The digit character of `d` stands for `d`. */
  lemma DigitValue(d: nat)
    requires d < 10
    ensures DigitChar(d) as int - '0' as int == d
  {
  }

  /** The numeral of a natural number reads back as that number. */
  lemma {:induction false} NatNumeralRoundTrip(n: nat)
    ensures ParseNat(NatToString(n)) == n
    decreases n
  {
    var s := NatToString(n);
    if n < 10 {
      DigitValue(n);
      assert s[..|s| - 1] == [];
    } else {
      NatNumeralRoundTrip(n / 10);
      DigitValue(n % 10);
      assert s[..|s| - 1] == NatToString(n / 10);
      assert s[|s| - 1] == DigitChar(n % 10);
    }
  }

  /** `String(n)` of an integer reads back as `n`, so distinct numeric codes give distinct rule names. */
  lemma IntNumeralRoundTrip(n: int)
    ensures ParseInt(IntToString(n)) == n
  {
    if n < 0 {
      NegativeNumeral(-n);
      assert IntToString(n) == "-" + NatToString(-n);
    } else {
      NatNumeralRoundTrip(n);
      var s := NatToString(n);
      assert '0' <= s[0] <= '9';
    }
  }

  lemma NegativeNumeral(m: nat)
    requires m > 0
    ensures ParseInt("-" + NatToString(m)) == -(m as int)
  {
    var digits := NatToString(m);
    var s := "-" + digits;
    NatNumeralRoundTrip(m);
    assert s[0] == '-';
    assert s[1..] == digits;
  }

  /** A code given as `{value, target}` names the same rule as the bare value. */
  lemma RuleNameOfNumericCode(n: int)
    ensures ParseInt(GetRuleName(Plain(NumCode(n)))) == n
    ensures GetRuleName(Linked(NumCode(n))) == GetRuleName(Plain(NumCode(n)))
  {
    IntNumeralRoundTrip(n);
  }

  /**
   * The configuration has the shape ESLint documents: every entry of a flat
   * configuration is an object, and no `rules` is an array.
   */
  predicate RulesShaped(config: Value)
  {
    if config.Arr? then EntriesShaped(config.elems)
    else HasProps(config) ==> !RulesOf(config).Arr?
  }

  /**
   * The rule is disabled: in the first global entry of a flat configuration
   * with severity `"off"`, in the `rules` of a legacy one (an object, or a
   * module namespace with a `rules` export) with severity 0.
   */
  predicate RuleOff(config: Value, ruleName: string)
  {
    if config.Arr? then GlobalEntryRuleOff(config.elems, ruleName)
    else HasProps(config) && RulesOf(config).Obj? && Lookup(RulesOf(config).props, ruleName) == LegacySeverity
  }

  /**
   * Only an array, an object or a module namespace can be updated, and what
   * the update leaves is of the same kind.
   */
  lemma UpdatedShape(config: Value, ruleName: string)
    requires Updated(config, ruleName).Success?
    ensures config.Arr? || config.Obj? || config.Namespace?
    ensures Updated(config, ruleName).value.Arr? <==> config.Arr?
    ensures Updated(config, ruleName).value.Obj? <==> config.Obj?
    ensures Updated(config, ruleName).value.Namespace? <==> config.Namespace?
  {
  }

  /** Flat entries of the documented shape. */
  predicate EntriesShaped(entries: seq<Value>)
  {
    forall j :: 0 <= j < |entries| ==> entries[j].Obj? && !RulesOf(entries[j]).Arr?
  }

  /** The first global entry of flat entries has the rule off. */
  predicate GlobalEntryRuleOff(entries: seq<Value>, ruleName: string)
  {
    FindGlobalIndex(entries).Success? && FindGlobalIndex(entries).value >= 0 &&
    var entry := entries[FindGlobalIndex(entries).value];
    entry.Obj? && RulesOf(entry).Obj? && Lookup(RulesOf(entry).props, ruleName) == FlatSeverity
  }

  /** With no global entry, the appended one is found and has the rule off. */
  lemma AppendedEntryRuleOff(entries: seq<Value>, ruleName: string)
    requires FindGlobalIndex(entries) == Success(-1)
    requires EntriesShaped(entries)
    ensures GlobalEntryRuleOff(entries + [NewGlobalEntry(ruleName)], ruleName)
    ensures EntriesShaped(entries + [NewGlobalEntry(ruleName)])
  {
    var added := NewGlobalEntry(ruleName);
    assert IndexOf(added.props, "files") == 0;
    assert Lookup(added.props, "files") == Arr([Str(AllFiles)]);
    assert GlobalTest(added) == Success(true);
    FindGlobalIndexAppend(entries, added);
    assert IndexOf(added.props, "rules") == 1;
    assert RulesOf(added) == Obj([(ruleName, FlatSeverity)]);
    var after := entries + [added];
    assert forall j :: 0 <= j < |entries| ==> after[j] == entries[j];
  }

  /** The global entry found keeps being the one found, and gets the rule off. */
  lemma UpdatedEntryRuleOff(entries: seq<Value>, ruleName: string)
    requires FlatUpdated(entries, ruleName).Success?
    requires FindGlobalIndex(entries).Success? && FindGlobalIndex(entries).value >= 0
    requires EntriesShaped(entries)
    ensures GlobalEntryRuleOff(FlatUpdated(entries, ruleName).value, ruleName)
    ensures EntriesShaped(FlatUpdated(entries, ruleName).value)
  {
    var after := FlatUpdated(entries, ruleName).value;
    var i := FindGlobalIndex(entries).value;
    assert after == entries[i := DisableRuleIn(entries[i], ruleName, FlatSeverity).value];
    GlobalTestPreserved(entries[i], ruleName, FlatSeverity);
    FindGlobalIndexPointwise(entries, after);
  }

  /** The update, on a configuration of the documented shape, disables the rule and keeps the shape. */
  lemma UpdatedDisablesRule(config: Value, ruleName: string)
    requires Updated(config, ruleName).Success?
    requires RulesShaped(config)
    ensures RuleOff(Updated(config, ruleName).value, ruleName)
    ensures RulesShaped(Updated(config, ruleName).value)
  {
    if config.Arr? {
      var entries := config.elems;
      assert EntriesShaped(entries);
      if FindGlobalIndex(entries) == Success(-1) {
        AppendedEntryRuleOff(entries, ruleName);
      } else {
        UpdatedEntryRuleOff(entries, ruleName);
      }
      assert GlobalEntryRuleOff(FlatUpdated(entries, ruleName).value, ruleName);
      assert EntriesShaped(FlatUpdated(entries, ruleName).value);
    }
  }

  /** Updating what an update left behind changes nothing. */
  lemma UpdatedIdempotent(config: Value, ruleName: string)
    requires Updated(config, ruleName).Success?
    ensures Updated(Updated(config, ruleName).value, ruleName) == Updated(config, ruleName)
  {
    UpdatedShape(config, ruleName);
    if IsFlatConfig(config) {
      FlatUpdateIdempotent(config.elems, ruleName);
    } else {
      LegacyUpdateIdempotent(config, ruleName);
    }
  }

  /**
   * A configuration the update leaves as it is is still left as it is once
   * written as JSON text and read back.
   */
  lemma UpdatedFixpointReparsed(config: Value, ruleName: string)
    requires Updated(config, ruleName) == Success(config)
    ensures Updated(Reparsed(config), ruleName) == Success(Reparsed(config))
  {
    if config.Arr? {
      var entries := config.elems;
      var back := Reparsed(config).elems;
      assert FlatUpdated(entries, ruleName) == Success(entries);
      var i := FindGlobalIndex(entries).value;
      assert 0 <= i < |entries| && DisableRuleIn(entries[i], ruleName, FlatSeverity) == Success(entries[i]);
      forall j | 0 <= j < |entries|
        ensures GlobalTest(back[j]) == GlobalTest(entries[j])
      {
        GlobalTestReparsed(entries[j]);
      }
      FindGlobalIndexPointwise(back, entries);
      DisabledReparsed(entries[i], ruleName, FlatSeverity);
      assert back[i] == Reparsed(entries[i]);
      assert back[i := back[i]] == back;
    } else {
      UpdatedShape(config, ruleName);
      DisabledReparsed(config, ruleName, LegacySeverity);
    }
  }

  /** A configuration of the documented shape with the rule off keeps both once written as JSON text and read back. */
  lemma ReparsedKeepsRuleOff(config: Value, ruleName: string)
    requires RuleOff(config, ruleName) && RulesShaped(config)
    ensures RuleOff(Reparsed(config), ruleName) && RulesShaped(Reparsed(config))
  {
    if config.Arr? {
      EntriesReparsed(config.elems, ruleName);
    } else {
      ReparsedNamespace(PropsOf(config));
      assert Reparsed(config) == Reparsed(Obj(PropsOf(config)));
      ReparsedLookup(PropsOf(config), "rules");
      ReparsedLookup(RulesOf(config).props, ruleName);
    }
  }

  lemma EntriesReparsed(entries: seq<Value>, ruleName: string)
    requires GlobalEntryRuleOff(entries, ruleName) && EntriesShaped(entries)
    ensures var back := Reparsed(Arr(entries)).elems;
      GlobalEntryRuleOff(back, ruleName) && EntriesShaped(back)
  {
    var back := Reparsed(Arr(entries)).elems;
    forall j | 0 <= j < |entries|
      ensures GlobalTest(back[j]) == GlobalTest(entries[j])
    {
      GlobalTestReparsed(entries[j]);
    }
    FindGlobalIndexPointwise(back, entries);
    forall j | 0 <= j < |entries|
      ensures back[j] == Reparsed(entries[j]) && back[j].Obj? && RulesOf(back[j]) == Reparsed(RulesOf(entries[j]))
    {
      ReparsedLookup(entries[j].props, "rules");
    }
    var i := FindGlobalIndex(entries).value;
    ReparsedLookup(RulesOf(entries[i]).props, ruleName);
  }

  /**
   * The file found is one of the candidate names: it has a loader, it is
   * read as a manifest exactly when it is `package.json`, and writing it is
   * never skipped.
   */
  lemma LocatedFileFormat(fs: FileSystem, currentFile: Path)
    requires Locate(fs, currentFile).Success? && Locate(fs, currentFile).value.Some?
    ensures var p := Locate(fs, currentFile).value.value;
      ProbeAt(fs, p) == Hit && ReadLoader(p).Success? &&
      (ReadLoader(p) == Success(ManifestField) <==> Basename(p) == ManifestName) &&
      WritePlanFor(Inspect(p)) != Skip
  {
    var k, n := LocatedCandidate(fs, currentFile);
    CandidateFormat(Dirname(currentFile)[..k], n);
  }

  /** A file has a loader, is a manifest exactly when it is `package.json`, and is written. */
  predicate Handled(p: Path)
  {
    ReadLoader(p).Success? &&
    (ReadLoader(p) == Success(ManifestField) <==> Basename(p) == ManifestName) &&
    WritePlanFor(Inspect(p)) != Skip
  }

  /** Every candidate name, in any directory, is handled. */
  lemma CandidateFormat(dir: Path, n: nat)
    requires n < |Candidates|
    ensures Handled(dir + [Candidates[n]])
  {
    if n == 0 {
      assert Candidates[0] == "eslint.config.js";
      HandledFlatJs(dir);
    } else if n == 1 {
      assert Candidates[1] == "eslint.config.mjs";
      HandledFlatMjs(dir);
    } else if n == 2 {
      assert Candidates[2] == "eslint.config.cjs";
      HandledFlatCjs(dir);
    } else if n == 3 {
      assert Candidates[3] == ".eslintrc.js";
      HandledLegacyJs(dir);
    } else if n == 4 {
      assert Candidates[4] == ".eslintrc.cjs";
      HandledLegacyCjs(dir);
    } else if n == 5 {
      assert Candidates[5] == ".eslintrc.json";
      HandledLegacyJson(dir);
    } else if n == 6 {
      assert Candidates[6] == ".eslintrc";
      HandledLegacyBare(dir);
    } else {
      assert Candidates[7] == "package.json";
      HandledManifest(dir);
    }
  }

  lemma HandledFlatJs(dir: Path)
    ensures Handled(dir + ["eslint.config.js"])
  {
    LoaderFlatJs(dir);
    PlansAgree(Inspect(dir + ["eslint.config.js"]));
  }

  lemma HandledFlatMjs(dir: Path)
    ensures Handled(dir + ["eslint.config.mjs"])
  {
    LoaderFlatMjs(dir);
    PlansAgree(Inspect(dir + ["eslint.config.mjs"]));
  }

  lemma HandledFlatCjs(dir: Path)
    ensures Handled(dir + ["eslint.config.cjs"])
  {
    LoaderFlatCjs(dir);
    PlansAgree(Inspect(dir + ["eslint.config.cjs"]));
  }

  lemma HandledLegacyJs(dir: Path)
    ensures Handled(dir + [".eslintrc.js"])
  {
    LoaderLegacyJs(dir);
    PlansAgree(Inspect(dir + [".eslintrc.js"]));
  }

  lemma HandledLegacyCjs(dir: Path)
    ensures Handled(dir + [".eslintrc.cjs"])
  {
    LoaderLegacyCjs(dir);
    PlansAgree(Inspect(dir + [".eslintrc.cjs"]));
  }

  lemma HandledLegacyJson(dir: Path)
    ensures Handled(dir + [".eslintrc.json"])
  {
    LoaderLegacyJson(dir);
    LegacyJsonNotFlat(dir);
    PlansAgree(Inspect(dir + [".eslintrc.json"]));
  }

  lemma HandledLegacyBare(dir: Path)
    ensures Handled(dir + [".eslintrc"])
  {
    LoaderLegacyBare(dir);
    LegacyBareNotFlat(dir);
    PlansAgree(Inspect(dir + [".eslintrc"]));
  }

  lemma HandledManifest(dir: Path)
    ensures Handled(dir + ["package.json"])
  {
    LoaderManifest(dir);
    ManifestNotFlat(dir);
    PlansAgree(Inspect(dir + ["package.json"]));
  }

  lemma LegacyJsonNotFlat(dir: Path)
    ensures !IsFlatName(Inspect(dir + [".eslintrc.json"]))
  {
    assert Basename(dir + [".eslintrc.json"]) == ".eslintrc.json";
    assert !EndsWith(".eslintrc.json", ".temp");
    assert !StartsWith(".eslintrc.json", FlatConfigPrefix);
  }

  lemma LegacyBareNotFlat(dir: Path)
    ensures !IsFlatName(Inspect(dir + [".eslintrc"]))
  {
    assert Basename(dir + [".eslintrc"]) == ".eslintrc";
    assert !EndsWith(".eslintrc", ".temp");
    assert !StartsWith(".eslintrc", FlatConfigPrefix);
  }

  lemma ManifestNotFlat(dir: Path)
    ensures !IsFlatName(Inspect(dir + ["package.json"]))
  {
    assert Basename(dir + ["package.json"]) == "package.json";
    assert !EndsWith("package.json", ".temp");
    assert !StartsWith("package.json", FlatConfigPrefix);
  }

  /** A manifest that qualifies is a plain object. */
  lemma QualifyingManifestIsObject(fs: FileSystem, p: Path)
    requires ProbeAt(fs, p) == Hit && Basename(p) == ManifestName
    ensures p in fs && fs[p].Loaded? && fs[p].value.Obj?
  {
  }

  /** Writing never reads the disk except to re-read a manifest. */
  lemma WriteReadsOnlyManifest(fs: FileSystem, fs2: FileSystem, path: Path, config: Value)
    requires WritePlanFor(Inspect(path)) != WriteManifestField
    ensures WriteConfig(fs, path, config) == WriteConfig(fs2, path, config)
  {
  }

  /**
   * `effect` is the write of the updated configuration: it overwrites
   * `path`, and the file then reads back as the configuration updated, in
   * the form its JSON text spells.
   */
  predicate WritesUpdate(fs: FileSystem, path: Path, ruleName: string, effect: WriteEffect)
  {
    ReadConfig(fs, path).Success? && Updated(ReadConfig(fs, path).value, ruleName).Success? &&
    var updated := Updated(ReadConfig(fs, path).value, ruleName).value;
    WriteConfig(fs, path, updated) == Success(effect) &&
    effect.Overwrite? && effect.path == path &&
    ReadConfig(ApplyWrite(fs, effect), path) == Success(Reparsed(updated))
  }

  /** A successful write of a handled file overwrites that file. */
  lemma HandledIsOverwritten(fs: FileSystem, path: Path, config: Value)
    requires Handled(path)
    requires WriteConfig(fs, path, config).Success?
    ensures WriteConfig(fs, path, config).value.Overwrite?
    ensures WriteConfig(fs, path, config).value.path == path
  {
  }

  /** Updating the file found, when it succeeds, writes the update and nothing else. */
  lemma LocatedUpdateWrites(fs: FileSystem, currentFile: Path, path: Path, ruleName: string)
    requires Locate(fs, currentFile) == Success(Some(path))
    requires UpdateConfigFile(fs, path, ruleName).Success?
    ensures WritesUpdate(fs, path, ruleName, UpdateConfigFile(fs, path, ruleName).value)
  {
    LocatedFileFormat(fs, currentFile);
    var config := ReadConfig(fs, path).value;
    var updated := Updated(config, ruleName).value;
    assert WriteConfig(fs, path, updated) == UpdateConfigFile(fs, path, ruleName);
    UpdatedShape(config, ruleName);
    HandledIsOverwritten(fs, path, updated);
    if ReadLoader(path) == Success(ManifestField) {
      QualifyingManifestIsObject(fs, path);
    }
    WriteThenRead(fs, path, updated);
  }

  /**
   * The handler returns early exactly when it has no diagnostic, or has one
   * but no workspace folder; without a document it reports no configuration.
   */
  lemma CommandEarlyExits(passed: Option<DiagnosticCode>, picked: Option<DiagnosticCode>, hasWorkspace: bool,
                          document: Option<Path>, fs: FileSystem)
    ensures Command(passed, picked, hasWorkspace, document, fs) == NoDiagnostic <==> passed.None? && picked.None?
    ensures Command(passed, picked, hasWorkspace, document, fs).NoWorkspace? <==>
      (passed.Some? || picked.Some?) && !hasWorkspace
    ensures (passed.Some? || picked.Some?) && hasWorkspace && document.None? ==>
      Command(passed, picked, hasWorkspace, document, fs) ==
        ConfigNotFound(GetRuleName(if passed.Some? then passed.value else picked.value))
  {
    var diagnostic := if passed.Some? then passed else picked;
    if diagnostic.Some? && hasWorkspace && document.Some? {
      var ruleName := GetRuleName(diagnostic.value);
      assert Command(passed, picked, hasWorkspace, document, fs) == AfterSearch(ruleName, Locate(fs, document.value), fs);
    }
  }

  /**
   * With a diagnostic, a workspace and a document, the handler reports that
   * no configuration exists exactly when no candidate in any ancestor
   * qualifies, and the search's own exception exactly when the search throws.
   */
  lemma CommandReportsSearch(passed: Option<DiagnosticCode>, picked: Option<DiagnosticCode>,
                             document: Path, fs: FileSystem)
    requires passed.Some? || picked.Some?
    ensures var out := Command(passed, picked, true, Some(document), fs);
      var d := Dirname(document);
      (out.ConfigNotFound? <==>
        forall k: nat, n: nat :: k <= |d| && n < |Candidates| ==> ProbeAt(fs, CandidatePath(d, k, n)) == Miss) &&
      (out.LocatorRejected? <==> Locate(fs, document).Failure?) &&
      (out.LocatorRejected? ==> out.error == Locate(fs, document).error) &&
      (out.UpdateFailed? || out.Disabled? <==> Locate(fs, document).Success? && Locate(fs, document).value.Some?)
  {
    NotFoundIffNoneQualifies(fs, document);
    var diagnostic := if passed.Some? then passed else picked;
    var ruleName := GetRuleName(diagnostic.value);
    assert Command(passed, picked, true, Some(document), fs) == AfterSearch(ruleName, Locate(fs, document), fs);
  }

  /**
   * A successful command used the diagnostic it was given or the one picked,
   * found its file, and rewrote exactly that file with the update.
   */
  lemma DisabledWritesUpdate(passed: Option<DiagnosticCode>, picked: Option<DiagnosticCode>,
                             document: Path, fs: FileSystem)
    requires Command(passed, picked, true, Some(document), fs).Disabled?
    ensures var out := Command(passed, picked, true, Some(document), fs);
      (passed.Some? || picked.Some?) &&
      out.rule == GetRuleName(if passed.Some? then passed.value else picked.value) &&
      Locate(fs, document) == Success(Some(out.path)) &&
      UpdateConfigFile(fs, out.path, out.rule) == Success(out.effect) &&
      WritesUpdate(fs, out.path, out.rule, out.effect)
  {
    var out := Command(passed, picked, true, Some(document), fs);
    var diagnostic := if passed.Some? then passed else picked;
    assert out == AfterSearch(GetRuleName(diagnostic.value), Locate(fs, document), fs);
    LocatedUpdateWrites(fs, document, out.path, out.rule);
  }

  /**
   * The success message is honest: the file found now holds the rule
   * disabled, provided the configuration had the documented shape.
   */
  lemma CommandDisablesRule(passed: Option<DiagnosticCode>, picked: Option<DiagnosticCode>,
                            document: Path, fs: FileSystem)
    requires Command(passed, picked, true, Some(document), fs).Disabled?
    requires var path := Command(passed, picked, true, Some(document), fs).path;
      ReadConfig(fs, path).Success? && RulesShaped(ReadConfig(fs, path).value)
    ensures var out := Command(passed, picked, true, Some(document), fs);
      var after := ReadConfig(ApplyWrite(fs, out.effect), out.path);
      after.Success? && RuleOff(after.value, out.rule) && RulesShaped(after.value)
  {
    var out := Command(passed, picked, true, Some(document), fs);
    DisabledWritesUpdate(passed, picked, document, fs);
    var config := ReadConfig(fs, out.path).value;
    UpdatedDisablesRule(config, out.rule);
    ReparsedKeepsRuleOff(Updated(config, out.rule).value, out.rule);
  }

  /** A manifest rewritten with a truthy `eslintConfig` still qualifies. */
  lemma ManifestRewriteQualifies(fs: FileSystem, path: Path, config: Value)
    requires Basename(path) == ManifestName && ReadLoader(path) == Success(ManifestField)
    requires path in fs && fs[path].Loaded? && fs[path].value.Obj?
    requires Truthy(config)
    ensures WriteConfig(fs, path, config).Success? && WriteConfig(fs, path, config).value.Overwrite?
    ensures ProbeAt(ApplyWrite(fs, WriteConfig(fs, path, config).value), path) == Hit
  {
    ManifestWriteSetsField(fs, path, config);
    var props := Put(fs[path].value.props, "eslintConfig", config);
    var manifest := Reparsed(Obj(props));
    var fs2 := fs[path := Loaded(manifest)];
    assert ApplyWrite(fs, WriteConfig(fs, path, config).value) == fs2;
    assert Load(fs2, path) == Success(manifest);
    ReparsedLookup(props, "eslintConfig");
    assert GetProp(manifest, "eslintConfig") == Success(Reparsed(config));
  }

  /** The file found still qualifies once the update is written to it. */
  lemma RewrittenStillQualifies(fs: FileSystem, currentFile: Path, path: Path, ruleName: string, effect: WriteEffect)
    requires Locate(fs, currentFile) == Success(Some(path))
    requires WritesUpdate(fs, path, ruleName, effect)
    ensures ProbeAt(ApplyWrite(fs, effect), path) == Hit
  {
    LocatedFileFormat(fs, currentFile);
    var config := ReadConfig(fs, path).value;
    var updated := Updated(config, ruleName).value;
    assert effect == WriteConfig(fs, path, updated).value;
    UpdatedShape(config, ruleName);
    if Basename(path) == ManifestName {
      QualifyingManifestIsObject(fs, path);
      ManifestRewriteQualifies(fs, path, updated);
    } else {
      assert PathExists(ApplyWrite(fs, effect), path);
    }
  }

  /**
   * Writing back into a rewritten manifest the configuration it now reads
   * as writes the same text again.
   */
  lemma ManifestRewriteStable(fs: FileSystem, path: Path, config: Value, effect: WriteEffect)
    requires ReadLoader(path) == Success(ManifestField)
    requires path in fs && fs[path].Loaded? && fs[path].value.Obj?
    requires WriteConfig(fs, path, config) == Success(effect)
    requires !config.Undefined?
    ensures WriteConfig(ApplyWrite(fs, effect), path, Reparsed(config)) == Success(effect)
  {
    var props := Put(fs[path].value.props, "eslintConfig", config);
    ManifestWriteSetsField(fs, path, config);
    var written := Reparsed(Obj(props));
    assert effect == Overwrite(path, FileText("", written, "\n"));
    ManifestWritten(fs, path, written, effect);
    WrittenManifestStable(ApplyWrite(fs, effect), path, props, config, effect);
  }

  lemma ManifestWritten(fs: FileSystem, path: Path, written: Plain, effect: WriteEffect)
    requires effect == Overwrite(path, FileText("", written, "\n"))
    ensures path in ApplyWrite(fs, effect) && ApplyWrite(fs, effect)[path] == Loaded(written)
  {
  }

  lemma WrittenManifestStable(fs2: FileSystem, path: Path, props: seq<(string, Value)>, config: Value, effect: WriteEffect)
    requires ReadLoader(path) == Success(ManifestField)
    requires effect == Overwrite(path, FileText("", Reparsed(Obj(props)), "\n"))
    requires path in fs2 && fs2[path] == Loaded(Reparsed(Obj(props)))
    requires !config.Undefined? && Lookup(props, "eslintConfig") == config
    ensures WriteConfig(fs2, path, Reparsed(config)) == Success(effect)
  {
    ReparsedLookup(props, "eslintConfig");
    ReparsedIsJson(Obj(props));
    ManifestHoldingValue(fs2, path, Reparsed(Obj(props)), Reparsed(config));
  }

  /** Writing into a manifest of JSON text the `eslintConfig` it holds writes that text again. */
  lemma ManifestHoldingValue(fs: FileSystem, path: Path, manifest: Value, config: Value)
    requires ReadLoader(path) == Success(ManifestField)
    requires manifest.Obj? && JsonValue(manifest) && path in fs && fs[path] == Loaded(manifest)
    requires !config.Undefined? && Lookup(manifest.props, "eslintConfig") == config
    ensures WriteConfig(fs, path, config) == Success(Overwrite(path, FileText("", manifest, "\n")))
  {
    ManifestWriteSetsField(fs, path, config);
    PutSameValue(manifest.props, "eslintConfig");
    JsonReparsedUnchanged(manifest);
  }

  /**
   * Writing back into any other rewritten file the configuration it now
   * reads as writes the same text again.
   */
  lemma PlainRewriteStable(fs: FileSystem, path: Path, config: Value)
    requires WritePlanFor(Inspect(path)) != WriteManifestField
    requires WriteConfig(fs, path, config).Success?
    ensures WriteConfig(ApplyWrite(fs, WriteConfig(fs, path, config).value), path, Reparsed(config)) ==
      WriteConfig(fs, path, config)
  {
    var fs2 := ApplyWrite(fs, WriteConfig(fs, path, config).value);
    WriteReadsOnlyManifest(fs, fs2, path, Reparsed(config));
    ReparsedIdempotent(config);
  }

  /** Performing a write a second time leaves the disk as the first time did. */
  lemma ApplyWriteIdempotent(fs: FileSystem, effect: WriteEffect)
    ensures ApplyWrite(ApplyWrite(fs, effect), effect) == ApplyWrite(fs, effect)
  {
    if effect.Overwrite? {
      var fs2 := fs[effect.path := Loaded(effect.text.value)];
      assert fs2[effect.path := Loaded(effect.text.value)] == fs2;
    }
  }

  /** Updating the rewritten file gives the same write, which changes nothing. */
  lemma RewriteIsStable(fs: FileSystem, currentFile: Path, path: Path, ruleName: string, effect: WriteEffect)
    requires Locate(fs, currentFile) == Success(Some(path))
    requires WritesUpdate(fs, path, ruleName, effect)
    ensures UpdateConfigFile(ApplyWrite(fs, effect), path, ruleName) == Success(effect)
    ensures ApplyWrite(ApplyWrite(fs, effect), effect) == ApplyWrite(fs, effect)
  {
    LocatedFileFormat(fs, currentFile);
    var config := ReadConfig(fs, path).value;
    var updated := Updated(config, ruleName).value;
    var read := Reparsed(updated);
    assert effect == WriteConfig(fs, path, updated).value;
    var fs2 := ApplyWrite(fs, effect);
    assert ReadConfig(fs2, path) == Success(read);
    UpdatedIdempotent(config, ruleName);
    UpdatedFixpointReparsed(updated, ruleName);
    assert Updated(read, ruleName) == Success(read);
    UpdatedShape(config, ruleName);
    PlansAgree(Inspect(path));
    if ReadLoader(path) == Success(ManifestField) {
      QualifyingManifestIsObject(fs, path);
      ManifestRewriteStable(fs, path, updated, effect);
    } else {
      PlainRewriteStable(fs, path, updated);
    }
    assert WriteConfig(fs2, path, read) == Success(effect);
    ApplyWriteIdempotent(fs, effect);
  }

  /**
   * The `rules` a module namespace has once the rule is disabled in it: a
   * plain object gets the rule set to 0, and an array keeps its JSON form.
   */
  function RulesDisabled(rules: Value, ruleName: string): Value
  {
    if rules.Obj? then Obj(Put(rules.props, ruleName, LegacySeverity)) else rules
  }

  /**
   * A module whose default export is falsy, or that has none, reads as its
   * namespace object. Its update succeeds exactly when the module has a
   * truthy `rules` export that is an object or an array: that object is
   * changed in place, and the namespace with it is written as an
   * `export default` of its JSON text. Otherwise the assignment to the
   * namespace throws a `TypeError` and nothing is written.
   */
  lemma FalsyDefaultExportUpdate(fs: FileSystem, path: Path, ruleName: string)
    requires ReadLoader(path) == Success(EsImport)
    requires path in fs && !fs[path].Unloadable? && !Truthy(Lookup(ExportsOf(fs[path]), "default"))
    ensures var rules := Lookup(ExportsOf(fs[path]), "rules");
      UpdateConfigFile(fs, path, ruleName).Success? <==> Truthy(rules) && IsObjectLike(rules)
    ensures UpdateConfigFile(fs, path, ruleName).Failure? ==> UpdateConfigFile(fs, path, ruleName) == Failure(TypeError)
    ensures var exports := ExportsOf(fs[path]);
      var updated := Namespace(Put(exports, "rules", RulesDisabled(Lookup(exports, "rules"), ruleName)));
      UpdateConfigFile(fs, path, ruleName).Success? ==>
        UpdateConfigFile(fs, path, ruleName) == Success(Overwrite(path, FileText("export default ", Reparsed(updated), ";")))
  {
    FalsyDefaultExportIsNamespace(fs, path);
    PlansAgree(Inspect(path));
    var exports := ExportsOf(fs[path]);
    var rules := Lookup(exports, "rules");
    if Truthy(rules) && rules.Arr? {
      assert "rules" in Keys(exports);
      PutSameValue(exports, "rules");
    }
  }

  /** The handler reports that outcome for such a module when it is the file found. */
  lemma FalsyDefaultExportReported(passed: Option<DiagnosticCode>, picked: Option<DiagnosticCode>,
                                   document: Path, fs: FileSystem, path: Path)
    requires passed.Some? || picked.Some?
    requires Locate(fs, document) == Success(Some(path))
    requires ReadLoader(path) == Success(EsImport)
    requires path in fs && !fs[path].Unloadable? && !Truthy(Lookup(ExportsOf(fs[path]), "default"))
    ensures var ruleName := GetRuleName(if passed.Some? then passed.value else picked.value);
      var rules := Lookup(ExportsOf(fs[path]), "rules");
      var out := Command(passed, picked, true, Some(document), fs);
      (out.Disabled? <==> Truthy(rules) && IsObjectLike(rules)) &&
      (!out.Disabled? ==> out == UpdateFailed(ruleName, path, TypeError))
  {
    var ruleName := GetRuleName(if passed.Some? then passed.value else picked.value);
    FalsyDefaultExportUpdate(fs, path, ruleName);
    assert Command(passed, picked, true, Some(document), fs) == AfterSearch(ruleName, Locate(fs, document), fs);
  }

  /**
   * A flat configuration module without a default export and with
   * `export const rules = { semi: "error" }` is updated through its `rules`
   * export and written as an `export default` of the namespace.
   */
  lemma NamedRulesExportExample(dir: Path)
    ensures var path := dir + ["eslint.config.mjs"];
      var fs := map[path := Module([("rules", Obj([("semi", Str("error"))]))])];
      UpdateConfigFile(fs, path, "no-console") ==
        Success(Overwrite(path, FileText("export default ",
          Obj([("rules", Obj([("semi", Str("error")), ("no-console", Num(0))]))]), ";")))
  {
    var path := dir + ["eslint.config.mjs"];
    var fs := map[path := Module([("rules", Obj([("semi", Str("error"))]))])];
    LoaderFlatMjs(dir);
    ExampleExports();
    FalsyDefaultExportUpdate(fs, path, "no-console");
    ExampleNamespaceText();
  }

  lemma ExampleExports()
    ensures var exports := [("rules", Obj([("semi", Str("error"))]))];
      Lookup(exports, "default") == Undefined &&
      Lookup(exports, "rules") == Obj([("semi", Str("error"))]) &&
      Put(exports, "rules", RulesDisabled(Lookup(exports, "rules"), "no-console")) ==
        [("rules", Obj([("semi", Str("error")), ("no-console", Num(0))]))]
  {
    var exports := [("rules", Obj([("semi", Str("error"))]))];
    assert IndexOf(exports, "default") == -1;
    assert IndexOf(exports, "rules") == 0;
    assert IndexOf([("semi", Str("error"))], "no-console") == -1;
    assert Put([("semi", Str("error"))], "no-console", Num(0)) == [("semi", Str("error")), ("no-console", Num(0))];
  }

  lemma ExampleNamespaceText()
    ensures var text := Obj([("rules", Obj([("semi", Str("error")), ("no-console", Num(0))]))]);
      Reparsed(Namespace(text.props)) == text
  {
    var rules := [("semi", Str("error")), ("no-console", Num(0))];
    var text := Obj([("rules", Obj(rules))]);
    assert JsonValue(Obj(rules)) by {
      assert DistinctKeys(rules);
    }
    assert JsonValue(text);
    JsonReparsedUnchanged(text);
    ReparsedNamespace(text.props);
  }

  /**
   * Running the command a second time with the same diagnostic finds the
   * same file, succeeds, and writes the same text, which the disk already
   * holds.
   */
  lemma SecondRunChangesNothing(passed: Option<DiagnosticCode>, picked: Option<DiagnosticCode>,
                                document: Path, fs: FileSystem)
    requires Command(passed, picked, true, Some(document), fs).Disabled?
    ensures var out := Command(passed, picked, true, Some(document), fs);
      var fs2 := ApplyWrite(fs, out.effect);
      Command(passed, picked, true, Some(document), fs2) == out && ApplyWrite(fs2, out.effect) == fs2
  {
    var out := Command(passed, picked, true, Some(document), fs);
    DisabledWritesUpdate(passed, picked, document, fs);
    var fs2 := ApplyWrite(fs, out.effect);
    RewrittenStillQualifies(fs, document, out.path, out.rule, out.effect);
    assert fs2 == fs[out.path := Loaded(out.effect.text.value)];
    LocateAfterWrite(fs, document, out.path, Loaded(out.effect.text.value));
    RewriteIsStable(fs, document, out.path, out.rule, out.effect);
    var diagnostic := if passed.Some? then passed else picked;
    assert Command(passed, picked, true, Some(document), fs2) ==
      AfterSearch(GetRuleName(diagnostic.value), Locate(fs2, document), fs2);
    assert AfterSearch(out.rule, Success(Some(out.path)), fs2) ==
      AfterUpdate(out.rule, out.path, UpdateConfigFile(fs2, out.path, out.rule));
  }
}
