# Disable ESLint rule in project — a Dafny model

This project models the core of the VS Code extension "Disable ESLint rule in
project". The extension takes the rule named by an ESLint diagnostic and
switches it off for the whole project. It does this in three steps:

- It finds the nearest ESLint configuration file. It walks from the
  directory of the current document up to the root and tries eight names in
  a fixed priority order in each directory. A `package.json` counts only when
  its `eslintConfig` is truthy.
- It loads that file, with the loader its name selects.
- It disables the rule and writes the file back in the same format:
  - a flat configuration (an array) gets `"off"` in its first global entry,
    or a new global entry when it has none;
  - a legacy configuration (an object) gets `0` in its `rules`.

The modules follow the source:

| module | models |
|---|---|
| `Paths` | `path.dirname`, `basename`, `join`, `extname`, the `.temp` strip |
| `Js` | JavaScript values, a module namespace object with its exports among them: truthiness, property reads that throw on `null`/`undefined`, assignments that throw on primitives, objects as ordered association lists |
| `Disk` | the filesystem, as a map from paths to what each file's loader makes of it: one value, an ECMAScript module's exports, or a load failure |
| `JsonText` | what a written file reads back as: the value its `JSON.stringify` text spells |
| `ConfigUpdate` | `isFlatConfig`, `updateRuleInFlatConfig`, `updateRuleInLegacyConfig` (src/helpers/readConfigFile.ts:92-128). The two updates are methods that change a shared `ConfigRef` in place. |
| `ConfigFormat` | the file-name dispatch of `readConfigFile` and `writeConfigFile` (src/helpers/readConfigFile.ts:4-90) |
| `Locator` | `findConfigFile` (src/helpers/findConfigFile.ts), as a method with the source's two nested loops, proved against a search-order specification |
| `Extension` | `getRuleName` and the command handler (src/extension.ts:19-76), as a method proved against a function of the editor state and the disk |

The `*Properties` modules hold the lemmas about each of these.

src/extension.ts holds copies of the helpers:

- `isFlatConfig` and the two updates at lines 78-114;
- `findEslintConfigFile` at lines 116-159;
- `readEslintConfig` and `writeEslintConfig` at lines 161-250.

They differ from the helpers only in their names, their `export` keyword and
how their parameter lists are wrapped. Each is therefore modelled once. The
`Extension` module calls the same members for both copies, so the copies
agree by construction.

What a file contains is abstract. A file denotes one value (a JSON document,
`module.exports`, or the default export of a module that exports nothing
else), or the exports of an ECMAScript module, or it fails to load. A written file is a prefix, the JSON text of a value and
a suffix. Every read goes to the disk as it is then. Node caches the
namespace of an ECMAScript module by its URL, and nothing clears that
cache, so the model describes `eslint.config.mjs` only at the first import
of that file in a session ("## Left out" says more).

In the model, loading `module.exports = t`, `export default t;` or a JSON
document `t` gives back the value that the JSON text `t` spells. This is an
assumption about the loaders, not something proved. That value is `JsonText.Reparsed(config)`, the model of
`JSON.parse(JSON.stringify(config))`:

- it is the configuration itself when that is a JSON value (`JsonText.JsonValue`);
- otherwise `JSON.stringify` changes the value: it drops an object key whose
  value is `undefined`, writes an `undefined` array element as `null`, and
  writes a module namespace object as a plain object.

The model follows the code in these points:

- A `package.json` qualifies when its `eslintConfig` is truthy, whatever its
  type: `{}` qualifies, and `0` or `""` do not.
- An `eslint.config.mjs` is written as `export default …;`, so writing an
  ECMAScript module is supported.
- An `eslint.config.mjs` whose default export is falsy or missing reads as
  its module namespace object (`config.default || config`), which holds all
  of the module's exports.
  - When the module has a truthy `rules` export, `config.rules[ruleName] = 0`
    changes that object in place, and the namespace shows the change. The
    namespace is then written as `export default` of its JSON text: the
    plain object of its exports.
  - Otherwise `config.rules = {}` assigns to the namespace, which its
    exports being read-only forbids, so it throws a TypeError. The command
    reports that error as an update failure and writes nothing.
- An `eslint.config.mjs` with named exports and a truthy default export is
  read as that default and written back as it alone, so its named exports
  are lost.
- The updates can throw a `TypeError` on a primitive entry or a truthy
  primitive `rules`, and the model says when. The command reports that error
  as an update failure.
- An `eslint.config.` name with another extension is treated differently by
  the two chains:
  - the writer returns without writing;
  - the reader falls through to the legacy tests, so it reads
    `eslint.config.json` as JSON and rejects `eslint.config.ts`.
- A legacy `.js`/`.cjs` module is written without a trailing semicolon.
- An exception thrown by the search itself is outside the handler's `try`,
  so it is not reported as an update error. It rejects the command's
  promise (`LocatorRejected`).

## Model

| member | source | states |
|---|---|---|
| Paths.Join | src/helpers/findConfigFile.ts:24 | the joined path has the directory as its dirname and the name as its basename |
| Paths.DirnameFixedPointIsRoot | src/helpers/findConfigFile.ts:37-41 | a directory is its own parent exactly when it is the root, so the loop stops only there |
| Paths.ExtnameShape | src/helpers/readConfigFile.ts:5 | an extension is empty, or a proper suffix that starts at the name's last dot; it is empty exactly when no dot follows the first character, or the name is `..` |
| Paths.ExtnameFromLastDot | src/helpers/readConfigFile.ts:13 | the extension of a name is read off its last dot, except for a leading dot and `..` |
| Paths.StripTemp | src/helpers/readConfigFile.ts:9 | one trailing `.temp` is removed and nothing else; a name without that suffix is unchanged |
| Js.GetProp | src/helpers/readConfigFile.ts:99 | reading a property throws a TypeError exactly on `null` and `undefined`; it finds the key on an object and the export of that name on a module namespace; the keys this code reads (`default`, `files`, `rules`, `eslintConfig`) are `undefined` on every other value |
| Js.SetProp | src/helpers/readConfigFile.ts:114 | assigning a property throws a TypeError exactly on a primitive or a module namespace; on an object it sets the key as `Put` does; on an array, for a key that is neither an index nor `length`, it leaves the JSON value unchanged |
| Js.Put | src/helpers/readConfigFile.ts:116 | the key then holds the value and every other key keeps its value; an existing key keeps its place and a new key is appended; distinct keys stay distinct |
| Js.PutOverwrites | src/helpers/readConfigFile.ts:113-116 | a second assignment to a key replaces the first, so the last write wins |
| Js.PutIdempotent | src/helpers/readConfigFile.ts:116 | assigning the same value twice is assigning it once |
| Js.PutSameValue | src/helpers/readConfigFile.ts:116 | writing back the value a key already holds changes nothing |
| Disk.Load | src/helpers/readConfigFile.ts:40 | `fs.readJson` or `require` loads a file exactly when it exists and holds one value; a missing file throws |
| Disk.Import | src/helpers/readConfigFile.ts:17 | the first `import()` of a file in a session, when the file exists and loads, gives its namespace object: the module's exports, or a lone value as its default export; a missing file throws at that first import |
| ConfigUpdate.GlobalTest | src/helpers/readConfigFile.ts:99 | the callback throws a TypeError exactly on `null` and `undefined`; an entry is scoped exactly when it is an object or module namespace whose `files` is truthy and is not an array containing `**/*` |
| ConfigUpdate.IsFlatConfig | src/helpers/readConfigFile.ts:92-94 | `Array.isArray`: a configuration is flat exactly when it is an array |
| ConfigUpdate.FindGlobalIndex | src/helpers/readConfigFile.ts:98-100 | the result is the lowest index whose `files` is falsy or an array containing `**/*`, or -1 when there is none; a TypeError from the callback propagates |
| ConfigUpdate.DisableRuleIn | src/helpers/readConfigFile.ts:111-117 | `rules` is created when falsy; the rule gets the severity; every other rule and every other top-level key keeps its value and its place; a truthy object `rules` is changed in place, and the target sees the change, a module namespace included; it fails exactly on a primitive target, on a module namespace without a truthy `rules`, or on a truthy primitive `rules`; an array `rules` is left as it is, for a rule name that is neither an index nor `length` |
| ConfigUpdate.NewGlobalEntry | src/helpers/readConfigFile.ts:104-109 | the appended entry is global, has the keys `files` and `rules` in that order, and its `rules` holds only the rule, `"off"` |
| ConfigUpdate.FlatUpdated | src/helpers/readConfigFile.ts:96-120 | it succeeds exactly when the search does not throw and either no entry is global or the first global entry takes the rule; with no global entry, exactly `{files:["**/*"], rules:{[rule]:"off"}}` is appended after the unchanged entries; otherwise only the first global entry changes, as `DisableRuleIn` says |
| ConfigUpdate.LegacyUpdated | src/helpers/readConfigFile.ts:122-127 | the rule is 0 in the `rules` of the object or module namespace; it fails exactly when an assignment throws |
| ConfigUpdate.UpdateRuleInFlatConfig | src/helpers/readConfigFile.ts:96-120 | changes the shared array in place to the flat update and returns the same reference; when the update throws, nothing has been changed |
| ConfigUpdate.UpdateRuleInLegacyConfig | src/helpers/readConfigFile.ts:122-127 | changes the shared object in place to the legacy update and returns the same reference; when the update throws, nothing has been changed |
| ConfigUpdateProperties.GlobalTestPreserved | src/helpers/readConfigFile.ts:98-117 | disabling a rule leaves whether an entry is global unchanged |
| ConfigUpdateProperties.DisableRuleInIdempotent | src/helpers/readConfigFile.ts:111-117 | disabling a rule a second time with the same severity changes nothing |
| ConfigUpdateProperties.GlobalTestReparsed | src/helpers/readConfigFile.ts:61-86 | whether an entry is global is the same once it is written as an array element of JSON text and read back |
| ConfigUpdateProperties.DisabledReparsed | src/helpers/readConfigFile.ts:61-86 | a value the rule is already disabled in still has it disabled once written as JSON text and read back |
| ConfigUpdateProperties.FindGlobalIndexAppend | src/helpers/readConfigFile.ts:98-109 | when no entry is global, the appended entry is the one found next time |
| ConfigUpdateProperties.FlatUpdateIdempotent | src/helpers/readConfigFile.ts:96-120 | applying the flat update twice with one rule gives the result of applying it once |
| ConfigUpdateProperties.LegacyUpdateIdempotent | src/helpers/readConfigFile.ts:122-127 | applying the legacy update twice with one rule gives the result of applying it once |
| ConfigUpdateProperties.ScopedEntryUntouched | src/helpers/readConfigFile.ts:98-100 | an entry whose `files` is an array without `**/*` is never changed, and that includes the empty array |
| ConfigUpdateProperties.FlatConfigDetection | src/test/suite/extension.test.ts:24-30 | an array is flat and a `{rules: …}` object is not |
| ConfigUpdateProperties.FlatRuleUpdateExample | src/test/suite/extension.test.ts:32-43 | a configuration whose only entry is scoped to `**/*.js` gains a second, global entry with the rule `"off"` |
| ConfigUpdateProperties.FlatGlobalEntryExample | src/helpers/readConfigFile.ts:110-117 | an entry without `files` is updated in place; the new rule comes after its existing rule |
| ConfigUpdateProperties.LegacyRuleUpdateExample | src/test/suite/extension.test.ts:45-52 | the new rule is 0 and the existing rule keeps `"error"` |
| ConfigFormat.Inspect | src/helpers/readConfigFile.ts:5-9 | the base file name is the name without `.temp`; the full name's extension is the base name's, `.temp`, or none |
| ConfigFormat.TempExtension | src/helpers/readConfigFile.ts:5-13 | removing `.temp` changes the extension only by dropping `.temp` itself |
| ConfigFormat.LoaderFor | src/helpers/readConfigFile.ts:11-46 | the read chain in order: a flat name by its base extension, then a legacy module, the manifest, and JSON by the full extension |
| ConfigFormat.ReadLoader | src/helpers/readConfigFile.ts:11-46 | the read chain fails with the unsupported-format error exactly when no branch applies, and otherwise picks the branch's loader |
| ConfigFormat.ReadConfig | src/helpers/readConfigFile.ts:4-47 | an unsupported name throws before the disk is read, and a missing file throws; a value read comes from a file that loaded; only the manifest branch can throw a TypeError; an ECMAScript module yields its default export when that is truthy and otherwise its namespace object, so always a truthy value |
| ConfigFormat.WritePlanFor | src/helpers/readConfigFile.ts:49-90 | the write chain in order: a flat name by its base extension, skipped for an unknown one, then a legacy module without semicolon, the manifest, JSON, and the unsupported-format error |
| ConfigFormat.WriteConfig | src/helpers/readConfigFile.ts:49-90 | a write overwrites only the path it was given, with JSON text; it writes nothing exactly for the skipped names and throws the unsupported-format error exactly for the rejected ones |
| ConfigFormat.ApplyWrite | src/helpers/readConfigFile.ts:62-86 | the file written then denotes the value its JSON text spells; writing nothing leaves the disk as it was |
| ConfigFormat.ApplyWriteFrame | src/helpers/readConfigFile.ts:62-86 | a write changes no other file and creates no other file |
| ConfigFormat.PlansAgree | src/helpers/readConfigFile.ts:11-90 | the write chain writes an ES module, a CommonJS module or a manifest field exactly when the read chain reads it that way; JSON and rejected names agree; it skips exactly the flat names without `.mjs`, `.cjs` or `.js` |
| ConfigFormatProperties.WriteThenRead | src/helpers/readConfigFile.ts:4-90 | whatever is written reads back as the value its JSON text spells, and so as the configuration written when that is a JSON value; this needs a truthy configuration for an ES module and an object manifest |
| ConfigFormatProperties.ReadThenWriteUnchanged | src/helpers/readConfigFile.ts:4-90 | reading a configuration and writing it back, when that writes, leaves the file denoting the value its JSON text spells and every other file as it was; a file that held a JSON value is left as it was; for an ECMAScript module this holds when it exports only a truthy default |
| ConfigFormatProperties.ModuleReadThenWrite | src/helpers/readConfigFile.ts:16-62 | a module with named exports and a truthy default export reads as that default, and writing it back leaves a module exporting only it |
| ConfigFormatProperties.DispatchAgreement | src/helpers/readConfigFile.ts:46-90 | a name the writer rejects the reader rejects too; a flat name with an unknown extension is skipped by the writer, while the reader sends it to the legacy tests, which read it as JSON or reject it; no other name is skipped |
| ConfigFormatProperties.ManifestWriteSetsField | src/helpers/readConfigFile.ts:81-84 | a manifest write is the JSON text of the manifest re-read from disk with `eslintConfig` set, then a newline |
| ConfigFormatProperties.ManifestOtherKeysKept | src/helpers/readConfigFile.ts:81-84 | a manifest write keeps every other key of the manifest with its value, as JSON text spells it; for a JSON manifest and configuration it is exactly the manifest with `eslintConfig` set, every key in its place |
| ConfigFormatProperties.FalsyDefaultExportIsNamespace | src/helpers/readConfigFile.ts:17-18 | a module whose default export is falsy or missing reads as its namespace object, with all its exports, and every assignment to that throws a TypeError |
| ConfigFormatProperties.PlainNameInfo | src/helpers/readConfigFile.ts:5-9 | the three names compared for a file without `.temp` |
| ConfigFormatProperties.TempNameInfo | src/helpers/readConfigFile.ts:5-13 | the three names compared for a file ending in `.temp` |
| ConfigFormatProperties.CandidateLoaders | src/helpers/readConfigFile.ts:11-44 | the loader each of the eight candidate names gets, in any directory |
| ConfigFormatProperties.CandidateWritePlans | src/helpers/readConfigFile.ts:49-90 | how each of the eight candidate names is written, in any directory: `export default …;` for `eslint.config.mjs`; `module.exports = …;` for `eslint.config.js` and `eslint.config.cjs`; `module.exports = …` with no semicolon for `.eslintrc.js` and `.eslintrc.cjs`; JSON text for `.eslintrc.json` and `.eslintrc`; the `eslintConfig` field for `package.json` |
| ConfigFormatProperties.TempNames | src/helpers/readConfigFile.ts:9-46 | a temporary flat configuration or manifest is understood; a temporary legacy file is rejected, because its extension is `.temp` |
| ConfigFormatProperties.FlatJsonReadButNotWritten | src/helpers/readConfigFile.ts:57-73 | `eslint.config.json` is read as JSON, and writing it silently does nothing |
| Locator.ProbeAt | src/helpers/findConfigFile.ts:24-34 | a missing file is a miss; any other existing name is a hit; a manifest is a hit only when its `eslintConfig` is truthy; only a manifest can throw |
| Locator.NoneIffAllMiss | src/helpers/findConfigFile.ts:22-44 | the search finds nothing exactly when every probe misses |
| Locator.FoundIsFirstHit | src/helpers/findConfigFile.ts:23-33 | a path found is a hit with only misses before it |
| Locator.FailureIsFirstProbeFailure | src/helpers/findConfigFile.ts:26-28 | an exception comes from the first probe that is not a miss |
| Locator.FirstHitIsFound | src/helpers/findConfigFile.ts:23-33 | a hit with only misses before it is the path found |
| Locator.SearchOrderNext | src/helpers/findConfigFile.ts:37-41 | after the names of a directory, the search goes on in its parent, and it stops after the root |
| Locator.ProbeCandidate | src/helpers/findConfigFile.ts:24-34 | the body of the inner loop computes the probe of `join(dir, name)` |
| Locator.SearchOrder | src/helpers/findConfigFile.ts:19-42 | the candidates in the order they are tried, at least the eight names of the start directory; `SearchOrderAt` and `Decode` state the order |
| Locator.FirstQualifying | src/helpers/findConfigFile.ts:22-42 | a path found is a hit; an exception is a manifest's parse error or a TypeError |
| Locator.Locate | src/helpers/findConfigFile.ts:4-45 | the file found qualifies; the search throws only a manifest's parse error or a TypeError |
| Locator.FindConfigFile | src/helpers/findConfigFile.ts:4-45 | the two nested loops compute the search-order specification `Locate` |
| LocatorProperties.SearchOrderLength | src/helpers/findConfigFile.ts:19-42 | eight candidates for each directory from the start directory up to the root |
| LocatorProperties.SearchOrderAt | src/helpers/findConfigFile.ts:19-42 | the search order lists all names of the nearest directory, in priority order, before those of its parent |
| LocatorProperties.Decode | src/helpers/findConfigFile.ts:19-42 | every position of the search order is one name in one ancestor |
| LocatorProperties.Earlier | src/helpers/findConfigFile.ts:19-42 | every candidate tried before a given one is in a nearer directory, or of higher priority in the same one |
| LocatorProperties.Later | src/helpers/findConfigFile.ts:19-42 | a candidate in a nearer directory, or of higher priority in the same one, is tried earlier |
| LocatorProperties.NearestFirst | src/helpers/findConfigFile.ts:22-42 | the file found is a qualifying candidate in some ancestor; no nearer directory and no higher-priority name in that ancestor qualifies |
| LocatorProperties.LocatedCandidate | src/helpers/findConfigFile.ts:22-42 | the file found is a given name in a given ancestor, with only misses before it |
| LocatorProperties.NearestFirstIsFound | src/helpers/findConfigFile.ts:22-42 | a qualifying candidate is found when nothing tried before it qualifies |
| LocatorProperties.NotFoundIffNoneQualifies | src/helpers/findConfigFile.ts:44 | `null` is returned exactly when no candidate in any ancestor, the root included, qualifies |
| LocatorProperties.OnlyManifestsThrow | src/helpers/findConfigFile.ts:26-28 | the search throws only at a manifest that fails to parse or is `null`, nearer than any qualifying candidate |
| LocatorProperties.FirstFailure | src/helpers/findConfigFile.ts:25-31 | the candidate whose probe throws, with only misses before it |
| LocatorProperties.NearerLegacyBeatsFartherFlat | src/helpers/findConfigFile.ts:22-42 | a legacy file in a nearer directory wins over a flat configuration in a farther one |
| LocatorProperties.NearestDirectoryWins | src/helpers/findConfigFile.ts:22-42 | a lone configuration two levels up is found; once a nearer one is added, the nearer one wins |
| LocatorProperties.ManifestWithoutFieldSkipped | src/helpers/findConfigFile.ts:26-31 | a `package.json` without `eslintConfig` is skipped, and the search goes on in the parent |
| LocatorProperties.ProbeLocal | src/helpers/findConfigFile.ts:24-34 | a probe depends only on the file at its own path |
| LocatorProperties.LocateAfterWrite | src/helpers/findConfigFile.ts:22-42 | rewriting the file found keeps it the file found, as long as it still qualifies |
| Extension.GetRuleName | src/extension.ts:72-76 | the `value` of an object code, or the code itself, converted with `String`; a missing code gives `"undefined"` |
| Extension.Updated | src/extension.ts:43-50 | the flat update is applied exactly to an array, and the legacy update otherwise |
| Extension.UpdateConfigFile | src/extension.ts:40-52 | the first exception of read, update and write is the one reported; a write overwrites the file found with JSON text |
| Extension.Command | src/extension.ts:19-64 | every message names the rule of the diagnostic passed, or else of the one picked; an update is reported only for the file the search found, with the outcome of updating it |
| Extension.AfterSearch | src/extension.ts:32-62 | the search's exception rejects the command; no file gives "not found"; a file found is updated and the outcome is reported for it |
| Extension.AfterUpdate | src/extension.ts:40-61 | a successful update reports success with its write; an exception reports an update failure with that exception |
| Extension.DisableRule | src/extension.ts:19-64 | the handler's steps compute `Command`, its specification as a function of the diagnostic, the workspace, the document and the disk |
| ExtensionProperties.NatNumeralRoundTrip | src/extension.ts:75 | the decimal numeral of a natural number reads back as that number |
| ExtensionProperties.IntNumeralRoundTrip | src/extension.ts:75 | `String(n)` reads back as `n`, so distinct numeric codes give distinct rule names |
| ExtensionProperties.RuleNameOfNumericCode | src/extension.ts:72-76 | an object code names the same rule as its bare value |
| ExtensionProperties.UpdatedShape | src/extension.ts:43-50 | only an array, an object or a module namespace can be updated, and the update leaves each of the same kind |
| ExtensionProperties.AppendedEntryRuleOff | src/helpers/readConfigFile.ts:102-109 | with no global entry, the appended entry is the first global one and has the rule off |
| ExtensionProperties.UpdatedEntryRuleOff | src/helpers/readConfigFile.ts:110-117 | the global entry updated stays the first global one and has the rule off |
| ExtensionProperties.UpdatedDisablesRule | src/extension.ts:43-50 | on a configuration of the documented shape, the update disables the rule and keeps the shape |
| ExtensionProperties.UpdatedIdempotent | src/extension.ts:43-50 | updating what an update left behind changes nothing |
| ExtensionProperties.UpdatedFixpointReparsed | src/extension.ts:43-52 | a configuration the update leaves as it is is still left as it is once written as JSON text and read back |
| ExtensionProperties.ReparsedKeepsRuleOff | src/extension.ts:43-52 | a configuration of the documented shape with the rule off keeps both once written as JSON text and read back |
| ExtensionProperties.LocatedFileFormat | src/extension.ts:32-52 | the file found has a loader, is read as a manifest exactly when it is `package.json`, and is always written |
| ExtensionProperties.CandidateFormat | src/helpers/findConfigFile.ts:5-16 | every candidate name, in any directory, has a loader and is written |
| ExtensionProperties.QualifyingManifestIsObject | src/helpers/findConfigFile.ts:26-31 | a manifest that qualifies is a plain object |
| ExtensionProperties.WriteReadsOnlyManifest | src/helpers/readConfigFile.ts:49-90 | a write reads the disk only to re-read a manifest |
| ExtensionProperties.HandledIsOverwritten | src/helpers/readConfigFile.ts:57-86 | a successful write of a handled file overwrites that file |
| ExtensionProperties.LocatedUpdateWrites | src/extension.ts:40-52 | a successful update of the file found writes the update to that file and nothing else |
| ExtensionProperties.CommandEarlyExits | src/extension.ts:20-38 | the handler returns early exactly when it has no diagnostic, or has one and no workspace folder; without a document it reports that no configuration exists |
| ExtensionProperties.CommandReportsSearch | src/extension.ts:32-38 | the handler reports no configuration exactly when no candidate qualifies, and the search's exception exactly when the search throws |
| ExtensionProperties.DisabledWritesUpdate | src/extension.ts:20-56 | a successful command used the diagnostic passed or the one picked, found its file, and rewrote exactly that file with the update |
| ExtensionProperties.CommandDisablesRule | src/extension.ts:40-56 | after a successful command, the file found holds the rule disabled, for a configuration of the documented shape |
| ExtensionProperties.ManifestRewriteQualifies | src/helpers/readConfigFile.ts:81-84 | a manifest rewritten with a truthy `eslintConfig` still qualifies |
| ExtensionProperties.RewrittenStillQualifies | src/extension.ts:40-52 | the file found still qualifies once the update is written to it |
| ExtensionProperties.ManifestRewriteStable | src/helpers/readConfigFile.ts:81-84 | writing back into a rewritten manifest the configuration it now reads as writes the same text again |
| ExtensionProperties.ManifestHoldingValue | src/helpers/readConfigFile.ts:81-84 | writing into a manifest of JSON text the `eslintConfig` it already holds writes that text again |
| ExtensionProperties.PlainRewriteStable | src/helpers/readConfigFile.ts:57-86 | writing back into any other rewritten file the configuration it now reads as writes the same text again |
| ExtensionProperties.ApplyWriteIdempotent | src/helpers/readConfigFile.ts:62-86 | performing a write twice leaves the disk as performing it once |
| ExtensionProperties.RewriteIsStable | src/extension.ts:40-52 | updating the rewritten file gives the same write, and that write changes nothing |
| ExtensionProperties.SecondRunChangesNothing | src/extension.ts:19-64 | running the command again with the same diagnostic finds the same file, succeeds, and writes what the disk already holds |
| ExtensionProperties.FalsyDefaultExportUpdate | src/helpers/readConfigFile.ts:17-126 | for a module whose default export is falsy or missing, the update succeeds exactly when the module has a truthy `rules` export that is an object or an array; it then writes `export default` with the JSON text of the namespace, whose `rules` export has the rule set to 0; otherwise it throws a TypeError and nothing is written |
| ExtensionProperties.FalsyDefaultExportReported | src/extension.ts:40-61 | when such a module is the file found, the command succeeds exactly in that case, and otherwise reports an update failure with the TypeError |
| ExtensionProperties.NamedRulesExportExample | src/helpers/readConfigFile.ts:17-62 | a module holding only `export const rules = {semi: "error"}` is written as `export default {"rules": {"semi": "error", "no-console": 0}};` |
| JsonText.Reparsed | src/helpers/readConfigFile.ts:61-86 | what a written file reads back as keeps the kind of the value (`undefined`, array, object) and its truthiness, is never a module namespace, and is a primitive unchanged |
| JsonText.ReparsedNamespace | src/helpers/readConfigFile.ts:61 | a module namespace is written as the plain object of its exports |
| JsonText.ReparsedIsJson | src/helpers/readConfigFile.ts:61-86 | what is written reads back as a JSON value |
| JsonText.JsonReparsedUnchanged | src/helpers/readConfigFile.ts:61-86 | a JSON value reads back as itself |
| JsonText.ReparsedIdempotent | src/helpers/readConfigFile.ts:61-86 | writing what a file was read back as writes the same text again |
| JsonText.ReparsedLookup | src/helpers/readConfigFile.ts:61-86 | each key of a written object reads back as its value, written |
| JsonText.ReparsedElementString | src/helpers/readConfigFile.ts:61-86 | a string is in a written array exactly when it was in the array |
| JsonText.VisibleLookup | src/helpers/readConfigFile.ts:61-86 | dropping `undefined` entries and repeated keys leaves every key reading as it did |
| JsonText.PutJson | src/helpers/readConfigFile.ts:83 | setting a key of a JSON object to a JSON value keeps it a JSON value |

## Left out

- The editor glue is not modelled: `activate`, command registration, the code action provider, `getCurrentDiagnostic`, the quick pick and the message boxes. The diagnostic the user would pick is a parameter, and each message is a `CommandOutcome`.
- The document's file name is an optional path. An empty file name is folded into "no document", since both skip the search.
- A diagnostic whose code is `null` is not modelled, because VS Code's `Diagnostic.code` type does not include `null`. With one, `typeof null` is `'object'`, so `getRuleName` would read `code.value` and throw a TypeError before the `try`, rejecting the command's promise.
- The text fallback for `.mjs` files (src/helpers/readConfigFile.ts:19-27) is not modelled. It depends on regular-expression and `JSON.parse` semantics. A failed import is a load failure.
- `import()`, `require` and the removal from `require.cache` are not modelled, because they evaluate arbitrary code. A file denotes one value, a module's exports, or a load failure. `fs.readJson` and `require` reject a module with named exports; Node's `require` of an ECMAScript module is not modelled.
- A module namespace lists its exports sorted by name, which fixes the key order of its JSON text. The model takes the exports in the order the disk gives them and does not enforce the sorting.
- `JSON.stringify` formatting is abstract. A written file is a prefix, a value and a suffix.
- Module content that is not JSON is not modelled: functions, regular expressions, `NaN`, class instances and `toJSON` methods have no `Value`. How `JSON.stringify` writes them is therefore not modelled either.
- ConfigFormatProperties.WriteThenRead: the configuration reads back as itself only when it is a JSON value. Otherwise it reads back as the value its JSON text spells, and module content that is not JSON is outside the model, as the line above says.
- ConfigFormatProperties.ReadThenWriteUnchanged: the disk is left exactly as it was only when the file held a JSON value. Otherwise the file then denotes the value its JSON text spells. For an ECMAScript module it is stated only for one that exports nothing but a truthy default: a module with named exports loses them when written back (`ModuleReadThenWrite`), and one without a truthy default reads as its namespace.
- A configuration that is `undefined` at the top level is taken to be written as the text `undefined`. How `fs.writeJson` handles it is part of fs-extra, which is not part of this model. The command never writes one, because only arrays and objects can be updated.
- Js.GetProp: built-in properties are not modelled, such as `length` on an array or a string and the methods from the prototypes. Every key but an object's own reads as `undefined`. The code reads only `files`, `rules` and `eslintConfig`, which no built-in value has.
- Js.SetProp: on an array, an index-like key such as `"0"` in the source replaces or adds an element, and `length` truncates the array or throws a RangeError. The model treats every key on an array as a named property. The keys assigned are `rules`, `eslintConfig` and the rule name, so only a rule name that is an index or `length`, set in an array `rules`, differs.
- ConfigUpdate.DisableRuleIn: with an array `rules` and a rule name that is an index or `length`, the source changes the array or throws a RangeError. The model leaves the array as it is and succeeds.
- Filesystem I/O is not modelled: failures of `writeFile`/`writeJson`, relative paths, symbolic links, and directories named like a candidate.
- Concurrency is not modelled, and nor are edits made to the file by others between the read and the write.
- Disk.Import: every import is taken to be fresh, reading the file as it is on disk. Node caches an ECMAScript module's namespace by its URL for the life of the extension host. `readConfigFile` clears `require.cache` only for CommonJS files, so a later read of the same `eslint.config.mjs` gets the namespace of the first import, with the earlier run's in-place change, and not the current file: an edit made by hand between two runs is then overwritten, and a file deleted after its first import still loads. The members that read a module configuration again after a write take that read to see the disk, which for a module holds only when it is the file's first import: ConfigFormatProperties.WriteThenRead, ConfigFormatProperties.ReadThenWriteUnchanged, ExtensionProperties.RewriteIsStable and ExtensionProperties.SecondRunChangesNothing.
- Numbers are integers. Floating point and `NaN` are not modelled.
- Objects do not model the integer-like key ordering of JavaScript or the special key `__proto__`. Arrays ignore named properties, as their JSON text does; Js.SetProp above lists the keys for which that differs.
- Values, not references, model a configuration except at the one place the source mutates it through a shared reference (`ConfigRef`). Aliasing between entries of one configuration is not modelled.
- ExtensionProperties.CommandDisablesRule: requires the documented shape (no array `rules`, object entries). With an array `rules` the assignment sets a named property, which the written JSON does not contain.
- ExtensionProperties.UpdatedDisablesRule: requires the same documented shape, for the same reason.
