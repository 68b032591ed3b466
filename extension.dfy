/**
 * The command handler registered in `activate` (src/extension.ts) and the
 * rule name it derives from a diagnostic. The editor is reduced to what the
 * handler reads from it: the diagnostic passed in or picked by the user,
 * whether a workspace folder is open, and the path of the document. What
 * the handler shows to the user is the outcome it returns.
 */
module Extension {
  import opened Paths
  import opened Js
  import opened JsonText
  import opened Disk
  import opened ConfigUpdate
  import opened ConfigFormat
  import opened Locator

  /** The value of a diagnostic code: ESLint reports the rule identifier as a string. */
  datatype CodeValue = StrCode(s: string) | NumCode(n: int)

  /** `diagnostic.code`: absent, a bare value, or an object with the value and a documentation link. */
  datatype DiagnosticCode = NoCode | Plain(v: CodeValue) | Linked(value: CodeValue)

  function DigitChar(d: nat): char
    requires d < 10
  {
    "0123456789"[d]
  }

  /** The decimal numeral of a natural number, without leading zeros. */
  function NatToString(n: nat): (s: string)
    ensures |s| > 0
    ensures forall i :: 0 <= i < |s| ==> '0' <= s[i] <= '9'
    ensures |s| > 1 ==> s[0] != '0'
    decreases n
  {
    if n < 10 then [DigitChar(n)] else NatToString(n / 10) + [DigitChar(n % 10)]
  }

  /** `String(n)` for an integer. */
  function IntToString(n: int): string
  {
    if n < 0 then "-" + NatToString(-n) else NatToString(n)
  }

  /** The value of a decimal numeral, the reference reading of `String(n)`. */
  function ParseNat(s: string): int
    decreases |s|
  {
    if s == [] then 0 else 10 * ParseNat(s[..|s| - 1]) + (s[|s| - 1] as int - '0' as int)
  }

  function ParseInt(s: string): int
  {
    if |s| > 0 && s[0] == '-' then -ParseNat(s[1..]) else ParseNat(s)
  }

  /** `String(code)` for a code value. */
  function CodeString(v: CodeValue): string
  {
    match v
    case StrCode(s) => s
    case NumCode(n) => IntToString(n)
  }

  /**
   * `getRuleName`: the `value` of an object code, the code itself otherwise,
   * converted with `String`; a missing code becomes the string `undefined`.
   */
  function GetRuleName(code: DiagnosticCode): (ruleName: string)
    ensures code.Plain? ==> ruleName == CodeString(code.v)
    ensures code.Linked? ==> ruleName == CodeString(code.value)
    ensures code == NoCode ==> ruleName == "undefined"
  {
    match code
    case NoCode => "undefined"
    case Plain(v) => CodeString(v)
    case Linked(v) => CodeString(v)
  }

  /** What the user sees at the end of the command. */
  datatype CommandOutcome =
    | NoDiagnostic                                          // nothing passed and nothing picked: silent return
    | NoWorkspace(rule: string)                             // "No workspace folder is open"
    | ConfigNotFound(rule: string)                          // "ESLint configuration file not found"
    | LocatorRejected(rule: string, error: Error)           // the search threw outside the `try`: the command's promise rejects
    | UpdateFailed(rule: string, path: Path, error: Error)  // "An error occurred while updating ..."
    | Disabled(rule: string, path: Path, effect: WriteEffect) // "Successfully disabled rule ..."

  /** `isFlatConfig(config) ? updateRuleInFlatConfig(...) : updateRuleInLegacyConfig(...)`, as a value. */
  function Updated(config: Value, ruleName: string): (r: Result<Value>)
    ensures IsFlatConfig(config) ==>
      (r.Success? <==> FlatUpdated(config.elems, ruleName).Success?) &&
      (r.Success? ==> r.value == Arr(FlatUpdated(config.elems, ruleName).value))
    ensures !IsFlatConfig(config) ==> r == LegacyUpdated(config, ruleName)
  {
    if IsFlatConfig(config) then
      var entries :- FlatUpdated(config.elems, ruleName);
      Success(Arr(entries))
    else LegacyUpdated(config, ruleName)
  }

  /** The body of the `try`: read, update by shape, write. */
  function UpdateConfigFile(fs: FileSystem, path: Path, ruleName: string): (r: Result<WriteEffect>)
    // the first exception raised is the one reported
    ensures ReadConfig(fs, path).Failure? ==> r == Failure(ReadConfig(fs, path).error)
    ensures ReadConfig(fs, path).Success? && Updated(ReadConfig(fs, path).value, ruleName).Failure? ==>
      r == Failure(Updated(ReadConfig(fs, path).value, ruleName).error)
    ensures r.Success? && r.value.Overwrite? ==> r.value.path == path && JsonValue(r.value.text.value)
  {
    var config :- ReadConfig(fs, path);
    var updated :- Updated(config, ruleName);
    WriteConfig(fs, path, updated)
  }

  /**
   * The command handler (src/extension.ts:19-64) as a function of what it
   * reads: the diagnostic argument, the one the user would pick when there
   * is none, whether a workspace folder is open, the document, and the disk.
   */
  function Command(passed: Option<DiagnosticCode>, picked: Option<DiagnosticCode>, hasWorkspace: bool,
                   document: Option<Path>, fs: FileSystem): (r: CommandOutcome)
    // every message names the rule of the diagnostic passed, or else of the one picked
    ensures !r.NoDiagnostic? ==>
      (passed.Some? || picked.Some?) && r.rule == GetRuleName(if passed.Some? then passed.value else picked.value)
    // an update is reported only for the file the search found, with the outcome of updating it
    ensures r.Disabled? || r.UpdateFailed? ==>
      hasWorkspace && document.Some? && Locate(fs, document.value) == Success(Some(r.path))
    ensures r.Disabled? ==> UpdateConfigFile(fs, r.path, r.rule) == Success(r.effect)
    ensures r.UpdateFailed? ==> UpdateConfigFile(fs, r.path, r.rule) == Failure(r.error)
  {
    var diagnostic := if passed.Some? then passed else picked;
    if diagnostic.None? then NoDiagnostic
    else
      var ruleName := GetRuleName(diagnostic.value);
      if !hasWorkspace then NoWorkspace(ruleName)
      else if document.None? then ConfigNotFound(ruleName)
      else AfterSearch(ruleName, Locate(fs, document.value), fs)
  }

  /** The rest of the handler once the search has ended, with `located` its outcome. */
  function AfterSearch(ruleName: string, located: Result<Option<Path>>, fs: FileSystem): (r: CommandOutcome)
    ensures !r.NoDiagnostic? && !r.NoWorkspace? && r.rule == ruleName
    ensures r.LocatorRejected? <==> located.Failure?
    ensures r.LocatorRejected? ==> r.error == located.error
    ensures r.ConfigNotFound? <==> located == Success(None)
    ensures r.Disabled? || r.UpdateFailed? ==> located == Success(Some(r.path))
    ensures r.Disabled? ==> UpdateConfigFile(fs, r.path, ruleName) == Success(r.effect)
    ensures r.UpdateFailed? ==> UpdateConfigFile(fs, r.path, ruleName) == Failure(r.error)
  {
    match located
    case Failure(e) => LocatorRejected(ruleName, e)
    case Success(None) => ConfigNotFound(ruleName)
    case Success(Some(path)) => AfterUpdate(ruleName, path, UpdateConfigFile(fs, path, ruleName))
  }

  /** The message for the file found, with `updated` the outcome of the `try`. */
  function AfterUpdate(ruleName: string, path: Path, updated: Result<WriteEffect>): (r: CommandOutcome)
    ensures (r.Disabled? || r.UpdateFailed?) && r.rule == ruleName && r.path == path
    ensures r.Disabled? <==> updated.Success?
    ensures r.Disabled? ==> r.effect == updated.value
    ensures r.UpdateFailed? ==> r.error == updated.error
  {
    match updated
    case Failure(e) => UpdateFailed(ruleName, path, e)
    case Success(effect) => Disabled(ruleName, path, effect)
  }

  /**
   * The handler's steps in order: the configuration value lives in one
   * object that the update changes in place, chosen by its shape.
   */
  method DisableRule(passed: Option<DiagnosticCode>, picked: Option<DiagnosticCode>, hasWorkspace: bool,
                     document: Option<Path>, fs: FileSystem) returns (outcome: CommandOutcome)
    ensures outcome == Command(passed, picked, hasWorkspace, document, fs)
  {
    var diagnostic := passed;
    if diagnostic.None? {
      diagnostic := picked;
    }
    if diagnostic.None? {
      return NoDiagnostic;
    }
    var ruleName := GetRuleName(diagnostic.value);
    if !hasWorkspace {
      return NoWorkspace(ruleName);
    }
    if document.None? {
      return ConfigNotFound(ruleName);
    }
    var located := FindConfigFile(fs, document.value);
    if located.Failure? {
      return LocatorRejected(ruleName, located.error);
    }
    if located.value.None? {
      return ConfigNotFound(ruleName);
    }
    var eslintrcPath := located.value.value;
    var read := ReadConfig(fs, eslintrcPath);
    if read.Failure? {
      return UpdateFailed(ruleName, eslintrcPath, read.error);
    }
    var eslintConfig := new ConfigRef(read.value);
    var updatedConfig: Result<ConfigRef>;
    if IsFlatConfig(eslintConfig.value) {
      updatedConfig := UpdateRuleInFlatConfig(eslintConfig, ruleName);
    } else {
      updatedConfig := UpdateRuleInLegacyConfig(eslintConfig, ruleName);
    }
    if updatedConfig.Failure? {
      return UpdateFailed(ruleName, eslintrcPath, updatedConfig.error);
    }
    var written := WriteConfig(fs, eslintrcPath, updatedConfig.value.value);
    if written.Failure? {
      return UpdateFailed(ruleName, eslintrcPath, written.error);
    }
    return Disabled(ruleName, eslintrcPath, written.value);
  }
}
