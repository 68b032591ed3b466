/**
 * The rule-disabling transforms of src/helpers/readConfigFile.ts (copied
 * verbatim in src/extension.ts): the flat-versus-legacy classifier, the
 * search for the global override entry of a flat configuration, and the two
 * updates that turn a rule off. The updates work in place on the value the
 * caller passed and return that same reference; `ConfigRef` is that
 * reference, and the functions below compute the value it holds afterwards.
 */
module ConfigUpdate {
  import opened Js

  /** The file pattern that makes a flat override entry apply to every file. */
  const AllFiles: string := "**/*"

  /** Severity written into a flat configuration. */
  const FlatSeverity: Value := Str("off")

  /** Severity written into a legacy configuration. */
  const LegacySeverity: Value := Num(0)

  /** `isFlatConfig`: `Array.isArray(config)`. */
  predicate IsFlatConfig(config: Value)
  {
    config.Arr?
  }

  /**
   * The `findIndex` callback: an entry is global when its `files` is falsy,
   * or is an array that includes the string `AllFiles`; reading `files` of a
   * null or undefined entry throws.
   */
  function GlobalTest(entry: Value): (r: Result<bool>)
    ensures r.Failure? <==> entry.Undefined? || entry.Null?
    ensures r.Failure? ==> r.error == TypeError
    // only an object or namespace whose `files` is truthy and not an array holding `AllFiles` is scoped
    ensures r == Success(false) <==>
      HasProps(entry) && Truthy(Lookup(PropsOf(entry), "files")) &&
      !(Lookup(PropsOf(entry), "files").Arr? && Str(AllFiles) in Lookup(PropsOf(entry), "files").elems)
  {
    var files :- GetProp(entry, "files");
    Success(!Truthy(files) || (files.Arr? && Str(AllFiles) in files.elems))
  }

  /**
   * `config.findIndex(GlobalTest)`: the lowest index whose entry is global,
   * or -1; an exception raised by the callback propagates.
   */
  function FindGlobalIndex(entries: seq<Value>): (r: Result<int>)
    ensures r.Success? ==> -1 <= r.value < |entries|
    ensures r.Success? ==> forall j :: 0 <= j < |entries| && (r.value < 0 || j < r.value) ==>
      GlobalTest(entries[j]) == Success(false)
    ensures r.Success? && r.value >= 0 ==> GlobalTest(entries[r.value]) == Success(true)
    ensures r.Failure? ==> r.error == TypeError
    ensures r.Failure? ==>
      exists i :: (0 <= i < |entries| && (entries[i].Null? || entries[i].Undefined?) &&
        forall j :: 0 <= j < i ==> GlobalTest(entries[j]) == Success(false))
  {
    if entries == [] then Success(-1)
    else
      var hit :- GlobalTest(entries[0]);
      if hit then Success(0)
      else
        var rest :- FindGlobalIndex(entries[1..]);
        Success(if rest < 0 then -1 else rest + 1)
  }

  /** The `rules` property of a plain object, or the `rules` export of a module namespace. */
  function RulesOf(target: Value): Value
    requires HasProps(target)
  {
    Lookup(PropsOf(target), "rules")
  }

  /**
   * `if (!x.rules) { x.rules = {}; } x.rules[ruleName] = severity;` on one
   * value, the common body of the global-entry update and of the legacy
   * update. A primitive target, or a truthy primitive `rules`, makes one of
   * the assignments throw; so does a module namespace without a truthy
   * `rules` export, which cannot be assigned one. A truthy object `rules`
   * is changed in place, and the target, a namespace included, sees the
   * change through its `rules`.
   */
  function DisableRuleIn(target: Value, ruleName: string, severity: Value): (r: Result<Value>)
    ensures r.Failure? <==>
      (if HasProps(target) && Truthy(RulesOf(target)) then !IsObjectLike(RulesOf(target)) else !IsObjectLike(target))
    ensures r.Failure? ==> r.error == TypeError
    ensures target.Arr? ==> r == Success(target)
    ensures HasProps(target) && RulesOf(target).Arr? ==> r == Success(target)
    // every top-level key other than `rules` keeps its value and its place
    ensures HasProps(target) && r.Success? ==>
      (HasProps(r.value) && r.value.Obj? == target.Obj? &&
       (forall k :: k != "rules" ==> Lookup(PropsOf(r.value), k) == Lookup(PropsOf(target), k)) &&
       Keys(PropsOf(r.value)) ==
         (if "rules" in Keys(PropsOf(target)) then Keys(PropsOf(target)) else Keys(PropsOf(target)) + ["rules"]))
    // the rule is set, every other rule keeps its value and its place
    ensures HasProps(target) && r.Success? && !RulesOf(target).Arr? ==>
      var before := RulesOf(target);
      var after := RulesOf(r.value);
      after.Obj? && Lookup(after.props, ruleName) == severity &&
      (forall k :: k != ruleName ==>
        Lookup(after.props, k) == if before.Obj? then Lookup(before.props, k) else Undefined) &&
      (before.Obj? ==>
        Keys(after.props) ==
          if ruleName in Keys(before.props) then Keys(before.props) else Keys(before.props) + [ruleName]) &&
      (!before.Obj? ==> after.props == [(ruleName, severity)])
  {
    var rules :- GetProp(target, "rules");
    var withRules :- if Truthy(rules) then Success(target) else SetProp(target, "rules", Obj([]));
    var updatedRules :- SetProp(if Truthy(rules) then rules else Obj([]), ruleName, severity);
    var r := Rebind(withRules, "rules", updatedRules);
    if target.Obj? && !Truthy(rules) then
      PutOverwrites(target.props, "rules", Obj([]), updatedRules);
      Success(r)
    else if HasProps(target) && rules.Arr? then
      RebindSameValue(target, "rules");
      Success(r)
    else
      Success(r)
  }

  /** The entry appended when no global entry exists. */
  function NewGlobalEntry(ruleName: string): (e: Value)
    ensures GlobalTest(e) == Success(true)
    ensures e.Obj? && Keys(e.props) == ["files", "rules"]
    ensures RulesOf(e) == Obj([(ruleName, FlatSeverity)])
  {
    var e := Obj([("files", Arr([Str(AllFiles)])), ("rules", Obj([(ruleName, FlatSeverity)]))]);
    assert IndexOf(e.props, "files") == 0;
    assert IndexOf(e.props, "rules") == 1;
    e
  }

  /**
   * The array `updateRuleInFlatConfig` leaves behind: the first global entry
   * gets `rules[ruleName] = "off"`, or a new global entry is appended when
   * there is none.
   */
  function FlatUpdated(entries: seq<Value>, ruleName: string): (r: Result<seq<Value>>)
    ensures r.Failure? ==> r.error == TypeError
    // it succeeds unless the search throws or the global entry found cannot take the rule
    ensures r.Success? <==>
      FindGlobalIndex(entries).Success? &&
      (FindGlobalIndex(entries).value < 0 ||
       DisableRuleIn(entries[FindGlobalIndex(entries).value], ruleName, FlatSeverity).Success?)
    // no global entry: exactly one entry is appended, after the untouched others
    ensures FindGlobalIndex(entries) == Success(-1) <==>
      r.Success? && |r.value| == |entries| + 1
    ensures r.Success? && |r.value| == |entries| + 1 ==>
      r.value[..|entries|] == entries && r.value[|entries|] == NewGlobalEntry(ruleName)
    // a global entry: only that entry changes, as `DisableRuleIn` says
    ensures r.Success? && |r.value| != |entries| + 1 ==>
      |r.value| == |entries| && FindGlobalIndex(entries).Success? &&
      var i := FindGlobalIndex(entries).value;
      0 <= i < |entries| &&
      DisableRuleIn(entries[i], ruleName, FlatSeverity) == Success(r.value[i]) &&
      forall j :: 0 <= j < |entries| && j != i ==> r.value[j] == entries[j]
  {
    var i :- FindGlobalIndex(entries);
    if i < 0 then
      Success(entries + [NewGlobalEntry(ruleName)])
    else
      var entry :- DisableRuleIn(entries[i], ruleName, FlatSeverity);
      Success(entries[i := entry])
  }

  /** The object `updateRuleInLegacyConfig` leaves behind: `rules[ruleName] = 0`. */
  function LegacyUpdated(config: Value, ruleName: string): (r: Result<Value>)
    ensures HasProps(config) && !RulesOf(config).Arr? && r.Success? ==>
      HasProps(r.value) && RulesOf(r.value).Obj? && Lookup(RulesOf(r.value).props, ruleName) == Num(0)
    ensures r.Failure? <==> DisableRuleIn(config, ruleName, LegacySeverity).Failure?
  {
    DisableRuleIn(config, ruleName, LegacySeverity)
  }

  /** A reference through which the caller and the update share one mutable configuration value. */
  class ConfigRef {
    var value: Value

    constructor (v: Value)
      ensures value == v
    {
      value := v;
    }
  }

  /**
   * `updateRuleInFlatConfig(config, ruleName)`: updates the array in place and
   * returns the same reference; when it throws, nothing has been changed.
   */
  method UpdateRuleInFlatConfig(config: ConfigRef, ruleName: string) returns (r: Result<ConfigRef>)
    requires config.value.Arr?
    modifies config
    ensures FlatUpdated(old(config.value.elems), ruleName).Success? ==>
      r == Success(config) && config.value == Arr(FlatUpdated(old(config.value.elems), ruleName).value)
    ensures FlatUpdated(old(config.value.elems), ruleName).Failure? ==>
      r == Failure(FlatUpdated(old(config.value.elems), ruleName).error) && config.value == old(config.value)
  {
    var entries := config.value.elems;
    var globalConfigIndex :- FindGlobalIndex(entries);
    if globalConfigIndex == -1 {
      config.value := Arr(entries + [NewGlobalEntry(ruleName)]);
    } else {
      var globalConfig :- DisableRuleIn(entries[globalConfigIndex], ruleName, FlatSeverity);
      config.value := Arr(entries[globalConfigIndex := globalConfig]);
    }
    r := Success(config);
  }

  /**
   * `updateRuleInLegacyConfig(config, ruleName)`: updates the object in place
   * and returns the same reference; when it throws, nothing has been changed.
   */
  method UpdateRuleInLegacyConfig(config: ConfigRef, ruleName: string) returns (r: Result<ConfigRef>)
    modifies config
    ensures LegacyUpdated(old(config.value), ruleName).Success? ==>
      r == Success(config) && config.value == LegacyUpdated(old(config.value), ruleName).value
    ensures LegacyUpdated(old(config.value), ruleName).Failure? ==>
      r == Failure(LegacyUpdated(old(config.value), ruleName).error) && config.value == old(config.value)
  {
    var updated :- DisableRuleIn(config.value, ruleName, LegacySeverity);
    config.value := updated;
    r := Success(config);
  }
}
