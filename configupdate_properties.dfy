/**
 * Properties of the rule-disabling transforms: both updates are idempotent,
 * the flat update never touches an entry scoped to particular files, and the
 * cases exercised by src/test/suite/extension.test.ts come out as asserted
 * there.
 */
module ConfigUpdateProperties {
  import opened Js
  import opened JsonText
  import opened ConfigUpdate

  /** Disabling a rule touches only `rules`, so whether an entry is global does not change. */
  lemma GlobalTestPreserved(entry: Value, ruleName: string, severity: Value)
    requires DisableRuleIn(entry, ruleName, severity).Success?
    ensures GlobalTest(DisableRuleIn(entry, ruleName, severity).value) == GlobalTest(entry)
  {
    var after := DisableRuleIn(entry, ruleName, severity).value;
    if HasProps(entry) {
      assert Lookup(PropsOf(after), "files") == Lookup(PropsOf(entry), "files");
    }
  }

  /** Disabling a rule that is already disabled with the same severity changes nothing. */
  lemma DisableRuleInIdempotent(target: Value, ruleName: string, severity: Value)
    requires DisableRuleIn(target, ruleName, severity).Success?
    ensures DisableRuleIn(DisableRuleIn(target, ruleName, severity).value, ruleName, severity) ==
            DisableRuleIn(target, ruleName, severity)
  {
    var once := DisableRuleIn(target, ruleName, severity).value;
    if HasProps(target) && !RulesOf(target).Arr? {
      var rules := RulesOf(once);
      assert rules.Obj? && Lookup(rules.props, ruleName) == severity;
      assert "rules" in Keys(PropsOf(once));
      assert ruleName in Keys(rules.props);
      DisabledAgain(once, ruleName, severity);
    }
  }

  /** Disabling a rule the `rules` of an object or namespace already holds with that severity changes nothing. */
  lemma DisabledAgain(target: Value, ruleName: string, severity: Value)
    requires HasProps(target) && "rules" in Keys(PropsOf(target))
    requires RulesOf(target).Obj? && ruleName in Keys(RulesOf(target).props)
    requires Lookup(RulesOf(target).props, ruleName) == severity
    ensures DisableRuleIn(target, ruleName, severity) == Success(target)
  {
    var rules := RulesOf(target);
    PutSameValue(rules.props, ruleName);
    RebindSameValue(target, "rules");
    assert SetProp(rules, ruleName, severity) == Success(rules);
  }

  /** Whether an entry is global survives writing it as an array element of JSON text and reading it back. */
  lemma GlobalTestReparsed(entry: Value)
    ensures GlobalTest(ElementBack(Reparsed(entry))) == GlobalTest(entry)
  {
    if HasProps(entry) {
      var props := PropsOf(entry);
      ReparsedNamespace(props);
      assert Reparsed(entry) == Reparsed(Obj(props));
      ReparsedLookup(props, "files");
      var files := Lookup(props, "files");
      if files.Arr? {
        ReparsedElementString(files.elems, AllFiles);
      }
    }
  }

  /**
   * A value the rule is already disabled in, with a string or numeric
   * severity, still has it disabled once written as JSON text and read back.
   */
  lemma DisabledReparsed(target: Value, ruleName: string, severity: Value)
    requires DisableRuleIn(target, ruleName, severity) == Success(target)
    requires severity.Str? || severity.Num?
    ensures DisableRuleIn(Reparsed(target), ruleName, severity) == Success(Reparsed(target))
  {
    if HasProps(target) {
      ReparsedNamespace(PropsOf(target));
      assert Reparsed(target) == Reparsed(Obj(PropsOf(target)));
      ReparsedLookup(PropsOf(target), "rules");
      var rules := RulesOf(target);
      if !rules.Arr? {
        assert rules.Obj? && Lookup(rules.props, ruleName) == severity;
        ReparsedLookup(rules.props, ruleName);
        var back := Reparsed(target);
        assert RulesOf(back) == Reparsed(rules);
        DisabledAgain(back, ruleName, severity);
      }
    }
  }

  /** `findIndex` depends only on what the callback says of each entry. */
  lemma {:induction false} FindGlobalIndexPointwise(a: seq<Value>, b: seq<Value>)
    requires |a| == |b|
    requires forall j :: 0 <= j < |a| ==> GlobalTest(a[j]) == GlobalTest(b[j])
    ensures FindGlobalIndex(a) == FindGlobalIndex(b)
  {
    if a != [] {
      FindGlobalIndexPointwise(a[1..], b[1..]);
    }
  }

  /** When no entry is global, an appended global entry is the one found. */
  lemma {:induction false} FindGlobalIndexAppend(entries: seq<Value>, x: Value)
    requires FindGlobalIndex(entries) == Success(-1)
    requires GlobalTest(x) == Success(true)
    ensures FindGlobalIndex(entries + [x]) == Success(|entries|)
  {
    if entries == [] {
      assert entries + [x] == [x];
    } else {
      assert (entries + [x])[1..] == entries[1..] + [x];
      assert GlobalTest(entries[0]) == Success(false);
      FindGlobalIndexAppend(entries[1..], x);
    }
  }

  /** Applying `updateRuleInFlatConfig` twice with one rule gives the result of applying it once. */
  lemma FlatUpdateIdempotent(entries: seq<Value>, ruleName: string)
    requires FlatUpdated(entries, ruleName).Success?
    ensures FlatUpdated(FlatUpdated(entries, ruleName).value, ruleName) == FlatUpdated(entries, ruleName)
  {
    if FindGlobalIndex(entries).value < 0 {
      AppendedIdempotent(entries, ruleName);
    } else {
      UpdatedInPlaceIdempotent(entries, ruleName);
    }
  }

  /** When the global entry was appended, the second run finds it and changes nothing. */
  lemma AppendedIdempotent(entries: seq<Value>, ruleName: string)
    requires FindGlobalIndex(entries) == Success(-1)
    ensures FlatUpdated(entries, ruleName) == Success(entries + [NewGlobalEntry(ruleName)])
    ensures FlatUpdated(entries + [NewGlobalEntry(ruleName)], ruleName) == FlatUpdated(entries, ruleName)
  {
    var once := entries + [NewGlobalEntry(ruleName)];
    FindGlobalIndexAppend(entries, NewGlobalEntry(ruleName));
    assert DisableRuleIn(NewGlobalEntry(ruleName), ruleName, FlatSeverity) == Success(NewGlobalEntry(ruleName)) by {
      var entry := NewGlobalEntry(ruleName);
      assert Keys(entry.props)[1] == "rules";
      assert RulesOf(entry) == Obj([(ruleName, FlatSeverity)]);
      assert Keys(RulesOf(entry).props)[0] == ruleName;
      DisabledAgain(entry, ruleName, FlatSeverity);
    }
    assert once[|entries| := NewGlobalEntry(ruleName)] == once;
  }

  /** When an existing global entry was updated, the second run finds it again and changes nothing. */
  lemma UpdatedInPlaceIdempotent(entries: seq<Value>, ruleName: string)
    requires FlatUpdated(entries, ruleName).Success? && FindGlobalIndex(entries).value >= 0
    ensures FlatUpdated(FlatUpdated(entries, ruleName).value, ruleName) == FlatUpdated(entries, ruleName)
  {
    var once := FlatUpdated(entries, ruleName).value;
    var i := FindGlobalIndex(entries).value;
    var entry := DisableRuleIn(entries[i], ruleName, FlatSeverity).value;
    GlobalTestPreserved(entries[i], ruleName, FlatSeverity);
    FindGlobalIndexPointwise(entries, once);
    DisableRuleInIdempotent(entries[i], ruleName, FlatSeverity);
    assert once[i := entry] == once;
  }

  /** Applying `updateRuleInLegacyConfig` twice with one rule gives the result of applying it once. */
  lemma LegacyUpdateIdempotent(config: Value, ruleName: string)
    requires LegacyUpdated(config, ruleName).Success?
    ensures LegacyUpdated(LegacyUpdated(config, ruleName).value, ruleName) == LegacyUpdated(config, ruleName)
  {
    DisableRuleInIdempotent(config, ruleName, LegacySeverity);
  }

  /**
   * An entry whose `files` is an array without the all-files pattern (the
   * empty array included, since `[]` is truthy) is never the one updated.
   */
  lemma ScopedEntryUntouched(entries: seq<Value>, ruleName: string, j: nat)
    requires j < |entries| && HasProps(entries[j])
    requires Lookup(PropsOf(entries[j]), "files").Arr?
    requires Str(AllFiles) !in Lookup(PropsOf(entries[j]), "files").elems
    requires FlatUpdated(entries, ruleName).Success?
    ensures FlatUpdated(entries, ruleName).value[j] == entries[j]
  {
    assert GlobalTest(entries[j]) == Success(false);
  }

  /** extension.test.ts:24-30: an array is flat, a `{rules: ...}` object is not. */
  lemma FlatConfigDetection()
    ensures IsFlatConfig(Arr([Obj([("files", Arr([Str("**/*.js")])), ("rules", Obj([("no-console", Str("error"))]))])]))
    ensures !IsFlatConfig(Obj([("rules", Obj([("no-console", Str("error"))]))]))
  {
  }

  /**
   * extension.test.ts:32-43: the only entry is scoped to the `.js` files, so a new
   * global entry is appended after it.
   */
  lemma FlatRuleUpdateExample()
    ensures
      var scoped := Obj([("files", Arr([Str("**/*.js")])), ("rules", Obj([("no-console", Str("error"))]))]);
      FlatUpdated([scoped], "no-unused-vars") ==
        Success([scoped, Obj([("files", Arr([Str("**/*")])), ("rules", Obj([("no-unused-vars", Str("off"))]))])])
  {
    var scoped := Obj([("files", Arr([Str("**/*.js")])), ("rules", Obj([("no-console", Str("error"))]))]);
    assert Str(AllFiles) != Str("**/*.js");
    assert GlobalTest(scoped) == Success(false);
    assert FindGlobalIndex([scoped]) == Success(-1);
    assert [scoped] + [NewGlobalEntry("no-unused-vars")] == [scoped, NewGlobalEntry("no-unused-vars")];
  }

  /** An entry without `files` is global: its rules gain the new rule after the existing one. */
  lemma FlatGlobalEntryExample()
    ensures FlatUpdated([Obj([("rules", Obj([("a", Str("error"))]))])], "b") ==
            Success([Obj([("rules", Obj([("a", Str("error")), ("b", Str("off"))]))])])
  {
    var rules := [("a", Str("error"))];
    var entry := Obj([("rules", Obj(rules))]);
    var newRules := Obj([("a", Str("error")), ("b", Str("off"))]);
    assert FindGlobalIndex([entry]) == Success(0);
    assert DisableRuleIn(entry, "b", FlatSeverity) == Success(Obj([("rules", newRules)])) by {
      ExampleEntryDisabled();
    }
    assert [entry][0 := Obj([("rules", newRules)])] == [Obj([("rules", newRules)])];
  }

  lemma ExampleEntryDisabled()
    ensures DisableRuleIn(Obj([("rules", Obj([("a", Str("error"))]))]), "b", FlatSeverity) ==
            Success(Obj([("rules", Obj([("a", Str("error")), ("b", Str("off"))]))]))
  {
    var rules := [("a", Str("error"))];
    var entry := Obj([("rules", Obj(rules))]);
    var newRules := Obj([("a", Str("error")), ("b", Str("off"))]);
    assert rules + [("b", Str("off"))] == [("a", Str("error")), ("b", Str("off"))];
    assert Lookup(entry.props, "rules") == Obj(rules);
    assert Put(rules, "b", Str("off")) == rules + [("b", Str("off"))];
    assert Put(entry.props, "rules", newRules) == [("rules", newRules)];
  }

  /** extension.test.ts:45-52: the new rule is 0 and the existing rule is kept. */
  lemma LegacyRuleUpdateExample()
    ensures LegacyUpdated(Obj([("rules", Obj([("no-console", Str("error"))]))]), "no-unused-vars") ==
            Success(Obj([("rules", Obj([("no-console", Str("error")), ("no-unused-vars", Num(0))]))]))
  {
    var rules := [("no-console", Str("error"))];
    var config := Obj([("rules", Obj(rules))]);
    var newRules := Obj(rules + [("no-unused-vars", Num(0))]);
    assert rules + [("no-unused-vars", Num(0))] == [("no-console", Str("error")), ("no-unused-vars", Num(0))];
    assert Put(rules, "no-unused-vars", Num(0)) == rules + [("no-unused-vars", Num(0))];
    assert Lookup(config.props, "rules") == Obj(rules);
    assert Put(config.props, "rules", newRules) == [("rules", newRules)];
    assert DisableRuleIn(config, "no-unused-vars", LegacySeverity) == Success(Obj([("rules", newRules)]));
  }
}
