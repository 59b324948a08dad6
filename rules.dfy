/**
 * Automation rules: which rule matches a dropped file (`check_rule`) and what
 * the first matching rule of the drop's category does to the file's
 * destination (the loops in `_task_process_simple_drop` and
 * `_task_process_final_drop`).
 */
module Rules {
  import opened Wrappers
  import opened Text
  import opened PosixPath

  /** One entry of `rules.json`, as the settings dialog writes it: five strings. */
  datatype Rule = Rule(
    category: string,
    conditionType: string,
    conditionValue: string,
    action: string,
    actionValue: string)

  /**
   * Python's `any(name.endswith(e.strip()) for e in entries if e.strip())`:
   * some entry that is not blank once stripped is a suffix of `name`.
   */
  predicate AnyEntryEnds(entries: seq<string>, name: string) {
    entries != [] &&
    ((Strip(entries[0]) != "" && EndsWith(name, Strip(entries[0]))) || AnyEntryEnds(entries[1..], name))
  }

  /** Entry `k` of an extension list matches `name`. */
  predicate EntryMatches(entries: seq<string>, k: int, name: string)
    requires 0 <= k < |entries|
  {
    Strip(entries[k]) != "" && EndsWith(name, Strip(entries[k]))
  }

  /** The extension test of `check_rule` on the lower-cased value and file name. */
  predicate ExtensionMatches(value: string, name: string) {
    AnyEntryEnds(Split(value, ','), name)
  }

  /** `check_rule(rule, filename)`. */
  predicate CheckRule(rule: Rule, filename: string) {
    var value := Lower(rule.conditionValue);
    if value == "" then false
    else
      var name := Lower(filename);
      if rule.conditionType == "extension" then ExtensionMatches(value, name)
      else if rule.conditionType == "keyword" then Contains(name, value)
      else false
  }

  /** Some entry of an extension list matches `name`. */
  ghost predicate SomeEntryMatches(entries: seq<string>, name: string) {
    exists k :: 0 <= k < |entries| && EntryMatches(entries, k, name)
  }

  /** The generator expression of `check_rule` finds a match exactly when some entry matches. */
  lemma {:induction false} AnyEntryEndsExists(entries: seq<string>, name: string)
    ensures AnyEntryEnds(entries, name) <==> SomeEntryMatches(entries, name)
  {
    if entries != [] {
      AnyEntryEndsExists(entries[1..], name);
      if Strip(entries[0]) != "" && EndsWith(name, Strip(entries[0])) {
        assert EntryMatches(entries, 0, name);
      }
      if exists k :: 0 <= k < |entries| && EntryMatches(entries, k, name) {
        var k :| 0 <= k < |entries| && EntryMatches(entries, k, name);
        if k > 0 {
          assert EntryMatches(entries[1..], k - 1, name);
        }
      }
      if exists k :: 0 <= k < |entries[1..]| && EntryMatches(entries[1..], k, name) {
        var k :| 0 <= k < |entries[1..]| && EntryMatches(entries[1..], k, name);
        assert EntryMatches(entries, k + 1, name);
      }
    }
  }

  /**
   * What `check_rule` decides. An extension rule holds exactly when the
   * lower-cased file name ends with one of the comma-separated entries of the
   * lower-cased value, each stripped, blank ones ignored. A keyword rule holds
   * exactly when the lower-cased value (not stripped) occurs somewhere in the
   * lower-cased file name. An empty value or any other condition type never holds.
   */
  lemma CheckRuleMeaning(rule: Rule, filename: string)
    ensures rule.conditionType == "extension" ==>
      (CheckRule(rule, filename) <==>
        rule.conditionValue != "" && SomeEntryMatches(Split(Lower(rule.conditionValue), ','), Lower(filename)))
    ensures rule.conditionType == "keyword" ==>
      (CheckRule(rule, filename) <==>
        rule.conditionValue != "" && exists i :: OccursAt(Lower(filename), Lower(rule.conditionValue), i))
    ensures rule.conditionType != "extension" && rule.conditionType != "keyword" ==> !CheckRule(rule, filename)
    ensures rule.conditionValue == "" ==> !CheckRule(rule, filename)
  {
    LowerEmpty(rule.conditionValue);
    if rule.conditionType == "extension" {
      ExtensionMeaning(rule, filename);
    } else if rule.conditionType == "keyword" {
      KeywordMeaning(rule, filename);
    }
  }

  lemma ExtensionMeaning(rule: Rule, filename: string)
    requires rule.conditionType == "extension"
    ensures CheckRule(rule, filename) <==>
      rule.conditionValue != "" && SomeEntryMatches(Split(Lower(rule.conditionValue), ','), Lower(filename))
  {
    var value, name := Lower(rule.conditionValue), Lower(filename);
    LowerEmpty(rule.conditionValue);
    AnyEntryEndsExists(Split(value, ','), name);
  }

  lemma KeywordMeaning(rule: Rule, filename: string)
    requires rule.conditionType == "keyword"
    ensures CheckRule(rule, filename) <==>
      rule.conditionValue != "" && exists i :: OccursAt(Lower(filename), Lower(rule.conditionValue), i)
  {
    var value, name := Lower(rule.conditionValue), Lower(filename);
    LowerEmpty(rule.conditionValue);
    ContainsOccurs(name, value);
  }

  /** `check_rule` ignores the case of the file name and of the condition value. */
  lemma CheckRuleIgnoresCase(rule: Rule, filename: string)
    ensures CheckRule(rule, Lower(filename)) == CheckRule(rule, filename)
    ensures CheckRule(rule.(conditionValue := Lower(rule.conditionValue)), filename) == CheckRule(rule, filename)
  {
    LowerIdempotent(filename);
    LowerIdempotent(rule.conditionValue);
  }

  // ---------------------------------------------------------------------------
  // Applying the first matching rule

  /** A rule takes part for a drop into `category` and matches the file name. */
  predicate Applies(rule: Rule, category: string, filename: string) {
    rule.category == category && CheckRule(rule, filename)
  }

  /** The index of the first rule that applies, if any. */
  function FirstMatch(rules: seq<Rule>, category: string, filename: string): (r: Option<nat>)
    ensures r.Some? ==> r.value < |rules| && Applies(rules[r.value], category, filename)
    ensures r.Some? ==> forall j :: 0 <= j < r.value ==> !Applies(rules[j], category, filename)
    ensures r.None? <==> forall j :: 0 <= j < |rules| ==> !Applies(rules[j], category, filename)
  {
    if rules == [] then None
    else if Applies(rules[0], category, filename) then Some(0)
    else match FirstMatch(rules[1..], category, filename)
      case None => None
      case Some(k) => Some(k + 1)
  }

  /** No rule before index `i` applies. */
  predicate NoneApplies(rules: seq<Rule>, category: string, filename: string, i: nat)
    requires i <= |rules|
  {
    forall j :: 0 <= j < i ==> !Applies(rules[j], category, filename)
  }

  lemma NoneAppliesStep(rules: seq<Rule>, category: string, filename: string, i: nat)
    requires i < |rules| && NoneApplies(rules, category, filename, i)
    requires !Applies(rules[i], category, filename)
    ensures NoneApplies(rules, category, filename, i + 1)
  {
    forall j | 0 <= j < i + 1
      ensures !Applies(rules[j], category, filename)
    {
      if j < i {
        assert !Applies(rules[j], category, filename);
      }
    }
  }

  /** A rule that applies after none before it did is the first match. */
  lemma FirstMatchIs(rules: seq<Rule>, category: string, filename: string, i: nat)
    requires i < |rules| && Applies(rules[i], category, filename)
    requires NoneApplies(rules, category, filename, i)
    ensures FirstMatch(rules, category, filename) == Some(i)
  {
    var r := FirstMatch(rules, category, filename);
    assert r.Some?;
    assert !(r.value < i);
    assert !(r.value > i);
  }

  /**
   * Where the first applicable rule puts a file named `filename` dropped into
   * `destRoot`: the pair (`final_dest_path`, `filename`) after the rule loop.
   */
  function Placement(rules: seq<Rule>, category: string, filename: string, destRoot: string): (string, string) {
    match FirstMatch(rules, category, filename)
    case None => (destRoot, filename)
    case Some(k) =>
      if rules[k].action == "subfolder" then (PathJoin(destRoot, rules[k].actionValue), filename)
      else if rules[k].action == "prefix" then (destRoot, rules[k].actionValue + filename)
      else (destRoot, filename)
  }

  /**
   * The rule loop: `final_dest_path` and `filename` start as the drop folder
   * and the file's own name; only the first applicable rule acts, changing
   * only the folder (`subfolder`) or only the name (`prefix`), or neither
   * (any other action); with no applicable rule both stay as they were.
   */
  method ApplyRules(rules: seq<Rule>, category: string, filename: string, destRoot: string)
    returns (dir: string, name: string)
    ensures (dir, name) == Placement(rules, category, filename, destRoot)
    ensures FirstMatch(rules, category, filename).None? ==> dir == destRoot && name == filename
    ensures FirstMatch(rules, category, filename).Some? ==>
      var rule := rules[FirstMatch(rules, category, filename).value];
      && (rule.action == "subfolder" ==> dir == PathJoin(destRoot, rule.actionValue) && name == filename)
      && (rule.action == "prefix" ==> dir == destRoot && name == rule.actionValue + filename)
      && (rule.action != "subfolder" && rule.action != "prefix" ==> dir == destRoot && name == filename)
  {
    dir, name := destRoot, filename;
    var i := 0;
    while i < |rules|
      invariant 0 <= i <= |rules|
      invariant NoneApplies(rules, category, filename, i)
    {
      var rule := rules[i];
      if Applies(rule, category, filename) {
        if rule.action == "subfolder" {
          dir := PathJoin(destRoot, rule.actionValue);
        } else if rule.action == "prefix" {
          name := rule.actionValue + filename;
        }
        FirstMatchIs(rules, category, filename, i);
        return;
      }
      NoneAppliesStep(rules, category, filename, i);
      i := i + 1;
    }
  }
}
