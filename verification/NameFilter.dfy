/**
 The two components together: lists pruned by the generator, loaded into the
 matcher, and queried.
 */
module NameFilter {
  import opened Names
  import opened PatternMatching
  import opened BlocklistGenerator

  /** A plain lower-case name: none of the characters that select another rule shape. */
  predicate PlainName(n: string) {
    PlainText(n) && forall i :: 0 <= i < |n| ==> !('A' <= n[i] <= 'Z')
  }

  lemma PlainNameIsSuffixRule(n: string, globOk: string -> bool)
    requires PlainName(n)
    ensures Classify(n, globOk) == Suffix(n)
  {
    BareShape(n, globOk);
    assert Lower(n) == n;
  }

  /** The names as suffix rules, each with its value. */
  function SuffixRules<V>(names: seq<string>, value: string -> V): seq<(Rule, V)> {
    seq(|names|, i requires 0 <= i < |names| => (Suffix(names[i]), value(names[i])))
  }

  /** Only suffix rules are stored, each with its own value. */
  lemma {:induction false} LoadedEntry<V>(names: seq<string>, value: string -> V, key: string)
    ensures var r := Loaded(SuffixRules(names, value));
            && r.(suffixes := map[]) == NoRules()
            && (key in r.suffixes ==> r.suffixes[key] == Some(value(Reversed(key))))
  {
    if names != [] {
      var init, last := names[..|names| - 1], names[|names| - 1];
      LoadedEntry(init, value, key);
      assert SuffixRules(names, value)[..|names| - 1] == SuffixRules(init, value);
      ReversedTwice(last);
    }
  }

  lemma LoadedTexts<V>(names: seq<string>, value: string -> V)
    ensures RuleTexts(Loaded(SuffixRules(names, value)).suffixes) == set n | n in names
  {
    var list := SuffixRules(names, value);
    LoadedSuffixes(list);
    forall n | n in names ensures n in SuffixTexts(list) {
      var i :| 0 <= i < |names| && names[i] == n;
      assert list[i].0 == Suffix(n);
    }
  }

  /** Without nested names, the loaded matcher answers with the one covering rule and its value. */
  lemma LoadedLookup<V>(names: seq<string>, value: string -> V, qName: string, globMatch: (string, string) -> bool)
    requires |qName| >= 2 && Unnested(set n | n in names)
    ensures var v := Lookup(Loaded(SuffixRules(names, value)), qName, globMatch);
            && (v.Reject? <==> Covered((set n | n in names), qName))
            && (v.Reject? ==> exists rule :: rule in names && AlignedSuffix(rule, qName) &&
                                             v == Reject("*." + rule, Some(value(rule))))
  {
    var rules := Loaded(SuffixRules(names, value));
    LoadedTexts(names, value);
    UnnestedDecidesFirst(rules.suffixes, qName);
    LoadedEntry(names, value, "");
    assert EvalLists(rules, qName, globMatch) == Pass;
    if SuffixRejects(rules.suffixes, qName) {
      SuffixStageSound(rules.suffixes, qName);
      var key := SuffixStage(rules.suffixes, Reversed(qName)).key;
      LoadedEntry(names, value, key);
      assert Reversed(key) in names && AlignedSuffix(Reversed(key), qName);
    }
  }

  /** Pruned, loaded and queried: a name is rejected exactly when a listed name that the
      allowlist does not exempt is a label-aligned suffix of it, and the answer carries the
      name and the value of one such rule. */
  lemma PrunedFilterIsExact<V>(emitted: seq<string>, all: set<string>, allowed: set<string>,
                               value: string -> V, qName: string, globMatch: (string, string) -> bool)
    requires "" !in all && "" !in allowed
    requires forall n :: n in emitted <==> n in Kept(all, allowed)
    ensures var v := Lookup(Loaded(SuffixRules(emitted, value)), qName, globMatch);
            && (v.Reject? <==> |qName| >= 2 && Covered(Blocked(all, allowed), qName))
            && (v.Reject? ==> exists rule :: rule in Blocked(all, allowed) && AlignedSuffix(rule, qName) &&
                                             v == Reject("*." + rule, Some(value(rule))))
  {
    assert (set n | n in emitted) == Kept(all, allowed);
    KeptIsUnnested(all, allowed);
    PruningPreservesMeaning(all, allowed, qName);
    if |qName| >= 2 {
      LoadedLookup(emitted, value, qName, globMatch);
    }
  }

  /** The same through the code of both components. */
  method FilterFromLists<V>(lists: seq<seq<string>>, allowed: set<string>, value: string -> V, qName: string,
                            globOk: string -> bool, globMatch: (string, string) -> bool)
    returns (verdict: Verdict<V>)
    requires forall n :: n in Union(lists) ==> PlainName(n)
    requires "" !in allowed
    ensures verdict.Reject? <==> |qName| >= 2 && Covered(Blocked(Union(lists), allowed), qName)
    ensures verdict.Reject? ==> exists rule :: rule in Blocked(Union(lists), allowed) && AlignedSuffix(rule, qName) &&
                                               verdict == Reject("*." + rule, Some(value(rule)))
  {
    var emitted, _, _ := Prune(lists, allowed);
    var lines := seq(|emitted|, i requires 0 <= i < |emitted| => (emitted[i], value(emitted[i])));
    forall i | 0 <= i < |emitted| ensures Classify(emitted[i], globOk) == Suffix(emitted[i]) {
      assert emitted[i] in Kept(Union(lists), allowed);
      PlainNameIsSuffixRule(emitted[i], globOk);
    }
    assert RulesOf(lines, globOk) == SuffixRules(emitted, value);
    var matcher := LoadList(lines, globOk);
    PrunedFilterIsExact(emitted, Union(lists), allowed, value, qName, globMatch);
    verdict := matcher.Eval(qName, globMatch);
  }
}
