/**
 The name filter of `pattern_matcher.go`: rules are sorted into tries, lists and
 maps by shape, and a query name is looked up stage by stage.
 */
module PatternMatching {
  import opened Names

  // --- The trie contract ---

  /** Longest stored key that is a prefix of `s` and no longer than `n`. */
  function LongestPrefixUpTo(keys: set<string>, s: string, n: nat): (r: Option<string>)
    requires n <= |s|
    ensures r.Some? ==> r.value in keys && r.value <= s && |r.value| <= n
    ensures forall k :: k in keys && k <= s && |k| <= n ==> r.Some? && |k| <= |r.value|
  {
    if s[..n] in keys then Some(s[..n])
    else
      assert forall k :: k in keys && k <= s && |k| == n ==> k == s[..n];
      if n == 0 then None else LongestPrefixUpTo(keys, s, n - 1)
  }

  function LongestPrefix(keys: set<string>, s: string): (r: Option<string>)
    ensures r.Some? ==> r.value in keys && r.value <= s
    ensures forall k :: k in keys && k <= s ==> r.Some? && |k| <= |r.value|
  {
    LongestPrefixUpTo(keys, s, |s|)
  }

  lemma LongestPrefixUnique(keys: set<string>, s: string, m: string)
    requires m in keys && m <= s
    requires forall k :: k in keys && k <= s ==> |k| <= |m|
    ensures LongestPrefix(keys, s) == Some(m)
  {
    var r := LongestPrefix(keys, s).value;
    assert r == s[..|r|] && m == s[..|m|];
  }

  // --- Rules ---

  /** What a rule line turns into, before it is stored. */
  datatype Rule =
    | Suffix(text: string)
    | Prefix(text: string)
    | Substring(text: string)
    | Exact(text: string)
    | Glob(text: string)
    | SyntaxError

  /** The contents of a matcher. Values are `None` when the stored interface is nil. */
  datatype Rules<V> = Rules(
    prefixes: map<string, Option<V>>,
    suffixes: map<string, Option<V>>,  // keys reversed
    substrings: seq<string>,
    globs: seq<string>,
    exact: map<string, Option<V>>,
    indirect: map<string, V>)

  datatype Verdict<V> = Pass | Reject(reason: string, val: Option<V>)

  predicate GlobCandidate(s: string) {
    exists i :: 0 <= i < |s| &&
      (s[i] == '?' || s[i] == '[' || (s[i] == '*' && i != 0 && i != |s| - 1))
  }

  method IsGlobCandidate(s: string) returns (b: bool)
    ensures b <==> GlobCandidate(s)
  {
    for i := 0 to |s|
      invariant forall k :: 0 <= k < i ==>
        s[k] != '?' && s[k] != '[' && !(s[k] == '*' && k != 0 && k != |s| - 1)
    {
      if s[i] == '?' || s[i] == '[' {
        return true;
      } else if s[i] == '*' && i != 0 && i != |s| - 1 {
        return true;
      }
    }
    return false;
  }

  function TrimDot(s: string): string { if "." <= s then s[1..] else s }

  /** The shape test of `Add`. `globOk` stands for the syntax check of `filepath.Match`. */
  function Classify(p: string, globOk: string -> bool): Rule {
    var leadingStar := "*" <= p;
    var trailingStar := |p| > 0 && p[|p| - 1] == '*';
    if GlobCandidate(p) then
      if |p| < 2 || !globOk(p) then SyntaxError else Glob(Lower(p))
    else if leadingStar && trailingStar then
      if |p| < 3 then SyntaxError else Substring(Lower(p[1..|p| - 1]))
    else if trailingStar then
      if |p| < 2 then SyntaxError else Prefix(Lower(p[..|p| - 1]))
    else if "=" <= p then
      if |p| < 2 then SyntaxError else Exact(Lower(p[1..]))
    else Suffix(Lower(TrimDot(if leadingStar then p[1..] else p)))
  }

  /** Text without a character that would select another shape. */
  predicate PlainText(t: string) {
    && t != "" && t[0] != '.' && t[0] != '='
    && forall i :: 0 <= i < |t| ==> t[i] != '*' && t[i] != '?' && t[i] != '['
  }

  /** No test of `Classify` for another shape succeeds on a text with this first and last character. */
  lemma LooksLike(p: string, first: char, last: char)
    requires |p| >= 1 && p[0] == first && p[|p| - 1] == last
    ensures ("*" <= p <==> first == '*') && ("=" <= p <==> first == '=') && ("." <= p <==> first == '.')
    ensures |p| > 0 && (p[|p| - 1] == '*' <==> last == '*')
  {
  }

  lemma BareShape(t: string, globOk: string -> bool)
    requires PlainText(t)
    ensures Classify(t, globOk) == Suffix(Lower(t))
    ensures TrimDot(t) == t && t[|t| - 1] != '*'
  {
    assert !GlobCandidate(t);
    LooksLike(t, t[0], t[|t| - 1]);
  }

  lemma DottedShape(t: string, globOk: string -> bool)
    requires PlainText(t)
    ensures Classify("." + t, globOk) == Suffix(Lower(t)) && TrimDot("." + t) == t
  {
    var p := "." + t;
    assert !GlobCandidate(p);
    assert p[|p| - 1] == t[|t| - 1] && p[1..] == t;
    LooksLike(p, '.', t[|t| - 1]);
  }

  lemma StarDotShape(t: string, globOk: string -> bool)
    requires PlainText(t)
    ensures Classify("*." + t, globOk) == Suffix(Lower(t))
  {
    var p := "*." + t;
    assert !GlobCandidate(p);
    assert p[|p| - 1] == t[|t| - 1] && p[1..] == "." + t;
    LooksLike(p, '*', t[|t| - 1]);
    DottedShape(t, globOk);
  }

  lemma ExactShape(t: string, globOk: string -> bool)
    requires PlainText(t)
    ensures Classify("=" + t, globOk) == Exact(Lower(t))
  {
    var p := "=" + t;
    assert !GlobCandidate(p);
    assert p[|p| - 1] == t[|t| - 1] && p[1..] == t;
    LooksLike(p, '=', t[|t| - 1]);
  }

  lemma PrefixShape(t: string, globOk: string -> bool)
    requires PlainText(t)
    ensures Classify(t + "*", globOk) == Prefix(Lower(t))
  {
    var p := t + "*";
    assert !GlobCandidate(p);
    assert p[0] == t[0] && p[..|p| - 1] == t;
    LooksLike(p, t[0], '*');
  }

  lemma SubstringShape(t: string, globOk: string -> bool)
    requires PlainText(t)
    ensures Classify("*" + t + "*", globOk) == Substring(Lower(t))
  {
    var p := "*" + t + "*";
    assert !GlobCandidate(p);
    assert p[1..|p| - 1] == t;
    LooksLike(p, '*', '*');
  }

  /** The documented rule shapes: a domain may be written bare, with a dot or with "*." in front. */
  lemma RuleShapes(t: string, globOk: string -> bool)
    requires PlainText(t)
    ensures Classify(t, globOk) == Suffix(Lower(t))
    ensures Classify("." + t, globOk) == Suffix(Lower(t))
    ensures Classify("*." + t, globOk) == Suffix(Lower(t))
    ensures Classify(t + "*", globOk) == Prefix(Lower(t))
    ensures Classify("*" + t + "*", globOk) == Substring(Lower(t))
    ensures Classify("=" + t, globOk) == Exact(Lower(t))
  {
    BareShape(t, globOk);
    DottedShape(t, globOk);
    StarDotShape(t, globOk);
    PrefixShape(t, globOk);
    SubstringShape(t, globOk);
    ExactShape(t, globOk);
  }

  /** Lines that `Add` refuses: a lone star, two stars, a lone equals sign, and globs that are too short or
      do not parse. */
  lemma RefusedIff(p: string, globOk: string -> bool)
    ensures Classify(p, globOk) == SyntaxError <==>
            p == "*" || p == "**" || p == "=" || (GlobCandidate(p) && (|p| < 2 || !globOk(p)))
  {
    if |p| == 1 { assert p == [p[0]]; }
    if |p| == 2 { assert p == [p[0], p[1]]; }
    if p == "*" || p == "**" || p == "=" { assert !GlobCandidate(p); }
  }

  /** A question mark or a bracket anywhere, or a star between two characters, makes a glob. */
  lemma GlobShapes(a: string, c: char, b: string, globOk: string -> bool)
    requires c == '?' || c == '[' || (c == '*' && a != "" && b != "")
    requires a + b != "" && globOk(a + [c] + b)
    ensures Classify(a + [c] + b, globOk) == Glob(Lower(a + [c] + b))
  {
    var p := a + [c] + b;
    assert p[|a|] == c && |p| == |a| + 1 + |b| >= 2;
    assert GlobCandidate(p);
  }

  /** A critbit trie keeps the value of the first insertion of a key. */
  function TrieInsert<V>(t: map<string, V>, key: string, val: V): map<string, V> {
    if key in t then t else t[key := val]
  }

  function Remember<V>(m: map<string, V>, key: string, val: Option<V>): map<string, V> {
    if val.Some? then m[key := val.value] else m
  }

  function Insert<V>(rules: Rules<V>, rule: Rule, val: Option<V>): Rules<V> {
    match rule
    case Suffix(p) => rules.(suffixes := TrieInsert(rules.suffixes, Reversed(p), val))
    case Prefix(p) => rules.(prefixes := TrieInsert(rules.prefixes, p, val))
    case Substring(p) => rules.(substrings := rules.substrings + [p], indirect := Remember(rules.indirect, p, val))
    case Glob(p) => rules.(globs := rules.globs + [p], indirect := Remember(rules.indirect, p, val))
    case Exact(p) => rules.(exact := rules.exact[p := val])
    case SyntaxError => rules
  }

  // --- The suffix stage ---

  /** Index of the last dot of `s`, or -1. */
  function LastDot(s: string): (i: int)
    ensures -1 <= i < |s|
    ensures i >= 0 ==> s[i] == '.'
    ensures forall k :: i < k < |s| ==> s[k] != '.'
  {
    if s == [] then -1
    else if s[|s| - 1] == '.' then |s| - 1
    else LastDot(s[..|s| - 1])
  }

  datatype SuffixHit<V> = Miss | Hit(key: string, val: V)

  /** Longest match, then one retry with the first label of the name removed.
      The retry reports the value of the match it discarded. */
  function SuffixStage<V>(suffixes: map<string, V>, rev: string): (h: SuffixHit<V>)
    ensures h.Hit? ==> h.key in suffixes && AlignedPrefix(h.key, rev)
  {
    match LongestPrefix(suffixes.Keys, rev)
    case None => Miss
    case Some(m) =>
      if |m| == |rev| || rev[|m|] == '.' then Hit(m, suffixes[m])
      else
        var i := LastDot(rev);
        if i <= 0 then Miss
        else
          match LongestPrefix(suffixes.Keys, rev[..i])
          case None => Miss
          case Some(p) =>
            if |p| == i || rev[|p|] == '.' then Hit(p, suffixes[m]) else Miss
  }

  predicate SuffixRejects<V>(suffixes: map<string, V>, name: string) {
    SuffixStage(suffixes, Reversed(name)).Hit?
  }

  /** The rule texts behind the reversed keys. */
  function RuleTexts<V>(suffixes: map<string, V>): set<string> {
    set k | k in suffixes :: Reversed(k)
  }

  lemma RuleText<V>(suffixes: map<string, V>, rule: string)
    ensures rule in RuleTexts(suffixes) <==> Reversed(rule) in suffixes
  {
    ReversedTwice(rule);
    if rule in RuleTexts(suffixes) {
      var k :| k in suffixes && Reversed(k) == rule;
      ReversedTwice(k);
    }
  }

  lemma CoveredByKey<V>(suffixes: map<string, V>, name: string)
    ensures Covered(RuleTexts(suffixes), name) <==>
            exists k :: k in suffixes && AlignedPrefix(k, Reversed(name))
  {
    var texts := RuleTexts(suffixes);
    if Covered(texts, name) {
      var r :| r in texts && AlignedSuffix(r, name);
      AlignedReversed(r, name);
      RuleText(suffixes, r);
    }
    if k :| k in suffixes && AlignedPrefix(k, Reversed(name)) {
      ReversedTwice(k);
      AlignedReversed(Reversed(k), name);
      assert Reversed(k) in texts;
    }
  }

  /** Soundness, for every rule set: a rejected name is covered by the rule the stage names. */
  lemma SuffixStageSound<V>(suffixes: map<string, V>, name: string)
    requires SuffixRejects(suffixes, name)
    ensures Covered(RuleTexts(suffixes), name)
    ensures var rule := Reversed(SuffixStage(suffixes, Reversed(name)).key);
            rule in RuleTexts(suffixes) && AlignedSuffix(rule, name)
    ensures var rev := Reversed(name);
            SuffixStage(suffixes, rev).val == suffixes[LongestPrefix(suffixes.Keys, rev).value]
  {
    var key := SuffixStage(suffixes, Reversed(name)).key;
    ReversedTwice(key);
    AlignedReversed(Reversed(key), name);
  }

  /** A stored key that is the whole string is found by the first lookup. */
  lemma WholeKeyFound(keys: set<string>, key: string)
    requires key in keys
    ensures LongestPrefix(keys, key) == Some(key)
  {
    assert key <= key;
    LongestPrefixUnique(keys, key, key);
  }

  lemma {:induction false} LastDotAfter(key: string, rest: string)
    requires '.' !in rest
    ensures LastDot(key + "." + rest) == |key|
  {
    var s := key + "." + rest;
    if rest == "" {
      assert s == key + ".";
    } else {
      var init := rest[..|rest| - 1];
      LastDotAfter(key, init);
      assert s[|s| - 1] == rest[|rest| - 1];
      assert s[..|s| - 1] == key + "." + init;
    }
  }

  /** Completeness at distance at most one label, for every rule set. */
  lemma SuffixStageNear<V>(suffixes: map<string, V>, rule: string, first: string)
    requires rule in RuleTexts(suffixes) && rule != "" && '.' !in first
    ensures SuffixRejects(suffixes, rule)
    ensures SuffixRejects(suffixes, first + "." + rule)
  {
    var key, tail := Reversed(rule), Reversed(first);
    RuleText(suffixes, rule);
    WholeKeyFound(suffixes.Keys, key);
    var rev := key + "." + tail;
    assert Reversed(first + "." + rule) == rev by {
      ReversedConcat(first + ".", rule);
      ReversedConcat(first, ".");
      assert Reversed(".") == ".";
    }
    LastDotAfter(key, tail);
    assert rev[..|key|] == key;
    assert key <= rev;
  }

  /** A longer, unaligned match is a subdomain of every covering rule it hides. */
  lemma HidingMatchIsNested(key: string, longer: string, rev: string)
    requires AlignedPrefix(key, rev) && longer <= rev && |key| <= |longer|
    ensures AlignedPrefix(key, longer) && AlignedSuffix(Reversed(key), Reversed(longer))
  {
    assert longer == rev[..|longer|];
    ReversedTwice(key);
    ReversedTwice(longer);
    AlignedReversed(Reversed(key), Reversed(longer));
  }

  /** Without nested rules the longest match is the only covering rule. */
  lemma UnnestedLongestIsAligned<V>(suffixes: map<string, V>, rev: string, key: string)
    requires Unnested(RuleTexts(suffixes))
    requires key in suffixes && AlignedPrefix(key, rev)
    ensures LongestPrefix(suffixes.Keys, rev) == Some(key)
  {
    var m := LongestPrefix(suffixes.Keys, rev).value;
    HidingMatchIsNested(key, m, rev);
    assert Reversed(key) in RuleTexts(suffixes) && Reversed(m) in RuleTexts(suffixes);
    assert Reversed(key) == Reversed(m);
    ReversedTwice(key);
    ReversedTwice(m);
  }

  /** Without nested rules the first lookup decides, so the value is the value of the rule named. */
  lemma UnnestedDecidesFirst<V>(suffixes: map<string, V>, name: string)
    requires Unnested(RuleTexts(suffixes))
    ensures SuffixRejects(suffixes, name) <==> Covered(RuleTexts(suffixes), name)
    ensures var h := SuffixStage(suffixes, Reversed(name));
            h.Hit? ==> h.val == suffixes[h.key] && LongestPrefix(suffixes.Keys, Reversed(name)) == Some(h.key)
  {
    var rev := Reversed(name);
    CoveredByKey(suffixes, name);
    var h := SuffixStage(suffixes, rev);
    if h.Hit? {
      UnnestedLongestIsAligned(suffixes, rev, h.key);
    } else if k :| k in suffixes && AlignedPrefix(k, rev) {
      UnnestedLongestIsAligned(suffixes, rev, k);
    }
  }

  /** Some rule of a non-empty family with a common prefix is the longest. */
  lemma LongestOf(keys: set<string>, p: string) returns (m: string)
    requires exists k :: k in keys && p <= k
    ensures m in keys && p <= m
    ensures forall k :: k in keys && p <= k ==> |k| <= |m|
  {
    var k0 :| k0 in keys && p <= k0;
    var rest := keys - {k0};
    m := k0;
    if k1 :| k1 in rest && p <= k1 {
      var m' := LongestOf(rest, p);
      if |m| < |m'| { m := m'; }
    }
    forall k | k in keys && p <= k ensures |k| <= |m| {
      if k != k0 { assert k in rest; }
    }
  }

  /** The longest key of a family stays the longest match of every name that extends it. */
  lemma LongestOfFamily(keys: set<string>, stem: string, m: string, rev: string)
    requires m in keys && stem <= m <= rev
    requires forall k :: k in keys && stem <= k ==> |k| <= |m|
    ensures LongestPrefix(keys, rev) == Some(m)
  {
    forall k | k in keys && k <= rev ensures |k| <= |m| {
      if |stem| <= |k| {
        assert k == rev[..|k|] && stem == rev[..|stem|];
        assert stem <= k;
      }
    }
    LongestPrefixUnique(keys, rev, m);
  }

  lemma NestedStem(inner: string, outer: string)
    requires AlignedSuffix(outer, inner) && inner != outer
    ensures Reversed(outer) + "." <= Reversed(inner)
  {
    AlignedReversed(outer, inner);
    assert |outer| < |inner|;
  }

  /** With the longest key of a family as unaligned match, both lookups give up. */
  lemma FamilyEscapes<V>(suffixes: map<string, V>, stem: string, m: string)
    requires m in suffixes && stem <= m
    requires forall k :: k in suffixes && stem <= k ==> |k| <= |m|
    ensures SuffixStage(suffixes, m + "a" + "." + "a") == Miss
  {
    var parent := m + "a";
    var rev := parent + "." + "a";
    assert m <= parent && m <= rev;
    LongestOfFamily(suffixes.Keys, stem, m, rev);
    LongestOfFamily(suffixes.Keys, stem, m, parent);
    LastDotAfter(parent, "a");
    assert rev[..|parent|] == parent && rev[|m|] == 'a';
  }

  /** A rule in front of the family still covers the victim. */
  lemma FamilyCovered<V>(suffixes: map<string, V>, key: string, rev: string)
    requires key in suffixes && key + "." <= rev
    ensures Covered(RuleTexts(suffixes), Reversed(rev))
  {
    assert rev[|key|] == (key + ".")[|key|];
    assert key <= rev by { assert key == (key + ".")[..|key|]; }
    ReversedTwice(rev);
    CoveredByKey(suffixes, Reversed(rev));
  }

  /** A nested pair always has a victim: a covered name that the stage lets through. */
  lemma NestedHidesAName<V>(suffixes: map<string, V>, inner: string, outer: string) returns (name: string)
    requires inner in RuleTexts(suffixes) && outer in RuleTexts(suffixes)
    requires AlignedSuffix(outer, inner) && inner != outer
    ensures |name| >= 2 && Covered(RuleTexts(suffixes), name) && !SuffixRejects(suffixes, name)
  {
    var stem := Reversed(outer) + ".";
    var m := LongestNested(suffixes, inner, outer);
    var rev := m + "a" + "." + "a";
    name := Reversed(rev);
    assert Covered(RuleTexts(suffixes), name) by {
      RuleText(suffixes, outer);
      assert stem <= rev;
      FamilyCovered(suffixes, Reversed(outer), rev);
    }
    assert !SuffixRejects(suffixes, name) by {
      FamilyEscapes(suffixes, stem, m);
      ReversedTwice(rev);
    }
  }

  lemma LongestNested<V>(suffixes: map<string, V>, inner: string, outer: string) returns (m: string)
    requires inner in RuleTexts(suffixes) && AlignedSuffix(outer, inner) && inner != outer
    ensures m in suffixes && Reversed(outer) + "." <= m
    ensures forall k :: k in suffixes && Reversed(outer) + "." <= k ==> |k| <= |m|
  {
    RuleText(suffixes, inner);
    NestedStem(inner, outer);
    m := LongestOf(suffixes.Keys, Reversed(outer) + ".");
  }

  /** The suffix stage means "some rule is a label-aligned suffix" on every name
      exactly for the rule sets without a nested pair. */
  lemma SuffixStageExactIffUnnested<V>(suffixes: map<string, V>)
    ensures (forall name :: |name| >= 2 ==>
              (SuffixRejects(suffixes, name) <==> Covered(RuleTexts(suffixes), name)))
            <==> Unnested(RuleTexts(suffixes))
  {
    var texts := RuleTexts(suffixes);
    if Unnested(texts) {
      forall name: string ensures SuffixRejects(suffixes, name) <==> Covered(texts, name) {
        UnnestedDecidesFirst(suffixes, name);
      }
    } else {
      var inner, outer :| inner in texts && outer in texts && AlignedSuffix(outer, inner) && inner != outer;
      var name := NestedHidesAName(suffixes, inner, outer);
      assert |name| >= 2 && !(SuffixRejects(suffixes, name) <==> Covered(texts, name));
    }
  }

  /** With nested rules the retry can pair the reason of one rule with the value of another. */
  lemma RetryReportsAnotherValue()
    ensures var suffixes := map[Reversed("com") := 1, Reversed("x.com") := 2];
            var h := SuffixStage(suffixes, Reversed("ax.com"));
            h == Hit(Reversed("com"), 2) && suffixes[h.key] == 1
  {
    var suffixes := map[Reversed("com") := 1, Reversed("x.com") := 2];
    var rev := Reversed("ax.com");
    assert rev == "moc.xa" && Reversed("com") == "moc" && Reversed("x.com") == "moc.x";
    assert suffixes.Keys == {"moc", "moc.x"};
    assert rev[..5] == "moc.x" && rev[..3] == "moc";
    LongestPrefixUnique(suffixes.Keys, rev, "moc.x");
    assert LastDot(rev) == 3;
    assert "moc" <= rev[..3];
    LongestPrefixUnique(suffixes.Keys, rev[..3], "moc");
  }

  /** The value reported for a name is that of the rule reported. */
  predicate ReportsOwnValue<V(==)>(suffixes: map<string, V>, name: string) {
    var h := SuffixStage(suffixes, Reversed(name));
    h.Hit? ==> h.val == suffixes[h.key]
  }

  /** The key that the retry finds for a name whose longest match is the unaligned `m`. */
  function RetryKey(keys: set<string>, m: string): (r: Option<string>)
    ensures r.Some? ==> r.value in keys
  {
    var i := LastDot(m);
    if i <= 0 then None
    else
      match LongestPrefix(keys, m[..i])
      case None => None
      case Some(p) => if |p| == i || m[|p|] == '.' then Some(p) else None
  }

  /** Some name has `m` as its unaligned longest match. */
  predicate CanBeUnaligned(keys: set<string>, m: string) {
    exists c: char :: c != '.' && m + [c] !in keys
  }

  ghost predicate RetryKeepsValue<V>(suffixes: map<string, V>) {
    forall m :: m in suffixes && CanBeUnaligned(suffixes.Keys, m) && RetryKey(suffixes.Keys, m).Some? ==>
      suffixes[RetryKey(suffixes.Keys, m).value] == suffixes[m]
  }

  lemma {:induction false} RetryBeyondMatch<V>(suffixes: map<string, V>, rev: string, m: string)
    requires LongestPrefix(suffixes.Keys, rev) == Some(m) && |m| < LastDot(rev)
    ensures LongestPrefix(suffixes.Keys, rev[..LastDot(rev)]) == Some(m)
  {
    var parent := rev[..LastDot(rev)];
    assert m == rev[..|m|] == parent[..|m|];
    forall k | k in suffixes.Keys && k <= parent ensures |k| <= |m| {
      assert k == rev[..|k|];
    }
    LongestPrefixUnique(suffixes.Keys, parent, m);
  }

  lemma {:induction false} RetryWithinMatch(rev: string, m: string)
    requires m <= rev && LastDot(rev) < |m|
    ensures LastDot(m) == LastDot(rev)
    ensures LastDot(rev) > 0 ==> m[..LastDot(m)] == rev[..LastDot(rev)]
  {
    var i := LastDot(rev);
    if i >= 0 { assert m[i] == rev[i]; }
    assert forall k :: i < k < |m| ==> m[k] == rev[k];
  }

  /** What the stage does with an unaligned longest match: nothing is found if the first label starts
      beyond it, else the match alone decides. */
  lemma {:induction false} UnalignedOutcome<V>(suffixes: map<string, V>, rev: string, m: string)
    requires LongestPrefix(suffixes.Keys, rev) == Some(m) && |m| < |rev| && rev[|m|] != '.'
    ensures var retry := RetryKey(suffixes.Keys, m);
            SuffixStage(suffixes, rev) ==
              if LastDot(rev) < |m| && retry.Some? then Hit(retry.value, suffixes[m]) else Miss
  {
    if LastDot(rev) < |m| {
      RetryWithinMatch(rev, m);
    } else {
      RetryBeyondMatch(suffixes, rev, m);
    }
  }

  lemma {:induction false} ReachesUnaligned<V>(suffixes: map<string, V>, m: string, c: char)
    requires m in suffixes && c != '.' && m + [c] !in suffixes
    ensures LongestPrefix(suffixes.Keys, m + [c]) == Some(m)
  {
    var rev := m + [c];
    forall k | k in suffixes.Keys && k <= rev ensures |k| <= |m| {
      assert |k| == |rev| ==> k == rev;
    }
    assert m <= rev;
    LongestPrefixUnique(suffixes.Keys, rev, m);
  }

  /** Exactly when every reported value is that of the reported rule, for every set of rules. */
  lemma {:induction false} OwnValueIff<V>(suffixes: map<string, V>)
    ensures (forall name :: |name| >= 2 ==> ReportsOwnValue(suffixes, name)) <==> RetryKeepsValue(suffixes)
  {
    if RetryKeepsValue(suffixes) {
      forall name: string ensures ReportsOwnValue(suffixes, name) {
        KeptValueIsOwn(suffixes, Reversed(name));
      }
    }
    if forall name :: |name| >= 2 ==> ReportsOwnValue(suffixes, name) {
      forall m | m in suffixes && CanBeUnaligned(suffixes.Keys, m) && RetryKey(suffixes.Keys, m).Some?
        ensures suffixes[RetryKey(suffixes.Keys, m).value] == suffixes[m]
      {
        var c: char :| c != '.' && m + [c] !in suffixes.Keys;
        UnalignedHit(suffixes, m, c);
        ReversedTwice(m + [c]);
        assert ReportsOwnValue(suffixes, Reversed(m + [c]));
      }
    }
  }

  lemma NextCharIsFree(keys: set<string>, rev: string, m: string)
    requires LongestPrefix(keys, rev) == Some(m) && |m| < |rev| && rev[|m|] != '.'
    ensures CanBeUnaligned(keys, m)
  {
    assert m + [rev[|m|]] == rev[..|m| + 1];
    assert m + [rev[|m|]] !in keys;
  }

  lemma {:induction false} KeptValueIsOwn<V>(suffixes: map<string, V>, rev: string)
    requires RetryKeepsValue(suffixes)
    ensures var h := SuffixStage(suffixes, rev); h.Hit? ==> h.val == suffixes[h.key]
  {
    var found := LongestPrefix(suffixes.Keys, rev);
    if found.Some? && |found.value| < |rev| && rev[|found.value|] != '.' {
      UnalignedOutcome(suffixes, rev, found.value);
      NextCharIsFree(suffixes.Keys, rev, found.value);
    }
  }

  /** The name that shows the value of `m` under the key that the retry finds. */
  lemma {:induction false} UnalignedHit<V>(suffixes: map<string, V>, m: string, c: char)
    requires m in suffixes && c != '.' && m + [c] !in suffixes && RetryKey(suffixes.Keys, m).Some?
    ensures SuffixStage(suffixes, m + [c]) == Hit(RetryKey(suffixes.Keys, m).value, suffixes[m])
    ensures |m| >= 2
  {
    ReachesUnaligned(suffixes, m, c);
    UnalignedOutcome(suffixes, m + [c], m);
  }

  ghost predicate Injective<K, V>(s: map<K, V>) {
    forall k, l :: k in s && l in s && s[k] == s[l] ==> k == l
  }

  /** Some key of a non-empty family with a common prefix is the shortest. */
  lemma ShortestOf(keys: set<string>, p: string, k0: string) returns (m: string)
    requires k0 in keys && p <= k0
    ensures m in keys && p <= m
    ensures forall k :: k in keys && p <= k ==> |m| <= |k|
    decreases |k0|
  {
    m := k0;
    if k :| k in keys && p <= k && |k| < |k0| {
      m := ShortestOf(keys, p, k);
    }
  }

  /** The longest key that extends `m` without a further label can be an unaligned match. */
  lemma LongestOfLabel(keys: set<string>, m: string) returns (longest: string)
    requires m in keys
    ensures longest in keys && m <= longest && LastDot(longest) == LastDot(m) && CanBeUnaligned(keys, longest)
  {
    var same := set k | k in keys && LastDot(k) == LastDot(m);
    assert m in same && m <= m;
    longest := LongestOf(same, m);
    var longer := longest + ['a'];
    assert LastDot(longer) == LastDot(longest) && m <= longer;
    assert longer !in same;
  }

  /** The retry for a name below the shortest key of a family finds the rule in front of the family. */
  lemma {:induction false} RetryFindsStem(keys: set<string>, key: string, shortest: string, m: string)
    requires key in keys && key != "" && key + "." <= shortest <= m && LastDot(m) == LastDot(shortest)
    requires forall k :: k in keys && key + "." <= k ==> |shortest| <= |k|
    ensures RetryKey(keys, m) == Some(key)
  {
    var i := LastDot(m);
    assert shortest[|key|] == (key + ".")[|key|] == '.';
    assert i >= |key|;
    assert m[..i] == shortest[..i] && key == shortest[..|key|];
    assert key <= m[..i] && key + "." == shortest[..|key| + 1];
    forall k | k in keys && k <= m[..i] ensures |k| <= |key| {
      assert k == shortest[..|k|];
      assert |k| > |key| ==> key + "." <= k;
    }
    LongestPrefixUnique(keys, m[..i], key);
  }

  /** Below every nested pair some longer key answers with its value for a name reported under the outer rule. */
  lemma NestedMixesKeys<V>(suffixes: map<string, V>, inner: string, outer: string) returns (m: string)
    requires inner in RuleTexts(suffixes) && outer in RuleTexts(suffixes) && outer != ""
    requires AlignedSuffix(outer, inner) && inner != outer
    ensures m in suffixes && CanBeUnaligned(suffixes.Keys, m) && m != Reversed(outer)
    ensures RetryKey(suffixes.Keys, m) == Some(Reversed(outer))
  {
    var key := Reversed(outer);
    RuleText(suffixes, inner);
    RuleText(suffixes, outer);
    NestedStem(inner, outer);
    var shortest := ShortestOf(suffixes.Keys, key + ".", Reversed(inner));
    m := LongestOfLabel(suffixes.Keys, shortest);
    RetryFindsStem(suffixes.Keys, key, shortest, m);
  }

  /** Where every rule has its own value, reason and value agree on every name exactly for the rule sets
      without a nested pair. */
  lemma {:induction false} OwnValueIffUnnested<V>(suffixes: map<string, V>)
    requires "" !in suffixes && Injective(suffixes)
    ensures (forall name :: |name| >= 2 ==> ReportsOwnValue(suffixes, name)) <==> Unnested(RuleTexts(suffixes))
  {
    var texts := RuleTexts(suffixes);
    OwnValueIff(suffixes);
    if Unnested(texts) {
      forall name: string ensures ReportsOwnValue(suffixes, name) {
        UnnestedDecidesFirst(suffixes, name);
      }
    } else {
      var inner, outer :| inner in texts && outer in texts && AlignedSuffix(outer, inner) && inner != outer;
      RuleText(suffixes, outer);
      var m := NestedMixesKeys(suffixes, inner, outer);
    }
  }

  // --- The whole lookup ---

  predicate ContainsText(name: string, part: string) {
    exists i {:trigger name[i..]} :: 0 <= i <= |name| && part <= name[i..]
  }

  /** First entry of a list that satisfies a test. */
  function FirstWhere(list: seq<string>, test: string -> bool): (r: Option<string>)
    ensures r.None? <==> forall i :: 0 <= i < |list| ==> !test(list[i])
    ensures r.Some? ==> r.value in list && test(r.value)
  {
    if list == [] then None
    else if test(list[0]) then Some(list[0])
    else
      assert forall i :: 1 <= i < |list| ==> list[i] == list[1..][i - 1];
      FirstWhere(list[1..], test)
  }

  function Indirect<V>(rules: Rules<V>, key: string): Option<V> {
    if key in rules.indirect then Some(rules.indirect[key]) else None
  }

  function EvalLists<V>(rules: Rules<V>, name: string, globMatch: (string, string) -> bool): Verdict<V> {
    match LongestPrefix(rules.prefixes.Keys, name)
    case Some(p) => Reject(p + "*", rules.prefixes[p])
    case None =>
      match FirstWhere(rules.substrings, s => ContainsText(name, s))
      case Some(s) => Reject("*" + s + "*", Indirect(rules, s))
      case None =>
        match FirstWhere(rules.globs, g => globMatch(g, name))
        case Some(g) => Reject(g, Indirect(rules, g))
        case None => Pass
  }

  /** The stages in order: exact, suffix, prefix, substring, glob. */
  function Lookup<V>(rules: Rules<V>, name: string, globMatch: (string, string) -> bool): Verdict<V> {
    if |name| < 2 then Pass
    else if name in rules.exact && rules.exact[name].Some? then Reject(name, rules.exact[name])
    else
      match SuffixStage(rules.suffixes, Reversed(name))
      case Hit(k, v) => Reject("*." + Reversed(k), v)
      case Miss => EvalLists(rules, name, globMatch)
  }

  /** What a rejection means, over all the stages at once. */
  lemma LookupMeaning<V>(rules: Rules<V>, name: string, globMatch: (string, string) -> bool)
    ensures Lookup(rules, name, globMatch).Reject? <==>
            |name| >= 2 &&
            (|| (name in rules.exact && rules.exact[name].Some?)
             || SuffixRejects(rules.suffixes, name)
             || (exists p :: p in rules.prefixes && p <= name)
             || (exists s :: s in rules.substrings && ContainsText(name, s))
             || (exists g :: g in rules.globs && globMatch(g, name)))
  {
    var hasSub := s => ContainsText(name, s);
    var hasGlob := g => globMatch(g, name);
    var sub := FirstWhere(rules.substrings, hasSub);
    var glob := FirstWhere(rules.globs, hasGlob);
    assert sub.Some? <==> exists s :: s in rules.substrings && ContainsText(name, s) by {
      if s :| s in rules.substrings && ContainsText(name, s) {
        var i :| 0 <= i < |rules.substrings| && rules.substrings[i] == s;
        assert hasSub(rules.substrings[i]);
      }
    }
    assert glob.Some? <==> exists g :: g in rules.globs && globMatch(g, name) by {
      if g :| g in rules.globs && globMatch(g, name) {
        var i :| 0 <= i < |rules.globs| && rules.globs[i] == g;
        assert hasGlob(rules.globs[i]);
      }
    }
    var pre := LongestPrefix(rules.prefixes.Keys, name);
    assert pre.Some? <==> exists p :: p in rules.prefixes && p <= name;
  }

  function NoRules<V>(): Rules<V> { Rules(map[], map[], [], [], map[], map[]) }

  /** What the shape of a rule says of a name. */
  predicate Describes(rule: Rule, name: string, globMatch: (string, string) -> bool) {
    match rule
    case Suffix(t) => AlignedSuffix(t, name)
    case Prefix(t) => t <= name
    case Substring(t) => ContainsText(name, t)
    case Exact(t) => name == t
    case Glob(t) => globMatch(t, name)
    case SyntaxError => false
  }

  /** The contents after inserting rules with their values, in order. */
  function Loaded<V>(list: seq<(Rule, V)>): Rules<V> {
    if list == [] then NoRules()
    else
      var last := list[|list| - 1];
      Insert(Loaded(list[..|list| - 1]), last.0, Some(last.1))
  }

  predicate Mentions<V>(list: seq<(Rule, V)>, rule: Rule) {
    exists i :: 0 <= i < |list| && list[i].0 == rule
  }

  lemma MentionsSnoc<V>(list: seq<(Rule, V)>, rule: Rule)
    requires list != []
    ensures Mentions(list, rule) <==> Mentions(list[..|list| - 1], rule) || list[|list| - 1].0 == rule
  {
    var n := |list| - 1;
    if i :| 0 <= i < |list| && list[i].0 == rule && i < n {
      assert list[..n][i].0 == rule;
    }
    if i :| 0 <= i < n && list[..n][i].0 == rule {
      assert list[i].0 == rule;
    }
  }

  /** Every rule ends up in the collection of its shape, and nothing else does. */
  lemma {:induction false} LoadedHolds<V>(list: seq<(Rule, V)>, t: string)
    ensures var r := Loaded(list);
            && (Reversed(t) in r.suffixes <==> Mentions(list, Suffix(t)))
            && (t in r.prefixes <==> Mentions(list, Prefix(t)))
            && (t in r.substrings <==> Mentions(list, Substring(t)))
            && (t in r.globs <==> Mentions(list, Glob(t)))
            && (t in r.exact && r.exact[t].Some? <==> Mentions(list, Exact(t)))
  {
    if list != [] {
      var init, last := list[..|list| - 1], list[|list| - 1].0;
      LoadedHolds(init, t);
      MentionsSnoc(list, Suffix(t));
      MentionsSnoc(list, Prefix(t));
      MentionsSnoc(list, Substring(t));
      MentionsSnoc(list, Glob(t));
      MentionsSnoc(list, Exact(t));
      ReversedTwice(t);
      if last.Suffix? { ReversedTwice(last.text); }
    }
  }

  function SuffixTexts<V>(list: seq<(Rule, V)>): set<string> {
    set i | 0 <= i < |list| && list[i].0.Suffix? :: list[i].0.text
  }

  lemma LoadedSuffixes<V>(list: seq<(Rule, V)>)
    ensures RuleTexts(Loaded(list).suffixes) == SuffixTexts(list)
  {
    forall t ensures t in RuleTexts(Loaded(list).suffixes) <==> t in SuffixTexts(list) {
      RuleText(Loaded(list).suffixes, t);
      LoadedHolds(list, t);
    }
  }

  predicate SomeRuleDescribes<V>(list: seq<(Rule, V)>, name: string, globMatch: (string, string) -> bool) {
    exists i :: 0 <= i < |list| && Describes(list[i].0, name, globMatch)
  }

  lemma DescribedByMention<V>(list: seq<(Rule, V)>, rule: Rule, name: string, globMatch: (string, string) -> bool)
    requires Mentions(list, rule) && Describes(rule, name, globMatch)
    ensures SomeRuleDescribes(list, name, globMatch)
  {
  }

  lemma {:induction false} RejectedIsDescribed<V>(list: seq<(Rule, V)>, name: string,
                                                  globMatch: (string, string) -> bool)
    requires Lookup(Loaded(list), name, globMatch).Reject?
    ensures SomeRuleDescribes(list, name, globMatch)
  {
    var r := Loaded(list);
    LookupMeaning(r, name, globMatch);
    if SuffixRejects(r.suffixes, name) {
      SuffixStageSound(r.suffixes, name);
      LoadedSuffixes(list);
    } else if p :| p in r.prefixes && p <= name {
      LoadedHolds(list, p);
      DescribedByMention(list, Prefix(p), name, globMatch);
    } else if s :| s in r.substrings && ContainsText(name, s) {
      LoadedHolds(list, s);
      DescribedByMention(list, Substring(s), name, globMatch);
    } else if g :| g in r.globs && globMatch(g, name) {
      LoadedHolds(list, g);
      DescribedByMention(list, Glob(g), name, globMatch);
    } else {
      LoadedHolds(list, name);
      DescribedByMention(list, Exact(name), name, globMatch);
    }
  }

  lemma {:induction false} DescribedIsRejected<V>(list: seq<(Rule, V)>, i: int, name: string,
                                                  globMatch: (string, string) -> bool)
    requires Unnested(SuffixTexts(list)) && |name| >= 2
    requires 0 <= i < |list| && Describes(list[i].0, name, globMatch)
    ensures Lookup(Loaded(list), name, globMatch).Reject?
  {
    var r, rule := Loaded(list), list[i].0;
    LookupMeaning(r, name, globMatch);
    LoadedHolds(list, rule.text);
    assert Mentions(list, rule);
    if rule.Suffix? {
      LoadedSuffixes(list);
      UnnestedDecidesFirst(r.suffixes, name);
      assert rule.text in SuffixTexts(list);
    }
  }

  /** What a rule list means: without nested suffix rules, a name is rejected exactly if some rule
      of the list describes it. */
  lemma {:induction false} RuleListMeaning<V>(list: seq<(Rule, V)>, name: string, globMatch: (string, string) -> bool)
    requires Unnested(SuffixTexts(list))
    ensures Lookup(Loaded(list), name, globMatch).Reject? <==>
            |name| >= 2 && SomeRuleDescribes(list, name, globMatch)
  {
    if Lookup(Loaded(list), name, globMatch).Reject? {
      RejectedIsDescribed(list, name, globMatch);
    }
    if |name| >= 2 && SomeRuleDescribes(list, name, globMatch) {
      var i :| 0 <= i < |list| && Describes(list[i].0, name, globMatch);
      DescribedIsRejected(list, i, name, globMatch);
    }
  }

  // --- What a rejection reports ---

  /** How a rule is named in the log. */
  function Printed(rule: Rule): string {
    match rule
    case Suffix(t) => "*." + t
    case Prefix(t) => t + "*"
    case Substring(t) => "*" + t + "*"
    case Exact(t) => t
    case Glob(t) => t
    case SyntaxError => ""
  }

  /** Exact rules come first, globs last. */
  function Rank(rule: Rule): nat {
    match rule
    case Exact(_) => 0
    case Suffix(_) => 1
    case Prefix(_) => 2
    case Substring(_) => 3
    case Glob(_) => 4
    case SyntaxError => 5
  }

  /** `a` is preferred to `b`: by its shape, or as the longer prefix. */
  predicate Outranks(a: Rule, b: Rule) {
    Rank(a) < Rank(b) || (a.Prefix? && b.Prefix? && |a.text| > |b.text|)
  }

  /** The line that answers for `name`: it describes the name, nothing that does outranks it, and among
      substrings or globs it is the first. */
  ghost predicate AnswerLine<V>(list: seq<(Rule, V)>, name: string, globMatch: (string, string) -> bool, k: int) {
    && 0 <= k < |list| && Describes(list[k].0, name, globMatch)
    && (forall j :: 0 <= j < |list| && Describes(list[j].0, name, globMatch) ==> !Outranks(list[j].0, list[k].0))
    && (list[k].0.Substring? || list[k].0.Glob? ==>
          forall j :: 0 <= j < k && Describes(list[j].0, name, globMatch) ==> Rank(list[j].0) != Rank(list[k].0))
  }

  /** Substring and glob rules of the same text share their value. */
  predicate SharesValue(a: Rule, b: Rule) {
    a == b || ((a.Substring? || a.Glob?) && (b.Substring? || b.Glob?) && a.text == b.text)
  }

  /** The line whose value a rule has: the first for suffixes and prefixes, the last for the others. */
  ghost predicate ValueLine<V>(list: seq<(Rule, V)>, rule: Rule, i: int) {
    && 0 <= i < |list| && SharesValue(list[i].0, rule)
    && if rule.Suffix? || rule.Prefix? then forall j :: 0 <= j < i ==> list[j].0 != rule
       else forall j :: i < j < |list| ==> !SharesValue(list[j].0, rule)
  }

  /** The value that is stored for a rule. */
  function StoredFor<V>(r: Rules<V>, rule: Rule): Option<V> {
    match rule
    case Suffix(t) => if Reversed(t) in r.suffixes then r.suffixes[Reversed(t)] else None
    case Prefix(t) => if t in r.prefixes then r.prefixes[t] else None
    case Exact(t) => if t in r.exact then r.exact[t] else None
    case Substring(t) => Indirect(r, t)
    case Glob(t) => Indirect(r, t)
    case SyntaxError => None
  }

  lemma {:induction false} StoredAfterInsert<V>(r: Rules<V>, rule: Rule, last: Rule, val: V)
    requires !rule.SyntaxError?
    ensures !SharesValue(last, rule) ==> StoredFor(Insert(r, last, Some(val)), rule) == StoredFor(r, rule)
    ensures SharesValue(last, rule) && !rule.Suffix? && !rule.Prefix? ==>
              StoredFor(Insert(r, last, Some(val)), rule) == Some(val)
    ensures rule == last && rule.Suffix? ==>
              StoredFor(Insert(r, last, Some(val)), rule) ==
              if Reversed(rule.text) in r.suffixes then StoredFor(r, rule) else Some(val)
    ensures rule == last && rule.Prefix? ==>
              StoredFor(Insert(r, last, Some(val)), rule) ==
              if rule.text in r.prefixes then StoredFor(r, rule) else Some(val)
  {
    if rule.Suffix? && last.Suffix? {
      ReversedTwice(rule.text);
      ReversedTwice(last.text);
    }
  }

  lemma {:induction false} ValueLineSnoc<V>(list: seq<(Rule, V)>, rule: Rule, i: int)
    requires list != [] && ValueLine(list[..|list| - 1], rule, i)
    requires rule.Suffix? || rule.Prefix? || !SharesValue(list[|list| - 1].0, rule)
    ensures ValueLine(list, rule, i)
  {
    var n := |list| - 1;
    assert forall j :: 0 <= j < n ==> list[..n][j] == list[j];
  }

  /** What is stored for a rule of the list is the value of its line. */
  lemma {:induction false} StoredValue<V>(list: seq<(Rule, V)>, rule: Rule) returns (i: int)
    requires !rule.SyntaxError? && exists k :: 0 <= k < |list| && SharesValue(list[k].0, rule)
    ensures ValueLine(list, rule, i) && StoredFor(Loaded(list), rule) == Some(list[i].1)
  {
    var n := |list| - 1;
    var init, last := list[..n], list[n];
    StoredAfterInsert(Loaded(init), rule, last.0, last.1);
    LoadedHolds(init, rule.text);
    var k :| 0 <= k < |list| && SharesValue(list[k].0, rule);
    if SharesValue(last.0, rule) && (!(rule.Suffix? || rule.Prefix?) || !Mentions(init, rule)) {
      i := n;
      assert forall j :: 0 <= j < n ==> list[j] == init[j];
    } else {
      if Mentions(init, rule) {
        var m :| 0 <= m < |init| && init[m].0 == rule;
      } else {
        assert init[k].0 == list[k].0;
      }
      i := StoredValue(init, rule);
      ValueLineSnoc(list, rule, i);
    }
  }

  lemma {:induction false} FirstWhereSnoc(texts: seq<string>, x: string, test: string -> bool)
    ensures FirstWhere(texts + [x], test) ==
            if FirstWhere(texts, test).Some? then FirstWhere(texts, test) else if test(x) then Some(x) else None
  {
    if texts != [] {
      FirstWhereSnoc(texts[1..], x, test);
      assert (texts + [x])[1..] == texts[1..] + [x];
    } else {
      assert [x][1..] == [];
      assert [] + [x] == [x];
    }
  }

  lemma NoTextPasses(texts: seq<string>, t: string, test: string -> bool)
    requires FirstWhere(texts, test).None? && t in texts
    ensures !test(t)
  {
  }

  /** The first text that passes comes from the first line of its shape that does. */
  lemma {:induction false} FirstSubstring<V>(list: seq<(Rule, V)>, test: string -> bool) returns (k: int)
    requires FirstWhere(Loaded(list).substrings, test).Some?
    ensures 0 <= k < |list| && list[k].0 == Substring(FirstWhere(Loaded(list).substrings, test).value)
    ensures forall j :: 0 <= j < k && list[j].0.Substring? ==> !test(list[j].0.text)
  {
    var n := |list| - 1;
    var init, last := list[..n], list[n].0;
    if last.Substring? { FirstWhereSnoc(Loaded(init).substrings, last.text, test); }
    if FirstWhere(Loaded(init).substrings, test).Some? {
      k := FirstSubstring(init, test);
    } else {
      k := n;
      forall j | 0 <= j < n && list[j].0.Substring? ensures !test(list[j].0.text) {
        assert init[j] == list[j];
        assert Mentions(init, list[j].0);
        LoadedHolds(init, list[j].0.text);
        NoTextPasses(Loaded(init).substrings, list[j].0.text, test);
      }
    }
  }

  lemma {:induction false} FirstGlob<V>(list: seq<(Rule, V)>, test: string -> bool) returns (k: int)
    requires FirstWhere(Loaded(list).globs, test).Some?
    ensures 0 <= k < |list| && list[k].0 == Glob(FirstWhere(Loaded(list).globs, test).value)
    ensures forall j :: 0 <= j < k && list[j].0.Glob? ==> !test(list[j].0.text)
  {
    var n := |list| - 1;
    var init, last := list[..n], list[n].0;
    if last.Glob? { FirstWhereSnoc(Loaded(init).globs, last.text, test); }
    if FirstWhere(Loaded(init).globs, test).Some? {
      k := FirstGlob(init, test);
    } else {
      k := n;
      forall j | 0 <= j < n && list[j].0.Glob? ensures !test(list[j].0.text) {
        assert init[j] == list[j];
        assert Mentions(init, list[j].0);
        LoadedHolds(init, list[j].0.text);
        NoTextPasses(Loaded(init).globs, list[j].0.text, test);
      }
    }
  }

  /** The first stage that has something for `name`. */
  function FirstStage<V>(r: Rules<V>, name: string, globMatch: (string, string) -> bool): nat {
    if name in r.exact && r.exact[name].Some? then 0
    else if SuffixRejects(r.suffixes, name) then 1
    else if LongestPrefix(r.prefixes.Keys, name).Some? then 2
    else if FirstWhere(r.substrings, s => ContainsText(name, s)).Some? then 3
    else if FirstWhere(r.globs, g => globMatch(g, name)).Some? then 4
    else 5
  }

  lemma TextPasses(texts: seq<string>, t: string, test: string -> bool)
    requires t in texts && test(t)
    ensures FirstWhere(texts, test).Some?
  {
  }

  /** A line that describes the name is found by the stage of its shape, if none before has anything. */
  lemma {:induction false} RankReaches<V>(list: seq<(Rule, V)>, name: string,
                                          globMatch: (string, string) -> bool, j: int)
    requires Unnested(SuffixTexts(list)) && 0 <= j < |list| && Describes(list[j].0, name, globMatch)
    ensures FirstStage(Loaded(list), name, globMatch) <= Rank(list[j].0)
  {
    var r, rule := Loaded(list), list[j].0;
    LoadedHolds(list, rule.text);
    assert Mentions(list, rule);
    match rule
    case Exact(_) =>
    case Suffix(t) =>
      LoadedSuffixes(list);
      UnnestedDecidesFirst(r.suffixes, name);
      assert t in SuffixTexts(list);
    case Prefix(_) =>
    case Substring(t) => TextPasses(r.substrings, t, s => ContainsText(name, s));
    case Glob(t) => TextPasses(r.globs, t, g => globMatch(g, name));
  }

  /** The prefix that is found is the longest of the list. */
  lemma {:induction false} LongestOfList<V>(list: seq<(Rule, V)>, name: string, t: string, p: string)
    requires LongestPrefix(Loaded(list).prefixes.Keys, name) == Some(p) && Mentions(list, Prefix(t)) && t <= name
    ensures |t| <= |p|
  {
    LoadedHolds(list, t);
  }

  lemma {:induction false} SuffixAnswer<V>(list: seq<(Rule, V)>, name: string) returns (rule: Rule)
    requires Unnested(SuffixTexts(list)) && SuffixRejects(Loaded(list).suffixes, name)
    ensures rule.Suffix? && Mentions(list, rule) && AlignedSuffix(rule.text, name)
    ensures SuffixStage(Loaded(list).suffixes, Reversed(name)).key == Reversed(rule.text)
    ensures StoredFor(Loaded(list), rule) == SuffixStage(Loaded(list).suffixes, Reversed(name)).val
  {
    var suffixes := Loaded(list).suffixes;
    var h := SuffixStage(suffixes, Reversed(name));
    LoadedSuffixes(list);
    SuffixStageSound(suffixes, name);
    UnnestedDecidesFirst(suffixes, name);
    rule := Suffix(Reversed(h.key));
    ReversedTwice(h.key);
    LoadedHolds(list, rule.text);
  }

  /** The rule that answers, stage by stage, with the value stored for it. */
  lemma {:induction false} AnswerOf<V>(list: seq<(Rule, V)>, name: string, globMatch: (string, string) -> bool)
    returns (k: int)
    requires Unnested(SuffixTexts(list)) && Lookup(Loaded(list), name, globMatch).Reject?
    ensures 0 <= k < |list| && Rank(list[k].0) == FirstStage(Loaded(list), name, globMatch)
    ensures Describes(list[k].0, name, globMatch)
    ensures Lookup(Loaded(list), name, globMatch) == Reject(Printed(list[k].0), StoredFor(Loaded(list), list[k].0))
    ensures list[k].0.Prefix? ==> LongestPrefix(Loaded(list).prefixes.Keys, name) == Some(list[k].0.text)
    ensures list[k].0.Substring? ==>
              forall j :: 0 <= j < k && list[j].0.Substring? ==> !ContainsText(name, list[j].0.text)
    ensures list[k].0.Glob? ==> forall j :: 0 <= j < k && list[j].0.Glob? ==> !globMatch(list[j].0.text, name)
  {
    var r := Loaded(list);
    var stage := FirstStage(r, name, globMatch);
    if stage == 0 {
      LoadedHolds(list, name);
      k :| 0 <= k < |list| && list[k].0 == Exact(name);
    } else if stage == 1 {
      var rule := SuffixAnswer(list, name);
      ReversedTwice(rule.text);
      k :| 0 <= k < |list| && list[k].0 == rule;
    } else if stage == 2 {
      var p := LongestPrefix(r.prefixes.Keys, name).value;
      LoadedHolds(list, p);
      k :| 0 <= k < |list| && list[k].0 == Prefix(p);
    } else if stage == 3 {
      k := FirstSubstring(list, s => ContainsText(name, s));
    } else {
      k := FirstGlob(list, g => globMatch(g, name));
    }
  }

  /** What a rejection says, over every list without nested suffix rules: it names the rule that answers
      for the name, with the value of that rule's line. */
  lemma {:induction false} RejectionExplained<V>(list: seq<(Rule, V)>, name: string,
                                                 globMatch: (string, string) -> bool)
    returns (k: int, i: int)
    requires Unnested(SuffixTexts(list)) && Lookup(Loaded(list), name, globMatch).Reject?
    ensures AnswerLine(list, name, globMatch, k) && ValueLine(list, list[k].0, i)
    ensures Lookup(Loaded(list), name, globMatch) == Reject(Printed(list[k].0), Some(list[i].1))
  {
    k := AnswerOf(list, name, globMatch);
    forall j | 0 <= j < |list| && Describes(list[j].0, name, globMatch) ensures !Outranks(list[j].0, list[k].0) {
      RankReaches(list, name, globMatch, j);
      if list[j].0.Prefix? && list[k].0.Prefix? {
        assert Mentions(list, list[j].0);
        LongestOfList(list, name, list[j].0.text, list[k].0.text);
      }
    }
    assert SharesValue(list[k].0, list[k].0);
    i := StoredValue(list, list[k].0);
  }

  /** Rule and value of an answer are determined by the list. */
  lemma {:induction false} AnswerUnique<V>(list: seq<(Rule, V)>, name: string, globMatch: (string, string) -> bool,
                        k: int, l: int, i: int, j: int)
    requires Unnested(SuffixTexts(list)) && AnswerLine(list, name, globMatch, k) && AnswerLine(list, name, globMatch, l)
    requires ValueLine(list, list[k].0, i) && ValueLine(list, list[l].0, j)
    ensures list[k].0 == list[l].0 && i == j
  {
    var a, b := list[k].0, list[l].0;
    assert Rank(a) == Rank(b);
    if a.Suffix? {
      assert a.text in SuffixTexts(list) && b.text in SuffixTexts(list);
      if |a.text| <= |b.text| { AlignedComparable(a.text, b.text, name); }
      if |b.text| <= |a.text| { AlignedComparable(b.text, a.text, name); }
    } else if a.Prefix? {
      assert a.text == name[..|a.text|] && b.text == name[..|b.text|];
    }
  }

  class PatternMatcher<V> {
    var blockedPrefixes: map<string, Option<V>>
    var blockedSuffixes: map<string, Option<V>>
    var blockedSubstrings: seq<string>
    var blockedPatterns: seq<string>
    var blockedExact: map<string, Option<V>>
    var indirectVals: map<string, V>

    function Contents(): Rules<V>
      reads this
    {
      Rules(blockedPrefixes, blockedSuffixes, blockedSubstrings, blockedPatterns, blockedExact, indirectVals)
    }

    constructor ()
      ensures Contents() == NoRules()
    {
      blockedPrefixes, blockedSuffixes := map[], map[];
      blockedSubstrings, blockedPatterns := [], [];
      blockedExact, indirectVals := map[], map[];
    }

    /** An accepted rule changes the one collection its shape selects; a bad one changes nothing. */
    method Add(pattern: string, val: Option<V>, globOk: string -> bool) returns (ok: bool)
      modifies this
      ensures ok <==> Classify(pattern, globOk) != SyntaxError
      ensures Contents() == Insert(old(Contents()), Classify(pattern, globOk), val)
    {
      var p := pattern;
      var leadingStar := "*" <= p;
      var trailingStar := |p| > 0 && p[|p| - 1] == '*';
      var isGlob := IsGlobCandidate(p);
      if isGlob {
        if |p| < 2 || !globOk(p) { return false; }
        p := Lower(p);
        blockedPatterns := blockedPatterns + [p];
        if val.Some? { indirectVals := indirectVals[p := val.value]; }
      } else if leadingStar && trailingStar {
        if |p| < 3 { return false; }
        p := Lower(p[1..|p| - 1]);
        blockedSubstrings := blockedSubstrings + [p];
        if val.Some? { indirectVals := indirectVals[p := val.value]; }
      } else if trailingStar {
        if |p| < 2 { return false; }
        p := Lower(p[..|p| - 1]);
        blockedPrefixes := TrieInsert(blockedPrefixes, p, val);
      } else if "=" <= p {
        if |p| < 2 { return false; }
        blockedExact := blockedExact[Lower(p[1..]) := val];
      } else {
        if leadingStar { p := p[1..]; }
        p := Lower(TrimDot(p));
        var key := StringReverse(p);
        blockedSuffixes := TrieInsert(blockedSuffixes, key, val);
      }
      return true;
    }

    method Eval(qName: string, globMatch: (string, string) -> bool) returns (verdict: Verdict<V>)
      ensures verdict == Lookup(Contents(), qName, globMatch)
    {
      if |qName| < 2 { return Pass; }
      if qName in blockedExact && blockedExact[qName].Some? {
        return Reject(qName, blockedExact[qName]);
      }
      var rev := StringReverse(qName);
      var found := LongestPrefix(blockedSuffixes.Keys, rev);
      if found.Some? {
        var match0 := found.value;
        var xval := blockedSuffixes[match0];
        if |match0| == |rev| || rev[|match0|] == '.' {
          var text := StringReverse(match0);
          return Reject("*." + text, xval);
        }
        var i := LastDot(rev);
        if i > 0 {
          var parent := LongestPrefix(blockedSuffixes.Keys, rev[..i]);
          if parent.Some? && (|parent.value| == i || rev[..i][|parent.value|] == '.') {
            var text := StringReverse(parent.value);
            return Reject("*." + text, xval);
          }
        }
      }
      verdict := EvalRemaining(qName, globMatch);
    }

    /** The prefix, substring and glob stages. */
    method EvalRemaining(qName: string, globMatch: (string, string) -> bool) returns (verdict: Verdict<V>)
      ensures verdict == EvalLists(Contents(), qName, globMatch)
    {
      var pre := LongestPrefix(blockedPrefixes.Keys, qName);
      if pre.Some? { return Reject(pre.value + "*", blockedPrefixes[pre.value]); }
      var hasSub := s => ContainsText(qName, s);
      for j := 0 to |blockedSubstrings|
        invariant FirstWhere(blockedSubstrings, hasSub) == FirstWhere(blockedSubstrings[j..], hasSub)
      {
        if hasSub(blockedSubstrings[j]) {
          return Reject("*" + blockedSubstrings[j] + "*", Indirect(Contents(), blockedSubstrings[j]));
        }
        assert blockedSubstrings[j..][1..] == blockedSubstrings[j + 1..];
      }
      var hasGlob := g => globMatch(g, qName);
      for j := 0 to |blockedPatterns|
        invariant FirstWhere(blockedPatterns, hasGlob) == FirstWhere(blockedPatterns[j..], hasGlob)
      {
        if hasGlob(blockedPatterns[j]) {
          return Reject(blockedPatterns[j], Indirect(Contents(), blockedPatterns[j]));
        }
        assert blockedPatterns[j..][1..] == blockedPatterns[j + 1..];
      }
      return Pass;
    }
  }

  /** The rules that the lines of a list stand for. Lines that `Add` refuses stand for nothing. */
  function RulesOf<V>(lines: seq<(string, V)>, globOk: string -> bool): seq<(Rule, V)> {
    seq(|lines|, i requires 0 <= i < |lines| => (Classify(lines[i].0, globOk), lines[i].1))
  }

  /** The loading loop of the name plugins. */
  method LoadList<V>(lines: seq<(string, V)>, globOk: string -> bool) returns (matcher: PatternMatcher<V>)
    ensures matcher.Contents() == Loaded(RulesOf(lines, globOk))
    ensures fresh(matcher)
  {
    matcher := new PatternMatcher<V>();
    ghost var list := RulesOf(lines, globOk);
    for i := 0 to |lines|
      invariant matcher.Contents() == Loaded(list[..i])
      invariant fresh(matcher)
    {
      var _ := matcher.Add(lines[i].0, Some(lines[i].1), globOk);
      assert list[..i + 1][..i] == list[..i];
    }
    assert list[..|lines|] == list;
  }
}
