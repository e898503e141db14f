/**
 The pruning of `generate-domains-blocklist.py`: names below another listed name,
 already emitted names and names under the allowlist are dropped.
 */
module BlocklistGenerator {
  import opened Names

  // --- Splitting a name on dots, as the script does ---

  /** Index of the first dot at or behind `from`, or the length. */
  function DotFrom(s: string, from: nat): (i: nat)
    requires from <= |s|
    ensures from <= i <= |s|
    ensures i < |s| ==> s[i] == '.'
    ensures forall k :: from <= k < i ==> s[k] != '.'
    decreases |s| - from
  {
    if from == |s| || s[from] == '.' then from else DotFrom(s, from + 1)
  }

  function FirstDot(s: string): (i: nat)
    ensures i <= |s|
    ensures i < |s| ==> s[i] == '.'
    ensures forall k :: 0 <= k < i ==> s[k] != '.'
  {
    DotFrom(s, 0)
  }

  function Split(s: string): (parts: seq<string>)
    ensures |parts| >= 1
    decreases |s|
  {
    var i := FirstDot(s);
    if i == |s| then [s] else [s[..i]] + Split(s[i + 1..])
  }

  function Join(parts: seq<string>): string {
    if parts == [] then ""
    else if |parts| == 1 then parts[0]
    else parts[0] + "." + Join(parts[1..])
  }

  /** Joining the labels gives the name back. */
  lemma {:induction false} JoinSplit(s: string)
    ensures Join(Split(s)) == s
    decreases |s|
  {
    var i := FirstDot(s);
    if i < |s| {
      JoinSplit(s[i + 1..]);
      assert Split(s)[1..] == Split(s[i + 1..]);
      assert s == s[..i] + "." + s[i + 1..];
    }
  }

  /** Cutting `name` at its dot `k` leaves a name in `names`. */
  predicate ParentAt(names: set<string>, name: string, k: int) {
    0 <= k < |name| && name[k] == '.' && name[k + 1..] in names
  }

  /** Some proper parent of `name` is in `names` (the script also tries the empty name). */
  predicate BelowListed(names: set<string>, name: string) {
    "" in names || exists k :: 0 <= k < |name| && ParentAt(names, name, k)
  }

  /** The same, label by label. */
  predicate BelowFrom(names: set<string>, rest: string)
    decreases |rest|
  {
    var i := FirstDot(rest);
    if i == |rest| then "" in names else rest[i + 1..] in names || BelowFrom(names, rest[i + 1..])
  }

  /** A parent cut behind the first dot `i` is a parent of what follows `i`. */
  lemma ParentBehindFirst(names: set<string>, rest: string, i: nat, k: int)
    requires i < |rest| && forall j :: 0 <= j < i ==> rest[j] != '.'
    ensures k > i ==> (ParentAt(names, rest, k) <==> ParentAt(names, rest[i + 1..], k - i - 1))
    ensures k < i ==> !ParentAt(names, rest, k)
  {
    if i < k < |rest| {
      assert rest[i + 1..][k - i - 1 + 1..] == rest[k + 1..];
    }
  }

  lemma {:induction false} BelowFromIsBelow(names: set<string>, rest: string)
    ensures BelowFrom(names, rest) <==> BelowListed(names, rest)
    decreases |rest|
  {
    var i := FirstDot(rest);
    if i < |rest| {
      var tail := rest[i + 1..];
      BelowFromIsBelow(names, tail);
      assert ParentAt(names, rest, i) <==> tail in names;
      if k :| ParentAt(names, tail, k) {
        ParentBehindFirst(names, rest, i, k + i + 1);
      }
      if k :| ParentAt(names, rest, k) {
        ParentBehindFirst(names, rest, i, k);
      }
    }
  }

  /** What dropping the first label leaves, and what it means for the search. */
  lemma DropLabel(names: set<string>, rest: string)
    ensures var i, tail := FirstDot(rest), Split(rest)[1..];
            if i == |rest| then tail == [] && (BelowFrom(names, rest) <==> Join(tail) in names)
            else tail == Split(rest[i + 1..]) && Join(tail) == rest[i + 1..] &&
                 (BelowFrom(names, rest) <==> Join(tail) in names || BelowFrom(names, rest[i + 1..]))
  {
    var i := FirstDot(rest);
    if i < |rest| {
      var tail := Split(rest[i + 1..]);
      assert ([rest[..i]] + tail)[1..] == tail;
      JoinSplit(rest[i + 1..]);
    }
  }

  method HasSuffix(names: set<string>, name: string) returns (found: bool)
    ensures found <==> BelowListed(names, name)
  {
    ghost var below := BelowFrom(names, name);
    assert below <==> BelowListed(names, name) by { BelowFromIsBelow(names, name); }
    var parts := Split(name);
    ghost var rest := name;
    while parts != []
      invariant parts != [] ==> parts == Split(rest) && below == BelowFrom(names, rest)
      invariant parts == [] ==> !below
      decreases |parts|
    {
      DropLabel(names, rest);
      parts := parts[1..];
      if Join(parts) in names {
        return true;
      }
      rest := rest[Min(FirstDot(rest) + 1, |rest|)..];
    }
    return false;
  }

  lemma BelowListedIsParent(names: set<string>, name: string)
    requires "" !in names
    ensures BelowListed(names, name) <==> exists a :: a in names && a != name && AlignedSuffix(a, name)
  {
    assert name[0..] == name;
    if k :| ParentAt(names, name, k) {
      assert AlignedSuffix(name[k + 1..], name);
    }
    if a :| a in names && a != name && AlignedSuffix(a, name) {
      assert ParentAt(names, name, |name| - |a| - 1);
    }
  }

  // --- What survives ---

  predicate Allowlisted(allowed: set<string>, name: string) {
    BelowListed(allowed, name) || name in allowed
  }

  /** The set the emitted lines spell out, whatever the order of the lists. */
  function Kept(all: set<string>, allowed: set<string>): set<string> {
    set n | n in all && !BelowListed(all, n) && !Allowlisted(allowed, n)
  }

  function Union(lists: seq<seq<string>>): set<string> {
    set i, j | 0 <= i < |lists| && 0 <= j < |lists[i]| :: lists[i][j]
  }

  /** What becomes of a listed name, wherever it stands: it lies below another, the allowlist exempts it,
      or it is printed once. */
  datatype Fate = Subsumed | Exempted | Surviving

  function FateOf(all: set<string>, allowed: set<string>, n: string): Fate {
    if BelowListed(all, n) then Subsumed else if Allowlisted(allowed, n) then Exempted else Surviving
  }

  /** How many entries of a list have that fate. */
  function CountFate(names: seq<string>, all: set<string>, allowed: set<string>, fate: Fate): nat {
    if names == [] then 0
    else CountFate(names[..|names| - 1], all, allowed, fate) +
         (if FateOf(all, allowed, names[|names| - 1]) == fate then 1 else 0)
  }

  /** What one list prints, and its counters. */
  datatype Tally = Tally(printed: seq<string>, ignored: nat, allowed: nat)

  function PassOver(names: seq<string>, all: set<string>, allowed: set<string>, before: set<string>): Tally {
    if names == [] then Tally([], 0, 0)
    else
      var p, name := PassOver(names[..|names| - 1], all, allowed, before), names[|names| - 1];
      match FateOf(all, allowed, name)
      case Subsumed => p.(ignored := p.ignored + 1)
      case Exempted => p.(allowed := p.allowed + 1)
      case Surviving =>
        if name in before || name in p.printed then p.(ignored := p.ignored + 1) else p.(printed := p.printed + [name])
  }

  /** The names of a list that survive are printed once, unless an earlier list did. */
  lemma {:induction false} PassPrints(names: seq<string>, all: set<string>, allowed: set<string>, before: set<string>,
                                      n: string)
    ensures var p := PassOver(names, all, allowed, before);
            && Distinct(p.printed)
            && (n in p.printed <==> n in names && FateOf(all, allowed, n) == Surviving && n !in before)
  {
    if names != [] {
      var k := |names| - 1;
      PassPrints(names[..k], all, allowed, before, n);
      assert names == names[..k] + [names[k]];
    }
  }

  /** The counters: exempted names are allowed, and names that are subsumed or printed already are ignored. */
  lemma {:induction false} PassCounts(names: seq<string>, all: set<string>, allowed: set<string>, before: set<string>)
    ensures var p := PassOver(names, all, allowed, before);
            && p.allowed == CountFate(names, all, allowed, Exempted)
            && p.ignored == CountFate(names, all, allowed, Subsumed) +
                            (CountFate(names, all, allowed, Surviving) - |p.printed|)
            && p.ignored + p.allowed + |p.printed| == |names|
  {
    if names != [] { PassCounts(names[..|names| - 1], all, allowed, before); }
  }

  /** The loop over one list, without glob rules. `before` is what earlier lists printed. */
  method PruneList(names: seq<string>, all: set<string>, allowed: set<string>, before: set<string>)
    returns (printed: seq<string>, unique: set<string>, ignored: nat, allowedCount: nat)
    requires forall n :: n in before ==> FateOf(all, allowed, n) == Surviving
    ensures Tally(printed, ignored, allowedCount) == PassOver(names, all, allowed, before)
    ensures unique == before + set n | n in printed
  {
    unique := before;
    printed, ignored, allowedCount := [], 0, 0;
    for j := 0 to |names|
      invariant Tally(printed, ignored, allowedCount) == PassOver(names[..j], all, allowed, before)
      invariant unique == before + set n | n in printed
      invariant forall n :: n in unique ==> FateOf(all, allowed, n) == Surviving
    {
      var name := names[j];
      assert names[..j + 1][..j] == names[..j];
      var listed := HasSuffix(all, name);
      if listed || name in unique {
        ignored := ignored + 1;
      } else {
        var under := HasSuffix(allowed, name);
        if under || name in allowed {
          allowedCount := allowedCount + 1;
        } else {
          printed := printed + [name];
          unique := unique + {name};
        }
      }
    }
    assert names[..|names|] == names;
  }

  /** The loop over the lists. `emitted` is what all of them print, and the counts are sums over the lists. */
  method Prune(lists: seq<seq<string>>, allowed: set<string>)
    returns (emitted: seq<string>, ignored: nat, allowedCount: nat)
    ensures Distinct(emitted)
    ensures forall n :: n in emitted <==> n in Kept(Union(lists), allowed)
    ensures ignored + allowedCount + |emitted| == TotalLength(lists)
  {
    var allNames: set<string> := Union(lists);
    var uniqueNames: set<string> := {};
    emitted, ignored, allowedCount := [], 0, 0;
    for i := 0 to |lists|
      invariant Distinct(emitted)
      invariant ignored + allowedCount + |emitted| == TotalLength(lists[..i])
      invariant forall n :: n in emitted <==> n in uniqueNames
      invariant uniqueNames == Kept(allNames, allowed) * Union(lists[..i])
    {
      forall n | n in lists[i] ensures n in allNames {
        var j :| 0 <= j < |lists[i]| && lists[i][j] == n;
      }
      var printed, unique, dropped, exempted := PruneList(lists[i], allNames, allowed, uniqueNames);
      UnionSnoc(lists, i);
      PassCounts(lists[i], allNames, allowed, uniqueNames);
      forall n
        ensures Distinct(printed)
        ensures n in printed <==> n in lists[i] && n in Kept(allNames, allowed) && n !in uniqueNames
      {
        PassPrints(lists[i], allNames, allowed, uniqueNames, n);
      }
      DistinctConcat(emitted, printed);
      assert lists[..i + 1][..i] == lists[..i];
      forall n ensures n in unique <==> n in Kept(allNames, allowed) * Union(lists[..i + 1]) {
      }
      emitted, uniqueNames := emitted + printed, unique;
      ignored, allowedCount := ignored + dropped, allowedCount + exempted;
    }
    assert lists[..|lists|] == lists;
  }

  function TotalLength(lists: seq<seq<string>>): nat {
    if lists == [] then 0 else TotalLength(lists[..|lists| - 1]) + |lists[|lists| - 1]|
  }

  lemma UnionSnoc(lists: seq<seq<string>>, i: nat)
    requires i < |lists|
    ensures Union(lists[..i + 1]) == Union(lists[..i]) + set n | n in lists[i]
  {
    var longer, shorter := Union(lists[..i + 1]), Union(lists[..i]);
    forall n | n in shorter ensures n in longer {
      var a, b :| 0 <= a < i && 0 <= b < |lists[a]| && lists[a][b] == n;
      assert lists[..i + 1][a][b] == n;
    }
    forall n | n in lists[i] ensures n in longer {
      var b :| 0 <= b < |lists[i]| && lists[i][b] == n;
      assert lists[..i + 1][i][b] == n;
    }
    forall n | n in longer ensures n in shorter + set n | n in lists[i] {
      var a, b :| 0 <= a < i + 1 && 0 <= b < |lists[..i + 1][a]| && lists[..i + 1][a][b] == n;
      if a < i { assert lists[..i][a][b] == n; }
    }
  }

  // --- Pruning keeps the meaning ---

  /** The listed names that the allowlist does not exempt. */
  function Blocked(all: set<string>, allowed: set<string>): set<string> {
    set n | n in all && !Allowlisted(allowed, n)
  }

  lemma AllowlistedBelow(allowed: set<string>, parent: string, name: string)
    requires "" !in allowed && AlignedSuffix(parent, name) && Allowlisted(allowed, parent)
    ensures Allowlisted(allowed, name)
  {
    BelowListedIsParent(allowed, parent);
    BelowListedIsParent(allowed, name);
    if parent !in allowed {
      var a :| a in allowed && a != parent && AlignedSuffix(a, parent);
      AlignedTransitive(a, parent, name);
    }
  }

  /** The allowlist exempts a name that is listed there or lies below a listed one. */
  lemma AllowlistedIff(allowed: set<string>, name: string)
    requires "" !in allowed
    ensures Allowlisted(allowed, name) <==> Covered(allowed, name)
  {
    BelowListedIsParent(allowed, name);
    assert name[0..] == name;
  }

  /** Every listed name lies at or below a listed name that has no listed parent. */
  lemma {:induction false} TopmostListed(all: set<string>, name: string) returns (top: string)
    requires "" !in all && name in all
    ensures top in all && AlignedSuffix(top, name) && !BelowListed(all, top)
    decreases |name|
  {
    BelowListedIsParent(all, name);
    if BelowListed(all, name) {
      var a :| a in all && a != name && AlignedSuffix(a, name);
      top := TopmostListed(all, a);
      AlignedTransitive(top, a, name);
    } else {
      top := name;
      assert name[0..] == name;
    }
  }

  /** The emitted rules cover exactly the names at or below a listed, not exempted name. */
  lemma PruningPreservesMeaning(all: set<string>, allowed: set<string>, name: string)
    requires "" !in all && "" !in allowed
    ensures Covered(Kept(all, allowed), name) <==> Covered(Blocked(all, allowed), name)
  {
    if n :| n in Blocked(all, allowed) && AlignedSuffix(n, name) {
      var top := TopmostListed(all, n);
      AlignedTransitive(top, n, name);
      if Allowlisted(allowed, top) { AllowlistedBelow(allowed, top, n); }
      assert top in Kept(all, allowed);
    }
  }

  /** The emitted set has no nested pair. */
  lemma KeptIsUnnested(all: set<string>, allowed: set<string>)
    requires "" !in all
    ensures Unnested(Kept(all, allowed))
  {
    forall inner, outer | inner in Kept(all, allowed) && outer in Kept(all, allowed) && AlignedSuffix(outer, inner)
      ensures inner == outer
    {
      BelowListedIsParent(all, inner);
    }
  }
}
