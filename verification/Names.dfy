/**
 Domain names as they travel through the filters: plain strings, reversed so
 that a suffix rule becomes a prefix, and compared on label boundaries.
 */
module Names {

  datatype Option<+T> = None | Some(value: T)

  function Min(a: int, b: int): int { if a < b then a else b }

  function Max(a: int, b: int): int { if a > b then a else b }

  lemma Pick<T>(s: set<T>) returns (x: T)
    requires s != {}
    ensures x in s
  {
    x :| x in s;
  }

  predicate Distinct<T(==)>(s: seq<T>) {
    forall i, j :: 0 <= i < j < |s| ==> s[i] != s[j]
  }

  lemma DistinctConcat<T>(s: seq<T>, t: seq<T>)
    requires Distinct(s) && Distinct(t) && forall x :: x in s ==> x !in t
    ensures Distinct(s + t)
  {
    forall i, j | 0 <= i < j < |s + t| ensures (s + t)[i] != (s + t)[j] {
      if i < |s| <= j { assert s[i] in s && t[j - |s|] in t; }
    }
  }

  lemma {:induction false} SubsetSize<T>(a: set<T>, b: set<T>)
    requires a <= b
    ensures |a| <= |b|
    ensures |a| == |b| ==> a == b
  {
    if a != {} {
      var x := Pick(a);
      SubsetSize(a - {x}, b - {x});
    } else if b != {} {
      var x := Pick(b);
      assert |b - {x}| == |b| - 1;
    }
  }

  /** `s` read from the last character to the first. */
  function Reversed(s: string): (r: string)
    ensures |r| == |s|
    ensures forall i :: 0 <= i < |s| ==> r[i] == s[|s| - 1 - i]
  {
    seq(|s|, i requires 0 <= i < |s| => s[|s| - 1 - i])
  }

  lemma ReversedTwice(s: string)
    ensures Reversed(Reversed(s)) == s
  {
  }

  lemma ReversedConcat(s: string, t: string)
    ensures Reversed(s + t) == Reversed(t) + Reversed(s)
  {
  }

  /** The in-place swap loop of `StringReverse`. */
  method StringReverse(s: string) returns (r: string)
    ensures r == Reversed(s)
  {
    var n := |s|;
    var runes := new char[n](i requires 0 <= i < |s| => s[i]);
    var i, j := 0, n - 1;
    while i < n / 2
      invariant 0 <= i <= n / 2 && j == n - 1 - i
      invariant forall k :: 0 <= k < i ==> runes[k] == s[n - 1 - k] && runes[n - 1 - k] == s[k]
      invariant forall k :: i <= k < n - i ==> runes[k] == s[k]
    {
      runes[i], runes[j] := runes[j], runes[i];
      i, j := i + 1, j - 1;
    }
    r := runes[..];
  }

  /** `rule` ends `name`, and starts where a label of `name` starts. */
  predicate AlignedSuffix(rule: string, name: string) {
    && |rule| <= |name|
    && name[|name| - |rule|..] == rule
    && (|rule| < |name| ==> name[|name| - |rule| - 1] == '.')
  }

  /** The same relation on reversed strings: what the lookup code tests. */
  predicate AlignedPrefix(key: string, rev: string) {
    && key <= rev
    && (|key| < |rev| ==> rev[|key|] == '.')
  }

  lemma AlignedReversed(rule: string, name: string)
    ensures AlignedSuffix(rule, name) <==> AlignedPrefix(Reversed(rule), Reversed(name))
  {
    var key, rev := Reversed(rule), Reversed(name);
    if |rule| <= |name| {
      if key <= rev {
        forall i | 0 <= i < |rule| ensures name[|name| - |rule| + i] == rule[i] {
          assert key[|rule| - 1 - i] == rev[|rule| - 1 - i];
        }
        assert name[|name| - |rule|..] == rule;
      }
      if name[|name| - |rule|..] == rule {
        forall i | 0 <= i < |rule| ensures key[i] == rev[i] {
          assert name[|name| - |rule|..][|rule| - 1 - i] == rule[|rule| - 1 - i];
        }
        assert key <= rev;
      }
    }
  }

  lemma AlignedTransitive(a: string, b: string, c: string)
    requires AlignedSuffix(a, b) && AlignedSuffix(b, c)
    ensures AlignedSuffix(a, c)
  {
    assert c[|c| - |a|..] == c[|c| - |b|..][|b| - |a|..];
    if |a| < |b| {
      assert c[|c| - |b|..][|b| - |a| - 1] == '.';
    }
  }

  /** Two aligned suffixes of one name are comparable. */
  lemma AlignedComparable(a: string, b: string, name: string)
    requires AlignedSuffix(a, name) && AlignedSuffix(b, name) && |a| <= |b|
    ensures AlignedSuffix(a, b)
  {
    assert name[|name| - |b|..][|b| - |a|..] == name[|name| - |a|..];
    if |a| < |b| {
      assert name[|name| - |b|..][|b| - |a| - 1] == name[|name| - |a| - 1];
    }
  }

  /** A name that is covered by one of `rules`: the meaning of a suffix rule list. */
  predicate Covered(rules: set<string>, name: string) {
    exists r :: r in rules && AlignedSuffix(r, name)
  }

  /** No rule is a proper subdomain of another (a leading dot counts as an empty label). */
  ghost predicate Unnested(rules: set<string>) {
    forall inner, outer :: inner in rules && outer in rules && AlignedSuffix(outer, inner) ==> inner == outer
  }

  // --- Case folding and query-name normalisation ---

  function LowerChar(c: char): char {
    if 'A' <= c <= 'Z' then (c as int + 32) as char else c
  }

  function Lower(s: string): (r: string)
    ensures |r| == |s|
    ensures forall i :: 0 <= i < |s| ==> r[i] == LowerChar(s[i])
  {
    seq(|s|, i requires 0 <= i < |s| => LowerChar(s[i]))
  }

  /** The same character, or the two cases of one letter. */
  predicate SameLetter(a: char, b: char) {
    a == b || ('A' <= a <= 'Z' && b as int == a as int + 32) || ('A' <= b <= 'Z' && a as int == b as int + 32)
  }

  /** What lower-casing identifies: exactly the case of the letters A to Z. */
  lemma LowerIdentifies(s: string, t: string)
    ensures Lower(s) == Lower(t) <==> |s| == |t| && forall i :: 0 <= i < |s| ==> SameLetter(s[i], t[i])
    ensures Lower(Lower(s)) == Lower(s)
  {
    if Lower(s) == Lower(t) {
      forall i | 0 <= i < |s| ensures SameLetter(s[i], t[i]) {
        assert Lower(s)[i] == Lower(t)[i];
      }
    }
  }

  predicate Ascii(s: string) { forall i :: 0 <= i < |s| ==> s[i] as int < 128 }

  function TrimTrailingDot(s: string): string {
    if |s| > 0 && s[|s| - 1] == '.' then s[..|s| - 1] else s
  }

  /** The form in which query names are compared; `None` for names that are not ASCII. */
  function NormalQName(s: string): Option<string> {
    if s == "" || s == "." then Some(".")
    else if Ascii(TrimTrailingDot(s)) then Some(Lower(TrimTrailingDot(s))) else None
  }

  /** What the normal form identifies: ASCII names that differ in the case of letters and in one final dot;
      the root stands for itself. It is itself in normal form unless it still ends with a dot. */
  lemma NormalFormIdentifies(s: string, t: string)
    requires s != "" && t != "" && s != "." && t != "."
    ensures NormalQName(s).Some? <==> forall i :: 0 <= i < |s| ==> s[i] as int < 128
    ensures NormalQName(s).Some? ==>
              (NormalQName(s) == NormalQName(t) <==>
                 var a, b := TrimTrailingDot(s), TrimTrailingDot(t);
                 |a| == |b| && forall i :: 0 <= i < |a| ==> SameLetter(a[i], b[i]))
    ensures NormalQName(s).Some? && s[|s| - 1] != '.' ==> NormalQName(NormalQName(s).value) == NormalQName(s)
    ensures NormalQName("") == NormalQName(".") == Some(".")
  {
    var a, b := TrimTrailingDot(s), TrimTrailingDot(t);
    LowerIdentifies(a, b);
    if s[|s| - 1] == '.' { assert s == a + "."; }
    assert Ascii(s) <==> Ascii(a);
    if Ascii(a) && Lower(a) == Lower(b) {
      forall i | 0 <= i < |b| ensures b[i] as int < 128 { assert SameLetter(a[i], b[i]); }
    }
    if Ascii(s) && s[|s| - 1] != '.' {
      var n := Lower(s);
      assert n[|n| - 1] == LowerChar(s[|s| - 1]) != '.';
      assert n != "." && TrimTrailingDot(n) == n && Ascii(n);
    }
  }

  method NormalizeQName(str: string) returns (r: Option<string>)
    ensures r == NormalQName(str)
  {
    if |str| == 0 || str == "." { return Some("."); }
    var hasUpper := false;
    var s := TrimTrailingDot(str);
    for i := 0 to |s|
      invariant Ascii(s[..i])
      invariant hasUpper <==> exists k :: 0 <= k < i && 'A' <= s[k] <= 'Z'
    {
      var c := s[i];
      if c as int >= 128 { return None; }
      hasUpper := hasUpper || 'A' <= c <= 'Z';
    }
    assert s[..|s|] == s;
    if !hasUpper {
      assert Lower(s) == s;
      return Some(s);
    }
    var b := "";
    for i := 0 to |s|
      invariant b == Lower(s)[..i]
    {
      var c := s[i];
      if 'A' <= c <= 'Z' {
        c := (c as int + 32) as char;
      }
      b := b + [c];
    }
    assert b == Lower(s);
    return Some(b);
  }
}
