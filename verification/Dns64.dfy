/**
 DNS64: IPv4 addresses inside IPv6 prefixes (section 2.2 of RFC 6052) and the
 discovery of the prefix from a well-known name (section 3 of RFC 7050).
 */
module Dns64 {
  import opened Names
  import opened Bytes

  type V4 = s: seq<Byte> | |s| == 4 witness [0, 0, 0, 0]
  type V6 = s: seq<Byte> | |s| == 16 witness [0, 0, 0, 0, 0, 0, 0, 0, 0, 0, 0, 0, 0, 0, 0, 0]

  const ZERO: V6 := [0, 0, 0, 0, 0, 0, 0, 0, 0, 0, 0, 0, 0, 0, 0, 0]
  const WKA1: V4 := [192, 0, 0, 170]
  const WKA2: V4 := [192, 0, 0, 171]

  /** A network: address and prefix length in bits. */
  datatype Net = Net(ip: V6, bits: nat)

  predicate LegalLength(bits: nat) { bits in {32, 40, 48, 56, 64, 96} }

  /** No address bit beyond the prefix, at byte granularity. */
  predicate Masked(p: Net) {
    p.bits % 8 == 0 && p.bits <= 128 && forall i :: p.bits / 8 <= i < 16 ==> p.ip[i] == 0
  }

  // --- Embedding ---

  /** Where byte `i` of the IPv4 address goes: byte 8 is skipped. */
  function Position(shift: nat, i: nat): nat {
    if shift <= 8 <= shift + i then shift + i + 1 else shift + i
  }

  /** Byte `j` holds one of the first `n` bytes of the address. */
  predicate Taken(shift: nat, n: nat, j: nat) {
    || (n > 0 && j == Position(shift, 0))
    || (n > 1 && j == Position(shift, 1))
    || (n > 2 && j == Position(shift, 2))
    || (n > 3 && j == Position(shift, 3))
  }

  /** The first `n` bytes of `v` are in place in `r`, and the other bytes hold the prefix. */
  predicate EmbeddedUpTo(v: V4, p: Net, r: V6, n: nat)
    requires n <= 4
  {
    var shift := p.bits / 8;
    && shift <= 12
    && (n > 0 ==> r[Position(shift, 0)] == v[0])
    && (n > 1 ==> r[Position(shift, 1)] == v[1])
    && (n > 2 ==> r[Position(shift, 2)] == v[2])
    && (n > 3 ==> r[Position(shift, 3)] == v[3])
    && forall j :: 0 <= j < 16 && !Taken(shift, n, j) ==> r[j] == p.ip[j]
  }

  /** `v` is embedded in `r` under `p`. */
  predicate Embedded(v: V4, p: Net, r: V6) { EmbeddedUpTo(v, p, r, 4) }

  /** An index out of range, for prefixes of 104 bits and more, stops the program: `None`. */
  method TranslateToIPv6(v: V4, p: Net) returns (r: Option<V6>)
    requires p.bits <= 128
    ensures r.Some? <==> p.bits < 104
    ensures r.Some? ==> Embedded(v, p, r.value)
  {
    var v6 := p.ip;
    ghost var start := p.bits / 8;
    var ipShift := p.bits / 8;
    if ipShift > 12 { return None; }
    for i := 0 to 4
      invariant ipShift == if i > 0 && start <= 8 <= start + i - 1 then start + 1 else start
      invariant EmbeddedUpTo(v, p, v6, i)
    {
      if ipShift + i == 8 {
        ipShift := ipShift + 1;
      }
      assert ipShift + i == Position(start, i);
      v6 := v6[ipShift + i := v[i]];
    }
    return Some(v6);
  }

  /** Reading an embedded address back. */
  function Extract(r: V6, bits: nat): V4
    requires bits < 104
  {
    var s := bits / 8;
    [r[Position(s, 0)], r[Position(s, 1)], r[Position(s, 2)], r[Position(s, 3)]]
  }

  lemma ExtractUndoesEmbedding(v: V4, p: Net, r: V6)
    requires p.bits < 104 && Embedded(v, p, r)
    ensures Extract(r, p.bits) == v
  {
    assert v == [v[0], v[1], v[2], v[3]];
  }

  /** Where the bytes go, length by length (section 2.2 of RFC 6052): byte 8 is left out. */
  lemma EmbeddedLayout(v: V4, p: Net, r: V6)
    requires LegalLength(p.bits) && Embedded(v, p, r)
    ensures p.bits == 32 ==> r == p.ip[..4] + v + p.ip[8..]
    ensures p.bits == 40 ==> r == p.ip[..5] + v[..3] + [p.ip[8], v[3]] + p.ip[10..]
    ensures p.bits == 48 ==> r == p.ip[..6] + v[..2] + [p.ip[8]] + v[2..] + p.ip[11..]
    ensures p.bits == 56 ==> r == p.ip[..7] + [v[0], p.ip[8]] + v[1..] + p.ip[12..]
    ensures p.bits == 64 ==> r == p.ip[..9] + v + p.ip[13..]
    ensures p.bits == 96 ==> r == p.ip[..12] + v
  {
  }

  /** Distinct addresses stay distinct, and the reserved byte 8 keeps the prefix's value. */
  lemma EmbeddingInjective(v: V4, w: V4, p: Net, r: V6, q: V6)
    requires p.bits < 104 && Embedded(v, p, r) && Embedded(w, p, q)
    ensures r == q <==> v == w
    ensures p.bits < 72 ==> r[8] == p.ip[8]
  {
    ExtractUndoesEmbedding(v, p, r);
    ExtractUndoesEmbedding(w, p, q);
    if v == w {
      var s := p.bits / 8;
      assert forall j :: 0 <= j < 16 && !Taken(s, 4, j) ==> r[j] == q[j];
      assert forall j :: 0 <= j < 16 ==> r[j] == q[j];
    }
  }

  // --- Discovery ---

  predicate WellKnown(a: Byte, b: Byte, c: Byte, d: Byte) {
    a == 192 && b == 0 && c == 0 && (d == 170 || d == 171)
  }

  /** End of the prefix in bytes, 0 if none: the tests in their order, longest prefix first. */
  function PrefixEnd(v: V6): nat {
    if WellKnown(v[12], v[13], v[14], v[15]) then 12
    else if WellKnown(v[9], v[10], v[11], v[12]) then 8
    else if WellKnown(v[7], v[9], v[10], v[11]) then 7
    else if WellKnown(v[6], v[7], v[9], v[10]) then 6
    else if WellKnown(v[5], v[6], v[7], v[9]) then 5
    else if WellKnown(v[4], v[5], v[6], v[7]) then 4
    else 0
  }

  function Detected(v: V6): Option<Net> {
    var e := PrefixEnd(v);
    if e == 0 then None else Some(Net(v[..e] + ZERO[e..], e * 8))
  }

  /** The well-known address sits under a prefix of `s` bytes. */
  predicate WellKnownAt(v: V6, s: nat)
    requires s <= 12
  {
    WellKnown(v[Position(s, 0)], v[Position(s, 1)], v[Position(s, 2)], v[Position(s, 3)])
  }

  predicate LegalEnd(s: nat) { s == 4 || s == 5 || s == 6 || s == 7 || s == 8 || s == 12 }

  /** The test that succeeds is the one for the longest prefix that fits. */
  lemma PrefixEndIsLongest(v: V6)
    ensures PrefixEnd(v) != 0 ==> LegalEnd(PrefixEnd(v)) && WellKnownAt(v, PrefixEnd(v))
    ensures forall s: nat :: LegalEnd(s) && WellKnownAt(v, s) ==> s <= PrefixEnd(v)
  {
  }

  /** With zeros after the embedded address, no longer prefix fits. */
  lemma NoLongerPrefix(v: V6, s: nat, t: nat)
    requires LegalEnd(s) && LegalEnd(t) && s < t && WellKnownAt(v, s)
    requires forall j :: s <= j < 16 && !Taken(s, 4, j) ==> v[j] == 0
    ensures !WellKnownAt(v, t)
  {
  }

  /** Discovery undoes embedding of either well-known address, for every legal prefix: no test for
      a longer prefix misfires. */
  lemma DiscoveryUndoesEmbedding(wka: V4, p: Net, r: V6)
    requires wka == WKA1 || wka == WKA2
    requires LegalLength(p.bits) && Masked(p) && Embedded(wka, p, r)
    ensures Detected(r) == Some(p)
  {
    var s := p.bits / 8;
    assert LegalEnd(s) && s * 8 == p.bits;
    assert PrefixEnd(r) == s by {
      assert WellKnownAt(r, s);
      PrefixEndIsLongest(r);
      if s < PrefixEnd(r) {
        NoLongerPrefix(r, s, PrefixEnd(r));
      }
    }
    assert r[..s] + ZERO[s..] == p.ip by {
      assert forall j :: 0 <= j < s ==> r[j] == p.ip[j];
    }
  }

  lemma CutAtIsMasked(v: V6, e: nat)
    requires LegalEnd(e)
    ensures |v[..e] + ZERO[e..]| == 16 && LegalLength(e * 8) && e * 8 / 8 == e
    ensures Masked(Net(v[..e] + ZERO[e..], e * 8)) && (v[..e] + ZERO[e..])[..e] == v[..e]
  {
    assert forall i :: 0 <= i < 16 ==> ZERO[i] == 0;
    assert forall i :: e <= i < 16 ==> (v[..e] + ZERO[e..])[i] == ZERO[i];
  }

  /** What discovery reports really is there: a legal masked prefix under which the address is a
      well-known one. */
  lemma DiscoverySound(v: V6)
    requires Detected(v).Some?
    ensures var p := Detected(v).value;
            LegalLength(p.bits) && Masked(p) && WellKnownAt(v, p.bits / 8) && v[..p.bits / 8] == p.ip[..p.bits / 8]
  {
    PrefixEndIsLongest(v);
    CutAtIsMasked(v, PrefixEnd(v));
  }

  /** The bytes of `p` that an embedded address leaves alone look like a longer prefix. */
  predicate LooksLonger(p: Net) {
    p.bits < 64 && (WellKnownAt(p.ip, 12) || (p.bits == 32 && WellKnownAt(p.ip, 8)))
  }

  /** The tests for longer prefixes see the same bytes of `p`, masked or not. */
  lemma LongerTestsSee(wka: V4, p: Net, r: V6)
    requires (wka == WKA1 || wka == WKA2) && LegalLength(p.bits) && Embedded(wka, p, r)
    ensures (exists t: nat :: LegalEnd(t) && p.bits / 8 < t && WellKnownAt(r, t)) <==> LooksLonger(p)
  {
    var s := p.bits / 8;
    assert LegalEnd(s);
    if LooksLonger(p) {
      if WellKnownAt(p.ip, 12) {
        assert LegalEnd(12) && WellKnownAt(r, 12);
      } else {
        assert LegalEnd(8) && WellKnownAt(r, 8);
      }
    }
  }

  /** Exactly which prefixes are discovered with their own length, for every legal prefix: those whose
      remaining bytes do not look like a longer one. A masked prefix never does. */
  lemma LengthDiscoveredIff(wka: V4, p: Net, r: V6)
    requires (wka == WKA1 || wka == WKA2) && LegalLength(p.bits) && Embedded(wka, p, r)
    ensures Detected(r).Some? && p.bits <= Detected(r).value.bits
    ensures Detected(r).value.bits == p.bits <==> !LooksLonger(p)
    ensures Masked(p) ==> !LooksLonger(p)
  {
    var s := p.bits / 8;
    assert LegalEnd(s) && s * 8 == p.bits && WellKnownAt(r, s);
    PrefixEndIsLongest(r);
    LongerTestsSee(wka, p, r);
    if s < PrefixEnd(r) {
      assert LegalEnd(PrefixEnd(r)) && WellKnownAt(r, PrefixEnd(r));
    }
  }

  /** The prefix itself comes back exactly if it is masked. */
  lemma DiscoveredIffMasked(wka: V4, p: Net, r: V6)
    requires (wka == WKA1 || wka == WKA2) && LegalLength(p.bits) && Embedded(wka, p, r)
    ensures Detected(r) == Some(p) <==> Masked(p)
  {
    if Masked(p) {
      DiscoveryUndoesEmbedding(wka, p, r);
    } else if Detected(r).Some? {
      DiscoverySound(r);
    }
  }

  /** A 32-bit prefix whose last bytes are those of a well-known address is taken for a 96-bit one. */
  lemma UnmaskedMisfires()
    ensures var p := Net(ZERO[12 := 192][15 := 170], 32);
            LooksLonger(p) && exists r: V6 :: Embedded(WKA1, p, r) && Detected(r).Some? && Detected(r).value.bits == 96
  {
    var p := Net(ZERO[12 := 192][15 := 170], 32);
    var r: V6 := [0, 0, 0, 0, 192, 0, 0, 170, 0, 0, 0, 0, 192, 0, 0, 170];
    assert forall j :: 0 <= j < 16 && !Taken(4, 4, j) ==> r[j] == p.ip[j];
    assert Embedded(WKA1, p, r);
    assert Detected(r).value.bits == 96;
  }

  /** One record of the answer; only AAAA records with 16 bytes matter. */
  datatype Answer = Aaaa(address: seq<Byte>) | OtherRecord

  function PrefixOf(a: Answer): Option<Net> {
    if a.Aaaa? && |a.address| == 16 then Detected(a.address) else None
  }

  /** The prefixes that the answers reveal. */
  function Revealed(answers: seq<Answer>): set<Net> {
    set a | a in answers && PrefixOf(a).Some? :: PrefixOf(a).value
  }

  lemma RevealedSnoc(answers: seq<Answer>, i: nat)
    requires i < |answers|
    ensures Revealed(answers[..i + 1]) ==
            Revealed(answers[..i]) + if PrefixOf(answers[i]).Some? then {PrefixOf(answers[i]).value} else {}
  {
    assert answers[..i + 1] == answers[..i] + [answers[i]];
    assert forall a :: a in answers[..i + 1] <==> a in answers[..i] || a == answers[i];
  }

  /** The answer loop: the distinct prefixes found, or an error if there is none. */
  method FetchPref64(answers: seq<Answer>) returns (prefixes: Option<seq<Net>>)
    ensures prefixes.None? <==> Revealed(answers) == {}
    ensures prefixes.Some? ==> Distinct(prefixes.value)
    ensures prefixes.Some? ==> forall p :: p in prefixes.value <==> p in Revealed(answers)
  {
    var uniq: set<Net> := {};
    var found: seq<Net> := [];
    for i := 0 to |answers|
      invariant Distinct(found)
      invariant forall p :: p in found <==> p in uniq
      invariant uniq == Revealed(answers[..i])
    {
      RevealedSnoc(answers, i);
      var prefix := PrefixOf(answers[i]);
      if prefix.Some? && prefix.value !in uniq {
        found := found + [prefix.value];
        uniq := uniq + {prefix.value};
      }
    }
    assert answers[..|answers|] == answers;
    if |found| == 0 { return None; }
    assert found[0] in uniq;
    return Some(found);
  }

  /** The record carries a well-known address under `p`. */
  predicate Advertises(a: Answer, p: Net) {
    a.Aaaa? && |a.address| == 16 && (Embedded(WKA1, p, a.address) || Embedded(WKA2, p, a.address))
  }

  lemma AdvertisedIsFound(a: Answer, p: Net)
    requires LegalLength(p.bits) && Masked(p) && Advertises(a, p)
    ensures PrefixOf(a) == Some(p)
  {
    DiscoveryUndoesEmbedding(if Embedded(WKA1, p, a.address) then WKA1 else WKA2, p, a.address);
  }

  /** A resolver that advertises its prefixes, in any order and among any other records, makes the
      client learn exactly those prefixes. */
  lemma ResolverPrefixesLearned(answers: seq<Answer>, ps: set<Net>)
    requires forall p :: p in ps ==> LegalLength(p.bits) && Masked(p)
    requires forall p :: p in ps ==> exists a :: a in answers && Advertises(a, p)
    requires forall a :: a in answers && PrefixOf(a).Some? ==> exists p :: p in ps && Advertises(a, p)
    ensures Revealed(answers) == ps
  {
    forall p | p in ps ensures exists a :: a in answers && PrefixOf(a) == Some(p) {
      var a :| a in answers && Advertises(a, p);
      AdvertisedIsFound(a, p);
    }
    forall p, a | a in answers && PrefixOf(a) == Some(p) ensures p in ps {
      var q :| q in ps && Advertises(a, q);
      AdvertisedIsFound(a, q);
    }
  }
}
