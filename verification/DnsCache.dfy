/**
 The response cache of `plugin_cache.go`. Records are heap objects: a stored
 message shares them with the message that is still on its way to the client.
 Times are nanoseconds.
 */
module DnsCache {
  import opened Names
  import opened Bytes

  const SECOND: int := 1_000_000_000
  const STALE_RESPONSE_TTL: int := 30 * SECOND

  const RCODE_SUCCESS: int := 0
  const RCODE_NAME_ERROR: int := 3
  const RCODE_NOT_AUTH: int := 9

  // --- Messages ---

  type Uint16 = n: int | 0 <= n < 0x1_0000
  type Uint32 = n: int | 0 <= n < 0x1_0000_0000

  datatype Question = Question(name: seq<Byte>, qtype: Uint16, qclass: Uint16)

  /** What a record says, apart from its TTL. */
  datatype RecordData = RecordData(isOpt: bool, content: int)

  class Record {
    const data: RecordData
    var ttl: Uint32

    constructor (data: RecordData, ttl: Uint32)
      ensures this.data == data && this.ttl == ttl
    {
      this.data, this.ttl := data, ttl;
    }
  }

  datatype Msg = Msg(
    id: Uint16, response: bool, compress: bool, rcode: int, truncated: bool, flags: int,
    question: seq<Question>, answer: seq<Record>, ns: seq<Record>, extra: seq<Record>)

  /** A response up to id, question, response and compress flags, and TTLs. */
  datatype Meaning = Meaning(
    rcode: int, truncated: bool, flags: int,
    answer: seq<RecordData>, ns: seq<RecordData>, extra: seq<RecordData>)

  function DataOf(records: seq<Record>): (r: seq<RecordData>)
    ensures |r| == |records|
  {
    seq(|records|, i requires 0 <= i < |records| => records[i].data)
  }

  function MeaningOf(m: Msg): Meaning {
    Meaning(m.rcode, m.truncated, m.flags, DataOf(m.answer), DataOf(m.ns), DataOf(m.extra))
  }

  function TtlsOf(records: seq<Record>): seq<Uint32>
    reads records
  {
    seq(|records|, i requires 0 <= i < |records| reads records => records[i].ttl)
  }

  // --- The cache key ---

  function FoldByte(b: Byte): Byte { if 65 <= b <= 90 then b + 32 else b }

  function FoldCase(name: seq<Byte>): (r: seq<Byte>)
    ensures |r| == |name|
  {
    seq(|name|, i requires 0 <= i < |name| => FoldByte(name[i]))
  }

  method NormalizeRawQName(name: array<Byte>)
    modifies name
    ensures name[..] == FoldCase(old(name[..]))
  {
    for i := 0 to name.Length
      invariant forall k :: 0 <= k < i ==> name[k] == FoldByte(old(name[k]))
      invariant forall k :: i <= k < name.Length ==> name[k] == old(name[k])
    {
      var c := name[i];
      if 65 <= c <= 90 {
        name[i] := c + 32;
      }
    }
  }

  /** The bytes that are hashed. The hash is taken to be collision-free. */
  type Key = seq<Byte>

  function KeyOf(q: Question, dnssec: bool): Key {
    [q.qtype % 256, q.qtype / 256, q.qclass % 256, q.qclass / 256, if dnssec then 1 else 0] + FoldCase(q.name)
  }

  method ComputeCacheKey(q: Question, dnssec: bool) returns (key: Key)
    ensures key == KeyOf(q, dnssec)
  {
    var raw := new Byte[|q.name|](i requires 0 <= i < |q.name| => q.name[i]);
    assert raw[..] == q.name;
    NormalizeRawQName(raw);
    key := [q.qtype % 256, q.qtype / 256, q.qclass % 256, q.qclass / 256, if dnssec then 1 else 0] + raw[..];
  }

  /** The same byte, or the two cases of one ASCII letter. */
  predicate SameByte(a: Byte, b: Byte) {
    a == b || (65 <= a <= 90 && b == a + 32) || (65 <= b <= 90 && a == b + 32)
  }

  predicate SameName(p: seq<Byte>, q: seq<Byte>) {
    |p| == |q| && forall i :: 0 <= i < |p| ==> SameByte(p[i], q[i])
  }

  lemma FoldIdentifies(p: seq<Byte>, q: seq<Byte>)
    ensures FoldCase(p) == FoldCase(q) <==> SameName(p, q)
  {
    if FoldCase(p) == FoldCase(q) {
      forall i | 0 <= i < |p| ensures SameByte(p[i], q[i]) {
        assert FoldCase(p)[i] == FoldCase(q)[i];
      }
    }
  }

  /** Two queries share an entry exactly when type, class and DNSSEC flag agree, and the names up to the
      case of ASCII letters. */
  lemma KeyIdentifiesQuestion(p: Question, q: Question, dp: bool, dq: bool)
    ensures KeyOf(p, dp) == KeyOf(q, dq) <==>
            p.qtype == q.qtype && p.qclass == q.qclass && dp == dq && SameName(p.name, q.name)
  {
    var k, l := KeyOf(p, dp), KeyOf(q, dq);
    assert k[5..] == FoldCase(p.name) && l[5..] == FoldCase(q.name);
    FoldIdentifies(p.name, q.name);
    if k == l {
      assert k[0] == l[0] && k[1] == l[1] && k[2] == l[2] && k[3] == l[3] && k[4] == l[4];
    }
  }

  // --- TTLs ---

  /** Smallest of `start` and the given TTLs. */
  function Least(ttls: seq<Uint32>, start: Uint32): (r: Uint32)
    ensures r <= start && forall i :: 0 <= i < |ttls| ==> r <= ttls[i]
    ensures r == start || r in ttls
  {
    if ttls == [] then start
    else
      var r := Least(ttls[..|ttls| - 1], start);
      if ttls[|ttls| - 1] < r then ttls[|ttls| - 1] else r
  }

  datatype Limits = Limits(min: Uint32, max: Uint32, negMin: Uint32, negMax: Uint32)

  /** Seconds a response may live. */
  function Lifetime(rcode: int, answer: seq<Uint32>, ns: seq<Uint32>, l: Limits): (r: Uint32)
    ensures r <= Max(Max(l.min, l.max), Max(l.negMin, l.negMax))
  {
    if (rcode != RCODE_SUCCESS && rcode != RCODE_NAME_ERROR) || (answer == [] && ns == []) then l.negMin
    else
      var section := if answer != [] then answer else ns;
      if rcode == RCODE_SUCCESS then Max(l.min, Least(section, l.max))
      else Max(l.negMin, Least(section, l.negMax))
  }

  predicate AllAtLeast(ttls: seq<Uint32>, t: int) { forall i :: 0 <= i < |ttls| ==> t <= ttls[i] }

  /** What it takes to live for `t` seconds: the lower limit allows it, or the upper limit and every record of
      the section that counts do. */
  predicate AtLeast(rcode: int, answer: seq<Uint32>, ns: seq<Uint32>, l: Limits, t: int) {
    if (rcode != 0 && rcode != 3) || (|answer| == 0 && |ns| == 0) then t <= l.negMin
    else
      var (lo, hi) := if rcode == 0 then (l.min, l.max) else (l.negMin, l.negMax);
      t <= lo || (t <= hi && AllAtLeast(if |answer| > 0 then answer else ns, t))
  }

  lemma LeastAtLeast(ttls: seq<Uint32>, start: Uint32, t: int)
    ensures t <= Least(ttls, start) <==> t <= start && AllAtLeast(ttls, t)
  {
    var r := Least(ttls, start);
    if r in ttls {
      var i :| 0 <= i < |ttls| && ttls[i] == r;
    }
  }

  /** The lifetime, exactly. */
  lemma LifetimeIs(rcode: int, answer: seq<Uint32>, ns: seq<Uint32>, l: Limits, t: int)
    ensures t <= Lifetime(rcode, answer, ns, l) <==> AtLeast(rcode, answer, ns, l, t)
  {
    var section := if |answer| > 0 then answer else ns;
    LeastAtLeast(section, l.max, t);
    LeastAtLeast(section, l.negMax, t);
  }

  /** Between its bounds, the lifetime is a record's own TTL and exceeds no record's. */
  lemma LifetimeIsClamped(rcode: int, answer: seq<Uint32>, ns: seq<Uint32>, l: Limits)
    requires rcode == RCODE_SUCCESS || rcode == RCODE_NAME_ERROR
    ensures var r := Lifetime(rcode, answer, ns, l);
            var lo, hi := if rcode == RCODE_SUCCESS then l.min else l.negMin,
                          if rcode == RCODE_SUCCESS then l.max else l.negMax;
            var section := if answer != [] then answer else ns;
            && (section == [] ==> r == l.negMin)
            && (section != [] ==>
                  && lo <= r <= Max(lo, hi)
                  && (r == lo || (r <= hi && (r == hi || r in section) &&
                                  forall i :: 0 <= i < |section| ==> r <= section[i])))
  {
  }

  method GetMinTTL(m: Msg, l: Limits) returns (ttl: Uint32)
    ensures ttl == Lifetime(m.rcode, TtlsOf(m.answer), TtlsOf(m.ns), l)
  {
    if (m.rcode != RCODE_SUCCESS && m.rcode != RCODE_NAME_ERROR) || (|m.answer| <= 0 && |m.ns| <= 0) {
      return l.negMin;
    }
    var start := if m.rcode == RCODE_SUCCESS then l.max else l.negMax;
    ttl := start;
    var section := if |m.answer| > 0 then m.answer else m.ns;
    ghost var ttls := TtlsOf(section);
    for i := 0 to |section|
      invariant ttl == Least(ttls[..i], start)
    {
      assert ttls[..i + 1][..i] == ttls[..i];
      if section[i].ttl < ttl {
        ttl := section[i].ttl;
      }
    }
    assert ttls[..|section|] == ttls;
    if m.rcode == RCODE_SUCCESS {
      if ttl < l.min { ttl := l.min; }
    } else {
      if ttl < l.negMin { ttl := l.negMin; }
    }
  }

  /** The TTL that `updateTTL` writes for a remaining life. */
  function RoundedTtl(until: int): Uint32 {
    if until <= 0 then 0
    else
      var ttl := (until / SECOND) % UINT32;
      if until - ttl * SECOND >= SECOND / 2 then (ttl + 1) % UINT32 else ttl
  }

  /** For lives a cache entry can have, this is rounding to the nearest second, half up, with
      no wrap-around. */
  lemma RoundedTtlIsNearest(until: int)
    requires until <= (UINT32 - 1) * SECOND
    ensures until <= 0 ==> RoundedTtl(until) == 0
    ensures until > 0 ==> -(SECOND / 2) < RoundedTtl(until) * SECOND - until <= SECOND / 2
  {
  }

  lemma RoundedTtlMonotone(a: int, b: int)
    requires a <= b <= (UINT32 - 1) * SECOND
    ensures RoundedTtl(a) <= RoundedTtl(b)
  {
  }

  lemma RoundedTtlOfWhole(ttl: Uint32)
    ensures RoundedTtl(ttl * SECOND) == ttl
  {
  }

  function Writable(m: Msg): set<Record> {
    (set r | r in m.answer) + (set r | r in m.ns) + (set r | r in m.extra)
  }

  /** Every record that `updateTTL` touches has the given TTL. */
  ghost predicate AllTtls(m: Msg, ttl: Uint32)
    reads Writable(m)
  {
    && (forall r :: r in m.answer ==> r.ttl == ttl)
    && (forall r :: r in m.ns ==> r.ttl == ttl)
    && (forall r :: r in m.extra && !r.data.isOpt ==> r.ttl == ttl)
  }

  predicate LeftAlone(m: Msg, r: Record) {
    r.data.isOpt && r !in m.answer && r !in m.ns
  }

  /** The TTL fields of the OPT records, which hold flags and are left alone. */
  ghost function OptFields(m: Msg): (f: seq<Option<Uint32>>)
    reads m.extra
    ensures |f| == |m.extra|
    ensures forall i :: 0 <= i < |f| ==> f[i] == if LeftAlone(m, m.extra[i]) then Some(m.extra[i].ttl) else None
  {
    seq(|m.extra|, i requires 0 <= i < |m.extra| reads m.extra =>
      if LeftAlone(m, m.extra[i]) then Some(m.extra[i].ttl) else None)
  }

  method SetTtls(records: seq<Record>, ttl: Uint32, skipOpt: bool)
    modifies records
    ensures forall r :: r in records && !(skipOpt && r.data.isOpt) ==> r.ttl == ttl
    ensures forall r :: r in records && skipOpt && r.data.isOpt ==> r.ttl == old(r.ttl)
    ensures forall r :: r in records ==> r.ttl == ttl || r.ttl == old(r.ttl)
  {
    for i := 0 to |records|
      invariant forall k :: 0 <= k < i && !(skipOpt && records[k].data.isOpt) ==> records[k].ttl == ttl
      invariant forall r :: r in records && skipOpt && r.data.isOpt ==> r.ttl == old(r.ttl)
      invariant forall r :: r in records ==> r.ttl == ttl || r.ttl == old(r.ttl)
    {
      if !(skipOpt && records[i].data.isOpt) {
        records[i].ttl := ttl;
      }
    }
  }

  method UpdateTTL(m: Msg, expiration: int, now: int)
    modifies Writable(m)
    ensures AllTtls(m, RoundedTtl(expiration - now))
    ensures OptFields(m) == old(OptFields(m))
  {
    var ttl := RoundedTtl(expiration - now);
    SetTtls(m.answer, ttl, false);
    SetTtls(m.ns, ttl, false);
    SetTtls(m.extra, ttl, true);
  }

  method CopyRecords(records: seq<Record>) returns (copies: seq<Record>)
    ensures DataOf(copies) == DataOf(records)
    ensures forall r :: r in copies ==> fresh(r)
    ensures TtlsOf(copies) == TtlsOf(records)
  {
    copies := [];
    for i := 0 to |records|
      invariant |copies| == i
      invariant forall k :: 0 <= k < i ==>
                  fresh(copies[k]) && copies[k].data == records[k].data && copies[k].ttl == records[k].ttl
    {
      var r := new Record(records[i].data, records[i].ttl);
      copies := copies + [r];
    }
  }

  /** A deep copy: the same content and TTLs in new records, none of them in two sections. */
  method CopyMsg(m: Msg) returns (c: Msg)
    ensures MeaningOf(c) == MeaningOf(m) && c.question == m.question
    ensures forall r :: r in Writable(c) ==> fresh(r)
    ensures TtlsOf(c.answer) == TtlsOf(m.answer) && TtlsOf(c.ns) == TtlsOf(m.ns) && TtlsOf(c.extra) == TtlsOf(m.extra)
    ensures forall r :: r in c.extra ==> r !in c.answer && r !in c.ns
  {
    var answer := CopyRecords(m.answer);
    var ns := CopyRecords(m.ns);
    var extra := CopyRecords(m.extra);
    c := m.(answer := answer, ns := ns, extra := extra);
  }

  // --- The reference: last response per question ---

  datatype Entry = Entry(meaning: Meaning, stored: int, ttl: Uint32)
  {
    function Expiration(): int { stored + ttl * SECOND }
  }

  /** The clock is read for the freshness test, for the stale expiration, and for the TTLs. */
  datatype Clock = Clock(t0: int, t1: int, t2: int)

  /** What a lookup hands out, with the TTL written into the records. */
  datatype Served = Nothing | FreshTtl(ttl: Uint32) | StaleTtl(ttl: Uint32)

  datatype Event =
    | Store(key: Key, meaning: Meaning, at: int, ttl: Uint32)
    | Evict(key: Key)
    | Lookup(key: Key, clock: Clock, served: Served)

  /** One event on a plain map. */
  function Effect(m: map<Key, Entry>, e: Event): map<Key, Entry> {
    match e
    case Store(k, meaning, at, ttl) => m[k := Entry(meaning, at, ttl)]
    case Evict(k) => m - {k}
    case Lookup(_, _, _) => m
  }

  /** What a plain map would hold after the events. */
  function Replay(events: seq<Event>): map<Key, Entry> {
    if events == [] then map[] else Effect(Replay(events[..|events| - 1]), events[|events| - 1])
  }

  lemma {:induction false} ReplaySnoc(events: seq<Event>, e: Event)
    ensures Replay(events + [e]) == Effect(Replay(events), e)
  {
    assert (events + [e])[..|events|] == events;
  }

  /** What a lookup owes to the entries in front of it. */
  function Owed(entries: map<Key, Entry>, key: Key, c: Clock): Served {
    if key !in entries then Nothing
    else if c.t0 <= entries[key].Expiration() then FreshTtl(RoundedTtl(entries[key].Expiration() - c.t2))
    else StaleTtl(StaleTtlOf(c))
  }

  /** Every logged outcome is the one owed at its place in the log. */
  ghost predicate Honest(events: seq<Event>) {
    events == [] ||
    var init, e := events[..|events| - 1], events[|events| - 1];
    Honest(init) && (e.Lookup? ==> e.served == Owed(Replay(init), e.key, e.clock))
  }

  lemma {:induction false} HonestSnoc(events: seq<Event>, e: Event)
    requires Honest(events) && (e.Lookup? ==> e.served == Owed(Replay(events), e.key, e.clock))
    ensures Honest(events + [e])
  {
    assert (events + [e])[..|events|] == events;
  }

  lemma {:induction false} HonestAt(events: seq<Event>, j: int)
    requires Honest(events) && 0 <= j < |events| && events[j].Lookup?
    ensures events[j].served == Owed(Replay(events[..j]), events[j].key, events[j].clock)
  {
    var n := |events| - 1;
    if j < n {
      HonestAt(events[..n], j);
      assert events[..n][..j] == events[..j];
    }
  }

  /** `i` is the last store under `key`, and the entry was not evicted since. */
  predicate LastStore(events: seq<Event>, key: Key, i: int) {
    && 0 <= i < |events| && events[i].Store? && events[i].key == key
    && forall j :: i < j < |events| ==> !events[j].Lookup? ==> events[j].key != key
  }

  /** An entry is present exactly if it was stored and not evicted since, and it is the last one stored. */
  lemma {:induction false} HitIsLastStore(events: seq<Event>, key: Key)
    ensures key in Replay(events) <==> exists i :: LastStore(events, key, i)
    ensures forall i :: LastStore(events, key, i) ==>
              key in Replay(events) &&
              Replay(events)[key] == Entry(events[i].meaning, events[i].at, events[i].ttl)
  {
    if events != [] {
      var n := |events| - 1;
      var init, e := events[..n], events[n];
      HitIsLastStore(init, key);
      forall i ensures 0 <= i < n && (e.Lookup? || e.key != key) ==>
                         (LastStore(init, key, i) <==> LastStore(events, key, i)) {
        if 0 <= i < n && (e.Lookup? || e.key != key) {
          assert forall j :: i < j < n ==> init[j] == events[j];
        }
      }
      if e.Store? && e.key == key {
        assert LastStore(events, key, n);
      } else if i :| LastStore(init, key, i) {
        assert e.Lookup? || e.key != key ==> LastStore(events, key, i);
      }
    }
  }

  /** The TTL of a stale answer is at most 30, and 30 iff the clock moved by no more than half a second
      while it was computed. */
  lemma StaleTtlIsThirty(c: Clock)
    requires c.t1 <= c.t2
    ensures StaleTtlOf(c) <= 30 && (StaleTtlOf(c) == 30 <==> c.t2 - c.t1 <= SECOND / 2)
  {
  }

  /** What a logged lookup handed out when `i` is the last store in front of it: a stale answer iff the
      first clock reading is past the expiration. */
  lemma {:induction false} OutcomeOfHit(events: seq<Event>, i: int, j: int)
    requires Honest(events) && 0 <= j < |events| && events[j].Lookup? && LastStore(events[..j], events[j].key, i)
    ensures var expiration, c := events[i].at + events[i].ttl * SECOND, events[j].clock;
            events[j].served ==
              if c.t0 > expiration then StaleTtl(StaleTtlOf(c)) else FreshTtl(RoundedTtl(expiration - c.t2))
  {
    HonestAt(events, j);
    HitIsLastStore(events[..j], events[j].key);
    assert events[..j][i] == events[i];
  }

  /** A logged lookup handed out nothing iff nothing was stored, or it was evicted since. */
  lemma {:induction false} OutcomeOfMiss(events: seq<Event>, j: int)
    requires Honest(events) && 0 <= j < |events| && events[j].Lookup?
    ensures events[j].served.Nothing? <==> !exists i :: LastStore(events[..j], events[j].key, i)
  {
    HonestAt(events, j);
    HitIsLastStore(events[..j], events[j].key);
  }

  /** Without a store in between, a lookup that finds an entry sees the store seen before. */
  lemma {:induction false} StillLastStore(events: seq<Event>, key: Key, i: int, j: int, k: int)
    requires 0 <= j <= k <= |events| && LastStore(events[..j], key, i) && key in Replay(events[..k])
    requires forall n :: j <= n < k && events[n].Store? ==> events[n].key != key
    ensures LastStore(events[..k], key, i)
  {
    HitIsLastStore(events[..k], key);
    var b :| LastStore(events[..k], key, b);
    assert events[..k][b] == events[b] && events[..k][i] == events[..j][i] == events[i];
    assert b < j;
    assert events[..j][b] == events[b];
  }

  lemma {:induction false} FreshOutcomes(events: seq<Event>, i: int, j: int, k: int)
    requires Honest(events) && 0 <= j <= k < |events|
    requires events[j].Lookup? && events[j].served.FreshTtl? && events[k].Lookup? && events[k].served.FreshTtl?
    requires events[j].key == events[k].key && LastStore(events[..j], events[j].key, i)
    requires forall n :: j < n < k && events[n].Store? ==> events[n].key != events[j].key
    ensures var expiration := events[i].at + events[i].ttl * SECOND;
            && events[j].served.ttl == RoundedTtl(expiration - events[j].clock.t2)
            && events[k].served.ttl == RoundedTtl(expiration - events[k].clock.t2)
  {
    OutcomeOfHit(events, i, j);
    HonestAt(events, k);
    StillLastStore(events, events[j].key, i, j, k);
    OutcomeOfHit(events, i, k);
  }

  lemma LaterMeansLess(stored: int, ttl: Uint32, t: int, later: int)
    requires stored <= t <= later
    ensures RoundedTtl(stored + ttl * SECOND - later) <= RoundedTtl(stored + ttl * SECOND - t) <= ttl
  {
    RoundedTtlMonotone(stored + ttl * SECOND - later, stored + ttl * SECOND - t);
    RoundedTtlMonotone(stored + ttl * SECOND - t, ttl * SECOND);
    RoundedTtlOfWhole(ttl);
  }

  /** Over every log, a fresh TTL stays within the lifetime of its entry and does not grow until the
      next store, if the clock does not go back. */
  lemma {:induction false} FreshTtlShrinks(events: seq<Event>, i: int, j: int, k: int)
    requires Honest(events) && 0 <= j <= k < |events|
    requires events[j].Lookup? && events[j].served.FreshTtl? && events[k].Lookup? && events[k].served.FreshTtl?
    requires events[j].key == events[k].key && LastStore(events[..j], events[j].key, i)
    requires forall n :: j < n < k && events[n].Store? ==> events[n].key != events[j].key
    requires events[i].at <= events[j].clock.t2 <= events[k].clock.t2
    ensures events[k].served.ttl <= events[j].served.ttl <= events[i].ttl
  {
    FreshOutcomes(events, i, j, k);
    LaterMeansLess(events[i].at, events[i].ttl, events[j].clock.t2, events[k].clock.t2);
  }

  // --- Stale answers that are stored again ---

  /** Lifetime of a response whose records all carry `ttl`. */
  function UniformLifetime(m: Meaning, ttl: Uint32, l: Limits): Uint32 {
    if m.rcode == RCODE_NOT_AUTH || (m.answer == [] && m.ns == []) then l.negMin
    else if m.rcode == RCODE_SUCCESS then Max(l.min, Min(ttl, l.max))
    else Max(l.negMin, Min(ttl, l.negMax))
  }

  lemma LeastOfUniform(ttls: seq<Uint32>, ttl: Uint32, start: Uint32)
    requires ttls != [] && forall i :: 0 <= i < |ttls| ==> ttls[i] == ttl
    ensures Least(ttls, start) == Min(ttl, start)
  {
    assert Least(ttls, start) <= ttls[0];
  }

  lemma LifetimeOfUniform(m: Msg, answer: seq<Uint32>, ns: seq<Uint32>, ttl: Uint32, l: Limits)
    requires Cacheable(m) && |answer| == |m.answer| && |ns| == |m.ns|
    requires (forall i :: 0 <= i < |answer| ==> answer[i] == ttl) && (forall i :: 0 <= i < |ns| ==> ns[i] == ttl)
    ensures Lifetime(m.rcode, answer, ns, l) == UniformLifetime(MeaningOf(m), ttl, l)
  {
    if answer != [] {
      LeastOfUniform(answer, ttl, l.max);
      LeastOfUniform(answer, ttl, l.negMax);
    } else if ns != [] {
      LeastOfUniform(ns, ttl, l.max);
      LeastOfUniform(ns, ttl, l.negMax);
    }
  }

  /** The TTL that a client is sent with a response stored at `now` and rewritten at `later`. */
  function SentTtl(life: Uint32, now: int, later: int): Uint32 { RoundedTtl(now + life * SECOND - later) }

  /** What a client is sent is the lifetime if the rewrite follows within half a second, and in general 30
      exactly if lifetime and clock together round to it. */
  lemma SentTtlIs(life: Uint32, now: int, later: int)
    requires now <= later
    ensures later - now <= SECOND / 2 ==> SentTtl(life, now, later) == life
    ensures SentTtl(life, now, later) == 30 <==>
            -(SECOND / 2) <= (life - 30) * SECOND - (later - now) < SECOND / 2
  {
  }

  /** The limits that apply to the code of the response let 30 seconds through. */
  predicate LimitsAllowThirty(m: Meaning, l: Limits) {
    if m.rcode == RCODE_NOT_AUTH || (m.answer == [] && m.ns == []) then l.negMin == 30
    else if m.rcode == RCODE_SUCCESS then l.min == 30 || l.min < 30 <= l.max
    else l.negMin == 30 || l.negMin < 30 <= l.negMax
  }

  /** When a client is sent the 30 seconds of a stale answer: if the clock moves by at most half a second
      from the stale expiration to the TTLs, and again from the second store to its TTLs, exactly if the
      limits let 30 through. */
  lemma StaleTtlSentIff(m: Meaning, l: Limits, c: Clock, now: int, later: int)
    requires CacheableMeaning(m)
    requires 0 <= c.t2 - c.t1 <= SECOND / 2 && 0 <= later - now <= SECOND / 2
    ensures SentTtl(UniformLifetime(m, StaleTtlOf(c), l), now, later) == 30 <==> LimitsAllowThirty(m, l)
  {
    StaleTtlIsThirty(c);
    SentTtlIs(UniformLifetime(m, StaleTtlOf(c), l), now, later);
  }

  const DEFAULT_LIMITS: Limits := Limits(60, 86400, 60, 600)

  /** With the limits that are configured by default, every stale answer is sent with 60 seconds. */
  lemma StaleTtlByDefault(m: Meaning, c: Clock, now: int, later: int)
    requires CacheableMeaning(m) && c.t1 <= c.t2 && 0 <= later - now <= SECOND / 2
    ensures SentTtl(UniformLifetime(m, StaleTtlOf(c), DEFAULT_LIMITS), now, later) == 60
  {
    StaleTtlIsThirty(c);
    SentTtlIs(UniformLifetime(m, StaleTtlOf(c), DEFAULT_LIMITS), now, later);
  }

  // --- The implementation ---

  datatype CachedResponse = CachedResponse(expiration: int, msg: Msg)

  predicate CacheableMeaning(m: Meaning) {
    (m.rcode == RCODE_SUCCESS || m.rcode == RCODE_NAME_ERROR || m.rcode == RCODE_NOT_AUTH) && !m.truncated
  }

  predicate Cacheable(m: Msg) { CacheableMeaning(MeaningOf(m)) }

  /** Responses of the codes 0, 3 and 9 that are not truncated are kept. */
  lemma CacheableIff(m: Msg)
    ensures Cacheable(m) <==> m.rcode in {0, 3, 9} && !m.truncated
  {
  }

  /** Responses of the same content: code, flags, and all the records in their order, up to TTLs. */
  lemma SameContentIff(a: Msg, b: Msg)
    ensures MeaningOf(a) == MeaningOf(b) <==>
            && a.rcode == b.rcode && a.truncated == b.truncated && a.flags == b.flags
            && SameRecords(a.answer, b.answer) && SameRecords(a.ns, b.ns) && SameRecords(a.extra, b.extra)
  {
    SameRecordsIff(a.answer, b.answer);
    SameRecordsIff(a.ns, b.ns);
    SameRecordsIff(a.extra, b.extra);
  }

  predicate SameRecords(a: seq<Record>, b: seq<Record>) {
    |a| == |b| && forall i :: 0 <= i < |a| ==> a[i].data == b[i].data
  }

  lemma SameRecordsIff(a: seq<Record>, b: seq<Record>)
    ensures DataOf(a) == DataOf(b) <==> SameRecords(a, b)
  {
    if DataOf(a) == DataOf(b) {
      forall i | 0 <= i < |a| ensures a[i].data == b[i].data {
        assert DataOf(a)[i] == DataOf(b)[i];
      }
    }
  }

  datatype Answer = NoAnswer | Fresh(msg: Msg) | Stale(msg: Msg)

  /** The answer is the logged one: its records carry the logged TTL. */
  ghost predicate Shows(a: Answer, served: Served)
    reads if a.NoAnswer? then {} else Writable(a.msg)
  {
    match a
    case NoAnswer => served.Nothing?
    case Fresh(msg) => served.FreshTtl? && AllTtls(msg, served.ttl)
    case Stale(msg) => served.StaleTtl? && AllTtls(msg, served.ttl)
  }

  /** The cache holds what the plain map holds, whatever became of the TTLs of shared records. */
  ghost predicate Agrees(cached: map<Key, CachedResponse>, entries: map<Key, Entry>) {
    && cached.Keys == entries.Keys
    && forall k :: k in cached ==>
         && MeaningOf(cached[k].msg) == entries[k].meaning
         && CacheableMeaning(entries[k].meaning)
         && cached[k].expiration == entries[k].Expiration()
  }

  lemma AgreesAfterStore(cached: map<Key, CachedResponse>, entries: map<Key, Entry>, key: Key, m: Msg,
                         now: int, ttl: Uint32)
    requires Agrees(cached, entries) && Cacheable(m)
    ensures Agrees(cached[key := CachedResponse(now + ttl * SECOND, m)],
                   Effect(entries, Store(key, MeaningOf(m), now, ttl)))
  {
  }

  class CachedResponses {
    var cache: Option<map<Key, CachedResponse>>
    ghost var history: seq<Event>

    function Entries(): map<Key, CachedResponse>
      reads this
    {
      if cache.Some? then cache.value else map[]
    }

    /** The cache agrees with the plain map, and the log of what was handed out is honest. */
    ghost predicate Valid()
      reads this
    {
      Honest(history) && Agrees(Entries(), Replay(history))
    }

    constructor ()
      ensures Valid() && history == []
    {
      cache, history := None, [];
    }

    ghost method Log(e: Event)
      requires Honest(history) && (e.Lookup? ==> e.served == Owed(Replay(history), e.key, e.clock))
      modifies this`history
      ensures history == old(history) + [e] && Honest(history)
      ensures Replay(history) == Effect(Replay(old(history)), e)
    {
      HonestSnoc(history, e);
      ReplaySnoc(history, e);
      history := history + [e];
    }

    /** The replacement policy may drop any entry. */
    method EvictOne(key: Key)
      requires Valid()
      modifies this
      ensures Valid() && history == old(history) + [Evict(key)]
    {
      if cache.Some? { cache := Some(cache.value - {key}); }
      Log(Evict(key));
    }

    method Add(key: Key, m: Msg, now: int, ttl: Uint32)
      requires Valid() && cache.Some? && Cacheable(m)
      modifies this
      ensures Valid() && cache.Some? && history == old(history) + [Store(key, MeaningOf(m), now, ttl)]
    {
      AgreesAfterStore(cache.value, Replay(history), key, m, now, ttl);
      cache := Some(cache.value[key := CachedResponse(now + ttl * SECOND, m)]);
      Log(Store(key, MeaningOf(m), now, ttl));
    }

    /** The shared records are rewritten after the store. */
    method StoreAndRewrite(key: Key, m: Msg, now: int, ttl: Uint32, later: int)
      requires Valid() && cache.Some? && Cacheable(m)
      modifies this, Writable(m)
      ensures Valid() && history == old(history) + [Store(key, MeaningOf(m), now, ttl)]
      ensures AllTtls(m, RoundedTtl(now + ttl * SECOND - later))
      ensures OptFields(m) == old(OptFields(m))
    {
      Add(key, m, now, ttl);
      UpdateTTL(m, now + ttl * SECOND, later);
    }

    /** The cache is created on the first store; a size that is not positive is an error. */
    method EnsureCache(cacheSize: int) returns (ok: bool)
      requires Valid()
      modifies this`cache
      ensures Valid() && (ok <==> old(cache).Some? || cacheSize > 0) && (ok ==> cache.Some?)
    {
      if cache.None? {
        if cacheSize <= 0 { return false; }
        cache := Some(map[]);
      }
      return true;
    }

    method StoreLocked(key: Key, m: Msg, cacheSize: int, now: int, ttl: Uint32, later: int) returns (ok: bool)
      requires Valid() && Cacheable(m)
      modifies this, Writable(m)
      ensures Valid() && (ok <==> old(cache).Some? || cacheSize > 0)
      ensures !ok ==> history == old(history) && unchanged(Writable(m))
      ensures ok ==> history == old(history) + [Store(key, MeaningOf(m), now, ttl)] &&
                     AllTtls(m, RoundedTtl(now + ttl * SECOND - later))
      ensures OptFields(m) == old(OptFields(m))
    {
      ok := EnsureCache(cacheSize);
      if ok {
        StoreAndRewrite(key, m, now, ttl, later);
      }
    }

    /** Under which key, and for how long, a response is stored. */
    method KeyAndLifetime(m: Msg, dnssec: bool, l: Limits) returns (key: Key, ttl: Uint32)
      requires m.question != []
      ensures key == KeyOf(m.question[0], dnssec)
      ensures ttl == Lifetime(m.rcode, TtlsOf(m.answer), TtlsOf(m.ns), l)
    {
      key := ComputeCacheKey(m.question[0], dnssec);
      ttl := GetMinTTL(m, l);
    }

    method StoreCacheable(m: Msg, dnssec: bool, cacheSize: int, l: Limits, now: int, later: int) returns (ok: bool)
      requires Valid() && m.question != [] && Cacheable(m)
      modifies this, Writable(m)
      ensures Valid() && (ok <==> old(cache).Some? || cacheSize > 0)
      ensures !ok ==> history == old(history) && unchanged(Writable(m))
      ensures ok ==>
                var ttl := old(Lifetime(m.rcode, TtlsOf(m.answer), TtlsOf(m.ns), l));
                && history == old(history) + [Store(KeyOf(m.question[0], dnssec), MeaningOf(m), now, ttl)]
                && AllTtls(m, RoundedTtl(now + ttl * SECOND - later))
      ensures OptFields(m) == old(OptFields(m))
    {
      var key, ttl := KeyAndLifetime(m, dnssec, l);
      ok := StoreLocked(key, m, cacheSize, now, ttl, later);
    }

    /** `PluginCacheResponse.Eval`: `now` is read when the expiration is set, `later` when the
        TTLs of the outgoing message are rewritten. */
    method Respond(m: Msg, dnssec: bool, cacheSize: int, l: Limits, now: int, later: int) returns (ok: bool)
      requires Valid() && m.question != []
      modifies this, Writable(m)
      ensures Valid()
      ensures ok <==> !Cacheable(m) || old(cache).Some? || cacheSize > 0
      ensures !(ok && Cacheable(m)) ==> history == old(history) && unchanged(Writable(m))
      ensures ok && Cacheable(m) ==>
                var ttl := old(Lifetime(m.rcode, TtlsOf(m.answer), TtlsOf(m.ns), l));
                && history == old(history) + [Store(KeyOf(m.question[0], dnssec), MeaningOf(m), now, ttl)]
                && AllTtls(m, RoundedTtl(now + ttl * SECOND - later))
      ensures OptFields(m) == old(OptFields(m))
    {
      if m.rcode != RCODE_SUCCESS && m.rcode != RCODE_NAME_ERROR && m.rcode != RCODE_NOT_AUTH {
        return true;
      }
      if m.truncated {
        return true;
      }
      ok := StoreCacheable(m, dnssec, cacheSize, l, now, later);
    }

    /** A copy of the cached message for this query, before its TTLs are set. */
    method Synthesize(cached: Msg, m: Msg) returns (synth: Msg)
      ensures MeaningOf(synth) == MeaningOf(cached)
      ensures synth.id == m.id && synth.question == m.question && synth.response && synth.compress
      ensures forall r :: r in Writable(synth) ==> fresh(r)
      ensures forall r :: r in synth.extra ==> r !in synth.answer && r !in synth.ns
      ensures TtlsOf(synth.extra) == TtlsOf(cached.extra)
    {
      var copy := CopyMsg(cached);
      synth := copy.(id := m.id, response := true, compress := true, question := m.question);
      assert Writable(synth) == Writable(copy);
    }

    /** The TTLs of a synthesised answer are set. */
    method Date(synth: Msg, expiration: int, now: int, ghost fields: seq<Uint32>)
      requires (forall r :: r in synth.extra ==> r !in synth.answer && r !in synth.ns) && TtlsOf(synth.extra) == fields
      modifies Writable(synth)
      ensures AllTtls(synth, RoundedTtl(expiration - now)) && KeepsOptFields(synth.extra, fields)
    {
      ghost var opts := OptFields(synth);
      UpdateTTL(synth, expiration, now);
      forall i | 0 <= i < |fields| && synth.extra[i].data.isOpt ensures synth.extra[i].ttl == fields[i] {
        assert LeftAlone(synth, synth.extra[i]) && opts[i] == Some(fields[i]);
      }
    }

    /** What an entry becomes for this query: stale past its expiration, else fresh. */
    method Refresh(cached: CachedResponse, m: Msg, c: Clock) returns (a: Answer, ttl: Uint32)
      ensures if c.t0 > cached.expiration then a.Stale? && ttl == RoundedTtl(c.t1 + STALE_RESPONSE_TTL - c.t2)
              else a.Fresh? && ttl == RoundedTtl(cached.expiration - c.t2)
      ensures AllTtls(a.msg, ttl) && Answers(a.msg, m, MeaningOf(cached.msg))
      ensures forall r :: r in Writable(a.msg) ==> fresh(r)
      ensures KeepsOptFields(a.msg.extra, TtlsOf(cached.msg.extra))
    {
      var synth := Synthesize(cached.msg, m);
      if c.t0 > cached.expiration {
        Date(synth, c.t1 + STALE_RESPONSE_TTL, c.t2, TtlsOf(cached.msg.extra));
        return Stale(synth), RoundedTtl(c.t1 + STALE_RESPONSE_TTL - c.t2);
      }
      Date(synth, cached.expiration, c.t2, TtlsOf(cached.msg.extra));
      return Fresh(synth), RoundedTtl(cached.expiration - c.t2);
    }

    /** `PluginCache.Eval`. The answer is logged with the clock readings it was made from; the TTL field
        of an OPT record, which holds flags, is that of the cached record. */
    method Query(m: Msg, dnssec: bool, c: Clock) returns (a: Answer, ghost served: Served)
      requires Valid() && m.question != []
      modifies this`history
      ensures Valid() && Shows(a, served)
      ensures history == old(history) + [Lookup(KeyOf(m.question[0], dnssec), c, served)]
      ensures served == Owed(Replay(old(history)), KeyOf(m.question[0], dnssec), c)
      ensures Replay(history) == Replay(old(history))
      ensures a.NoAnswer? <==> KeyOf(m.question[0], dnssec) !in Entries()
      ensures !a.NoAnswer? ==>
                && KeyOf(m.question[0], dnssec) in Replay(old(history))
                && Answers(a.msg, m, Replay(old(history))[KeyOf(m.question[0], dnssec)].meaning)
                && (forall r :: r in Writable(a.msg) ==> fresh(r))
      ensures !a.NoAnswer? ==>
                KeepsOptFields(a.msg.extra, old(TtlsOf(Entries()[KeyOf(m.question[0], dnssec)].msg.extra)))
    {
      var key := ComputeCacheKey(m.question[0], dnssec);
      if key !in Entries() {
        served := Nothing;
        a := NoAnswer;
      } else {
        var ttl;
        a, ttl := Refresh(Entries()[key], m, c);
        served := if a.Stale? then StaleTtl(ttl) else FreshTtl(ttl);
      }
      Log(Lookup(key, c, served));
    }

    /** A stale answer, packed and unpacked into new records, is stored again. */
    method StoreAgain(stale: Msg, ttl: Uint32, dnssec: bool, cacheSize: int, l: Limits, now: int, later: int)
      returns (client: Msg)
      requires Valid() && cache.Some? && stale.question != [] && Cacheable(stale) && AllTtls(stale, ttl)
      modifies this
      ensures Valid() && MeaningOf(client) == MeaningOf(stale)
      ensures var life := UniformLifetime(MeaningOf(stale), ttl, l);
              && Replay(history) ==
                 Replay(old(history))[KeyOf(stale.question[0], dnssec) := Entry(MeaningOf(stale), now, life)]
              && AllTtls(client, SentTtl(life, now, later))
    {
      client := CopyMsg(stale);
      UniformCopy(stale, client, ttl);
      LifetimeOfUniform(client, TtlsOf(client.answer), TtlsOf(client.ns), ttl, l);
      var _ := Respond(client, dnssec, cacheSize, l, now, later);
      ReplaySnoc(old(history), Store(KeyOf(stale.question[0], dnssec), MeaningOf(stale), now,
                                     UniformLifetime(MeaningOf(stale), ttl, l)));
    }

    /** A stale answer that is served because the upstream failed goes through the response plugins,
        the last of which stores it again if it is still `undecided` by then. The expired content is fresh
        once more, and the client sees the lifetime that the limits make of the stale TTL. */
    method ServeStale(m: Msg, dnssec: bool, undecided: bool, cacheSize: int, l: Limits, c: Clock, now: int, later: int)
      returns (client: Option<Msg>)
      requires Valid() && m.question != []
      modifies this
      ensures Valid()
      ensures client.Some? <==> undecided && Owed(Replay(old(history)), KeyOf(m.question[0], dnssec), c).StaleTtl?
      ensures client.None? ==> Replay(history) == Replay(old(history))
      ensures client.Some? ==>
                var key := KeyOf(m.question[0], dnssec);
                var meaning, served := Replay(old(history))[key].meaning, Owed(Replay(old(history)), key, c);
                var life := UniformLifetime(meaning, served.ttl, l);
                && MeaningOf(client.value) == meaning
                && Replay(history) == Replay(old(history))[key := Entry(meaning, now, life)]
                && AllTtls(client.value, SentTtl(life, now, later))
    {
      var a, served := Query(m, dnssec, c);
      if !a.Stale? || !undecided { return None; }
      var again := StoreAgain(a.msg, StaleTtlOf(c), dnssec, cacheSize, l, now, later);
      return Some(again);
    }
  }

  /** The TTL of a stale answer. */
  function StaleTtlOf(c: Clock): Uint32 { RoundedTtl(c.t1 + STALE_RESPONSE_TTL - c.t2) }

  /** `a` answers query `m` with the given content. */
  predicate Answers(a: Msg, m: Msg, meaning: Meaning) {
    && MeaningOf(a) == meaning
    && a.id == m.id && a.question == m.question && a.response && a.compress
    && forall r :: r in a.extra ==> r !in a.answer && r !in a.ns
  }

  ghost predicate KeepsOptFields(extra: seq<Record>, fields: seq<Uint32>)
    reads extra
  {
    |extra| == |fields| && forall i :: 0 <= i < |extra| && extra[i].data.isOpt ==> extra[i].ttl == fields[i]
  }

  lemma UniformCopy(m: Msg, c: Msg, ttl: Uint32)
    requires AllTtls(m, ttl) && TtlsOf(c.answer) == TtlsOf(m.answer) && TtlsOf(c.ns) == TtlsOf(m.ns)
    ensures forall i :: 0 <= i < |TtlsOf(c.answer)| ==> TtlsOf(c.answer)[i] == ttl
    ensures forall i :: 0 <= i < |TtlsOf(c.ns)| ==> TtlsOf(c.ns)[i] == ttl
  {
  }
}
