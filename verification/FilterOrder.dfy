/**
 The allow and block plugins in the order in which `InitPluginsGlobals` installs
 them: when exactly a query or a response is rejected.
 */
module FilterOrder {
  import opened Names
  import opened Plugins
  import PatternMatching
  import BlocklistGenerator
  import NameFilter

  // --- Aliases in a response ---

  /** The verdict of a name blocker on a response. */
  datatype Verdict = Clean | Blocked | BadName

  /** Names that the records of a response are aliases for, in order. */
  function Targets(answer: seq<Rr>): seq<string> {
    if answer == [] then []
    else
      var a, rest := answer[0], Targets(answer[1..]);
      if a.inet && a.target.Some? then [a.target.value] + rest else rest
  }

  function Judge(target: string, blocked: string -> bool): Verdict {
    match NormalQName(target)
    case None => BadName
    case Some(n) => if blocked(n) then Blocked else Clean
  }

  /** Verdict on the first names that are not clean, looking at no more than `left` of them. */
  function JudgeAll(targets: seq<string>, left: nat, blocked: string -> bool): Verdict {
    if targets == [] || left == 0 then Clean
    else if Judge(targets[0], blocked) != Clean then Judge(targets[0], blocked)
    else JudgeAll(targets[1..], left - 1, blocked)
  }

  function AliasVerdict(msg: Msg, blocked: string -> bool): Verdict {
    JudgeAll(Targets(msg.answer), ALIASES_LIMIT, blocked)
  }

  /** The loop over the answers, with its counter. */
  method CheckAliases(msg: Msg, blocked: string -> bool) returns (v: Verdict)
    ensures v == AliasVerdict(msg, blocked)
  {
    var aliasesLeft := ALIASES_LIMIT;
    for i := 0 to |msg.answer|
      invariant aliasesLeft > 0
      invariant AliasVerdict(msg, blocked) == JudgeAll(Targets(msg.answer[i..]), aliasesLeft, blocked)
    {
      assert msg.answer[i..][1..] == msg.answer[i + 1..];
      var a := msg.answer[i];
      if !a.inet || a.target.None? { continue; }
      var target := NormalizeQName(a.target.value);
      assert Targets(msg.answer[i..])[1..] == Targets(msg.answer[i + 1..]);
      if target.None? { return BadName; }
      if blocked(target.value) { return Blocked; }
      aliasesLeft := aliasesLeft - 1;
      if aliasesLeft == 0 { return Clean; }
    }
    return Clean;
  }

  /** Target `k` is within the limit, has verdict `v`, and everything in front of it is clean. */
  predicate FirstVerdict(targets: seq<string>, left: nat, blocked: string -> bool, v: Verdict, k: int) {
    && 0 <= k < |targets| && k < left && Judge(targets[k], blocked) == v
    && forall j :: 0 <= j < k ==> Judge(targets[j], blocked) == Clean
  }

  lemma FirstVerdictTail(targets: seq<string>, left: nat, blocked: string -> bool, v: Verdict, k: int)
    requires targets != [] && left > 0 && Judge(targets[0], blocked) == Clean && v != Clean
    ensures FirstVerdict(targets, left, blocked, v, k + 1) <==> FirstVerdict(targets[1..], left - 1, blocked, v, k)
  {
    var rest := targets[1..];
    assert forall j :: 0 <= j < |rest| ==> rest[j] == targets[j + 1];
    if FirstVerdict(rest, left - 1, blocked, v, k) {
      forall j | 0 <= j < k + 1 ensures Judge(targets[j], blocked) == Clean {
        if j > 0 { assert targets[j] == rest[j - 1]; }
      }
    }
  }

  /** A response is blocked by alias exactly when, among its first aliases within the limit, the
      first that is not clean is on the block list. */
  lemma {:induction false} JudgeAllMeaning(targets: seq<string>, left: nat, blocked: string -> bool, v: Verdict)
    requires v != Clean
    ensures JudgeAll(targets, left, blocked) == v <==> exists k :: FirstVerdict(targets, left, blocked, v, k)
  {
    if targets != [] && left > 0 {
      if Judge(targets[0], blocked) == Clean {
        var rest, fewer := targets[1..], left - 1;
        JudgeAllMeaning(rest, fewer, blocked, v);
        if k :| FirstVerdict(rest, fewer, blocked, v, k) {
          FirstVerdictTail(targets, left, blocked, v, k);
        }
        if k :| FirstVerdict(targets, left, blocked, v, k) {
          FirstVerdictTail(targets, left, blocked, v, k - 1);
        }
      } else if Judge(targets[0], blocked) == v {
        assert FirstVerdict(targets, left, blocked, v, 0);
      }
    }
  }

  predicate IsAlias(a: Rr) { a.inet && a.target.Some? }

  /** How many aliases there are in front of record `k`. */
  function AliasCount(answer: seq<Rr>, k: nat): nat
    requires k <= |answer|
  {
    if k == 0 then 0 else AliasCount(answer[1..], k - 1) + (if IsAlias(answer[0]) then 1 else 0)
  }

  predicate CleanAlias(a: Rr, blocked: string -> bool) {
    IsAlias(a) ==> NormalQName(a.target.value).Some? && !blocked(NormalQName(a.target.value).value)
  }

  /** Record `k` decides: it is one of the first `left` aliases, those in front of it are clean, and its own
      name is on the block list, or cannot be normalised. */
  predicate Decides(answer: seq<Rr>, left: nat, blocked: string -> bool, v: Verdict, k: int) {
    && 0 <= k < |answer| && IsAlias(answer[k]) && AliasCount(answer, k) < left
    && (forall j :: 0 <= j < k ==> CleanAlias(answer[j], blocked))
    && var n := NormalQName(answer[k].target.value);
       (v == Blocked && n.Some? && blocked(n.value)) || (v == BadName && n.None?)
  }

  lemma DecidesTail(answer: seq<Rr>, left: nat, blocked: string -> bool, v: Verdict, k: int)
    requires answer != [] && CleanAlias(answer[0], blocked) && (IsAlias(answer[0]) ==> left > 0)
    ensures !Decides(answer, left, blocked, v, 0)
    ensures k >= 0 ==>
              (Decides(answer, left, blocked, v, k + 1) <==>
               Decides(answer[1..], if IsAlias(answer[0]) then left - 1 else left, blocked, v, k))
  {
    var rest := answer[1..];
    assert forall j :: 0 <= j < |rest| ==> rest[j] == answer[j + 1];
    if 0 <= k < |rest| {
      assert AliasCount(answer, k + 1) == AliasCount(rest, k) + (if IsAlias(answer[0]) then 1 else 0);
      assert (forall j :: 0 <= j < k + 1 ==> CleanAlias(answer[j], blocked)) <==>
             (forall j :: 0 <= j < k ==> CleanAlias(rest[j], blocked)) by {
        if forall j :: 0 <= j < k ==> CleanAlias(rest[j], blocked) {
          forall j | 0 <= j < k + 1 ensures CleanAlias(answer[j], blocked) {
            if j > 0 { assert answer[j] == rest[j - 1]; }
          }
        }
      }
    }
  }

  lemma {:induction false} VerdictByRecords(answer: seq<Rr>, left: nat, blocked: string -> bool, v: Verdict)
    requires v != Clean
    ensures JudgeAll(Targets(answer), left, blocked) == v <==> exists k :: Decides(answer, left, blocked, v, k)
  {
    if answer != [] {
      var a, rest := answer[0], answer[1..];
      if CleanAlias(a, blocked) && (IsAlias(a) ==> left > 0) {
        var left' := if IsAlias(a) then left - 1 else left;
        VerdictByRecords(rest, left', blocked, v);
        if IsAlias(a) { assert Targets(answer)[1..] == Targets(rest); }
        if k :| Decides(rest, left', blocked, v, k) { DecidesTail(answer, left, blocked, v, k); }
        if k :| Decides(answer, left, blocked, v, k) { DecidesTail(answer, left, blocked, v, k - 1); }
      } else if left > 0 {
        if JudgeAll(Targets(answer), left, blocked) == v { assert Decides(answer, left, blocked, v, 0); }
      } else {
        NoneAllowed(answer, blocked, v);
      }
    }
  }

  lemma NoneAllowed(answer: seq<Rr>, blocked: string -> bool, v: Verdict)
    ensures !exists k :: Decides(answer, 0, blocked, v, k)
  {
  }

  /** Exactly when a response is blocked by alias, from its records: the first of its first eight aliases that
      is not clean is on the block list. */
  lemma AliasBlockedIff(msg: Msg, blocked: string -> bool)
    ensures AliasVerdict(msg, blocked) == Blocked <==> exists k :: Decides(msg.answer, 8, blocked, Blocked, k)
    ensures AliasVerdict(msg, blocked) == BadName <==> exists k :: Decides(msg.answer, 8, blocked, BadName, k)
  {
    VerdictByRecords(msg.answer, 8, blocked, Blocked);
    VerdictByRecords(msg.answer, 8, blocked, BadName);
  }

  // --- The plugins ---

  predicate SomeAddress(msg: Msg, listed: string -> bool) {
    exists i :: 0 <= i < |msg.answer| && msg.answer[i].inet && msg.answer[i].address.Some? &&
                listed(msg.answer[i].address.value)
  }

  function AllowName(allowed: string -> bool): Plugin {
    (st: Session, msg: Msg) => Eval(if allowed(st.qName) then st.(whitelisted := true) else st, msg, false)
  }

  function BlockName(blocked: string -> bool): Plugin {
    (st: Session, msg: Msg) =>
      Eval(if !st.whitelisted && blocked(st.qName) then st.(action := Reject) else st, msg, false)
  }

  function AllowedIP(allowed: string -> bool): Plugin {
    (st: Session, msg: Msg) => Eval(if SomeAddress(msg, allowed) then st.(whitelisted := true) else st, msg, false)
  }

  function BlockNameResponse(blocked: string -> bool): Plugin {
    (st: Session, msg: Msg) =>
      if st.whitelisted then Eval(st, msg, false)
      else
        match AliasVerdict(msg, blocked)
        case Clean => Eval(st, msg, false)
        case Blocked => Eval(st.(action := Reject), msg, false)
        case BadName => Eval(st, msg, true)
  }

  function BlockIP(blocked: string -> bool): Plugin {
    (st: Session, msg: Msg) =>
      Eval(if !st.whitelisted && SomeAddress(msg, blocked) then st.(action := Reject) else st, msg, false)
  }

  /** Any of the other plugins: it may synthesise, drop or rewrite, but it does not reject, and
      leaves the name and the whitelisting alone. */
  ghost predicate Neutral(p: Plugin) {
    forall st, msg :: var e := p(st, msg);
      (st.action != Reject ==> e.st.action != Reject) && e.st.qName == st.qName && e.st.whitelisted == st.whitelisted
  }

  /** What the configuration switches on. */
  datatype Config = Config(
    captivePortal: Option<Plugin>, queryMeta: Option<Plugin>, allowName: Option<string -> bool>, firefox: Plugin,
    ecs: Option<Plugin>, blockName: Option<string -> bool>, blockIPv6: Option<Plugin>, cloak: Option<Plugin>,
    payloadSize: Plugin, cache: Option<Plugin>, forward: Option<Plugin>, unqualified: Option<Plugin>,
    undelegated: Option<Plugin>,
    nxLog: Option<Plugin>, allowedIP: Option<string -> bool>, blockIP: Option<string -> bool>,
    dns64: Option<Plugin>, cacheResponse: Option<Plugin>)

  function Opt(p: Option<Plugin>): seq<Plugin> { if p.Some? then [p.value] else [] }

  /** Query plugins in front of the name blocker, and behind it. */
  function QueryFront(c: Config): seq<Plugin> {
    Opt(c.captivePortal) + Opt(c.queryMeta) +
    (if c.allowName.Some? then [AllowName(c.allowName.value)] else []) + [c.firefox] + Opt(c.ecs)
  }

  function QueryBack(c: Config): seq<Plugin> {
    Opt(c.blockIPv6) + Opt(c.cloak) + [c.payloadSize] + Opt(c.cache) + Opt(c.forward) + Opt(c.unqualified) +
    Opt(c.undelegated)
  }

  function QueryPlugins(c: Config): seq<Plugin> {
    QueryFront(c) + ((if c.blockName.Some? then [BlockName(c.blockName.value)] else []) + QueryBack(c))
  }

  function ResponseFilters(c: Config): seq<Plugin> {
    (if c.allowedIP.Some? then [AllowedIP(c.allowedIP.value)] else []) +
    ((if c.blockName.Some? then [BlockNameResponse(c.blockName.value)] else []) +
     (if c.blockIP.Some? then [BlockIP(c.blockIP.value)] else []))
  }

  function ResponsePlugins(c: Config): seq<Plugin> {
    Opt(c.nxLog) + (ResponseFilters(c) + (Opt(c.dns64) + Opt(c.cacheResponse)))
  }

  ghost predicate NeutralList(ps: seq<Plugin>) { forall i :: 0 <= i < |ps| ==> Neutral(ps[i]) }

  ghost predicate NeutralConfig(c: Config) {
    && NeutralList(Opt(c.captivePortal) + Opt(c.queryMeta)) && NeutralList([c.firefox] + Opt(c.ecs))
    && NeutralList(QueryBack(c)) && NeutralList(Opt(c.nxLog)) && NeutralList(Opt(c.dns64) + Opt(c.cacheResponse))
  }

  lemma {:induction false} NeutralRun(ps: seq<Plugin>, st: Session, msg: Msg, refused: Msg -> Msg)
    requires NeutralList(ps) && st.action == Continue
    ensures var e := RunPlugins(ps, st, msg, refused);
            e.st.action != Reject && e.st.qName == st.qName && e.st.whitelisted == st.whitelisted
  {
    if ps != [] {
      assert Neutral(ps[0]);
      var e := Settle(ps[0](st, msg), refused);
      if !Decided(e) {
        assert forall i :: 0 <= i < |ps[1..]| ==> ps[1..][i] == ps[i + 1];
        NeutralRun(ps[1..], e.st, e.msg, refused);
      }
    }
  }

  lemma RunOne(p: Plugin, st: Session, msg: Msg, refused: Msg -> Msg)
    ensures RunPlugins([p], st, msg, refused) == Settle(p(st, msg), refused)
  {
    var e := Settle(p(st, msg), refused);
    assert [p][1..] == [];
    assert !Decided(e) ==> RunPlugins([p][1..], e.st, e.msg, refused) == Eval(e.st, e.msg, false);
  }

  predicate Lists(l: Option<string -> bool>, n: string) { l.Some? && l.value(n) }

  /** The plugins in front of the name blocker never reject, and if they leave the query undecided
      the session is whitelisted exactly if the name is allowed. */
  lemma FrontRun(c: Config, st: Session, msg: Msg, refused: Msg -> Msg)
    requires NeutralConfig(c) && st.action == Continue && !st.whitelisted
    ensures var e := RunPlugins(QueryFront(c), st, msg, refused);
            e.st.action != Reject && e.st.qName == st.qName &&
            (!Decided(e) ==> (e.st.whitelisted <==> Lists(c.allowName, st.qName)))
  {
    var first := Opt(c.captivePortal) + Opt(c.queryMeta);
    var allow := if c.allowName.Some? then [AllowName(c.allowName.value)] else [];
    var rest := [c.firefox] + Opt(c.ecs);
    assert QueryFront(c) == first + (allow + rest);
    RunConcat(first, allow + rest, st, msg, refused);
    NeutralRun(first, st, msg, refused);
    var e := RunPlugins(first, st, msg, refused);
    if !Decided(e) {
      RunConcat(allow, rest, e.st, e.msg, refused);
      if c.allowName.Some? { RunOne(AllowName(c.allowName.value), e.st, e.msg, refused); }
      var e2 := RunPlugins(allow, e.st, e.msg, refused);
      NeutralRun(rest, e2.st, e2.msg, refused);
    }
  }

  /** A query is rejected exactly if nothing in front of the blocker decided it, its name is on the
      block list and not on the allow list; an allowed name leaves a whitelisted session behind. */
  lemma QueryRejectedIff(c: Config, st: Session, msg: Msg, refused: Msg -> Msg)
    requires NeutralConfig(c) && st.action == Continue && !st.whitelisted
    ensures var e := RunPlugins(QueryPlugins(c), st, msg, refused);
            && (e.st.action == Reject <==>
                  !Decided(RunPlugins(QueryFront(c), st, msg, refused)) &&
                  Lists(c.blockName, st.qName) && !Lists(c.allowName, st.qName))
            && (!Decided(e) ==> (e.st.whitelisted <==> Lists(c.allowName, st.qName)))
  {
    var block := if c.blockName.Some? then [BlockName(c.blockName.value)] else [];
    FrontRun(c, st, msg, refused);
    RunConcat(QueryFront(c), block + QueryBack(c), st, msg, refused);
    var e := RunPlugins(QueryFront(c), st, msg, refused);
    if !Decided(e) {
      RunConcat(block, QueryBack(c), e.st, e.msg, refused);
      if c.blockName.Some? { RunOne(BlockName(c.blockName.value), e.st, e.msg, refused); }
      var e2 := RunPlugins(block, e.st, e.msg, refused);
      if !Decided(e2) { NeutralRun(QueryBack(c), e2.st, e2.msg, refused); }
    }
  }

  function AliasesOf(c: Config, msg: Msg): Verdict {
    if c.blockName.Some? then AliasVerdict(msg, c.blockName.value) else Clean
  }

  lemma FiltersRun(c: Config, st: Session, msg: Msg, refused: Msg -> Msg)
    requires st.action == Continue
    ensures var e := RunPlugins(ResponseFilters(c), st, msg, refused);
            e.st.action == Reject <==>
              && !st.whitelisted && !(c.allowedIP.Some? && SomeAddress(msg, c.allowedIP.value))
              && (AliasesOf(c, msg) == Blocked ||
                  (AliasesOf(c, msg) == Clean && c.blockIP.Some? && SomeAddress(msg, c.blockIP.value)))
  {
    var allow := if c.allowedIP.Some? then [AllowedIP(c.allowedIP.value)] else [];
    var name := if c.blockName.Some? then [BlockNameResponse(c.blockName.value)] else [];
    var ip := if c.blockIP.Some? then [BlockIP(c.blockIP.value)] else [];
    RunConcat(allow, name + ip, st, msg, refused);
    if c.allowedIP.Some? { RunOne(AllowedIP(c.allowedIP.value), st, msg, refused); }
    var e := RunPlugins(allow, st, msg, refused);
    RunConcat(name, ip, e.st, e.msg, refused);
    if c.blockName.Some? { RunOne(BlockNameResponse(c.blockName.value), e.st, e.msg, refused); }
    var e2 := RunPlugins(name, e.st, e.msg, refused);
    if !Decided(e2) && c.blockIP.Some? { RunOne(BlockIP(c.blockIP.value), e2.st, e2.msg, refused); }
  }

  /** A response is rejected exactly if the session is not whitelisted, no address is allowed, and an
      alias is blocked or, with clean aliases, an address is. */
  lemma ResponseRejectedIff(c: Config, st: Session, msg: Msg, refused: Msg -> Msg)
    requires NeutralConfig(c) && st.action == Continue
    ensures var front := RunPlugins(Opt(c.nxLog), st, msg, refused);
            RunPlugins(ResponsePlugins(c), st, msg, refused).st.action == Reject <==>
              && !Decided(front)
              && !st.whitelisted && !(c.allowedIP.Some? && SomeAddress(front.msg, c.allowedIP.value))
              && (AliasesOf(c, front.msg) == Blocked ||
                  (AliasesOf(c, front.msg) == Clean && c.blockIP.Some? && SomeAddress(front.msg, c.blockIP.value)))
  {
    var back := Opt(c.dns64) + Opt(c.cacheResponse);
    RunConcat(Opt(c.nxLog), ResponseFilters(c) + back, st, msg, refused);
    NeutralRun(Opt(c.nxLog), st, msg, refused);
    var e := RunPlugins(Opt(c.nxLog), st, msg, refused);
    if !Decided(e) {
      RunConcat(ResponseFilters(c), back, e.st, e.msg, refused);
      FiltersRun(c, e.st, e.msg, refused);
      var e2 := RunPlugins(ResponseFilters(c), e.st, e.msg, refused);
      if !Decided(e2) { NeutralRun(back, e2.st, e2.msg, refused); }
    }
  }

  /** An allowed name is rejected in neither phase, whatever the answer contains. */
  lemma AllowedNameNeverRejected(c: Config, st: Session, msg: Msg, reply: Msg, refused: Msg -> Msg)
    requires NeutralConfig(c) && st.action == Continue && !st.whitelisted && Lists(c.allowName, st.qName)
    ensures var e := RunPlugins(QueryPlugins(c), st, msg, refused);
            && e.st.action != Reject
            && (!Decided(e) ==> RunPlugins(ResponsePlugins(c), e.st, reply, refused).st.action != Reject)
  {
    QueryRejectedIff(c, st, msg, refused);
    var e := RunPlugins(QueryPlugins(c), st, msg, refused);
    if !Decided(e) { ResponseRejectedIff(c, e.st, reply, refused); }
  }

  // --- Lists, filters and the upstream together ---

  /** The name list `l` is the matcher `rules`; a rule with a time range counts while that is in force. */
  ghost predicate ChecksRules<V(!new)>(l: Option<string -> bool>, rules: PatternMatching.Rules<V>,
                                       globMatch: (string, string) -> bool, inForce: Option<V> -> bool) {
    l.Some? && forall n :: l.value(n) <==>
      var v := PatternMatching.Lookup(rules, n, globMatch); v.Reject? && inForce(v.val)
  }

  predicate FoundInForce<V>(v: PatternMatching.Verdict<V>, inForce: Option<V> -> bool) {
    v.Reject? ==> inForce(v.val)
  }

  ghost predicate DisciplinedList(ps: seq<Plugin>) { forall i :: 0 <= i < |ps| ==> Disciplined(ps[i]) }

  ghost predicate DisciplinedConfig(c: Config) {
    && DisciplinedList(Opt(c.captivePortal) + Opt(c.queryMeta)) && DisciplinedList([c.firefox] + Opt(c.ecs))
    && DisciplinedList(QueryBack(c))
  }

  lemma FiltersAreDisciplined(listed: string -> bool)
    ensures Disciplined(AllowName(listed)) && Disciplined(BlockName(listed))
  {
  }

  lemma DisciplinedConcat(ps: seq<Plugin>, qs: seq<Plugin>)
    requires DisciplinedList(ps) && DisciplinedList(qs)
    ensures DisciplinedList(ps + qs)
  {
  }

  lemma QueryPluginsDisciplined(c: Config)
    requires DisciplinedConfig(c)
    ensures DisciplinedList(QueryPlugins(c))
  {
    var first := Opt(c.captivePortal) + Opt(c.queryMeta);
    var allow := if c.allowName.Some? then [AllowName(c.allowName.value)] else [];
    var block := if c.blockName.Some? then [BlockName(c.blockName.value)] else [];
    if c.allowName.Some? { FiltersAreDisciplined(c.allowName.value); }
    if c.blockName.Some? { FiltersAreDisciplined(c.blockName.value); }
    DisciplinedConcat(first, allow);
    DisciplinedConcat(first + allow, [c.firefox] + Opt(c.ecs));
    assert first + allow + ([c.firefox] + Opt(c.ecs)) == QueryFront(c);
    DisciplinedConcat(block, QueryBack(c));
    DisciplinedConcat(QueryFront(c), block + QueryBack(c));
  }

  /** The query is readable, and one of its questions is for `qName`. */
  predicate AsksFor(w: World, query: Packet, qName: string) {
    var m := w.unpack(query);
    m.Some? && exists i :: 0 <= i < |m.value.names| && NormalQName(m.value.names[i]) == Some(qName)
  }

  /** The query has not exactly one question, so no plugin sees it, and nothing else holds it back. */
  predicate PassesUnfiltered(w: World, query: Packet, onlyCached: bool) {
    && w.unpack(query).Some? && |w.unpack(query).value.names| != 1
    && SizeOk(query) && !onlyCached && Sendable(w, query)
  }

  /** Exactly when a query for a name that is on the block list and not on the allow list goes
      upstream: only beside another question. */
  lemma BlockedNameUpstreamIff(c: Config, w: World, query: Packet, qName: string, onlyCached: bool)
    requires w.queryPlugins == QueryPlugins(c) && NeutralConfig(c) && DisciplinedConfig(c)
    requires AsksFor(w, query, qName) && Lists(c.blockName, qName) && !Lists(c.allowName, qName)
    ensures GoesUpstream(w, query, onlyCached) <==> PassesUnfiltered(w, query, onlyCached)
  {
    var m := w.unpack(query).value;
    if |m.names| == 1 {
      assert NormalQName(m.names[0]) == Some(qName);
      BlockedNameStaysLocal(c, w, query, qName, onlyCached);
    }
  }

  lemma BlockedNameStaysLocal(c: Config, w: World, query: Packet, qName: string, onlyCached: bool)
    requires w.queryPlugins == QueryPlugins(c) && NeutralConfig(c) && DisciplinedConfig(c)
    requires AsksFor(w, query, qName) && |w.unpack(query).value.names| == 1
    requires Lists(c.blockName, qName) && !Lists(c.allowName, qName)
    ensures !GoesUpstream(w, query, onlyCached)
  {
    var m, st := w.unpack(query).value, START.(qName := qName);
    QueryPluginsDisciplined(c);
    DecidedMeansAnswered(w.queryPlugins, st, m, w.refused);
    QueryRejectedIff(c, st, m, w.refused);
    if Decided(RunPlugins(QueryFront(c), st, m, w.refused)) {
      DecidedInFront(c, st, m, w.refused);
    }
    assert Decided(RunPlugins(w.queryPlugins, st, m, w.refused));
  }

  lemma DecidedInFront(c: Config, st: Session, msg: Msg, refused: Msg -> Msg)
    requires st.action == Continue && Decided(RunPlugins(QueryFront(c), st, msg, refused))
    ensures Decided(RunPlugins(QueryPlugins(c), st, msg, refused))
  {
    RunConcat(QueryFront(c), (if c.blockName.Some? then [BlockName(c.blockName.value)] else []) + QueryBack(c),
              st, msg, refused);
  }

  /** The lines of a block list, through the loading code and the plugins: without nested suffix rules a
      name that some rule describes and no allow rule exempts goes upstream only beside another question,
      if the rule that is found is in force. */
  lemma DescribedNameUpstreamIff<V(!new)>(c: Config, w: World, query: Packet, qName: string, onlyCached: bool,
                                          list: seq<(PatternMatching.Rule, V)>, globMatch: (string, string) -> bool,
                                          inForce: Option<V> -> bool)
    requires w.queryPlugins == QueryPlugins(c) && NeutralConfig(c) && DisciplinedConfig(c)
    requires ChecksRules(c.blockName, PatternMatching.Loaded(list), globMatch, inForce)
    requires Unnested(PatternMatching.SuffixTexts(list))
    requires FoundInForce(PatternMatching.Lookup(PatternMatching.Loaded(list), qName, globMatch), inForce)
    requires AsksFor(w, query, qName) && |qName| >= 2 && !Lists(c.allowName, qName)
    requires PatternMatching.SomeRuleDescribes(list, qName, globMatch)
    ensures GoesUpstream(w, query, onlyCached) <==> PassesUnfiltered(w, query, onlyCached)
  {
    PatternMatching.RuleListMeaning(list, qName, globMatch);
    BlockedNameUpstreamIff(c, w, query, qName, onlyCached);
  }

  /** From the source lists of the generator to the wire: a query below a listed name that neither
      allowlist exempts goes upstream only beside another question, if the rule that is found is in
      force. */
  lemma ListedNameUpstreamIff<V(!new)>(c: Config, w: World, query: Packet, qName: string, onlyCached: bool,
                                       emitted: seq<string>, all: set<string>, exempt: set<string>, value: string -> V,
                                       globMatch: (string, string) -> bool, inForce: Option<V> -> bool)
    requires w.queryPlugins == QueryPlugins(c) && NeutralConfig(c) && DisciplinedConfig(c)
    requires "" !in all && "" !in exempt && forall n :: n in emitted <==> n in BlocklistGenerator.Kept(all, exempt)
    requires ChecksRules(c.blockName, PatternMatching.Loaded(NameFilter.SuffixRules(emitted, value)),
                         globMatch, inForce)
    requires AsksFor(w, query, qName) && |qName| >= 2 && !Lists(c.allowName, qName)
    requires FoundInForce(PatternMatching.Lookup(PatternMatching.Loaded(NameFilter.SuffixRules(emitted, value)), qName,
                                                 globMatch), inForce)
    requires Covered(BlocklistGenerator.Blocked(all, exempt), qName)
    ensures GoesUpstream(w, query, onlyCached) <==> PassesUnfiltered(w, query, onlyCached)
  {
    NameFilter.PrunedFilterIsExact(emitted, all, exempt, value, qName, globMatch);
    BlockedNameUpstreamIff(c, w, query, qName, onlyCached);
  }

  // --- A blocked name that goes upstream ---

  const IDLE: Plugin := (st: Session, msg: Msg) => Eval(st, msg, false)

  /** Only the name blocker is switched on, and it blocks everything. */
  const BLOCK_ALL: Config := Config(
    None, None, None, IDLE, None, Some(_ => true), None, None, IDLE, None, None, None, None,
    None, None, None, None, None)

  lemma IdleIsHarmless(ps: seq<Plugin>)
    requires forall i :: 0 <= i < |ps| ==> ps[i] == IDLE
    ensures NeutralList(ps) && DisciplinedList(ps)
  {
  }

  /** Two questions for a blocked name: the plugins see neither, and the query is sent. */
  lemma SecondQuestionPasses(w: World, query: Packet)
    requires w.queryPlugins == QueryPlugins(BLOCK_ALL) && w.server == Some(DoH) && |query| == 17
    requires w.unpack(query) == Some(Msg(["a", "a"], [], 0))
    ensures NeutralConfig(BLOCK_ALL) && DisciplinedConfig(BLOCK_ALL)
    ensures AsksFor(w, query, "a") && Lists(BLOCK_ALL.blockName, "a") && !Lists(BLOCK_ALL.allowName, "a")
    ensures GoesUpstream(w, query, false)
  {
    IdleIsHarmless([]);
    IdleIsHarmless([IDLE]);
    assert Opt(None) + Opt(None) == [] && [IDLE] + Opt(None) == [IDLE] && QueryBack(BLOCK_ALL) == [IDLE];
    assert TrimTrailingDot("a") == "a" && Ascii("a") && Lower("a") == "a";
    assert NormalQName(w.unpack(query).value.names[0]) == Some("a");
  }
}
