/**
 Registered servers and relays: entries of the parsed sources are filtered, merged
 into the proxy's registries, and mirrored into the server table's registries.
 */
module Registry {
  import opened Names

  datatype Proto = DnsCrypt | DoH | ODoHTarget | DnsCryptRelay | ODoHRelay | OtherProto

  /** Two stamps are the same if their string forms are; properties are a set of flags. */
  datatype Stamp = Stamp(proto: Proto, props: set<nat>, address: string, rest: int)

  datatype Registered = Registered(name: string, stamp: Stamp, description: string)

  type Registry = seq<Registered>

  // --- Registries as maps ---

  function Find(reg: Registry, name: string): (i: nat)
    ensures i <= |reg|
    ensures i < |reg| ==> reg[i].name == name
    ensures forall k :: 0 <= k < i ==> reg[k].name != name
  {
    if reg == [] || reg[0].name == name then 0 else 1 + Find(reg[1..], name)
  }

  predicate Unique(reg: Registry) {
    forall i, j :: 0 <= i < j < |reg| ==> reg[i].name != reg[j].name
  }

  /** What is registered under a name. */
  function Lookup(reg: Registry, name: string): (r: Option<Registered>)
    ensures r.Some? ==> r.value.name == name
  {
    var i := Find(reg, name);
    if i < |reg| then Some(reg[i]) else None
  }

  function NamesOf(reg: Registry): (r: seq<string>)
    ensures |r| == |reg|
  {
    seq(|reg|, i requires 0 <= i < |reg| => reg[i].name)
  }

  /** A known name gets a new stamp and keeps its description. */
  function Upsert(reg: Registry, e: Registered): Registry {
    var i := Find(reg, e.name);
    if i < |reg| then reg[i := reg[i].(stamp := e.stamp)] else reg + [e]
  }

  lemma FindUnique(reg: Registry, i: nat)
    requires Unique(reg) && i < |reg|
    ensures Find(reg, reg[i].name) == i
  {
  }

  /** An upsert is a map update that keeps names unique and existing entries in place. */
  lemma UpsertIsMapUpdate(reg: Registry, e: Registered, name: string)
    requires Unique(reg)
    ensures Unique(Upsert(reg, e))
    ensures Lookup(Upsert(reg, e), name) ==
            if name != e.name then Lookup(reg, name)
            else if Lookup(reg, name).Some? then Some(Lookup(reg, name).value.(stamp := e.stamp))
            else Some(e)
    ensures NamesOf(Upsert(reg, e)) == if e.name in NamesOf(reg) then NamesOf(reg) else NamesOf(reg) + [e.name]
  {
    var i, r := Find(reg, e.name), Upsert(reg, e);
    if i < |reg| {
      assert NamesOf(reg)[i] == e.name;
      assert NamesOf(r) == NamesOf(reg);
    } else {
      assert e.name !in NamesOf(reg);
      assert NamesOf(r) == NamesOf(reg) + [e.name];
    }
    assert Unique(r);
    var k := Find(r, name);
    var l := Find(reg, name);
    if l < |reg| {
      assert r[l].name == name;
      FindUnique(r, l);
    } else if name == e.name {
      FindUnique(r, |reg|);
    }
  }

  /** Same names in the same order, same entries: the same registry. */
  lemma SameRegistry(a: Registry, b: Registry)
    requires Unique(a) && NamesOf(a) == NamesOf(b)
    requires forall n :: Lookup(a, n) == Lookup(b, n)
    ensures a == b
  {
    forall i | 0 <= i < |a| ensures a[i].name == b[i].name { assert NamesOf(a)[i] == NamesOf(b)[i]; }
    assert |a| == |b| by { assert |NamesOf(a)| == |NamesOf(b)|; }
    forall i | 0 <= i < |a| ensures a[i] == b[i] {
      FindUnique(a, i);
      FindUnique(b, i);
      assert Lookup(a, a[i].name) == Lookup(b, a[i].name);
    }
  }

  // --- Many upserts ---

  function UpsertAll(reg: Registry, es: seq<Registered>): Registry {
    if es == [] then reg else Upsert(UpsertAll(reg, es[..|es| - 1]), es[|es| - 1])
  }

  /** Stamp of the last entry under a name. */
  function LastStamp(es: seq<Registered>, name: string): Option<Stamp> {
    if es == [] then None
    else if es[|es| - 1].name == name then Some(es[|es| - 1].stamp)
    else LastStamp(es[..|es| - 1], name)
  }

  lemma {:induction false} FindInFront(es: Registry, name: string)
    requires es != []
    ensures var n := |es| - 1;
            Lookup(es, name) == if Lookup(es[..n], name).Some? then Lookup(es[..n], name)
                                else if es[n].name == name then Some(es[n]) else None
  {
    var n := |es| - 1;
    var i := Find(es[..n], name);
    if i < n {
      assert es[i].name == name && forall k :: 0 <= k < i ==> es[k] == es[..n][k];
      assert Find(es, name) == i;
    } else {
      assert forall k :: 0 <= k < n ==> es[k] == es[..n][k];
    }
  }

  /** What a name is registered as after merging: the last stamp, and the first description. */
  function Merged(reg: Registry, es: seq<Registered>, name: string): Option<Registered> {
    match LastStamp(es, name)
    case None => Lookup(reg, name)
    case Some(stamp) =>
      var first := if Lookup(reg, name).Some? then Lookup(reg, name) else Lookup(es, name);
      if first.Some? then Some(first.value.(stamp := stamp)) else None
  }

  /** Names stay unique, each name has the stamp of its last entry and the description it was first
      registered with, names not mentioned are left alone. */
  lemma {:induction false} UpsertAllIsLastWins(reg: Registry, es: seq<Registered>, name: string)
    requires Unique(reg)
    ensures Unique(UpsertAll(reg, es))
    ensures Lookup(UpsertAll(reg, es), name) == Merged(reg, es, name)
    ensures LastStamp(es, name).Some? <==> Lookup(es, name).Some?
  {
    if es != [] {
      var init, last := es[..|es| - 1], es[|es| - 1];
      UpsertAllIsLastWins(reg, init, name);
      UpsertIsMapUpdate(UpsertAll(reg, init), last, name);
      FindInFront(es, name);
    }
  }

  lemma {:induction false} UpsertAllKeepsNames(reg: Registry, es: seq<Registered>)
    requires Unique(reg)
    ensures NamesOf(reg) <= NamesOf(UpsertAll(reg, es))
    ensures (forall i :: 0 <= i < |es| ==> es[i].name in NamesOf(reg)) ==> NamesOf(UpsertAll(reg, es)) == NamesOf(reg)
  {
    if es != [] {
      var init, last := es[..|es| - 1], es[|es| - 1];
      UpsertAllKeepsNames(reg, init);
      UpsertAllIsLastWins(reg, init, last.name);
      UpsertIsMapUpdate(UpsertAll(reg, init), last, last.name);
      forall i | 0 <= i < |init| ensures init[i] == es[i] {
      }
    }
  }

  lemma {:induction false} UpsertAllAddsName(reg: Registry, es: seq<Registered>, i: nat)
    requires Unique(reg) && i < |es|
    ensures es[i].name in NamesOf(UpsertAll(reg, es))
  {
    var init, last := es[..|es| - 1], es[|es| - 1];
    UpsertAllIsLastWins(reg, init, last.name);
    UpsertIsMapUpdate(UpsertAll(reg, init), last, last.name);
    if i < |init| { UpsertAllAddsName(reg, init, i); }
  }

  /** Merging the same entries again changes nothing, not even the order. */
  lemma UpsertAllIdempotent(reg: Registry, es: seq<Registered>)
    requires Unique(reg)
    ensures UpsertAll(UpsertAll(reg, es), es) == UpsertAll(reg, es)
  {
    var once := UpsertAll(reg, es);
    UpsertAllIsLastWins(reg, es, "");
    forall i | 0 <= i < |es| ensures es[i].name in NamesOf(once) {
      UpsertAllAddsName(reg, es, i);
    }
    UpsertAllKeepsNames(once, es);
    UpsertAllIsLastWins(once, es, "");
    forall n ensures Lookup(UpsertAll(once, es), n) == Lookup(once, n) {
      UpsertAllIsLastWins(reg, es, n);
      UpsertAllIsLastWins(once, es, n);
    }
    SameRegistry(once, UpsertAll(once, es));
  }

  // --- Which entries count ---

  datatype Config = Config(
    serverNames: seq<string>, disabledNames: seq<string>, requiredProps: set<nat>,
    sourceIPv4: bool, sourceIPv6: bool, sourceDnsCrypt: bool, sourceDoH: bool, sourceODoH: bool)

  predicate IncludesName(names: seq<string>, name: string) {
    exists i :: 0 <= i < |names| && Lower(names[i]) == Lower(name)
  }

  predicate IsRelay(e: Registered) { e.stamp.proto.DnsCryptRelay? || e.stamp.proto.ODoHRelay? }

  predicate FamilyOk(c: Config, s: Stamp) {
    c.sourceIPv4 || c.sourceIPv6 ==>
      var bracketed := "[" <= s.address;
      var isIPv4 := !bracketed;
      var isIPv6 := bracketed || s.proto.DoH?;
      c.sourceIPv4 == isIPv4 || c.sourceIPv6 == isIPv6
  }

  predicate Accepted(c: Config, e: Registered) {
    && (!IsRelay(e) ==> if c.serverNames != [] then IncludesName(c.serverNames, e.name)
                        else c.requiredProps <= e.stamp.props)
    && !IncludesName(c.disabledNames, e.name)
    && FamilyOk(c, e.stamp)
    && (!IsRelay(e) ==> match e.stamp.proto
                        case DnsCrypt => c.sourceDnsCrypt
                        case DoH => c.sourceDoH
                        case ODoHTarget => c.sourceODoH
                        case _ => false)
  }

  /** The accepted servers, or the accepted relays, among the entries. */
  function Chosen(c: Config, es: seq<Registered>, relays: bool): seq<Registered> {
    if es == [] then []
    else
      var rest, e := Chosen(c, es[..|es| - 1], relays), es[|es| - 1];
      if Accepted(c, e) && IsRelay(e) == relays then rest + [e] else rest
  }

  predicate SameIgnoringCase(s: string, t: string) {
    |s| == |t| && forall i :: 0 <= i < |s| ==> SameLetter(s[i], t[i])
  }

  predicate NamedIn(names: seq<string>, name: string) {
    exists i :: 0 <= i < |names| && SameIgnoringCase(names[i], name)
  }

  /** What the configuration says of an entry: its name is not disabled, its address family is wanted, and a
      server is named, or has the required properties if none is named, and speaks a protocol that is on. */
  predicate Wanted(c: Config, e: Registered) {
    && !NamedIn(c.disabledNames, e.name)
    && FamilyWanted(c, e.stamp)
    && (e.stamp.proto != DnsCryptRelay && e.stamp.proto != ODoHRelay ==>
          && (if c.serverNames == [] then c.requiredProps <= e.stamp.props else NamedIn(c.serverNames, e.name))
          && (e.stamp.proto == DnsCrypt || e.stamp.proto == DoH || e.stamp.proto == ODoHTarget)
          && (e.stamp.proto == DnsCrypt ==> c.sourceDnsCrypt)
          && (e.stamp.proto == DoH ==> c.sourceDoH)
          && (e.stamp.proto == ODoHTarget ==> c.sourceODoH))
  }

  /** IPv4 alone takes no bracketed address, IPv6 alone only those and DoH. */
  predicate FamilyWanted(c: Config, s: Stamp) {
    var bracketed := |s.address| > 0 && s.address[0] == '[';
    && (c.sourceIPv4 && !c.sourceIPv6 ==> !bracketed)
    && (c.sourceIPv6 && !c.sourceIPv4 ==> bracketed || s.proto == DoH)
  }

  lemma IncludesIsNamed(names: seq<string>, name: string)
    ensures IncludesName(names, name) <==> NamedIn(names, name)
  {
    forall i | 0 <= i < |names| ensures Lower(names[i]) == Lower(name) <==> SameIgnoringCase(names[i], name) {
      LowerIdentifies(names[i], name);
    }
  }

  lemma AcceptedIffWanted(c: Config, e: Registered)
    ensures Accepted(c, e) <==> Wanted(c, e)
  {
    IncludesIsNamed(c.disabledNames, e.name);
    IncludesIsNamed(c.serverNames, e.name);
  }

  predicate WantedEntry(c: Config, es: seq<Registered>, relays: bool, name: string, k: int) {
    0 <= k < |es| && es[k].name == name && IsRelay(es[k]) == relays && Wanted(c, es[k])
  }

  lemma ChosenSnoc(c: Config, es: seq<Registered>, relays: bool, name: string)
    requires es != []
    ensures var n := |es| - 1;
            LastStamp(Chosen(c, es, relays), name).Some? <==>
              LastStamp(Chosen(c, es[..n], relays), name).Some? || WantedEntry(c, es, relays, name, n)
  {
    var n := |es| - 1;
    var rest := Chosen(c, es[..n], relays);
    AcceptedIffWanted(c, es[n]);
    assert (rest + [es[n]])[..|rest|] == rest;
  }

  lemma {:induction false} ChosenHas(c: Config, es: seq<Registered>, relays: bool, name: string)
    ensures LastStamp(Chosen(c, es, relays), name).Some? <==> exists k :: WantedEntry(c, es, relays, name, k)
  {
    if es != [] {
      var n := |es| - 1;
      ChosenHas(c, es[..n], relays, name);
      ChosenSnoc(c, es, relays, name);
      if k :| WantedEntry(c, es[..n], relays, name, k) { assert WantedEntry(c, es, relays, name, k); }
      if k :| WantedEntry(c, es, relays, name, k) && k < n { assert WantedEntry(c, es[..n], relays, name, k); }
    }
  }

  /** A name that was not registered is registered by an update exactly if some entry of that name is wanted:
      a disabled name, a server that is not named, or one of a protocol that is switched off never is. */
  lemma RegisteredIffWanted(reg: Registry, c: Config, es: seq<Registered>, relays: bool, name: string)
    requires Unique(reg) && Lookup(reg, name).None?
    ensures Lookup(UpsertAll(reg, Chosen(c, es, relays)), name).Some? <==>
            exists k :: WantedEntry(c, es, relays, name, k)
  {
    UpsertAllIsLastWins(reg, Chosen(c, es, relays), name);
    ChosenHas(c, es, relays, name);
  }

  /** A parsed source. One that failed and has no entry at all ends the update. */
  datatype Parsed = Parsed(entries: seq<Registered>, failed: bool)

  predicate Unusable(p: Parsed) { p.failed && p.entries == [] }

  predicate AllUsable(sources: seq<Parsed>) { forall i :: 0 <= i < |sources| ==> !Unusable(sources[i]) }

  /** Entries of the sources in front of the first unusable one. */
  function EntriesOf(sources: seq<Parsed>): seq<Registered> {
    if sources == [] || Unusable(sources[0]) then [] else sources[0].entries + EntriesOf(sources[1..])
  }

  lemma {:induction false} EntriesSnoc(sources: seq<Parsed>, i: nat)
    requires i < |sources| && AllUsable(sources[..i])
    ensures !Unusable(sources[i]) ==> EntriesOf(sources[..i + 1]) == EntriesOf(sources[..i]) + sources[i].entries
    ensures Unusable(sources[i]) ==> EntriesOf(sources) == EntriesOf(sources[..i])
  {
    assert sources[0..] == sources;
    if i > 0 {
      assert sources[..i][0] == sources[0];
      var rest := sources[1..][..i - 1];
      forall k | 0 <= k < |rest| ensures !Unusable(rest[k]) {
        assert rest[k] == sources[..i][k + 1];
      }
      EntriesSnoc(sources[1..], i - 1);
      assert sources[..i + 1][1..] == sources[1..][..i];
      assert sources[..i][1..] == sources[1..][..i - 1];
    } else {
      assert sources[..1][1..] == [];
    }
  }

  /** A source that failed is used as far as it was parsed, unless nothing was. */
  predicate Usable(p: Parsed) { p.failed ==> |p.entries| > 0 }

  predicate UsedEntry(sources: seq<Parsed>, e: Registered, i: int) {
    0 <= i < |sources| && e in sources[i].entries && forall k :: 0 <= k <= i ==> Usable(sources[k])
  }

  /** Exactly which entries an update sees: those of the sources in front of the first that failed with
      nothing. It fails exactly if there is one. */
  lemma {:induction false} EntryUsedIff(sources: seq<Parsed>, e: Registered)
    ensures e in EntriesOf(sources) <==> exists i :: UsedEntry(sources, e, i)
    ensures AllUsable(sources) <==> forall i :: 0 <= i < |sources| ==> Usable(sources[i])
  {
    if sources != [] && Usable(sources[0]) {
      var rest := sources[1..];
      EntryUsedIff(rest, e);
      assert forall k :: 0 <= k < |rest| ==> rest[k] == sources[k + 1];
      if e in sources[0].entries { assert UsedEntry(sources, e, 0); }
      if i :| UsedEntry(rest, e, i) {
        forall k | 0 <= k <= i + 1 ensures Usable(sources[k]) {
          if k > 0 { assert Usable(rest[k - 1]); }
        }
        assert UsedEntry(sources, e, i + 1);
      }
      if i :| UsedEntry(sources, e, i) && i > 0 { assert UsedEntry(rest, e, i - 1); }
    } else if sources != [] {
      assert !exists i :: UsedEntry(sources, e, i);
    }
  }

  // --- The code ---

  /** The server table is told names and stamps only. */
  function Bare(e: Registered): Registered { e.(description := "") }

  function BareAll(reg: Registry): (r: Registry)
    ensures |r| == |reg|
  {
    seq(|reg|, i requires 0 <= i < |reg| => Bare(reg[i]))
  }

  predicate IsBare(reg: Registry) { forall i :: 0 <= i < |reg| ==> reg[i].description == "" }

  class ServersInfo {
    var registeredServers: Registry
    var registeredRelays: Registry

    ghost predicate Valid()
      reads this
    {
      IsBare(registeredServers) && IsBare(registeredRelays)
    }

    constructor ()
      ensures Valid() && registeredServers == [] && registeredRelays == []
    {
      registeredServers, registeredRelays := [], [];
    }

    method RegisterServer(name: string, stamp: Stamp)
      requires Valid()
      modifies this`registeredServers
      ensures Valid() && registeredServers == Upsert(old(registeredServers), Registered(name, stamp, ""))
    {
      var e := Registered(name, stamp, "");
      for i := 0 to |registeredServers|
        invariant registeredServers == old(registeredServers)
        invariant forall k :: 0 <= k < i ==> registeredServers[k].name != name
      {
        if registeredServers[i].name == name {
          registeredServers := registeredServers[i := e];
          return;
        }
      }
      registeredServers := registeredServers + [e];
    }

    method RegisterRelay(name: string, stamp: Stamp)
      requires Valid()
      modifies this`registeredRelays
      ensures Valid() && registeredRelays == Upsert(old(registeredRelays), Registered(name, stamp, ""))
    {
      var e := Registered(name, stamp, "");
      for i := 0 to |registeredRelays|
        invariant registeredRelays == old(registeredRelays)
        invariant forall k :: 0 <= k < i ==> registeredRelays[k].name != name
      {
        if registeredRelays[i].name == name {
          registeredRelays := registeredRelays[i := e];
          return;
        }
      }
      registeredRelays := registeredRelays + [e];
    }
  }

  /** The update loop of the proxy: it runs through the whole list and compares stamps first. */
  method UpdateOrAppend(reg: Registry, e: Registered) returns (r: Registry)
    requires Unique(reg)
    ensures r == Upsert(reg, e)
  {
    var found := false;
    r := reg;
    ghost var at := Find(reg, e.name);
    for i := 0 to |reg|
      invariant |r| == |reg|
      invariant found <==> at < i
      invariant r == if found then reg[at := reg[at].(stamp := e.stamp)] else reg
    {
      if r[i].name == e.name {
        assert i == at;
        found := true;
        if r[i].stamp != e.stamp {
          r := r[i := r[i].(stamp := e.stamp)];
        }
      }
    }
    if !found {
      r := r + [e];
    }
  }

  class Proxy {
    var registeredServers: Registry
    var registeredRelays: Registry
    const config: Config
    const serversInfo: ServersInfo

    constructor (c: Config, info: ServersInfo)
      ensures registeredServers == [] && registeredRelays == [] && config == c && serversInfo == info
    {
      registeredServers, registeredRelays, config, serversInfo := [], [], c, info;
    }

    method MergeEntries(es: seq<Registered>)
      requires Unique(registeredServers) && Unique(registeredRelays)
      modifies this
      ensures registeredServers == UpsertAll(old(registeredServers), Chosen(config, es, false))
      ensures registeredRelays == UpsertAll(old(registeredRelays), Chosen(config, es, true))
    {
      for i := 0 to |es|
        invariant registeredServers == UpsertAll(old(registeredServers), Chosen(config, es[..i], false))
        invariant registeredRelays == UpsertAll(old(registeredRelays), Chosen(config, es[..i], true))
      {
        assert es[..i + 1][..i] == es[..i];
        UpsertAllIsLastWins(old(registeredServers), Chosen(config, es[..i], false), "");
        UpsertAllIsLastWins(old(registeredRelays), Chosen(config, es[..i], true), "");
        var e := es[i];
        if !Accepted(config, e) { continue; }
        if IsRelay(e) {
          ghost var before := Chosen(config, es[..i], true);
          assert (before + [e])[..|before|] == before;
          registeredRelays := UpdateOrAppend(registeredRelays, e);
        } else {
          ghost var before := Chosen(config, es[..i], false);
          assert (before + [e])[..|before|] == before;
          registeredServers := UpdateOrAppend(registeredServers, e);
        }
      }
      assert es[..|es|] == es;
    }

    method Mirror()
      requires serversInfo.Valid()
      modifies serversInfo
      ensures serversInfo.Valid()
      ensures serversInfo.registeredServers == UpsertAll(old(serversInfo.registeredServers), BareAll(registeredServers))
      ensures serversInfo.registeredRelays == UpsertAll(old(serversInfo.registeredRelays), BareAll(registeredRelays))
      ensures unchanged(this)
    {
      ghost var servers, relays := BareAll(registeredServers), BareAll(registeredRelays);
      for i := 0 to |registeredServers|
        invariant unchanged(this) && serversInfo.Valid()
        invariant serversInfo.registeredRelays == old(serversInfo.registeredRelays)
        invariant serversInfo.registeredServers == UpsertAll(old(serversInfo.registeredServers), servers[..i])
      {
        assert servers[..i + 1][..i] == servers[..i];
        serversInfo.RegisterServer(registeredServers[i].name, registeredServers[i].stamp);
      }
      assert servers[..|servers|] == servers;
      ghost var done := serversInfo.registeredServers;
      for i := 0 to |registeredRelays|
        invariant unchanged(this) && serversInfo.Valid() && serversInfo.registeredServers == done
        invariant serversInfo.registeredRelays == UpsertAll(old(serversInfo.registeredRelays), relays[..i])
      {
        assert relays[..i + 1][..i] == relays[..i];
        serversInfo.RegisterRelay(registeredRelays[i].name, registeredRelays[i].stamp);
      }
      assert relays[..|relays|] == relays;
    }

    /** All accepted entries in front of an unusable source are merged; the mirror is brought up to
        date only if every source was usable. */
    method UpdateRegisteredServers(sources: seq<Parsed>) returns (ok: bool)
      requires Unique(registeredServers) && Unique(registeredRelays) && serversInfo.Valid()
      modifies this, serversInfo
      ensures serversInfo.Valid()
      ensures ok <==> AllUsable(sources)
      ensures registeredServers == UpsertAll(old(registeredServers), Chosen(config, EntriesOf(sources), false))
      ensures registeredRelays == UpsertAll(old(registeredRelays), Chosen(config, EntriesOf(sources), true))
      ensures serversInfo.registeredServers ==
              if ok then UpsertAll(old(serversInfo.registeredServers), BareAll(registeredServers))
              else old(serversInfo.registeredServers)
      ensures serversInfo.registeredRelays ==
              if ok then UpsertAll(old(serversInfo.registeredRelays), BareAll(registeredRelays))
              else old(serversInfo.registeredRelays)
    {
      for i := 0 to |sources|
        invariant AllUsable(sources[..i]) && unchanged(serversInfo)
        invariant registeredServers == UpsertAll(old(registeredServers), Chosen(config, EntriesOf(sources[..i]), false))
        invariant registeredRelays == UpsertAll(old(registeredRelays), Chosen(config, EntriesOf(sources[..i]), true))
      {
        EntriesSnoc(sources, i);
        if sources[i].failed && |sources[i].entries| == 0 { return false; }
        ghost var before, es := EntriesOf(sources[..i]), sources[i].entries;
        MergeMore(old(registeredServers), config, before, es, false);
        MergeMore(old(registeredRelays), config, before, es, true);
        MergeEntries(sources[i].entries);
      }
      assert sources[..|sources|] == sources;
      Mirror();
      return true;
    }
  }

  lemma {:induction false} ChosenConcat(c: Config, es: seq<Registered>, fs: seq<Registered>, relays: bool)
    ensures Chosen(c, es + fs, relays) == Chosen(c, es, relays) + Chosen(c, fs, relays)
  {
    if fs == [] {
      assert es + fs == es;
    } else {
      ChosenConcat(c, es, fs[..|fs| - 1], relays);
      assert (es + fs)[..|es + fs| - 1] == es + fs[..|fs| - 1];
    }
  }

  lemma {:induction false} UpsertAllConcat(reg: Registry, es: seq<Registered>, fs: seq<Registered>)
    ensures UpsertAll(reg, es + fs) == UpsertAll(UpsertAll(reg, es), fs)
  {
    if fs == [] {
      assert es + fs == es;
    } else {
      UpsertAllConcat(reg, es, fs[..|fs| - 1]);
      assert (es + fs)[..|es + fs| - 1] == es + fs[..|fs| - 1];
    }
  }

  lemma MergeMore(reg: Registry, c: Config, es: seq<Registered>, fs: seq<Registered>, relays: bool)
    requires Unique(reg)
    ensures Unique(UpsertAll(reg, Chosen(c, es, relays)))
    ensures UpsertAll(reg, Chosen(c, es + fs, relays)) ==
            UpsertAll(UpsertAll(reg, Chosen(c, es, relays)), Chosen(c, fs, relays))
  {
    ChosenConcat(c, es, fs, relays);
    UpsertAllConcat(reg, Chosen(c, es, relays), Chosen(c, fs, relays));
    UpsertAllIsLastWins(reg, Chosen(c, es, relays), "");
  }

  function StampIn(reg: Registry, name: string): Option<Stamp> {
    var e := Lookup(reg, name);
    if e.Some? then Some(e.value.stamp) else None
  }

  lemma BareStamp(reg: Registry, name: string)
    requires Unique(reg)
    ensures Unique(BareAll(reg)) && StampIn(BareAll(reg), name) == StampIn(reg, name)
  {
    var bare := BareAll(reg);
    assert forall i :: 0 <= i < |reg| ==> bare[i].name == reg[i].name;
    var i := Find(reg, name);
    if i < |reg| { FindUnique(bare, i); }
  }

  /** After an update every name is unique and has the stamp of its last accepted entry and the
      description of its first, the server table agrees with the registry on every registered name,
      and updating again from the same sources changes neither. */
  lemma UpdateOutcome(reg: Registry, info: Registry, c: Config, es: seq<Registered>, relays: bool, name: string)
    requires Unique(reg) && Unique(info)
    ensures var chosen := Chosen(c, es, relays);
            var reg' := UpsertAll(reg, chosen);
            var info' := UpsertAll(info, BareAll(reg'));
            && Unique(reg') && Unique(info')
            && Lookup(reg', name) == Merged(reg, chosen, name)
            && StampIn(info', name) == (if StampIn(reg', name).Some? then StampIn(reg', name) else StampIn(info, name))
            && UpsertAll(reg', chosen) == reg'
            && UpsertAll(info', BareAll(reg')) == info'
  {
    var reg' := UpsertAll(reg, Chosen(c, es, relays));
    UpsertAllIsLastWins(reg, Chosen(c, es, relays), name);
    BareStamp(reg', name);
    UpsertAllIsLastWins(info, BareAll(reg'), name);
    UpsertAllIdempotent(reg, Chosen(c, es, relays));
    UpsertAllIdempotent(info, BareAll(reg'));
    UniqueLastIsLookup(BareAll(reg'), name);
  }

  lemma {:induction false} UniqueLastIsLookup(reg: Registry, name: string)
    requires Unique(reg)
    ensures LastStamp(reg, name) == StampIn(reg, name)
  {
    if reg != [] {
      UniqueLastIsLookup(reg[..|reg| - 1], name);
      FindInFront(reg, name);
    }
  }
}
