/**
 Certificate refreshes against the server table, step by step. A refresh looks the
 name up under the lock, releases it, and appends under the lock again, while other
 goroutines pick servers, sort the table and force refreshes of their own.
 */
module RefreshProtocol {
  import opened Names
  import opened LoadBalancer

  type Tid = nat

  /** Where a goroutine stands. `todo` is what is left of the periodic round. */
  datatype Phase =
    | Idle
    | Handling(name: string)                               // holds a server returned by getOne
    | Looping(todo: seq<string>)
    | Fetching(name: string, todo: seq<string>)            // no lock held
    | Appending(server: ServerInfo, todo: seq<string>)     // searched, not found, lock released
    | Registering(name: string, todo: seq<string>)

  datatype State = State(
    inner: Table,
    registered: seq<string>,
    threads: map<Tid, Phase>)

  /** What does not change during a run. */
  datatype Setup = Setup(strategy: Strategy, estimator: bool, refreshers: set<Tid>)

  datatype Action =
    | GetOne(t: Tid, pick: int, draw: int, now: int)
    | Finish(t: Tid)
    | ForceRefresh(t: Tid)
    | StartRound(t: Tid)
    | NextServer(t: Tid)
    | FetchFailed(t: Tid)
    | Search(t: Tid, fetched: ServerInfo)
    | Append(t: Tid)
    | Register(t: Tid)
    | EndRound(t: Tid, sorted: Table)
    | NewRtt(index: int, rtt: real)
    | NewSource(name: string)

  function PhaseOf(s: State, t: Tid): Phase {
    if t in s.threads then s.threads[t] else Idle
  }

  function Goto(s: State, t: Tid, p: Phase): State { s.(threads := s.threads[t := p]) }

  function IndexOf(s: Table, name: string): (i: int)
    ensures 0 <= i <= |s|
    ensures i < |s| ==> s[i].name == name
    ensures forall k :: 0 <= k < i ==> s[k].name != name
  {
    if s == [] || s[0].name == name then 0 else 1 + IndexOf(s[1..], name)
  }

  predicate Enabled(c: Setup, s: State, a: Action) {
    match a
    case GetOne(t, pick, draw, now) =>
      t !in c.refreshers && PhaseOf(s, t).Idle? && Drawn(s.inner, c.strategy, pick, draw)
    case Finish(t) => PhaseOf(s, t).Handling?
    case ForceRefresh(t) => PhaseOf(s, t).Handling? && PhaseOf(s, t).name in s.registered
    case StartRound(t) => t in c.refreshers && PhaseOf(s, t).Idle?
    case NextServer(t) => PhaseOf(s, t).Looping? && PhaseOf(s, t).todo != []
    case FetchFailed(t) => PhaseOf(s, t).Fetching?
    case Search(t, fetched) => PhaseOf(s, t).Fetching? && fetched.name == PhaseOf(s, t).name
    case Append(t) => PhaseOf(s, t).Appending?
    case Register(t) => PhaseOf(s, t).Registering?
    case EndRound(t, sorted) =>
      && PhaseOf(s, t) == Looping([])
      && (if t in c.refreshers
          then multiset(sorted) == multiset(s.inner) &&
               forall i, j :: 0 <= i < j < |sorted| ==> sorted[i].initialRtt <= sorted[j].initialRtt
          else sorted == s.inner)
    case NewRtt(i, rtt) => 0 <= i < |s.inner|
    case NewSource(name) => true
  }

  function Upsert(registered: seq<string>, name: string): seq<string> {
    if name in registered then registered else registered + [name]
  }

  function Apply(c: Setup, s: State, a: Action): State
    requires Enabled(c, s, a)
  {
    match a
    case GetOne(t, pick, draw, now) =>
      UpdatedKeepsServers(s.inner, c.strategy, pick, draw, now);
      IndicesInRange(c.strategy, |s.inner|, pick, draw);
      var inner := if c.estimator then Updated(s.inner, c.strategy, pick, draw, now) else s.inner;
      Goto(s.(inner := inner), t, Handling(inner[pick].name))
    case Finish(t) => Goto(s, t, Idle)
    case ForceRefresh(t) => Goto(s, t, Fetching(PhaseOf(s, t).name, []))
    case StartRound(t) => Goto(s, t, Looping(s.registered))
    case NextServer(t) => Goto(s, t, Fetching(PhaseOf(s, t).todo[0], PhaseOf(s, t).todo[1..]))
    case FetchFailed(t) => Goto(s, t, Looping(PhaseOf(s, t).todo))
    case Search(t, fetched) =>
      var i := IndexOf(s.inner, fetched.name);
      if i < |s.inner| then Goto(s.(inner := s.inner[i := fetched]), t, Looping(PhaseOf(s, t).todo))
      else Goto(s, t, Appending(fetched, PhaseOf(s, t).todo))
    case Append(t) =>
      var p := PhaseOf(s, t);
      Goto(s.(inner := s.inner + [p.server]), t, Registering(p.server.name, p.todo))
    case Register(t) =>
      var p := PhaseOf(s, t);
      Goto(s.(registered := Upsert(s.registered, p.name)), t, Looping(p.todo))
    case EndRound(t, sorted) => Goto(s.(inner := sorted), t, Idle)
    case NewRtt(i, rtt) => s.(inner := s.inner[i := s.inner[i].(rtt := rtt)])
    case NewSource(name) => s.(registered := Upsert(s.registered, name))
  }

  // --- The invariant ---

  ghost predicate Once(names: seq<string>) {
    forall n :: multiset(names)[n] <= 1
  }

  lemma OnceIsDistinct(names: seq<string>)
    requires Once(names)
    ensures Distinct(names)
  {
    forall i, j | 0 <= i < j < |names| ensures names[i] != names[j] {
      assert names == names[..j] + [names[j]] + names[j + 1..];
      assert names[i] in multiset(names[..j]);
      assert multiset(names)[names[j]] == multiset(names[..j])[names[j]] + 1 + multiset(names[j + 1..])[names[j]];
    }
  }

  /** What each goroutine may rely on between two of its steps. */
  ghost predicate PhaseOk(c: Setup, s: State, t: Tid) {
    var p, names := PhaseOf(s, t), NamesOf(s.inner);
    if t in c.refreshers then
      && !p.Handling?
      && (p.Appending? ==> p.server.name !in names)
    else
      && !p.Appending? && !p.Registering?
      && (p.Handling? || p.Fetching? ==> p.name in names)
      && (p.Looping? ==> p.todo == [])
      && (p.Fetching? ==> p.todo == [])
  }

  ghost predicate Inv(c: Setup, s: State) {
    && Once(NamesOf(s.inner))
    && Once(s.registered)
    && forall t: Tid :: PhaseOk(c, s, t)
  }

  ghost predicate Init(s: State) {
    s.inner == [] && Once(s.registered) && s.threads == map[]
  }

  /** `names` kept, possibly in another order and with one name added. */
  lemma NamesAfter(c: Setup, s: State, a: Action)
    requires Enabled(c, s, a)
    ensures var names, names' := multiset(NamesOf(s.inner)), multiset(NamesOf(Apply(c, s, a).inner));
            names' == if a.Append? then names + multiset{PhaseOf(s, a.t).server.name} else names
  {
    var s' := Apply(c, s, a);
    match a
    case GetOne(t, pick, draw, now) => UpdatedKeepsServers(s.inner, c.strategy, pick, draw, now);
    case Search(t, fetched) => assert s'.inner != s.inner ==> NamesOf(s'.inner) == NamesOf(s.inner);
    case Append(t) =>
      var server := PhaseOf(s, t).server;
      assert NamesOf(s.inner + [server]) == NamesOf(s.inner) + [server.name];
    case EndRound(t, sorted) => NamesPermuted(s.inner, sorted);
    case NewRtt(i, rtt) => assert NamesOf(s'.inner) == NamesOf(s.inner);
    case _ =>
  }

  lemma NotFoundMeansAbsent(s: Table, name: string)
    requires IndexOf(s, name) == |s|
    ensures name !in NamesOf(s)
  {
  }

  /** No step ever drops a server name. */
  lemma StepKeepsNames(c: Setup, s: State, a: Action, n: string)
    requires Enabled(c, s, a) && n in NamesOf(s.inner)
    ensures n in NamesOf(Apply(c, s, a).inner)
  {
    NamesAfter(c, s, a);
    assert n in multiset(NamesOf(s.inner));
    assert n in multiset(NamesOf(Apply(c, s, a).inner));
  }

  lemma UpsertOnce(registered: seq<string>, name: string)
    requires Once(registered)
    ensures Once(Upsert(registered, name))
  {
    if name !in registered {
      assert multiset(registered + [name]) == multiset(registered) + multiset{name};
      assert name !in multiset(registered);
    }
  }

  /** The acting goroutine leaves its step in a legal phase. */
  lemma ActorOk(c: Setup, s: State, a: Action)
    requires |c.refreshers| <= 1 && Inv(c, s) && Enabled(c, s, a) && !a.NewRtt? && !a.NewSource?
    ensures PhaseOk(c, Apply(c, s, a), a.t)
  {
    var s' := Apply(c, s, a);
    assert PhaseOk(c, s, a.t);
    match a
    case GetOne(t, pick, draw, now) =>
      IndicesInRange(c.strategy, |s.inner|, pick, draw);
      UpdatedKeepsServers(s.inner, c.strategy, pick, draw, now);
      assert NamesOf(s'.inner)[pick] == s'.inner[pick].name;
    case Search(t, fetched) =>
      if IndexOf(s.inner, fetched.name) == |s.inner| { NotFoundMeansAbsent(s.inner, fetched.name); }
    case _ =>
  }

  lemma AtMostOne(ts: set<Tid>, t: Tid, u: Tid)
    requires |ts| <= 1 && t in ts && u in ts
    ensures t == u
  {
    if t != u {
      assert {t, u} <= ts;
      assert |{t, u}| == 2;
      SubsetSize({t, u}, ts);
    }
  }

  /** Nobody else's phase is invalidated by a step. */
  lemma BystanderOk(c: Setup, s: State, a: Action, u: Tid)
    requires |c.refreshers| <= 1 && Inv(c, s) && Enabled(c, s, a)
    requires a.NewRtt? || a.NewSource? || u != a.t
    ensures PhaseOk(c, Apply(c, s, a), u)
  {
    var s' := Apply(c, s, a);
    assert PhaseOk(c, s, u);
    assert PhaseOf(s', u) == PhaseOf(s, u);
    var p := PhaseOf(s, u);
    if u in c.refreshers {
      if p.Appending? {
        NamesAfter(c, s, a);
        if a.Append? {
          assert PhaseOk(c, s, a.t);
          if a.t in c.refreshers { AtMostOne(c.refreshers, u, a.t); }
        }
        assert p.server.name !in multiset(NamesOf(s.inner));
        assert p.server.name !in multiset(NamesOf(s'.inner));
      }
    } else if p.Handling? || p.Fetching? {
      StepKeepsNames(c, s, a, p.name);
    }
  }

  /** With at most one periodic refresher, every step keeps the names unique. */
  lemma StepKeepsInv(c: Setup, s: State, a: Action)
    requires |c.refreshers| <= 1 && Inv(c, s) && Enabled(c, s, a)
    ensures Inv(c, Apply(c, s, a))
  {
    var s' := Apply(c, s, a);
    forall u: Tid ensures PhaseOk(c, s', u) {
      if a.NewRtt? || a.NewSource? || u != a.t { BystanderOk(c, s, a, u); } else { ActorOk(c, s, a); }
    }
    NamesAfter(c, s, a);
    if a.Append? {
      assert PhaseOk(c, s, a.t);
      assert PhaseOf(s, a.t).server.name !in multiset(NamesOf(s.inner));
    }
    if a.Register? { UpsertOnce(s.registered, PhaseOf(s, a.t).name); }
    if a.NewSource? { UpsertOnce(s.registered, a.name); }
  }

  /** A refresh replaces what it refreshes: after a successful search the entry of that name is the fetched
      one and no other entry changed; otherwise the fetched one is what is appended. */
  lemma RefreshInstallsFetched(c: Setup, s: State, a: Action, i: int)
    requires Inv(c, s) && Enabled(c, s, a) && a.Search?
    ensures var s' := Apply(c, s, a);
            && (a.fetched.name in NamesOf(s.inner) && 0 <= i < |s'.inner| ==>
                  && |s'.inner| == |s.inner|
                  && s'.inner[i] == if s.inner[i].name == a.fetched.name then a.fetched else s.inner[i])
            && (a.fetched.name !in NamesOf(s.inner) ==>
                  && s'.inner == s.inner && Enabled(c, s', Append(a.t))
                  && Apply(c, s', Append(a.t)).inner == s.inner + [a.fetched])
  {
    var names := NamesOf(s.inner);
    OnceIsDistinct(names);
    var k := IndexOf(s.inner, a.fetched.name);
    if k == |s.inner| {
      NotFoundMeansAbsent(s.inner, a.fetched.name);
    } else {
      assert names[k] == a.fetched.name;
      if 0 <= i < |s.inner| && i != k { assert names[i] != names[k]; }
    }
  }

  /** Registered names are never lost; a server that was appended and a name of a new source are added. */
  lemma RegistrationsGrow(c: Setup, s: State, a: Action)
    requires Enabled(c, s, a)
    ensures s.registered <= Apply(c, s, a).registered
    ensures a.Register? ==> PhaseOf(s, a.t).name in Apply(c, s, a).registered
    ensures a.NewSource? ==> a.name in Apply(c, s, a).registered
    ensures a.StartRound? ==> PhaseOf(Apply(c, s, a), a.t) == Looping(s.registered)
  {
  }

  // --- Runs ---

  ghost predicate Run(c: Setup, states: seq<State>, actions: seq<Action>) {
    && |states| == |actions| + 1
    && Init(states[0])
    && forall i :: 0 <= i < |actions| ==>
         Enabled(c, states[i], actions[i]) && states[i + 1] == Apply(c, states[i], actions[i])
  }

  lemma {:induction false} RunKeepsInv(c: Setup, states: seq<State>, actions: seq<Action>, i: nat)
    requires |c.refreshers| <= 1 && Run(c, states, actions) && i < |states|
    ensures Inv(c, states[i])
  {
    if i == 0 {
      assert NamesOf(states[0].inner) == [];
    } else {
      RunKeepsInv(c, states, actions, i - 1);
      StepKeepsInv(c, states[i - 1], actions[i - 1]);
    }
  }

  lemma {:induction false} RunKeepsNames(c: Setup, states: seq<State>, actions: seq<Action>, i: nat, j: nat, n: string)
    requires Run(c, states, actions) && i <= j < |states| && n in NamesOf(states[i].inner)
    ensures n in NamesOf(states[j].inner)
    decreases j
  {
    if i < j {
      RunKeepsNames(c, states, actions, i, j - 1, n);
      StepKeepsNames(c, states[j - 1], actions[j - 1], n);
    }
  }

  /** In every interleaving with at most one refresher, names stay distinct and none is lost,
      although the lock is free between the search and the append. */
  lemma TableStaysConsistent(c: Setup, states: seq<State>, actions: seq<Action>, i: nat, j: nat)
    requires |c.refreshers| <= 1 && Run(c, states, actions) && i <= j < |states|
    ensures Distinct(NamesOf(states[j].inner)) && Distinct(states[j].registered)
    ensures forall n :: n in NamesOf(states[i].inner) ==> n in NamesOf(states[j].inner)
  {
    RunKeepsInv(c, states, actions, j);
    OnceIsDistinct(NamesOf(states[j].inner));
    OnceIsDistinct(states[j].registered);
    forall n | n in NamesOf(states[i].inner) ensures n in NamesOf(states[j].inner) {
      RunKeepsNames(c, states, actions, i, j, n);
    }
  }

  /** A refresher that has found the first registered name absent, and is about to append it. */
  lemma ReachAppend(c: Setup, s: State, t: Tid, server: ServerInfo) returns (states: seq<State>, actions: seq<Action>)
    requires t in c.refreshers && PhaseOf(s, t).Idle? && s.inner == []
    requires s.registered != [] && server.name == s.registered[0]
    ensures |states| == 4 && |actions| == 3 && states[0] == s
    ensures forall i :: 0 <= i < 3 ==>
              Enabled(c, states[i], actions[i]) && states[i + 1] == Apply(c, states[i], actions[i])
    ensures states[3] == Goto(s, t, Appending(server, s.registered[1..]))
  {
    actions := [StartRound(t), NextServer(t), Search(t, server)];
    var s1 := Apply(c, s, actions[0]);
    var s2 := Apply(c, s1, actions[1]);
    var s3 := Apply(c, s2, actions[2]);
    states := [s, s1, s2, s3];
    assert s3.threads == s.threads[t := Appending(server, s.registered[1..])];
  }

  /** Two refreshers that both search before either appends list the server twice. */
  lemma TwoRefreshersDuplicate(c: Setup, t: Tid, u: Tid, registered: seq<string>)
    returns (states: seq<State>, actions: seq<Action>)
    requires t in c.refreshers && u in c.refreshers && t != u
    requires registered != [] && Once(registered)
    ensures Run(c, states, actions) && states[0].registered == registered
    ensures !Distinct(NamesOf(states[|states| - 1].inner))
  {
    var server := ServerInfo(registered[0], 0, 0.0, 0);
    var first, as1 := ReachAppend(c, State([], registered, map[]), t, server);
    var second, as2 := ReachAppend(c, first[3], u, server);
    var s7 := Apply(c, second[3], Append(t));
    var s8 := Apply(c, s7, Append(u));
    assert s8.inner == [server, server];
    assert NamesOf(s8.inner)[0] == NamesOf(s8.inner)[1];
    states := [first[0], first[1], first[2], first[3], second[1], second[2], second[3], s7, s8];
    actions := [as1[0], as1[1], as1[2], as2[0], as2[1], as2[2], Append(t), Append(u)];
  }

  /** Unique names in every run: exactly the setups with at most one refresher. */
  lemma UniqueIffOneRefresher(c: Setup, registered: seq<string>)
    requires registered != [] && Once(registered)
    ensures (forall states: seq<State>, actions :: Run(c, states, actions) && states[0].registered == registered ==>
               forall i :: 0 <= i < |states| ==> Distinct(NamesOf(states[i].inner)))
            <==> |c.refreshers| <= 1
  {
    if |c.refreshers| <= 1 {
      forall states: seq<State>, actions, i | Run(c, states, actions) && 0 <= i < |states|
        ensures Distinct(NamesOf(states[i].inner))
      {
        TableStaysConsistent(c, states, actions, i, i);
      }
    } else {
      var t := Pick(c.refreshers);
      var rest := c.refreshers - {t};
      assert |rest| >= 1;
      var u := Pick(rest);
      var states, actions := TwoRefreshersDuplicate(c, t, u, registered);
      assert Run(c, states, actions) && !Distinct(NamesOf(states[|states| - 1].inner));
    }
  }
}
