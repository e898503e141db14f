/**
 The client counter of `proxy.go`: a shared word incremented and decremented by
 load and compare-and-swap loops of any number of handlers. A DNS64 response
 handler takes a second slot while it still holds its own.
 */
module Admission {
  datatype Level = Outer | Nested

  /** One use of the counter: the handler's own slot, or the slot of its DNS64 subquery. */
  datatype Slot = Slot(handler: nat, level: Level)

  datatype Phase =
    | Idle
    | IncLoaded(seen: nat)     // value loaded, swap not tried yet
    | Held
    | DecLoaded(seen: nat)     // still holding, value loaded
    | Refused

  datatype State = State(count: nat, phases: map<Slot, Phase>)

  datatype Action =
    | LoadForInc(slot: Slot)
    | SwapForInc(slot: Slot)
    | LoadForDec(slot: Slot)
    | SwapForDec(slot: Slot)
    | Forget(slot: Slot)       // a refused request is over

  function PhaseOf(s: State, x: Slot): Phase {
    if x in s.phases then s.phases[x] else Idle
  }

  predicate Holds(p: Phase) { p.Held? || p.DecLoaded? }

  function Goto(s: State, x: Slot, p: Phase): State { s.(phases := s.phases[x := p]) }

  /** A nested slot is used only while the handler's own slot is held and not being returned. */
  predicate Enabled(s: State, a: Action) {
    var x := a.slot;
    && (x.level.Nested? ==> PhaseOf(s, Slot(x.handler, Outer)).Held?)
    && (x.level.Outer? ==> PhaseOf(s, Slot(x.handler, Nested)).Idle?)
    && match a
       case LoadForInc(_) => PhaseOf(s, x).Idle?
       case SwapForInc(_) => PhaseOf(s, x).IncLoaded?
       case LoadForDec(_) => PhaseOf(s, x).Held?
       case SwapForDec(_) => PhaseOf(s, x).DecLoaded?
       case Forget(_) => PhaseOf(s, x).Refused?
  }

  /** A failed swap goes back to the load. The word is an unsigned 32-bit integer. */
  function Apply(s: State, a: Action, maxClients: nat): State
    requires Enabled(s, a)
  {
    var x := a.slot;
    match a
    case LoadForInc(_) => Goto(s, x, if s.count >= maxClients then Refused else IncLoaded(s.count))
    case SwapForInc(_) =>
      var seen := PhaseOf(s, x).seen;
      if s.count == seen then Goto(s.(count := (seen + 1) % 0x1_0000_0000), x, Held) else Goto(s, x, Idle)
    case LoadForDec(_) => if s.count == 0 then Goto(s, x, Idle) else Goto(s, x, DecLoaded(s.count))
    case SwapForDec(_) =>
      var seen := PhaseOf(s, x).seen;
      if s.count == seen then Goto(s.(count := (seen - 1) % 0x1_0000_0000), x, Idle) else Goto(s, x, Held)
    case Forget(_) => Goto(s, x, Idle)
  }

  function Holders(s: State): set<Slot> {
    set x | x in s.phases && Holds(s.phases[x])
  }

  ghost predicate Inv(s: State, maxClients: nat) {
    && s.count == |Holders(s)| <= maxClients
    && forall x :: x in s.phases && s.phases[x].IncLoaded? ==> s.phases[x].seen < maxClients
  }

  ghost predicate Init(s: State) { s.count == 0 && s.phases == map[] }

  /** Changing one slot's phase moves it in or out of the holders, or neither. */
  lemma HoldersAfter(s: State, x: Slot, p: Phase)
    ensures Holders(Goto(s, x, p)) == if Holds(p) then Holders(s) + {x} else Holders(s) - {x}
    ensures x in Holders(s) <==> Holds(PhaseOf(s, x))
  {
  }

  /** A holder can always be counted, so a decrement never meets a zero. */
  lemma HolderIsCounted(s: State, x: Slot, maxClients: nat)
    requires Inv(s, maxClients) && Holds(PhaseOf(s, x))
    ensures s.count >= 1
  {
    assert x in Holders(s);
  }

  /** Taking a slot. */
  lemma TakeSlot(s: State, x: Slot, maxClients: nat)
    requires Inv(s, maxClients) && !Holds(PhaseOf(s, x)) && s.count < maxClients
    ensures Inv(Goto(s.(count := s.count + 1), x, Held), maxClients)
  {
    var s' := Goto(s.(count := s.count + 1), x, Held);
    HoldersAfter(s, x, Held);
    assert Holders(s') == Holders(s) + {x} && x !in Holders(s);
  }

  /** Returning a slot. */
  lemma ReturnSlot(s: State, x: Slot, maxClients: nat)
    requires Inv(s, maxClients) && Holds(PhaseOf(s, x))
    ensures s.count >= 1 && Inv(Goto(s.(count := s.count - 1), x, Idle), maxClients)
  {
    HolderIsCounted(s, x, maxClients);
    var s' := Goto(s.(count := s.count - 1), x, Idle);
    HoldersAfter(s, x, Idle);
    assert Holders(s') == Holders(s) - {x} && x in Holders(s);
  }

  /** A phase change that takes or returns nothing. */
  lemma KeepSlot(s: State, x: Slot, p: Phase, maxClients: nat)
    requires Inv(s, maxClients) && Holds(PhaseOf(s, x)) == Holds(p)
    requires p.IncLoaded? ==> p.seen < maxClients
    ensures Inv(Goto(s, x, p), maxClients)
  {
    HoldersAfter(s, x, p);
    assert Holders(Goto(s, x, p)) == Holders(s);
  }

  lemma StepKeepsInv(s: State, a: Action, maxClients: nat)
    requires Inv(s, maxClients) && Enabled(s, a) && maxClients < 0x1_0000_0000
    ensures Inv(Apply(s, a, maxClients), maxClients)
    ensures a.LoadForDec? ==> s.count != 0
  {
    var x := a.slot;
    match a
    case LoadForInc(_) => KeepSlot(s, x, if s.count >= maxClients then Refused else IncLoaded(s.count), maxClients);
    case SwapForInc(_) =>
      if s.count == PhaseOf(s, x).seen { TakeSlot(s, x, maxClients); } else { KeepSlot(s, x, Idle, maxClients); }
    case LoadForDec(_) => HolderIsCounted(s, x, maxClients); KeepSlot(s, x, DecLoaded(s.count), maxClients);
    case SwapForDec(_) =>
      if s.count == PhaseOf(s, x).seen { ReturnSlot(s, x, maxClients); } else { KeepSlot(s, x, Held, maxClients); }
    case Forget(_) => KeepSlot(s, x, Idle, maxClients);
  }

  ghost predicate Run(states: seq<State>, actions: seq<Action>, maxClients: nat) {
    && |states| == |actions| + 1
    && Init(states[0])
    && forall i :: 0 <= i < |actions| ==>
         Enabled(states[i], actions[i]) && states[i + 1] == Apply(states[i], actions[i], maxClients)
  }

  lemma {:induction false} RunKeepsInv(states: seq<State>, actions: seq<Action>, maxClients: nat, i: nat)
    requires Run(states, actions, maxClients) && maxClients < 0x1_0000_0000 && i < |states|
    ensures Inv(states[i], maxClients)
  {
    if i == 0 {
      assert Holders(states[0]) == {};
    } else {
      RunKeepsInv(states, actions, maxClients, i - 1);
      StepKeepsInv(states[i - 1], actions[i - 1], maxClients);
    }
  }

  /** In every interleaving the counter is the number of slots held, never exceeds the limit, the
      zero escape of the decrement is never taken, and a request is refused only while
      `maxClients` slots are held. */
  lemma CounterIsExact(states: seq<State>, actions: seq<Action>, maxClients: nat, i: nat)
    requires Run(states, actions, maxClients) && maxClients < 0x1_0000_0000 && i < |states|
    ensures states[i].count == |Holders(states[i])| <= maxClients
    ensures i < |actions| && actions[i].LoadForDec? ==> states[i].count > 0
    ensures i < |actions| && actions[i].LoadForInc? && PhaseOf(states[i + 1], actions[i].slot).Refused? ==>
              |Holders(states[i])| == maxClients
  {
    RunKeepsInv(states, actions, maxClients, i);
    if i < |actions| { StepKeepsInv(states[i], actions[i], maxClients); }
  }

  // --- Progress ---

  predicate Succeeds(s: State, a: Action) {
    || (a.SwapForInc? && PhaseOf(s, a.slot).IncLoaded? && s.count == PhaseOf(s, a.slot).seen)
    || (a.SwapForDec? && PhaseOf(s, a.slot).DecLoaded? && s.count == PhaseOf(s, a.slot).seen)
  }

  lemma {:induction false} NoSwapNoChange(states: seq<State>, actions: seq<Action>, maxClients: nat, i: nat, j: nat)
    requires Run(states, actions, maxClients) && i <= j <= |actions|
    requires forall k :: i <= k < j ==> !Succeeds(states[k], actions[k])
    ensures states[i].count == states[j].count
    decreases j
  {
    if i < j { NoSwapNoChange(states, actions, maxClients, i, j - 1); }
  }

  /** What a slot has loaded is what the counter was at its load, until it tries its swap. */
  lemma {:induction false} SeenSinceLoad(states: seq<State>, actions: seq<Action>, maxClients: nat, j: nat, x: Slot)
    returns (i: nat)
    requires Run(states, actions, maxClients) && j < |states|
    requires PhaseOf(states[j], x).IncLoaded? || PhaseOf(states[j], x).DecLoaded?
    ensures i < j && actions[i].slot == x && (actions[i].LoadForInc? || actions[i].LoadForDec?)
    ensures states[i].count == PhaseOf(states[j], x).seen
    ensures forall k :: i < k < j ==> actions[k].slot != x
  {
    i := j - 1;
    if actions[j - 1].slot != x {
      i := SeenSinceLoad(states, actions, maxClients, j - 1, x);
    }
  }

  /** The loops are lock-free: a swap fails only if another handler's swap succeeded since the load. */
  lemma FailedSwapHasAWinner(states: seq<State>, actions: seq<Action>, maxClients: nat, j: nat)
    requires Run(states, actions, maxClients) && j < |actions|
    requires actions[j].SwapForInc? || actions[j].SwapForDec?
    requires !Succeeds(states[j], actions[j])
    ensures exists i, k :: 0 <= i < k < j && actions[i].slot == actions[j].slot &&
              (actions[i].LoadForInc? || actions[i].LoadForDec?) &&
              actions[k].slot != actions[j].slot && Succeeds(states[k], actions[k])
  {
    var i := SeenSinceLoad(states, actions, maxClients, j, actions[j].slot);
    if forall k :: i < k < j ==> !Succeeds(states[k], actions[k]) {
      assert !Succeeds(states[i], actions[i]);
      NoSwapNoChange(states, actions, maxClients, i, j);
      assert false;
    }
    var k :| i < k < j && Succeeds(states[k], actions[k]);
  }
}
