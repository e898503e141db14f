/**
 The captive-portal listeners of `coldstart.go` and their shutdown: one goroutine per
 address, a cancel channel that is closed, and a counting channel that is polled.
 */
module ColdStart {
  import opened Names

  /** Life of a listener goroutine: in `ReadFrom`, back from it, past the test of the cancel channel, and
      on its way out. */
  datatype Listener = Reading | Received | Handling | Leaving | SocketClosed | Signalled

  /** The goroutine that calls `ColdStart` and later `Stop`. A listener is counted after it was started. */
  datatype Owner = Adding(next: nat) | Counting(next: nat) | Waiting | Polling | Stopped

  /** `signals` is the content of the counting channel, by sender; nobody receives from it. */
  datatype State = State(
    owner: Owner, listeners: map<nat, Listener>, channelCount: nat,
    cancelled: bool, signals: seq<nat>, countClosed: bool)

  datatype Step =
    | AddListener(ok: bool)     // next address; opening the socket may fail
    | Count                     // the listener is counted
    | Return                    // `ColdStart` is done
    | Cancel                    // `Stop` closes the cancel channel
    | Poll                      // `Stop` compares the channel length
    | Receive(l: nat)           // a packet, an error or a timeout
    | Check(l: nat)             // the cancel channel is looked at
    | Handle(l: nat, failed: bool)  // a query answered, a timeout, or a failed read
    | CloseSocket(l: nat)
    | Signal(l: nat)

  predicate At(s: State, l: nat, p: Listener) { l in s.listeners && s.listeners[l] == p }

  predicate Enabled(s: State, n: nat, step: Step) {
    match step
    case AddListener(_) => s.owner.Adding? && s.owner.next < n
    case Count => s.owner.Counting?
    case Return => s.owner == Adding(n)
    case Cancel => s.owner.Waiting?
    case Poll => s.owner.Polling?
    case Receive(l) => At(s, l, Reading)
    case Check(l) => At(s, l, Received)
    case Handle(l, _) => At(s, l, Handling)
    case CloseSocket(l) => At(s, l, Leaving)
    case Signal(l) => At(s, l, SocketClosed)
  }

  function Goto(s: State, l: nat, p: Listener): State { s.(listeners := s.listeners[l := p]) }

  function Apply(s: State, n: nat, step: Step): State
    requires Enabled(s, n, step)
  {
    match step
    case AddListener(ok) =>
      if ok then Goto(s, s.owner.next, Reading).(owner := Counting(s.owner.next))
      else s.(owner := Adding(s.owner.next + 1))
    case Count => s.(owner := Adding(s.owner.next + 1), channelCount := s.channelCount + 1)
    case Return => s.(owner := Waiting)
    case Cancel => s.(owner := Polling, cancelled := true)
    case Poll => if |s.signals| < s.channelCount then s else s.(owner := Stopped, countClosed := true)
    case Receive(l) => Goto(s, l, Received)
    case Check(l) => Goto(s, l, if s.cancelled then Leaving else Handling)
    case Handle(l, failed) => Goto(s, l, if failed then Leaving else Reading)
    case CloseSocket(l) => Goto(s, l, SocketClosed)
    case Signal(l) => Goto(s, l, Signalled).(signals := s.signals + [l])
  }

  /** A send that would panic or block. */
  predicate BadSend(s: State, n: nat, step: Step) {
    step.Signal? && (s.countClosed || |s.signals| >= n)
  }

  // --- The invariant ---

  function In(s: State, p: Listener): set<nat> {
    set l | l in s.listeners && s.listeners[l] == p
  }

  ghost predicate Inv(s: State, n: nat) {
    && |s.listeners.Keys| == s.channelCount + (if s.owner.Counting? then 1 else 0) <= n
    && (forall l :: l in s.listeners ==> l < n)
    && (s.owner.Adding? ==> s.channelCount <= s.owner.next <= n && forall l :: l in s.listeners ==> l < s.owner.next)
    && (s.owner.Counting? ==> s.channelCount <= s.owner.next < n && forall l :: l in s.listeners ==> l <= s.owner.next)
    && Distinct(s.signals) && |s.signals| == |In(s, Signalled)|
    && (forall l :: l in s.signals <==> l in In(s, Signalled))
    && (s.countClosed <==> s.owner.Stopped?)
    && (s.cancelled <==> s.owner.Polling? || s.owner.Stopped?)
    && (s.owner.Stopped? ==> In(s, Signalled) == s.listeners.Keys)
  }

  ghost predicate Init(s: State) {
    s == State(Adding(0), map[], 0, false, [], false)
  }

  lemma AddKeepsInv(s: State, n: nat, ok: bool)
    requires Inv(s, n) && Enabled(s, n, AddListener(ok))
    ensures Inv(Apply(s, n, AddListener(ok)), n)
  {
    var s' := Apply(s, n, AddListener(ok));
    if ok { assert s'.listeners.Keys == s.listeners.Keys + {s.owner.next}; }
    assert In(s', Signalled) == In(s, Signalled);
  }

  lemma OwnerKeepsInv(s: State, n: nat, step: Step)
    requires Inv(s, n) && Enabled(s, n, step) && (step.Count? || step.Return? || step.Cancel? || step.Poll?)
    ensures Inv(Apply(s, n, step), n)
  {
    SubsetSize(In(s, Signalled), s.listeners.Keys);
    assert In(Apply(s, n, step), Signalled) == In(s, Signalled);
  }

  /** A listener on its way out, before it signals. */
  lemma MoveKeepsInv(s: State, n: nat, l: nat, p: Listener)
    requires Inv(s, n) && l in s.listeners && s.listeners[l] != Signalled && p != Signalled && !s.owner.Stopped?
    ensures Inv(Goto(s, l, p), n)
  {
    assert In(Goto(s, l, p), Signalled) == In(s, Signalled);
    assert Goto(s, l, p).listeners.Keys == s.listeners.Keys;
  }

  lemma SignalKeepsInv(s: State, n: nat, l: nat)
    requires Inv(s, n) && At(s, l, SocketClosed) && !s.owner.Stopped?
    ensures Inv(Apply(s, n, Signal(l)), n)
    ensures |s.signals| < n
  {
    var s', sent := Apply(s, n, Signal(l)), In(s, Signalled);
    assert l !in sent && l in s.listeners.Keys;
    assert In(s', Signalled) == sent + {l};
    assert s'.listeners.Keys == s.listeners.Keys;
    assert |sent + {l}| == |sent| + 1;
    SubsetSize(sent + {l}, s.listeners.Keys);
  }

  /** A listener that has not signalled proves that `Stop` has not returned. */
  lemma NotStopped(s: State, n: nat, l: nat)
    requires Inv(s, n) && l in s.listeners && s.listeners[l] != Signalled
    ensures !s.owner.Stopped?
  {
    assert l !in In(s, Signalled);
  }

  lemma StepKeepsInv(s: State, n: nat, step: Step)
    requires Inv(s, n) && Enabled(s, n, step)
    ensures Inv(Apply(s, n, step), n)
    ensures !BadSend(s, n, step)
  {
    match step
    case AddListener(ok) => AddKeepsInv(s, n, ok);
    case Count => OwnerKeepsInv(s, n, step);
    case Return => OwnerKeepsInv(s, n, step);
    case Cancel => OwnerKeepsInv(s, n, step);
    case Poll => OwnerKeepsInv(s, n, step);
    case Receive(l) => NotStopped(s, n, l); MoveKeepsInv(s, n, l, Received);
    case Check(l) => NotStopped(s, n, l); MoveKeepsInv(s, n, l, if s.cancelled then Leaving else Handling);
    case Handle(l, failed) => NotStopped(s, n, l); MoveKeepsInv(s, n, l, if failed then Leaving else Reading);
    case CloseSocket(l) => NotStopped(s, n, l); MoveKeepsInv(s, n, l, SocketClosed);
    case Signal(l) => NotStopped(s, n, l); SignalKeepsInv(s, n, l);
  }

  ghost predicate Run(states: seq<State>, steps: seq<Step>, n: nat) {
    && |states| == |steps| + 1
    && Init(states[0])
    && forall i :: 0 <= i < |steps| ==>
         Enabled(states[i], n, steps[i]) && states[i + 1] == Apply(states[i], n, steps[i])
  }

  lemma {:induction false} RunKeepsInv(states: seq<State>, steps: seq<Step>, n: nat, i: nat)
    requires Run(states, steps, n) && i < |states|
    ensures Inv(states[i], n)
  {
    if i == 0 {
      assert In(states[0], Signalled) == {};
    } else {
      RunKeepsInv(states, steps, n, i - 1);
      StepKeepsInv(states[i - 1], n, steps[i - 1]);
    }
  }

  /** In every interleaving no listener sends on a closed or full channel, and when `Stop` has
      returned, every listener that was started has closed its socket and signalled exactly once. */
  lemma ShutdownIsClean(states: seq<State>, steps: seq<Step>, n: nat, i: nat)
    requires Run(states, steps, n) && i < |states|
    ensures i < |steps| ==> !BadSend(states[i], n, steps[i])
    ensures states[i].owner.Stopped? ==>
              && (forall l :: l in states[i].listeners ==> At(states[i], l, Signalled) && l in states[i].signals)
              && Distinct(states[i].signals) && |states[i].signals| == states[i].channelCount == |states[i].listeners|
  {
    RunKeepsInv(states, steps, n, i);
    if i < |steps| { StepKeepsInv(states[i], n, steps[i]); }
    var s := states[i];
    if s.owner.Stopped? {
      forall l | l in s.listeners ensures At(s, l, Signalled) { assert l in In(s, Signalled); }
    }
  }

  // --- `Stop` does return ---

  /** Steps a listener in this phase has to take at most, once the cancel channel is closed: one that is
      past its test of the channel answers once more and comes back to it. */
  function ToGo(p: Listener): nat {
    match p
    case Handling => 5
    case Reading => 4
    case Received => 3
    case Leaving => 2
    case SocketClosed => 1
    case Signalled => 0
  }

  /** The same, summed up over the listeners `0..k`. */
  function RemainingUpTo(s: State, k: nat): nat {
    if k == 0 then 0
    else RemainingUpTo(s, k - 1) + (if k - 1 in s.listeners then ToGo(s.listeners[k - 1]) else 0)
  }

  function Remaining(s: State, n: nat): nat { RemainingUpTo(s, n) }

  predicate ListenerStep(step: Step) {
    step.Receive? || step.Check? || step.Handle? || step.CloseSocket? || step.Signal?
  }

  lemma {:induction false} RemainingChanges(s: State, s': State, l: nat, k: nat)
    requires l in s.listeners && l in s'.listeners && s'.listeners == s.listeners[l := s'.listeners[l]]
    ensures RemainingUpTo(s', k) ==
            RemainingUpTo(s, k) + (if l < k then ToGo(s'.listeners[l]) - ToGo(s.listeners[l]) else 0)
  {
    if k > 0 { RemainingChanges(s, s', l, k - 1); }
  }

  /** After the cancellation every listener step brings the end closer, whoever takes it. */
  lemma ListenersWindDown(s: State, n: nat, step: Step)
    requires Inv(s, n) && Enabled(s, n, step) && ListenerStep(step) && s.cancelled
    ensures Remaining(Apply(s, n, step), n) < Remaining(s, n)
  {
    RemainingChanges(s, Apply(s, n, step), step.l, n);
  }

  /** While `Stop` keeps polling in vain some listener can take a step; with none left it returns. */
  lemma PollingMakesProgress(s: State, n: nat)
    requires Inv(s, n) && s.owner.Polling?
    ensures |s.signals| < s.channelCount ==> exists step :: ListenerStep(step) && Enabled(s, n, step)
    ensures Remaining(s, n) == 0 ==> Apply(s, n, Poll).owner.Stopped?
  {
    if |s.signals| < s.channelCount {
      var rest := s.listeners.Keys - In(s, Signalled);
      assert rest != {} by {
        SubsetSize(In(s, Signalled), s.listeners.Keys);
        assert In(s, Signalled) != s.listeners.Keys;
        assert In(s, Signalled) + rest == s.listeners.Keys;
      }
      var l := Pick(rest);
      var step := match s.listeners[l]
                  case Reading => Receive(l)
                  case Received => Check(l)
                  case Handling => Handle(l, false)
                  case Leaving => CloseSocket(l)
                  case _ => Signal(l);
      assert ListenerStep(step) && Enabled(s, n, step);
      RemainingPositive(s, l, n);
    }
  }

  lemma {:induction false} RemainingPositive(s: State, l: nat, k: nat)
    requires l in s.listeners && s.listeners[l] != Signalled && l < k
    ensures RemainingUpTo(s, k) > 0
  {
    if l < k - 1 { RemainingPositive(s, l, k - 1); }
  }

  function ListenerSteps(steps: seq<Step>, i: nat, j: nat): nat
    requires i <= j <= |steps|
  {
    if i == j then 0 else ListenerSteps(steps, i, j - 1) + (if ListenerStep(steps[j - 1]) then 1 else 0)
  }

  lemma {:induction false} RemainingDependsOnListeners(s: State, s': State, k: nat)
    requires s.listeners == s'.listeners
    ensures RemainingUpTo(s, k) == RemainingUpTo(s', k) <= 5 * k
  {
    if k > 0 { RemainingDependsOnListeners(s, s', k - 1); }
  }

  /** In every interleaving the listeners take at most five steps each after the cancellation. */
  lemma {:induction false} WindDownBounded(states: seq<State>, steps: seq<Step>, n: nat, i: nat, j: nat)
    requires Run(states, steps, n) && i <= j < |states| && states[i].cancelled
    ensures states[j].cancelled
    ensures ListenerSteps(steps, i, j) + Remaining(states[j], n) <= Remaining(states[i], n) <= 5 * n
  {
    RemainingDependsOnListeners(states[i], states[i], n);
    if i < j {
      WindDownBounded(states, steps, n, i, j - 1);
      RunKeepsInv(states, steps, n, j - 1);
      CancelledStep(states[j - 1], n, steps[j - 1], 0);
      if ListenerStep(steps[j - 1]) {
        ListenersWindDown(states[j - 1], n, steps[j - 1]);
      } else {
        RemainingDependsOnListeners(states[j - 1], states[j], n);
      }
    }
  }

  lemma CancelledStep(s: State, n: nat, step: Step, l: nat)
    requires Inv(s, n) && Enabled(s, n, step) && s.cancelled
    ensures Apply(s, n, step).cancelled
    ensures !At(s, l, Handling) ==> !At(Apply(s, n, step), l, Handling)
    ensures !ListenerStep(step) ==> Apply(s, n, step).listeners == s.listeners
  {
  }

  /** Once the cancel channel is closed, a listener that is not past its test handles no query any more. */
  lemma {:induction false} NoHandlingAgain(states: seq<State>, steps: seq<Step>, n: nat, i: nat, j: nat, l: nat)
    requires Run(states, steps, n) && i <= j < |states| && states[i].cancelled && !At(states[i], l, Handling)
    ensures states[j].cancelled && !At(states[j], l, Handling)
  {
    if i < j {
      NoHandlingAgain(states, steps, n, i, j - 1, l);
      RunKeepsInv(states, steps, n, j - 1);
      CancelledStep(states[j - 1], n, steps[j - 1], l);
    }
  }

  /** In every interleaving each listener handles at most one query after the cancellation. */
  lemma OneAnswerAfterCancel(states: seq<State>, steps: seq<Step>, n: nat, i: nat, j: nat, l: nat)
    requires Run(states, steps, n) && i < j < |steps| && states[i].cancelled
    requires steps[i].Handle? && steps[i].l == l
    ensures !(steps[j].Handle? && steps[j].l == l)
  {
    NoHandlingAgain(states, steps, n, i + 1, j, l);
  }
}
