/**
 The raced certificate query of `DNSExchange`: several delayed attempts, large and
 small, send their outcome on one channel; the receiver keeps the best and falls
 back from the relay to a direct connection once.
 */
module CertExchange {
  import opened Names

  const MAX_TRIES: nat := 3

  /** Outcome of one attempt. Large queries have priority 0, small ones priority 1. */
  datatype Outcome =
    | Failed(error: string)
    | Replied(response: int, rtt: int, priority: int, fragmentsBlocked: bool)

  // --- Receiving ---

  /** A priority-0 reply ends the race. */
  predicate Decisive(o: Outcome) { o.Replied? && o.priority == 0 }

  /** What the reply kept after the first `n` arrivals must be, without reference to how it is found. */
  ghost predicate BestOf(arrivals: seq<Outcome>, best: Option<Outcome>) {
    if exists i :: 0 <= i < |arrivals| && Decisive(arrivals[i]) then
      exists i :: 0 <= i < |arrivals| && Decisive(arrivals[i]) && best == Some(arrivals[i]) &&
                  forall j :: 0 <= j < i ==> !Decisive(arrivals[j])
    else if exists i :: 0 <= i < |arrivals| && arrivals[i].Replied? then
      exists i :: 0 <= i < |arrivals| && arrivals[i].Replied? && best == Some(arrivals[i]) &&
                  (forall j :: 0 <= j < |arrivals| && arrivals[j].Replied? ==> arrivals[i].rtt <= arrivals[j].rtt) &&
                  (forall j :: 0 <= j < i && arrivals[j].Replied? ==> arrivals[i].rtt < arrivals[j].rtt)
    else best == None
  }

  /** Attempts only ever carry the two priorities. */
  predicate TwoPriorities(arrivals: seq<Outcome>) {
    forall i :: 0 <= i < |arrivals| && arrivals[i].Replied? ==>
      arrivals[i].priority == 0 || arrivals[i].priority == 1
  }

  lemma BestOfUnique(arrivals: seq<Outcome>, a: Option<Outcome>, b: Option<Outcome>)
    requires BestOf(arrivals, a) && BestOf(arrivals, b)
    ensures a == b
  {
    if exists i :: 0 <= i < |arrivals| && Decisive(arrivals[i]) {
      var i :| 0 <= i < |arrivals| && Decisive(arrivals[i]) && a == Some(arrivals[i]) &&
               forall j :: 0 <= j < i ==> !Decisive(arrivals[j]);
      var k :| 0 <= k < |arrivals| && Decisive(arrivals[k]) && b == Some(arrivals[k]) &&
               forall j :: 0 <= j < k ==> !Decisive(arrivals[j]);
    } else if exists i :: 0 <= i < |arrivals| && arrivals[i].Replied? {
      var i :| 0 <= i < |arrivals| && arrivals[i].Replied? && a == Some(arrivals[i]) &&
               (forall j :: 0 <= j < |arrivals| && arrivals[j].Replied? ==> arrivals[i].rtt <= arrivals[j].rtt) &&
               (forall j :: 0 <= j < i && arrivals[j].Replied? ==> arrivals[i].rtt < arrivals[j].rtt);
      var k :| 0 <= k < |arrivals| && arrivals[k].Replied? && b == Some(arrivals[k]) &&
               (forall j :: 0 <= j < |arrivals| && arrivals[j].Replied? ==> arrivals[k].rtt <= arrivals[j].rtt) &&
               (forall j :: 0 <= j < k && arrivals[j].Replied? ==> arrivals[k].rtt < arrivals[j].rtt);
    }
  }

  /** The receive loop: `arrivals` is the order in which the channel delivers. */
  method Receive(arrivals: seq<Outcome>) returns (best: Option<Outcome>, error: Option<string>, cancelled: bool)
    requires TwoPriorities(arrivals)
    ensures BestOf(arrivals, best)
    ensures cancelled <==> exists i :: 0 <= i < |arrivals| && Decisive(arrivals[i])
    ensures best.None? ==> error == if arrivals == [] then None else Some(arrivals[|arrivals| - 1].error)
  {
    best, error, cancelled := None, None, false;
    ghost var at := 0;
    for i := 0 to |arrivals|
      invariant best.None? ==> forall j :: 0 <= j < i ==> arrivals[j].Failed?
      invariant best.None? ==> error == if i == 0 then None else Some(arrivals[i - 1].error)
      invariant best.Some? ==> 0 <= at < i && arrivals[at].Replied? && best == Some(arrivals[at])
      invariant best.Some? ==> forall j :: 0 <= j < i && arrivals[j].Replied? ==> arrivals[at].rtt <= arrivals[j].rtt
      invariant best.Some? ==> forall j :: 0 <= j < at && arrivals[j].Replied? ==> arrivals[at].rtt < arrivals[j].rtt
      invariant !cancelled && forall j :: 0 <= j < i ==> !Decisive(arrivals[j])
    {
      var o := arrivals[i];
      if o.Replied? {
        if best.None? || o.priority < best.value.priority ||
           (o.priority == best.value.priority && o.rtt < best.value.rtt) {
          best := Some(o);
          at := i;
          if o.priority == 0 {
            cancelled := true;
            assert Decisive(arrivals[i]);
            break;
          }
        }
      } else {
        error := Some(o.error);
      }
    }
  }

  /** When no large query got through, the round-trip time of the winner does not depend on the
      order of arrival. */
  lemma WinnerRttIsOrderFree(a: seq<Outcome>, b: seq<Outcome>, x: Outcome, y: Outcome)
    requires multiset(a) == multiset(b)
    requires forall i :: 0 <= i < |a| ==> !Decisive(a[i])
    requires BestOf(a, Some(x)) && BestOf(b, Some(y))
    ensures x.Replied? && y.Replied? && x.rtt == y.rtt
  {
    forall i | 0 <= i < |b| ensures !Decisive(b[i]) { assert b[i] in multiset(a); }
    var i :| 0 <= i < |a| && a[i] == x && a[i].Replied? &&
             forall j :: 0 <= j < |a| && a[j].Replied? ==> a[i].rtt <= a[j].rtt;
    var k :| 0 <= k < |b| && b[k] == y && b[k].Replied? &&
             forall j :: 0 <= j < |b| && b[j].Replied? ==> b[k].rtt <= b[j].rtt;
    assert x in multiset(b) && y in multiset(a);
    var i' :| 0 <= i' < |b| && b[i'] == x;
    var k' :| 0 <= k' < |a| && a[k'] == y;
  }

  // --- The channel ---

  function Attempts(tryFragments: bool): nat { if tryFragments then 2 * MAX_TRIES else MAX_TRIES }

  const CAPACITY: nat := 2 * MAX_TRIES

  /** Goroutines that have not sent yet, messages in the channel, messages received. */
  datatype Race = Race(unsent: set<nat>, buffered: nat, received: nat, stopped: bool)

  datatype RaceStep = Send(attempt: nat) | Recv | Stop

  predicate RaceEnabled(r: Race, s: RaceStep) {
    match s
    case Send(g) => g in r.unsent && r.buffered < CAPACITY
    case Recv => !r.stopped && r.buffered > 0
    case Stop => !r.stopped
  }

  function RaceApply(r: Race, s: RaceStep): Race
    requires RaceEnabled(r, s)
  {
    match s
    case Send(g) => r.(unsent := r.unsent - {g}, buffered := r.buffered + 1)
    case Recv => r.(buffered := r.buffered - 1, received := r.received + 1)
    case Stop => r.(stopped := true)
  }

  /** The attempts `0..n`. */
  function FirstN(n: nat): (r: set<nat>)
    ensures |r| == n && forall i: nat :: i in r <==> i < n
  {
    if n == 0 then {} else FirstN(n - 1) + {n - 1}
  }

  function RaceStart(tryFragments: bool): Race {
    Race(FirstN(Attempts(tryFragments)), 0, 0, false)
  }

  ghost predicate RaceRun(races: seq<Race>, steps: seq<RaceStep>, tryFragments: bool) {
    && |races| == |steps| + 1
    && races[0] == RaceStart(tryFragments)
    && forall i :: 0 <= i < |steps| ==> RaceEnabled(races[i], steps[i]) && races[i + 1] == RaceApply(races[i], steps[i])
  }

  lemma {:induction false} RaceConserves(races: seq<Race>, steps: seq<RaceStep>, tryFragments: bool, i: nat)
    requires RaceRun(races, steps, tryFragments) && i < |races|
    ensures |races[i].unsent| + races[i].buffered + races[i].received == Attempts(tryFragments)
  {
    if i > 0 {
      RaceConserves(races, steps, tryFragments, i - 1);
    }
  }

  /** No goroutine ever blocks on its send, even after the receiver has left; and while the receiver
      still waits for one of its `Attempts`, a message is buffered or some goroutine can send. */
  lemma NobodyBlocks(races: seq<Race>, steps: seq<RaceStep>, tryFragments: bool, i: nat)
    requires RaceRun(races, steps, tryFragments) && i < |races|
    ensures forall g :: g in races[i].unsent ==> RaceEnabled(races[i], Send(g))
    ensures !races[i].stopped && races[i].received < Attempts(tryFragments) ==>
              RaceEnabled(races[i], Recv) || exists g :: g in races[i].unsent && RaceEnabled(races[i], Send(g))
  {
    RaceConserves(races, steps, tryFragments, i);
    if races[i].unsent != {} {
      var g := Pick(races[i].unsent);
      assert |races[i].unsent - {g}| == |races[i].unsent| - 1;
    }
  }

  // --- The exchange ---

  datatype Result = Reply(response: int, rtt: int, fragmentsBlocked: bool) | Error(error: string)

  predicate ResultOf(arrivals: seq<Outcome>, best: Option<Outcome>, result: Result) {
    match best
    case Some(o) => o.Replied? && result == Reply(o.response, o.rtt, o.fragmentsBlocked)
    case None => arrivals != [] && arrivals[|arrivals| - 1].Failed? && result == Error(arrivals[|arrivals| - 1].error)
  }

  /** `result` is what the best of the arrivals gives, or the last error if every attempt failed. */
  ghost predicate Concludes(arrivals: seq<Outcome>, result: Result) {
    exists best :: BestOf(arrivals, best) && ResultOf(arrivals, best, result)
  }

  /** The arrivals determine the result. */
  lemma ConcludesUnique(arrivals: seq<Outcome>, a: Result, b: Result)
    requires Concludes(arrivals, a) && Concludes(arrivals, b)
    ensures a == b
  {
    var x :| BestOf(arrivals, x) && ResultOf(arrivals, x, a);
    var y :| BestOf(arrivals, y) && ResultOf(arrivals, y, b);
    BestOfUnique(arrivals, x, y);
  }

  predicate AllFailed(arrivals: seq<Outcome>) { forall i :: 0 <= i < |arrivals| ==> arrivals[i].Failed? }

  /** The outer loop. `viaRelay` and `direct` are the arrivals of the two races; the second is run
      only if a relay was set, every relayed attempt failed and the fallback is allowed. */
  method Exchange(viaRelay: seq<Outcome>, direct: seq<Outcome>, relaySet: bool, fallback: bool)
    returns (result: Result, rounds: nat)
    requires TwoPriorities(viaRelay) && TwoPriorities(direct)
    requires viaRelay != [] && direct != []
    ensures rounds == if relaySet && fallback && AllFailed(viaRelay) then 2 else 1
    ensures Concludes(if relaySet && rounds == 1 then viaRelay else direct, result)
  {
    var relay := relaySet;
    rounds := 0;
    while true
      invariant rounds == if relaySet && !relay then 1 else 0
      invariant relay ==> relaySet
      invariant relaySet && !relay ==> fallback && AllFailed(viaRelay)
      decreases relay
    {
      rounds := rounds + 1;
      var arrivals := if relay then viaRelay else direct;
      var best, error, _ := Receive(arrivals);
      if best.Some? {
        return Reply(best.value.response, best.value.rtt, best.value.fragmentsBlocked), rounds;
      }
      assert AllFailed(arrivals);
      if !relay || !fallback {
        return Error(if error.None? then "Unable to reach the server" else error.value), rounds;
      }
      relay := false;
    }
  }
}
