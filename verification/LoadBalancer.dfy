/**
 The server table of `serversInfo.go` as the load balancer sees it: which server
 is picked, and how one pick reorders the table.
 */
module LoadBalancer {
  import opened Names

  datatype ServerInfo = ServerInfo(name: string, initialRtt: int, rtt: real, lastAction: int)

  const IDLE_BEFORE_NEW_CHANCE: int := 60_000_000_000

  /** The round-trip average, with a decay of 2 / (10 + 1). */
  function EwmaAdd(average: real, sample: real): real {
    sample * (2.0 / 11.0) + average * (1.0 - 2.0 / 11.0)
  }

  // --- Strategies ---

  datatype Strategy = P2 | PN(n: int) | PH | First | Random

  /** The configuration parser only builds `PN` with a positive count. */
  predicate ValidStrategy(s: Strategy) { s.PN? ==> s.n > 0 }

  function ActiveCount(s: Strategy, count: int): int {
    match s
    case P2 => Min(count, 2)
    case PN(n) => Min(count, n)
    case PH => Max(Min(count, 2), count / 2)
    case First => 1
    case Random => count
  }

  /** The bound given to the random draw of `getCandidate`; `First` draws nothing. */
  function CandidateBound(s: Strategy, count: int): int {
    if s.First? then 1 else ActiveCount(s, count)
  }

  /** For every strategy and table size the current pick is active and the challenger is not. */
  lemma IndicesInRange(s: Strategy, count: int, current: int, draw: int)
    requires ValidStrategy(s) && count >= 1
    requires 0 <= current < CandidateBound(s, count)
    ensures 0 <= current < ActiveCount(s, count) <= count
    ensures ActiveCount(s, count) < count && 0 <= draw < count - ActiveCount(s, count) ==>
              current < ActiveCount(s, count) <= draw + ActiveCount(s, count) < count
  {
  }

  /** How many servers each strategy considers: one, two, a given number, half of them but at least two,
      or all, and never more than there are. */
  lemma ActiveCounts(count: int, n: int)
    requires count >= 1 && n >= 1
    ensures ActiveCount(First, count) == 1 && ActiveCount(Random, count) == count
    ensures count >= 2 ==> ActiveCount(P2, count) == 2 && ActiveCount(P2, 1) == 1
    ensures ActiveCount(PN(n), count) == n <==> n <= count
    ensures n > count ==> ActiveCount(PN(n), count) == count
    ensures count >= 4 ==> 2 * ActiveCount(PH, count) <= count < 2 * ActiveCount(PH, count) + 2
    ensures 2 <= count < 4 ==> ActiveCount(PH, count) == 2
    ensures ActiveCount(PH, 1) == 1
  {
  }

  // --- Inversions ---

  type Table = seq<ServerInfo>

  function CountAbove(s: Table, x: real): nat {
    if s == [] then 0
    else CountAbove(s[..|s| - 1], x) + (if s[|s| - 1].rtt > x then 1 else 0)
  }

  function CountBelow(s: Table, x: real): nat {
    if s == [] then 0
    else CountBelow(s[..|s| - 1], x) + (if s[|s| - 1].rtt < x then 1 else 0)
  }

  /** How far the table is from sorted. */
  function Inversions(s: Table): nat {
    if s == [] then 0
    else Inversions(s[..|s| - 1]) + CountAbove(s[..|s| - 1], s[|s| - 1].rtt)
  }

  function AboveIndices(s: Table, x: real): set<int> {
    set i | 0 <= i < |s| && s[i].rtt > x
  }

  function InvertedPairs(s: Table): set<(int, int)> {
    set i, j | 0 <= i < j < |s| && s[i].rtt > s[j].rtt :: (i, j)
  }

  lemma {:induction false} CountAboveIsCardinality(s: Table, x: real)
    ensures CountAbove(s, x) == |AboveIndices(s, x)|
  {
    if s != [] {
      var n := |s| - 1;
      CountAboveIsCardinality(s[..n], x);
      assert AboveIndices(s, x) == AboveIndices(s[..n], x) + (if s[n].rtt > x then {n} else {});
    }
  }

  function PairedWith(ks: set<int>, n: int): set<(int, int)> {
    set i | i in ks :: (i, n)
  }

  lemma {:induction false} PairedWithSize(ks: set<int>, n: int)
    ensures |PairedWith(ks, n)| == |ks|
  {
    if ks != {} {
      var i0 := Pick(ks);
      PairedWithSize(ks - {i0}, n);
      assert PairedWith(ks, n) == PairedWith(ks - {i0}, n) + {(i0, n)};
    } else {
      assert PairedWith(ks, n) == {};
    }
  }

  lemma InvertedPairsSnoc(s: Table, n: nat)
    requires |s| == n + 1
    ensures var front, last := InvertedPairs(s[..n]), PairedWith(AboveIndices(s[..n], s[n].rtt), n);
            InvertedPairs(s) == front + last && front !! last
  {
  }

  /** The recursive count is the number of out-of-order pairs. */
  lemma {:induction false} InversionsIsPairCount(s: Table)
    ensures Inversions(s) == |InvertedPairs(s)|
  {
    if s != [] {
      var n := |s| - 1;
      var above := AboveIndices(s[..n], s[n].rtt);
      InversionsIsPairCount(s[..n]);
      CountAboveIsCardinality(s[..n], s[n].rtt);
      PairedWithSize(above, n);
      InvertedPairsSnoc(s, n);
    }
  }

  predicate Sorted(s: Table) {
    forall i, j :: 0 <= i < j < |s| ==> s[i].rtt <= s[j].rtt
  }

  lemma {:induction false} SortedIffNoInversion(s: Table)
    ensures Sorted(s) <==> Inversions(s) == 0
  {
    InversionsIsPairCount(s);
    if !Sorted(s) {
      var i, j :| 0 <= i < j < |s| && s[i].rtt > s[j].rtt;
      assert (i, j) in InvertedPairs(s);
    }
  }

  lemma {:induction false} CountAboveConcat(s: Table, t: Table, x: real)
    ensures CountAbove(s + t, x) == CountAbove(s, x) + CountAbove(t, x)
  {
    if t == [] {
      assert s + t == s;
    } else {
      CountAboveConcat(s, t[..|t| - 1], x);
      assert (s + t)[..|s + t| - 1] == s + t[..|t| - 1];
    }
  }

  /** Lowering the bar counts more above it and fewer below it. */
  lemma {:induction false} CountsMonotone(s: Table, x: real, y: real)
    requires y <= x
    ensures CountAbove(s, x) <= CountAbove(s, y) && CountBelow(s, y) <= CountBelow(s, x)
  {
    if s != [] { CountsMonotone(s[..|s| - 1], x, y); }
  }

  lemma InversionsSnoc(s: Table, x: ServerInfo)
    ensures Inversions(s + [x]) == Inversions(s) + CountAbove(s, x.rtt)
  {
    assert (s + [x])[..|s|] == s;
  }

  lemma Regroup(a: Table, b: Table, z: ServerInfo)
    ensures a + (b + [z]) == (a + b) + [z]
  {
  }

  lemma CountBelowSnoc(m: Table, z: ServerInfo, x: real)
    ensures CountBelow(m + [z], x) == CountBelow(m, x) + (if z.rtt < x then 1 else 0)
  {
    assert (m + [z])[..|m|] == m;
  }

  /** The claim of `InversionsInsert` for one more entry behind. */
  lemma {:induction false} InsertStep(a: Table, x: ServerInfo, m: Table, z: ServerInfo)
    requires Inversions((a + [x]) + m) == Inversions(a + m) + CountAbove(a, x.rtt) + CountBelow(m, x.rtt)
    ensures Inversions((a + [x]) + (m + [z])) ==
            Inversions(a + (m + [z])) + CountAbove(a, x.rtt) + CountBelow(m + [z], x.rtt)
  {
    Regroup(a + [x], m, z);
    Regroup(a, m, z);
    InversionsSnoc((a + [x]) + m, z);
    InversionsSnoc(a + m, z);
    CountAboveConcat(a + [x], m, z.rtt);
    CountAboveConcat(a, [x], z.rtt);
    CountAboveConcat(a, m, z.rtt);
    CountBelowSnoc(m, z, x.rtt);
  }

  /** What one entry in the middle contributes. */
  lemma {:induction false} InversionsInsert(a: Table, x: ServerInfo, m: Table)
    ensures Inversions((a + [x]) + m) == Inversions(a + m) + CountAbove(a, x.rtt) + CountBelow(m, x.rtt)
  {
    if m == [] {
      assert (a + [x]) + m == a + [x] && a + m == a;
      InversionsSnoc(a, x);
    } else {
      var m', z := m[..|m| - 1], m[|m| - 1];
      InversionsInsert(a, x, m');
      InsertStep(a, x, m', z);
      assert m' + [z] == m;
    }
  }

  /** A difference made in front survives any common tail. */
  lemma {:induction false} InversionsTail(p: Table, q: Table, b: Table)
    requires forall x :: CountAbove(p, x) == CountAbove(q, x)
    ensures Inversions(p + b) - Inversions(p) == Inversions(q + b) - Inversions(q)
  {
    if b == [] {
      assert p + b == p && q + b == q;
    } else {
      var b', z := b[..|b| - 1], b[|b| - 1];
      InversionsTail(p, q, b');
      assert (p + b)[..|p + b| - 1] == p + b' && (q + b)[..|q + b| - 1] == q + b';
      CountAboveConcat(p, b', z.rtt);
      CountAboveConcat(q, b', z.rtt);
    }
  }

  lemma {:induction false} CountAboveSandwich(a: Table, x: ServerInfo, m: Table, y: ServerInfo, z: real)
    ensures CountAbove(a + [x] + m + [y], z) ==
            CountAbove(a, z) + CountAbove([x], z) + CountAbove(m, z) + CountAbove([y], z)
  {
    CountAboveConcat(a + [x] + m, [y], z);
    CountAboveConcat(a + [x], m, z);
    CountAboveConcat(a, [x], z);
  }

  lemma {:induction false} InversionsSandwich(a: Table, x: ServerInfo, m: Table, y: ServerInfo)
    ensures Inversions(a + [x] + m + [y]) ==
            Inversions(a + m) + CountAbove(a, x.rtt) + CountBelow(m, x.rtt) + CountAbove(a, y.rtt) +
            CountAbove(m, y.rtt) + (if x.rtt > y.rtt then 1 else 0)
  {
    InversionsInsert(a, x, m);
    InversionsSnoc(a + [x] + m, y);
    CountAboveConcat(a + [x], m, y.rtt);
    CountAboveConcat(a, [x], y.rtt);
  }

  /** Exchanging an out-of-order pair, adjacent or not, removes inversions: exactly one if
      adjacent, at least one in any case. */
  lemma {:induction false} ExchangeDecreases(a: Table, x: ServerInfo, m: Table, y: ServerInfo, b: Table)
    requires x.rtt > y.rtt
    ensures Inversions(a + [y] + m + [x] + b) < Inversions(a + [x] + m + [y] + b)
    ensures m == [] ==> Inversions(a + [y] + m + [x] + b) + 1 == Inversions(a + [x] + m + [y] + b)
  {
    InversionsSandwich(a, x, m, y);
    InversionsSandwich(a, y, m, x);
    CountsMonotone(m, x.rtt, y.rtt);
    var p, q := a + [x] + m + [y], a + [y] + m + [x];
    forall z ensures CountAbove(p, z) == CountAbove(q, z) {
      CountAboveSandwich(a, x, m, y, z);
      CountAboveSandwich(a, y, m, x, z);
    }
    InversionsTail(p, q, b);
  }

  function Exchange(s: Table, i: int, j: int): Table
    requires 0 <= i < |s| && 0 <= j < |s|
  {
    s[i := s[j]][j := s[i]]
  }

  lemma Cut(s: Table, i: int, j: int, x: ServerInfo, y: ServerInfo)
    requires 0 <= i < j < |s|
    ensures s[i := x][j := y] == s[..i] + [x] + s[i + 1..j] + [y] + s[j + 1..]
  {
  }

  /** The challenger swap of `estimatorUpdate`. */
  lemma {:induction false} SwapDecreases(s: Table, i: int, j: int)
    requires 0 <= i < j < |s| && s[i].rtt > s[j].rtt
    ensures Inversions(Exchange(s, i, j)) < Inversions(s)
  {
    Cut(s, i, j, s[i], s[j]);
    Cut(s, i, j, s[j], s[i]);
    assert s[i := s[i]][j := s[j]] == s;
    ExchangeDecreases(s[..i], s[i], s[i + 1..j], s[j], s[j + 1..]);
  }

  // --- The bubble pass ---

  /** One pass that carries the largest entry to the end. */
  function BubblePass(s: Table): (r: Table)
    ensures |r| == |s|
  {
    if |s| <= 1 then s
    else
      var p, x := BubblePass(s[..|s| - 1]), s[|s| - 1];
      var top := p[|p| - 1];
      if top.rtt > x.rtt then p[..|p| - 1] + [x, top] else p + [x]
  }

  /** The pass has come to index `i`. */
  predicate BubbledUpTo(s: Table, t: Table, i: int)
    requires 0 <= i <= |s|
  {
    |t| == |s| && t[..i] == BubblePass(s[..i]) && t[i..] == s[i..]
  }

  lemma {:induction false} BubbleOneMore(s: Table, t: Table, i: int)
    requires 1 <= i < |s| && BubbledUpTo(s, t, i)
    ensures BubbledUpTo(s, if t[i - 1].rtt > t[i].rtt then Exchange(t, i - 1, i) else t, i + 1)
  {
    assert t[i - 1] == t[..i][i - 1] && t[i] == t[i..][0] == s[i];
    assert s[..i + 1][..i] == s[..i];
    assert t[i + 1..] == t[i..][1..] == s[i + 1..];
    var r := if t[i - 1].rtt > t[i].rtt then Exchange(t, i - 1, i) else t;
    assert r[i + 1..] == t[i + 1..];
    if t[i - 1].rtt > t[i].rtt {
      assert r[..i + 1] == t[..i][..i - 1] + [t[i], t[i - 1]];
    } else {
      assert r[..i + 1] == t[..i] + [t[i]];
    }
  }

  lemma {:induction false} BubbledAll(s: Table, t: Table)
    requires BubbledUpTo(s, t, |s|)
    ensures t == BubblePass(s)
  {
    assert t[..|s|] == t && s[..|s|] == s;
  }

  /** Entries that some earlier entry exceeds: each moves one place forward. */
  function Overtaken(s: Table): nat {
    if s == [] then 0
    else Overtaken(s[..|s| - 1]) +
         (if CountAbove(s[..|s| - 1], s[|s| - 1].rtt) > 0 then 1 else 0)
  }

  lemma SwapLastTwo(p: Table, x: ServerInfo)
    requires p != []
    ensures multiset(p[..|p| - 1] + [x, p[|p| - 1]]) == multiset(p) + multiset{x}
  {
    assert p == p[..|p| - 1] + [p[|p| - 1]];
  }

  lemma Snoc(s: Table)
    requires s != []
    ensures multiset(s) == multiset(s[..|s| - 1]) + multiset{s[|s| - 1]}
  {
    assert s == s[..|s| - 1] + [s[|s| - 1]];
  }

  lemma {:induction false} BubblePassPermutes(s: Table)
    ensures multiset(BubblePass(s)) == multiset(s)
  {
    if |s| > 1 {
      var init, x := s[..|s| - 1], s[|s| - 1];
      BubblePassPermutes(init);
      Snoc(s);
      var p := BubblePass(init);
      SwapLastTwo(p, x);
      assert multiset(p + [x]) == multiset(p) + multiset{x};
    }
  }

  /** The entry carried to the end is a maximum. */
  lemma {:induction false} BubblePassMaxLast(s: Table)
    requires s != []
    ensures BubblePass(s)[|s| - 1] in s
    ensures forall i :: 0 <= i < |s| ==> s[i].rtt <= BubblePass(s)[|s| - 1].rtt
  {
    if |s| > 1 {
      var n := |s| - 1;
      BubblePassMaxLast(s[..n]);
      forall i | 0 <= i < n ensures s[i].rtt <= BubblePass(s)[n].rtt { assert s[i] == s[..n][i]; }
    }
  }

  /** The last element of `s` can be taken out of any permutation of `s`. */
  lemma TakeOut<T>(s: seq<T>, t: seq<T>) returns (k: int)
    requires s != [] && multiset(s) == multiset(t)
    ensures 0 <= k < |t| && t[k] == s[|s| - 1]
    ensures multiset(s[..|s| - 1]) == multiset(t[..k] + t[k + 1..])
  {
    var n := |s| - 1;
    assert s[n] in multiset(t);
    k :| 0 <= k < |t| && t[k] == s[n];
    assert s == s[..n] + [s[n]];
    assert t == t[..k] + [t[k]] + t[k + 1..];
    assert multiset(t[..k] + t[k + 1..]) == multiset(t) - multiset{t[k]};
    assert multiset(s[..n]) == multiset(s) - multiset{s[n]};
  }

  lemma {:induction false} CountAboveWithout(t: Table, k: int, x: real)
    requires 0 <= k < |t|
    ensures CountAbove(t, x) == CountAbove(t[..k] + t[k + 1..], x) + (if t[k].rtt > x then 1 else 0)
  {
    var t1, z, t2 := t[..k], t[k], t[k + 1..];
    CountAboveConcat(t1 + [z], t2, x);
    CountAboveConcat(t1, [z], x);
    CountAboveConcat(t1, t2, x);
    assert t == t1 + [z] + t2;
  }

  lemma {:induction false} CountAbovePermuted(s: Table, t: Table, x: real)
    requires multiset(s) == multiset(t)
    ensures CountAbove(s, x) == CountAbove(t, x)
  {
    if s == [] {
      assert |multiset(t)| == 0;
    } else {
      var k := TakeOut(s, t);
      CountAbovePermuted(s[..|s| - 1], t[..k] + t[k + 1..], x);
      CountAboveWithout(t, k, x);
    }
  }

  lemma {:induction false} CountAboveZero(s: Table, x: real)
    ensures CountAbove(s, x) == 0 <==> forall i :: 0 <= i < |s| ==> s[i].rtt <= x
  {
    if s != [] {
      var n := |s| - 1;
      CountAboveZero(s[..n], x);
      assert forall i :: 0 <= i < n ==> s[i] == s[..n][i];
    }
  }

  /** Carrying `top` past `x`, or leaving it, removes one of the inversions that `x` brought in. */
  lemma {:induction false} BubbleStep(p: Table, x: ServerInfo)
    requires p != [] && forall i :: 0 <= i < |p| ==> p[i].rtt <= p[|p| - 1].rtt
    ensures var top := p[|p| - 1];
            var r := if top.rtt > x.rtt then p[..|p| - 1] + [x, top] else p + [x];
            Inversions(r) + (if CountAbove(p, x.rtt) > 0 then 1 else 0) == Inversions(p) + CountAbove(p, x.rtt)
  {
    InversionsSnoc(p, x);
    CountAboveZero(p, x.rtt);
    var front, top := p[..|p| - 1], p[|p| - 1];
    if top.rtt > x.rtt {
      ExchangeDecreases(front, top, [], x, []);
      assert front + [top] + [] + [x] + [] == p + [x];
      assert front + [x] + [] + [top] + [] == front + [x, top];
    }
  }

  lemma {:induction false} BubblePassTop(s: Table)
    requires s != []
    ensures var p := BubblePass(s); forall i :: 0 <= i < |p| ==> p[i].rtt <= p[|p| - 1].rtt
  {
    var p := BubblePass(s);
    BubblePassPermutes(s);
    BubblePassMaxLast(s);
    forall i | 0 <= i < |p| ensures p[i].rtt <= p[|p| - 1].rtt { assert p[i] in multiset(s); }
  }

  /** One pass removes exactly one inversion per overtaken entry. */
  lemma {:induction false} BubblePassRemoves(s: Table)
    ensures Inversions(BubblePass(s)) + Overtaken(s) == Inversions(s)
  {
    if |s| > 1 {
      var init, x := s[..|s| - 1], s[|s| - 1];
      BubblePassRemoves(init);
      BubblePassTop(init);
      BubblePassPermutes(init);
      CountAbovePermuted(init, BubblePass(init), x.rtt);
      BubbleStep(BubblePass(init), x);
    }
  }

  lemma {:induction false} OvertakenIffUnsorted(s: Table)
    ensures Overtaken(s) == 0 <==> Sorted(s)
  {
    if s != [] {
      var n := |s| - 1;
      OvertakenIffUnsorted(s[..n]);
      CountAboveZero(s[..n], s[n].rtt);
      assert Sorted(s) <==> Sorted(s[..n]) && forall i :: 0 <= i < n ==> s[i].rtt <= s[n].rtt;
    }
  }

  /** The pass never adds an inversion, removes one from every unsorted table, and leaves a
      sorted table alone. */
  lemma {:induction false} BubblePassProgress(s: Table)
    ensures Inversions(BubblePass(s)) <= Inversions(s)
    ensures Inversions(BubblePass(s)) < Inversions(s) <==> !Sorted(s)
  {
    BubblePassRemoves(s);
    OvertakenIffUnsorted(s);
  }

  // --- One pick ---

  /** What `estimatorUpdate` decides: nothing, take over a missing RTT from `k`, swap with the faster
      `k`, or lower the RTT of `k`, which was slow and idle for long. */
  datatype Move = Stay | Adopt(k: int) | Challenge(k: int) | NewChance(k: int)

  function MoveFor(s: Table, strategy: Strategy, current: int, draw: int, now: int): (m: Move)
    requires Drawn(s, strategy, current, draw)
    ensures 0 <= current < |s|
    ensures !m.Stay? ==> current < m.k < |s|
    ensures m.Challenge? ==> s[m.k].rtt < s[current].rtt
  {
    var active := ActiveCount(strategy, |s|);
    if active == |s| then Stay
    else
      var k := draw + active;
      if s[current].rtt < 0.0 then Adopt(k)
      else if s[k].rtt < s[current].rtt then Challenge(k)
      else if EarnsNewChance(s, k, active, now) then NewChance(k)
      else Stay
  }

  /** Slow compared with the first and the last active server, and idle for long. */
  predicate EarnsNewChance(s: Table, k: int, active: int, now: int)
    requires 1 <= active <= k < |s|
  {
    && s[k].rtt > 0.0 && s[k].rtt >= (s[0].rtt + s[active - 1].rtt) / 2.0 * 4.0
    && now - s[k].lastAction > IDLE_BEFORE_NEW_CHANCE
  }

  /** The table after the decision, before the bubble pass. */
  function Repositioned(s: Table, current: int, m: Move): Table
    requires 0 <= current < |s| && (!m.Stay? ==> 0 <= m.k < |s|)
  {
    match m
    case Stay => s
    case Adopt(k) => s[current := s[current].(rtt := s[k].rtt)]
    case Challenge(k) => Exchange(s, k, current)
    case NewChance(k) => s[k := s[k].(rtt := EwmaAdd(s[k].rtt, s[k].rtt / 2.0))]
  }

  /** The table after `estimatorUpdate`, given the two random draws and the clock. */
  function Updated(s: Table, strategy: Strategy, current: int, draw: int, now: int): Table
    requires Drawn(s, strategy, current, draw)
  {
    var m := MoveFor(s, strategy, current, draw, now);
    var t := Repositioned(s, current, m);
    if m.Challenge? || m.NewChance? then BubblePass(t) else t
  }

  /** A new chance goes only to an idle server at least four times slower than the mean of the first
      and last active ones, and really lowers its RTT. */
  lemma {:induction false} NewChanceIsEarned(s: Table, strategy: Strategy, current: int, draw: int, now: int)
    requires Drawn(s, strategy, current, draw) && MoveFor(s, strategy, current, draw, now).NewChance?
    ensures var k, active := MoveFor(s, strategy, current, draw, now).k, ActiveCount(strategy, |s|);
            && active <= k && now - s[k].lastAction > 60_000_000_000
            && s[k].rtt >= 2.0 * (s[0].rtt + s[active - 1].rtt) && s[k].rtt >= s[current].rtt
            && s[k].rtt / 2.0 < EwmaAdd(s[k].rtt, s[k].rtt / 2.0) < s[k].rtt
  {
  }

  lemma LoweredAverage(rtt: real)
    ensures EwmaAdd(rtt, rtt / 2.0) == rtt * 10.0 / 11.0
  {
  }

  lemma {:induction false} MoveByRtts(s: Table, strategy: Strategy, current: int, draw: int, now: int)
    requires Drawn(s, strategy, current, draw) && ActiveCount(strategy, |s|) < |s|
    ensures var active := ActiveCount(strategy, |s|);
            var k := draw + active;
            var a, b := s[current].rtt, s[k].rtt;
            MoveFor(s, strategy, current, draw, now) ==
              if a < 0.0 then Adopt(k)
              else if b < a then Challenge(k)
              else if SlowAndIdle(s, k, active, now) then NewChance(k) else Stay
  {
  }

  /** When every server is active, nothing changes. */
  lemma {:induction false} AllActiveStays(s: Table, strategy: Strategy, current: int, draw: int, now: int)
    requires Drawn(s, strategy, current, draw) && ActiveCount(strategy, |s|) == |s|
    ensures Updated(s, strategy, current, draw, now) == s
  {
  }

  /** A picked server without an average takes over that of the drawn one; nothing else changes. */
  lemma {:induction false} MissingRttIsAdopted(s: Table, strategy: Strategy, current: int, draw: int, now: int)
    requires Drawn(s, strategy, current, draw) && ActiveCount(strategy, |s|) < |s| && s[current].rtt < 0.0
    ensures var t := Updated(s, strategy, current, draw, now);
            && |t| == |s| && t[current] == s[current].(rtt := s[draw + ActiveCount(strategy, |s|)].rtt)
            && forall i :: 0 <= i < |s| && i != current ==> t[i] == s[i]
  {
    MoveByRtts(s, strategy, current, draw, now);
  }

  /** A faster challenger is always taken: the two change places before the pass, which `ChallengeImproves`
      is about. */
  lemma {:induction false} FasterChallengerIsTaken(s: Table, strategy: Strategy, current: int, draw: int, now: int,
                                                   k: int)
    requires Drawn(s, strategy, current, draw) && k == draw + ActiveCount(strategy, |s|) < |s|
    requires 0.0 <= s[current].rtt && s[k].rtt < s[current].rtt
    ensures current < k && Updated(s, strategy, current, draw, now) == BubblePass(s[current := s[k]][k := s[current]])
  {
    MoveByRtts(s, strategy, current, draw, now);
    MoveIsMade(s, strategy, current, draw, now, Challenge(k));
    SwapIsExchange(s, current, k);
  }

  lemma {:induction false} MoveIsMade(s: Table, strategy: Strategy, current: int, draw: int, now: int, m: Move)
    requires Drawn(s, strategy, current, draw) && MoveFor(s, strategy, current, draw, now) == m
    ensures Updated(s, strategy, current, draw, now) ==
            if m.Challenge? || m.NewChance? then BubblePass(Repositioned(s, current, m))
            else Repositioned(s, current, m)
  {
  }

  lemma {:induction false} SwapIsExchange(s: Table, i: int, k: int)
    requires 0 <= i < k < |s|
    ensures s[i := s[k]][k := s[i]] == Exchange(s, k, i)
  {
  }

  predicate SlowAndIdle(s: Table, k: int, active: int, now: int)
    requires 1 <= active <= k < |s|
  {
    s[k].rtt > 0.0 && s[k].rtt >= 2.0 * (s[0].rtt + s[active - 1].rtt) && now > s[k].lastAction + 60_000_000_000
  }

  /** Exactly when a challenger that is not faster gets a new chance: its average is positive, at least four
      times the mean of the first and the last active one, and it was idle for more than a minute. */
  lemma {:induction false} NewChanceIff(s: Table, strategy: Strategy, current: int, draw: int, now: int, k: int)
    requires Drawn(s, strategy, current, draw) && k == draw + ActiveCount(strategy, |s|) < |s|
    requires 0.0 <= s[current].rtt <= s[k].rtt
    ensures Updated(s, strategy, current, draw, now) ==
            if SlowAndIdle(s, k, ActiveCount(strategy, |s|), now)
            then BubblePass(s[k := s[k].(rtt := s[k].rtt * 10.0 / 11.0)]) else s
  {
    MoveByRtts(s, strategy, current, draw, now);
    if SlowAndIdle(s, k, ActiveCount(strategy, |s|), now) {
      MoveIsMade(s, strategy, current, draw, now, NewChance(k));
      LoweredEntry(s, current, k);
    } else {
      MoveIsMade(s, strategy, current, draw, now, Stay);
    }
  }

  lemma {:induction false} LoweredEntry(s: Table, current: int, k: int)
    requires 0 <= current < |s| && 0 <= k < |s|
    ensures Repositioned(s, current, NewChance(k)) == s[k := s[k].(rtt := s[k].rtt * 10.0 / 11.0)]
  {
    LoweredAverage(s[k].rtt);
  }

  function NamesOf(s: Table): (r: seq<string>)
    ensures |r| == |s|
  {
    seq(|s|, i requires 0 <= i < |s| => s[i].name)
  }

  lemma {:induction false} NamesPermuted(s: Table, t: Table)
    requires multiset(s) == multiset(t)
    ensures multiset(NamesOf(s)) == multiset(NamesOf(t))
  {
    if s == [] {
      assert |multiset(t)| == 0;
    } else {
      var k := TakeOut(s, t);
      var s', t1, z, t2 := s[..|s| - 1], t[..k], t[k], t[k + 1..];
      NamesPermuted(s', t1 + t2);
      assert NamesOf(s) == NamesOf(s') + [z.name];
      assert NamesOf(t) == NamesOf(t1) + [z.name] + NamesOf(t2);
      assert NamesOf(t1 + t2) == NamesOf(t1) + NamesOf(t2);
    }
  }

  lemma ExchangePermutes(s: Table, i: int, j: int)
    requires 0 <= i < j < |s|
    ensures Exchange(s, j, i) == Exchange(s, i, j) && multiset(Exchange(s, i, j)) == multiset(s)
  {
  }

  /** A faster challenger makes the table strictly better sorted and sends the slowest server last. */
  lemma {:induction false} ChallengeImproves(s: Table, current: int, candidate: int)
    requires 0 <= current < candidate < |s| && s[candidate].rtt < s[current].rtt
    ensures var t := BubblePass(s[current := s[candidate]][candidate := s[current]]);
            && Exchange(s, candidate, current) == s[current := s[candidate]][candidate := s[current]]
            && multiset(t) == multiset(s)
            && Inversions(t) < Inversions(s)
            && forall i :: 0 <= i < |t| ==> t[i].rtt <= t[|t| - 1].rtt
  {
    var swapped := Exchange(s, candidate, current);
    SwapIsExchange(s, current, candidate);
    ExchangePermutes(s, current, candidate);
    SwapDecreases(s, current, candidate);
    BubblePassProgress(swapped);
    BubblePassPermutes(swapped);
    BubblePassTop(swapped);
  }

  /** The preconditions the callers of `estimatorUpdate` establish with their random draws. */
  predicate Drawn(s: Table, strategy: Strategy, current: int, draw: int) {
    && ValidStrategy(strategy) && |s| >= 1
    && 0 <= current < CandidateBound(strategy, |s|)
    && 0 <= draw && (ActiveCount(strategy, |s|) < |s| ==> draw < |s| - ActiveCount(strategy, |s|))
  }

  lemma SetRttKeepsNames(s: Table, k: int, rtt: real)
    requires 0 <= k < |s|
    ensures NamesOf(s[k := s[k].(rtt := rtt)]) == NamesOf(s)
  {
  }

  lemma RepositionedKeepsNames(s: Table, current: int, m: Move)
    requires 0 <= current < |s| && (!m.Stay? ==> current < m.k < |s|)
    ensures multiset(NamesOf(Repositioned(s, current, m))) == multiset(NamesOf(s))
  {
    match m
    case Stay =>
    case Adopt(k) => SetRttKeepsNames(s, current, s[k].rtt);
    case Challenge(k) =>
      ExchangePermutes(s, current, k);
      NamesPermuted(Exchange(s, k, current), s);
    case NewChance(k) => SetRttKeepsNames(s, k, EwmaAdd(s[k].rtt, s[k].rtt / 2.0));
  }

  /** One pick keeps every server, whatever the strategy, the draws and the clock. */
  lemma {:induction false} UpdatedKeepsServers(s: Table, strategy: Strategy, current: int, draw: int, now: int)
    requires Drawn(s, strategy, current, draw)
    ensures var t := Updated(s, strategy, current, draw, now);
            |t| == |s| && multiset(NamesOf(t)) == multiset(NamesOf(s))
  {
    var m := MoveFor(s, strategy, current, draw, now);
    var t := Repositioned(s, current, m);
    RepositionedKeepsNames(s, current, m);
    BubblePassPermutes(t);
    NamesPermuted(BubblePass(t), t);
  }

  // --- Whole runs ---

  datatype Query = Query(pick: int, draw: int, now: int)

  /** Queries one after the other while the averages stay as they are: no RTT is taken over or lowered. */
  ghost predicate QuietRun(tables: seq<Table>, queries: seq<Query>, strategy: Strategy) {
    && |tables| == |queries| + 1
    && forall i :: 0 <= i < |queries| ==> QuietStep(tables[i], tables[i + 1], queries[i], strategy)
  }

  predicate QuietStep(s: Table, t: Table, q: Query, strategy: Strategy) {
    && Drawn(s, strategy, q.pick, q.draw)
    && t == Updated(s, strategy, q.pick, q.draw, q.now)
    && !MoveFor(s, strategy, q.pick, q.draw, q.now).Adopt?
    && !MoveFor(s, strategy, q.pick, q.draw, q.now).NewChance?
  }

  predicate IsChallenge(s: Table, q: Query, strategy: Strategy) {
    Drawn(s, strategy, q.pick, q.draw) && MoveFor(s, strategy, q.pick, q.draw, q.now).Challenge?
  }

  /** Which queries were won by a challenger. */
  function Won(tables: seq<Table>, queries: seq<Query>, strategy: Strategy): (w: seq<bool>)
    requires |tables| == |queries| + 1
    ensures |w| == |queries|
  {
    seq(|queries|, i requires 0 <= i < |queries| => IsChallenge(tables[i], queries[i], strategy))
  }

  /** How many of the first `n` are true. */
  function Count(w: seq<bool>, n: nat): nat
    requires n <= |w|
  {
    if n == 0 then 0 else Count(w, n - 1) + (if w[n - 1] then 1 else 0)
  }

  function Challenges(tables: seq<Table>, queries: seq<Query>, strategy: Strategy, n: nat): nat
    requires n <= |queries| && |tables| == |queries| + 1
  {
    Count(Won(tables, queries, strategy), n)
  }

  lemma {:induction false} QuietStepImproves(s: Table, t: Table, q: Query, strategy: Strategy)
    requires QuietStep(s, t, q, strategy)
    ensures multiset(t) == multiset(s)
    ensures Inversions(t) + (if IsChallenge(s, q, strategy) then 1 else 0) <= Inversions(s)
  {
    var m := MoveFor(s, strategy, q.pick, q.draw, q.now);
    if m.Challenge? {
      ChallengeImproves(s, q.pick, m.k);
    }
  }

  lemma {:induction false} StepPaid(tables: seq<Table>, queries: seq<Query>, strategy: Strategy, i: nat)
    requires QuietRun(tables, queries, strategy) && i < |queries|
    ensures multiset(tables[i + 1]) == multiset(tables[i])
    ensures Inversions(tables[i + 1]) + (if IsChallenge(tables[i], queries[i], strategy) then 1 else 0) <=
            Inversions(tables[i])
  {
    QuietStepImproves(tables[i], tables[i + 1], queries[i], strategy);
  }

  lemma {:induction false} PaidFor(tables: seq<Table>, won: seq<bool>, n: nat)
    requires |tables| == |won| + 1 && n <= |won|
    requires forall i :: 0 <= i < |won| ==> multiset(tables[i + 1]) == multiset(tables[i])
    requires forall i :: 0 <= i < |won| ==>
               Inversions(tables[i + 1]) + (if won[i] then 1 else 0) <= Inversions(tables[i])
    ensures multiset(tables[n]) == multiset(tables[0])
    ensures Count(won, n) + Inversions(tables[n]) <= Inversions(tables[0])
  {
    if n > 0 {
      PaidFor(tables, won, n - 1);
      assert multiset(tables[n - 1 + 1]) == multiset(tables[n - 1]);
    }
  }

  /** Over every quiet run each challenge is paid for with an inversion: there are at most as many
      challenges as inversions at the start, none from a sorted table, and a run that uses them all
      up ends sorted. */
  lemma {:induction false} ChallengesBounded(tables: seq<Table>, queries: seq<Query>, strategy: Strategy, n: nat)
    requires QuietRun(tables, queries, strategy) && n <= |queries|
    ensures multiset(tables[n]) == multiset(tables[0])
    ensures Challenges(tables, queries, strategy, n) + Inversions(tables[n]) <= Inversions(tables[0])
    ensures Sorted(tables[0]) ==> Challenges(tables, queries, strategy, n) == 0
    ensures Challenges(tables, queries, strategy, n) == Inversions(tables[0]) ==> Sorted(tables[n])
  {
    var won := Won(tables, queries, strategy);
    forall i | 0 <= i < |won|
      ensures multiset(tables[i + 1]) == multiset(tables[i])
      ensures Inversions(tables[i + 1]) + (if won[i] then 1 else 0) <= Inversions(tables[i])
    {
      StepPaid(tables, queries, strategy, i);
    }
    PaidFor(tables, won, n);
    SortedIffNoInversion(tables[0]);
    SortedIffNoInversion(tables[n]);
  }

  // --- The table of the proxy ---

  /** A server is shared by the table and by the queries it was handed to. */
  class Server {
    const name: string
    const initialRtt: int
    var rtt: real
    var lastAction: int

    function Info(): ServerInfo
      reads this
    {
      ServerInfo(name, initialRtt, rtt, lastAction)
    }

    constructor (name: string, initialRtt: int)
      ensures Info() == ServerInfo(name, initialRtt, initialRtt as real, 0)
    {
      this.name, this.initialRtt, rtt, lastAction := name, initialRtt, initialRtt as real, 0;
    }

    method NoticeBegin(now: int)
      modifies this
      ensures Info() == old(Info()).(lastAction := now)
    {
      lastAction := now;
    }

    method NoticeFailure(timeout: int)
      modifies this
      ensures Info() == AfterFailure(old(Info()), timeout)
    {
      rtt := EwmaAdd(rtt, ToMilliseconds(timeout) as real);
    }

    method NoticeSuccess(now: int, timeout: int)
      modifies this
      ensures Info() == AfterSuccess(old(Info()), now, timeout)
    {
      var elapsed := now - lastAction;
      var elapsedMs := ToMilliseconds(elapsed);
      if elapsedMs > 0 && elapsed < timeout {
        rtt := EwmaAdd(rtt, elapsedMs as real);
      }
    }
  }

  const MILLISECOND: int := 1_000_000

  /** Division toward zero. */
  function ToMilliseconds(ns: int): int { if ns >= 0 then ns / MILLISECOND else -(-ns / MILLISECOND) }

  function AfterFailure(s: ServerInfo, timeout: int): ServerInfo {
    s.(rtt := EwmaAdd(s.rtt, ToMilliseconds(timeout) as real))
  }

  function AfterSuccess(s: ServerInfo, now: int, timeout: int): ServerInfo {
    var elapsed := now - s.lastAction;
    if ToMilliseconds(elapsed) > 0 && elapsed < timeout
    then s.(rtt := EwmaAdd(s.rtt, ToMilliseconds(elapsed) as real)) else s
  }

  lemma EwmaMoves(average: real, sample: real)
    ensures EwmaAdd(average, sample) == average + (sample - average) * 2.0 / 11.0
  {
  }

  lemma WholeMilliseconds(ns: int, ms: int)
    requires ms * MILLISECOND <= ns < (ms + 1) * MILLISECOND && ns >= 0
    ensures ToMilliseconds(ns) == ms
  {
  }

  /** How an answer moves the average: by two elevenths of the distance to the measured milliseconds, and not
      at all below one millisecond or from the timeout on. */
  lemma SuccessMovesAverage(s: ServerInfo, now: int, timeout: int, ms: int)
    requires ms * MILLISECOND <= now - s.lastAction < (ms + 1) * MILLISECOND
    ensures AfterSuccess(s, now, timeout) ==
            if 1 <= ms && now - s.lastAction < timeout then s.(rtt := s.rtt + (ms as real - s.rtt) * 2.0 / 11.0) else s
  {
    if now >= s.lastAction { WholeMilliseconds(now - s.lastAction, ms); }
    EwmaMoves(s.rtt, ms as real);
  }

  /** A failure counts as the timeout. */
  lemma FailureMovesAverage(s: ServerInfo, timeout: int, ms: int)
    requires 0 <= ms * MILLISECOND <= timeout < (ms + 1) * MILLISECOND
    ensures AfterFailure(s, timeout) == s.(rtt := s.rtt + (ms as real - s.rtt) * 2.0 / 11.0)
  {
    WholeMilliseconds(timeout, ms);
    EwmaMoves(s.rtt, ms as real);
  }

  function View(servers: seq<Server>): (t: Table)
    reads servers
    ensures |t| == |servers|
  {
    seq(|servers|, i requires 0 <= i < |servers| reads servers => servers[i].Info())
  }

  class ServersInfo {
    var inner: seq<Server>
    const lbStrategy: Strategy
    const lbEstimator: bool

    ghost predicate Valid()
      reads this
    {
      Distinct(inner) && ValidStrategy(lbStrategy)
    }

    constructor (strategy: Strategy, estimator: bool)
      requires ValidStrategy(strategy)
      ensures Valid() && inner == [] && lbStrategy == strategy && lbEstimator == estimator
    {
      inner, lbStrategy, lbEstimator := [], strategy, estimator;
    }

    method SetRtt(k: int, rtt: real)
      requires Valid() && 0 <= k < |inner|
      modifies inner[k]
      ensures View(inner) == old(View(inner))[k := old(View(inner))[k].(rtt := rtt)]
    {
      inner[k].rtt := rtt;
    }

    method SwapEntries(i: int, j: int)
      requires Valid() && 0 <= i < j < |inner|
      modifies this`inner
      ensures Valid() && multiset(inner) == multiset(old(inner))
      ensures |inner| == |old(inner)| && View(inner) == Exchange(old(View(inner)), i, j)
    {
      inner := inner[i := inner[j]][j := inner[i]];
    }

    method NewChanceFor(candidate: int, active: int, now: int) returns (given: bool)
      requires Valid() && 1 <= active <= candidate < |inner|
      modifies inner
      ensures given <==> EarnsNewChance(old(View(inner)), candidate, active, now)
      ensures View(inner) == if given then Repositioned(old(View(inner)), 0, NewChance(candidate)) else old(View(inner))
    {
      var candidateRtt := inner[candidate].rtt;
      if candidateRtt > 0.0 && candidateRtt >= (inner[0].rtt + inner[active - 1].rtt) / 2.0 * 4.0 {
        if now - inner[candidate].lastAction > IDLE_BEFORE_NEW_CHANCE {
          SetRtt(candidate, EwmaAdd(candidateRtt, candidateRtt / 2.0));
          return true;
        }
      }
      return false;
    }

    /** Everything but the final pass. */
    method Reposition(current: int, draw: int, now: int) returns (partialSort: bool)
      requires Valid() && Drawn(View(inner), lbStrategy, current, draw)
      modifies this`inner, inner
      ensures Valid() && multiset(inner) == multiset(old(inner))
      ensures var m := MoveFor(old(View(inner)), lbStrategy, current, draw, now);
              View(inner) == Repositioned(old(View(inner)), current, m) &&
              (partialSort <==> m.Challenge? || m.NewChance?)
    {
      var count := |inner|;
      var active := ActiveCount(lbStrategy, count);
      if active == count { return false; }
      var candidate := draw + active;
      var candidateRtt, currentRtt := inner[candidate].rtt, inner[current].rtt;
      if currentRtt < 0.0 {
        SetRtt(current, candidateRtt);
        return false;
      }
      if candidateRtt < currentRtt {
        ExchangePermutes(View(inner), current, candidate);
        SwapEntries(current, candidate);
        return true;
      } else {
        partialSort := NewChanceFor(candidate, active, now);
      }
    }

    /** The table changes as specified, and holds the same servers as before: whoever was handed one
        still holds an entry of the table. */
    method EstimatorUpdate(current: int, draw: int, now: int)
      requires Valid() && Drawn(View(inner), lbStrategy, current, draw)
      modifies this`inner, inner
      ensures Valid() && multiset(inner) == multiset(old(inner))
      ensures View(inner) == Updated(old(View(inner)), lbStrategy, current, draw, now)
    {
      var partialSort := Reposition(current, draw, now);
      if partialSort {
        BubbleInPlace();
      }
    }

    method BubbleInPlace()
      requires Valid()
      modifies this`inner
      ensures Valid() && multiset(inner) == multiset(old(inner))
      ensures View(inner) == BubblePass(old(View(inner)))
    {
      var count := |inner|;
      ghost var before := View(inner);
      if count == 0 { return; }
      for i := 1 to count
        invariant Valid() && multiset(inner) == multiset(old(inner)) && |inner| == count
        invariant BubbledUpTo(before, View(inner), i)
      {
        BubbleOneMore(before, View(inner), i);
        if inner[i - 1].rtt > inner[i].rtt {
          SwapEntries(i - 1, i);
        }
      }
      BubbledAll(before, View(inner));
    }

    /** The server for one query, picked after the table was updated. */
    method GetOne(pick: int, draw: int, now: int) returns (server: Option<Server>)
      requires Valid() && (inner != [] ==> Drawn(View(inner), lbStrategy, pick, draw))
      modifies this`inner, inner
      ensures Valid() && multiset(inner) == multiset(old(inner))
      ensures server.None? <==> old(inner) == []
      ensures server.Some? ==>
                && View(inner) == (if lbEstimator then Updated(old(View(inner)), lbStrategy, pick, draw, now)
                                   else old(View(inner)))
                && pick < ActiveCount(lbStrategy, |inner|) <= |inner| == |old(inner)|
                && server.value == inner[pick]
    {
      if |inner| <= 0 { return None; }
      if lbEstimator {
        UpdatedKeepsServers(View(inner), lbStrategy, pick, draw, now);
        EstimatorUpdate(pick, draw, now);
      }
      return Some(inner[pick]);
    }

    /** The outcome of a query shows in the table wherever its server stands by now, and only there. */
    method ReportSuccess(server: Server, now: int, timeout: int)
      requires Valid()
      modifies server
      ensures Valid()
      ensures forall i :: 0 <= i < |inner| ==>
                View(inner)[i] == if inner[i] == server then AfterSuccess(old(View(inner))[i], now, timeout)
                                  else old(View(inner))[i]
    {
      server.NoticeSuccess(now, timeout);
    }

    method ReportFailure(server: Server, timeout: int)
      requires Valid()
      modifies server
      ensures Valid()
      ensures forall i :: 0 <= i < |inner| ==>
                View(inner)[i] == if inner[i] == server then AfterFailure(old(View(inner))[i], timeout)
                                  else old(View(inner))[i]
    {
      server.NoticeFailure(timeout);
    }
  }
}
