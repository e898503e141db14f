/**
 Resolver lists of `sources.go`: a signed list is read from a cache file, downloaded
 when that is old or unusable, and written back. Files, network and signatures are
 inputs; times are nanoseconds.
 */
module Sources {
  import opened Names
  import opened Bytes

  const MINUTE: int := 60_000_000_000
  const DEFAULT_PREFETCH_DELAY: int := 24 * 60 * MINUTE
  const MINIMUM_PREFETCH_INTERVAL: int := 10 * MINUTE

  type Content = seq<Byte>
  type Verify = (Content, Content) -> bool

  datatype Conf = Conf(urls: nat, cacheTTL: int, prefetchDelay: int, verify: Verify)

  predicate ValidConf(c: Conf) { c.prefetchDelay == DEFAULT_PREFETCH_DELAY <= c.cacheTTL }

  /** The cache file and its signature file; either may be missing. */
  datatype Disk = Disk(bin: Option<Content>, sig: Option<Content>, modTime: int)

  datatype Download = Download(bin: Option<Content>, sig: Option<Content>)

  /** How far `writeSource` gets: the list is committed before its signature. */
  datatype Write = NotWritten | ListOnly | Both

  /** What the outside does during one fetch; `wrote` is the file system's time of a write. */
  datatype Env = Env(now: int, statOk: bool, downloads: seq<Download>, write: Write, wrote: int, chtimesOk: bool)

  /** `refresh` is `None` for the zero time. */
  datatype Data = Data(content: Content, refresh: Option<int>)

  datatype Outcome = Outcome(data: Data, disk: Disk, delay: int, failed: bool)

  predicate Signed(c: Conf, bin: Option<Content>, sig: Option<Content>) {
    bin.Some? && sig.Some? && c.verify(bin.value, sig.value)
  }

  predicate GoodDownload(c: Conf, d: Download) { Signed(c, d.bin, d.sig) }

  /** Result of reading the cache file. A failing `Stat` comes after the content was taken over. */
  function FromCache(c: Conf, d: Data, disk: Disk, e: Env): (Data, int, bool) {
    if !Signed(c, disk.bin, disk.sig) then (d, 0, true)
    else
      var loaded := d.(content := disk.bin.value);
      if !e.statOk then (loaded, 0, true)
      else
        var elapsed := e.now - disk.modTime;
        (loaded, if elapsed < c.cacheTTL then c.prefetchDelay - elapsed else 0, false)
  }

  function FirstGood(c: Conf, ds: seq<Download>): (r: Option<Download>)
    ensures r.Some? ==> exists i :: 0 <= i < |ds| && ds[i] == r.value && IsFirstGood(c, ds, i)
    ensures r.None? <==> forall i :: 0 <= i < |ds| ==> !GoodDownload(c, ds[i])
  {
    if ds == [] then None
    else if GoodDownload(c, ds[0]) then
      assert IsFirstGood(c, ds, 0);
      Some(ds[0])
    else
      assert forall i :: 1 <= i < |ds| ==> ds[i] == ds[1..][i - 1];
      var r := FirstGood(c, ds[1..]);
      assert r.Some? ==> forall i :: 0 <= i < |ds| - 1 && ds[1..][i] == r.value && IsFirstGood(c, ds[1..], i) ==>
                           ds[i + 1] == r.value && IsFirstGood(c, ds, i + 1);
      r
  }

  /** Download `i` is signed, and none in front of it is. */
  predicate IsFirstGood(c: Conf, ds: seq<Download>, i: int) {
    0 <= i < |ds| && GoodDownload(c, ds[i]) && forall j :: 0 <= j < i ==> !GoodDownload(c, ds[j])
  }

  /** Contents equal to what is in memory are not written again, only touched. */
  function Written(d: Data, disk: Disk, bin: Content, sig: Content, e: Env): Disk {
    var stored := if d.content == bin then disk
                  else match e.write
                       case NotWritten => disk
                       case ListOnly => disk.(bin := Some(bin), modTime := e.wrote)
                       case Both => Disk(Some(bin), Some(sig), e.wrote);
    if (d.content == bin || e.write.Both?) && e.chtimesOk && stored.bin.Some? then stored.(modTime := e.now) else stored
  }

  function Fetch(c: Conf, d: Data, disk: Disk, e: Env): Outcome {
    var (loaded, delay, failed) := FromCache(c, d, disk, e);
    if c.urls == 0 then Outcome(loaded, disk, delay, failed)
    else if delay > 0 then Outcome(loaded.(refresh := Some(e.now + delay)), disk, delay, failed)
    else
      match FirstGood(c, e.downloads)
      case None =>
        Outcome(loaded.(refresh := Some(e.now + MINIMUM_PREFETCH_INTERVAL)), disk, MINIMUM_PREFETCH_INTERVAL, true)
      case Some(g) =>
        Outcome(Data(g.bin.value, Some(e.now + c.prefetchDelay)),
                Written(loaded, disk, g.bin.value, g.sig.value, e), c.prefetchDelay, false)
  }

  class Source {
    const conf: Conf
    var content: Content
    var refresh: Option<int>

    function Value(): Data
      reads this
    {
      Data(content, refresh)
    }

    constructor (c: Conf)
      ensures conf == c && Value() == Data([], None)
    {
      conf, content, refresh := c, [], None;
    }

    method FetchFromCache(disk: Disk, e: Env) returns (delay: int, failed: bool)
      modifies this
      ensures (Value(), delay, failed) == FromCache(conf, old(Value()), disk, e)
    {
      if disk.bin.None? { return 0, true; }
      if disk.sig.None? { return 0, true; }
      if !conf.verify(disk.bin.value, disk.sig.value) { return 0, true; }
      content := disk.bin.value;
      if !e.statOk { return 0, true; }
      var elapsed := e.now - disk.modTime;
      delay := 0;
      if elapsed < conf.cacheTTL {
        delay := conf.prefetchDelay - elapsed;
      }
      return delay, false;
    }

    method WriteToCache(disk: Disk, bin: Content, sig: Content, e: Env) returns (disk': Disk)
      modifies this`content
      ensures disk' == Written(old(Value()), disk, bin, sig, e)
      ensures content == bin
    {
      disk' := disk;
      if content != bin {
        content := bin;
        match e.write {
          case NotWritten => return;
          case ListOnly =>
            disk' := disk'.(bin := Some(bin), modTime := e.wrote);
            return;
          case Both => disk' := Disk(Some(bin), Some(sig), e.wrote);
        }
      }
      if e.chtimesOk && disk'.bin.Some? { disk' := disk'.(modTime := e.now); }
    }

    /** The loop over the URLs: the first download with a valid signature. */
    method DownloadFirst(downloads: seq<Download>) returns (bin: Content, sig: Content, failed: bool)
      ensures failed <==> FirstGood(conf, downloads).None?
      ensures !failed ==> FirstGood(conf, downloads) == Some(Download(Some(bin), Some(sig)))
    {
      bin, sig, failed := [], [], true;
      for i := 0 to |downloads|
        invariant FirstGood(conf, downloads) == FirstGood(conf, downloads[i..])
      {
        assert downloads[i..][1..] == downloads[i + 1..];
        var d := downloads[i];
        if d.bin.None? { continue; }
        bin := d.bin.value;
        if d.sig.None? { continue; }
        sig := d.sig.value;
        if conf.verify(bin, sig) {
          failed := false;
          return;
        }
      }
    }

    method FetchWithCache(disk: Disk, e: Env) returns (disk': Disk, delay: int, failed: bool)
      requires |e.downloads| == conf.urls
      modifies this
      ensures Outcome(Value(), disk', delay, failed) == Fetch(conf, old(Value()), disk, e)
    {
      disk' := disk;
      delay, failed := FetchFromCache(disk, e);
      if failed && conf.urls == 0 { return; }
      if conf.urls == 0 || delay > 0 {
        if conf.urls > 0 { refresh := Some(e.now + delay); }
        return;
      }
      delay := MINIMUM_PREFETCH_INTERVAL;
      var bin, sig;
      bin, sig, failed := DownloadFirst(e.downloads);
      if failed {
        refresh := Some(e.now + delay);
        return;
      }
      disk' := WriteToCache(disk, bin, sig, e);
      delay := conf.prefetchDelay;
      refresh := Some(e.now + delay);
    }
  }

  // --- What every fetch keeps ---

  /** Empty, or signed. */
  ghost predicate Trusted(c: Conf, content: Content) {
    content == [] || exists sig :: c.verify(content, sig)
  }

  /** A fetch keeps the content trusted, replaces it only by something signed, and on a source with
      URLs always moves the refresh time strictly past now. */
  lemma FetchKeepsTrust(c: Conf, d: Data, disk: Disk, e: Env)
    requires ValidConf(c) && Trusted(c, d.content)
    ensures var o := Fetch(c, d, disk, e);
            && Trusted(c, o.data.content)
            && (c.urls > 0 ==> o.data.refresh.Some? && o.data.refresh.value == e.now + o.delay > e.now)
            && (c.urls == 0 ==> o.data.refresh == d.refresh && o.disk == disk)
            && (o.failed ==> o.disk == disk && o.data.content == FromCache(c, d, disk, e).0.content)
            && (o.failed && !Signed(c, disk.bin, disk.sig) ==> o.data.content == d.content)
  {
    if Signed(c, disk.bin, disk.sig) { assert c.verify(disk.bin.value, disk.sig.value); }
    var g := FirstGood(c, e.downloads);
    if g.Some? { assert c.verify(g.value.bin.value, g.value.sig.value); }
  }

  /** A fetch fails exactly if neither the cache file nor any download is usable. */
  lemma FetchFailsIff(c: Conf, d: Data, disk: Disk, e: Env)
    requires ValidConf(c) && |e.downloads| == c.urls
    ensures Fetch(c, d, disk, e).failed <==>
            && !(Signed(c, disk.bin, disk.sig) && e.statOk &&
                 (c.urls == 0 || e.now - disk.modTime < c.prefetchDelay))
            && forall i :: 0 <= i < |e.downloads| ==> !GoodDownload(c, e.downloads[i])
  {
  }

  /** A list that was downloaded and stored is read back until it is due, without the network. It is
      due a prefetch delay after the fetch, or after the write if setting the file's times failed. */
  lemma StoredListIsReadBack(c: Conf, d: Data, disk: Disk, e: Env, later: Env, d': Data)
    requires ValidConf(c) && c.urls > 0 && e.write.Both?
    requires var o := Fetch(c, d, disk, e);
             !o.failed && o.data.content != FromCache(c, d, disk, e).0.content
    requires later.statOk && later.now < Fetch(c, d, disk, e).disk.modTime + c.prefetchDelay
    ensures var o := Fetch(c, d, disk, e);
            var due := (if e.chtimesOk then e.now else e.wrote) + c.prefetchDelay;
            Fetch(c, d', o.disk, later) == Outcome(Data(o.data.content, Some(due)), o.disk, due - later.now, false)
  {
  }

  /** A download that equals what is in memory is not written, but dates the file anew: the file is read
      back for another prefetch delay, without the network. */
  lemma ConfirmedListIsReadBack(c: Conf, d: Data, disk: Disk, e: Env, later: Env, d': Data)
    requires ValidConf(c) && c.urls > 0 && Signed(c, disk.bin, disk.sig) && e.chtimesOk
    requires e.now - disk.modTime >= c.prefetchDelay || !e.statOk
    requires FirstGood(c, e.downloads).Some? && FirstGood(c, e.downloads).value.bin == disk.bin
    requires later.statOk && later.now < e.now + c.prefetchDelay
    ensures var o := Fetch(c, d, disk, e);
            && o.disk == disk.(modTime := e.now) && o.data.content == disk.bin.value
            && Fetch(c, d', o.disk, later) ==
               Outcome(o.data.(refresh := Some(e.now + c.prefetchDelay)), o.disk,
                       e.now + c.prefetchDelay - later.now, false)
  {
  }

  // --- What reaches the disk ---

  predicate Holds(disk: Disk, g: Download) { disk.bin == g.bin && disk.sig == g.sig }

  predicate SameFiles(a: Disk, b: Disk) { a.bin == b.bin && a.sig == b.sig }

  /** The fetch downloads, and the first download with a valid signature is `g`. */
  predicate Downloads(c: Conf, d: Data, disk: Disk, e: Env, g: Download) {
    c.urls > 0 && FromCache(c, d, disk, e).1 <= 0 && FirstGood(c, e.downloads) == Some(g)
  }

  /** Exactly when a download is on the disk after the fetch: it was there already, or memory differs
      and the write got far enough. */
  lemma DownloadStoredIff(c: Conf, d: Data, disk: Disk, e: Env, g: Download)
    requires Downloads(c, d, disk, e, g)
    ensures Holds(Fetch(c, d, disk, e).disk, g) <==>
            || Holds(disk, g)
            || (Some(FromCache(c, d, disk, e).0.content) != g.bin &&
                (e.write.Both? || (e.write.ListOnly? && disk.sig == g.sig)))
  {
  }

  // --- Whole runs ---

  datatype Step = Reload(env: Env) | Tamper(disk: Disk)

  function Next(c: Conf, d: Data, disk: Disk, s: Step): (Data, Disk) {
    match s
    case Reload(e) => var o := Fetch(c, d, disk, e); (o.data, o.disk)
    case Tamper(other) => (d, other)
  }

  function Run(c: Conf, d: Data, disk: Disk, steps: seq<Step>): (Data, Disk) {
    if steps == [] then (d, disk)
    else
      var (d', disk') := Run(c, d, disk, steps[..|steps| - 1]);
      Next(c, d', disk', steps[|steps| - 1])
  }

  /** Over every run of fetches, with files rewritten by anyone in between, memory is empty or
      signed, and what a fetch leaves to do lies in the future. */
  lemma {:induction false} RunKeepsTrust(c: Conf, d: Data, disk: Disk, steps: seq<Step>)
    requires ValidConf(c) && Trusted(c, d.content)
    ensures Trusted(c, Run(c, d, disk, steps).0.content)
    ensures steps != [] && steps[|steps| - 1].Reload? && c.urls > 0 ==>
              var r := Run(c, d, disk, steps).0.refresh; r.Some? && r.value > steps[|steps| - 1].env.now
  {
    if steps != [] {
      var init, last := steps[..|steps| - 1], steps[|steps| - 1];
      RunKeepsTrust(c, d, disk, init);
      if last.Reload? {
        var (d', disk') := Run(c, d, disk, init);
        FetchKeepsTrust(c, d', disk', last.env);
      }
    }
  }

  /** Only reloads, and every one would download `g`. */
  predicate Unchanged(c: Conf, steps: seq<Step>, g: Download) {
    forall i :: 0 <= i < |steps| ==>
      steps[i].Reload? && |steps[i].env.downloads| == c.urls && FirstGood(c, steps[i].env.downloads) == Some(g)
  }

  /** The file on disk would be loaded, and is not `g`. */
  predicate HoldsAnother(c: Conf, disk: Disk, g: Download) {
    Signed(c, disk.bin, disk.sig) && disk.bin != g.bin
  }

  /** With `g` in memory and no other usable file, a reload writes nothing. */
  lemma NothingToWrite(c: Conf, d: Data, disk: Disk, e: Env, g: Download)
    requires c.urls > 0 && Some(d.content) == g.bin && FirstGood(c, e.downloads) == Some(g)
    requires !HoldsAnother(c, disk, g)
    ensures var o := Fetch(c, d, disk, e); Some(o.data.content) == g.bin && SameFiles(o.disk, disk)
  {
  }

  lemma {:induction false} FilesFrozen(c: Conf, d: Data, disk: Disk, steps: seq<Step>, g: Download)
    requires c.urls > 0 && Some(d.content) == g.bin && Unchanged(c, steps, g) && !HoldsAnother(c, disk, g)
    ensures var (d', disk') := Run(c, d, disk, steps); Some(d'.content) == g.bin && SameFiles(disk', disk)
  {
    if steps != [] {
      var n := |steps| - 1;
      FilesFrozen(c, d, disk, steps[..n], g);
      var (d', disk') := Run(c, d, disk, steps[..n]);
      assert steps[n].Reload?;
      NothingToWrite(c, d', disk', steps[n].env, g);
    }
  }

  /** A reload that repairs the file, when there is another one. */
  lemma AnotherIsReplaced(c: Conf, d: Data, disk: Disk, g: Download) returns (steps: seq<Step>)
    requires ValidConf(c) && c.urls > 0 && GoodDownload(c, g) && HoldsAnother(c, disk, g)
    ensures Unchanged(c, steps, g) && Holds(Run(c, d, disk, steps).1, g)
  {
    var downloads := seq(c.urls, (_: nat) => g);
    assert downloads[0] == g;
    var now := disk.modTime + c.cacheTTL;
    steps := [Reload(Env(now, true, downloads, Both, now, true))];
    assert steps[..0] == [];
    assert Run(c, d, disk, steps[..0]) == (d, disk);
  }

  /** Exactly when a download that is in memory is never written again, over all runs in which the
      downloads stay the same: unless the disk holds another usable list. The comparison is with
      memory, not with the file. */
  lemma NeverWrittenIff(c: Conf, d: Data, disk: Disk, g: Download)
    requires ValidConf(c) && c.urls > 0 && GoodDownload(c, g) && d.content == g.bin.value
    ensures (forall steps :: Unchanged(c, steps, g) ==> SameFiles(Run(c, d, disk, steps).1, disk)) <==>
            !HoldsAnother(c, disk, g)
  {
    if HoldsAnother(c, disk, g) {
      var steps := AnotherIsReplaced(c, d, disk, g);
      assert !SameFiles(Run(c, d, disk, steps).1, disk);
    } else {
      forall steps | Unchanged(c, steps, g) ensures SameFiles(Run(c, d, disk, steps).1, disk) {
        FilesFrozen(c, d, disk, steps, g);
      }
    }
  }

  lemma {:induction false} RunFromFirst(c: Conf, d: Data, disk: Disk, steps: seq<Step>)
    requires steps != []
    ensures var (d', disk') := Next(c, d, disk, steps[0]);
            Run(c, d, disk, steps) == Run(c, d', disk', steps[1..])
  {
    var n := |steps| - 1;
    if n == 0 {
      assert steps[..0] == [] == steps[1..];
    } else {
      RunFromFirst(c, d, disk, steps[..n]);
      assert steps[1..][..n - 1] == steps[..n][1..];
    }
  }

  /** A program that starts without a usable file writes once: after any number of reloads the list is
      on the disk exactly if the first write got far enough, and whatever that write left stays. */
  lemma FirstWriteIsFinal(c: Conf, disk: Disk, steps: seq<Step>, g: Download)
    requires c.urls > 0 && GoodDownload(c, g) && Unchanged(c, steps, g) && steps != []
    requires !Signed(c, disk.bin, disk.sig)
    ensures var start, first := Data([], None), steps[0].env;
            var end := Run(c, start, disk, steps).1;
            && SameFiles(end, Fetch(c, start, disk, first).disk)
            && (Holds(end, g) <==>
                g.bin != Some([]) && (first.write.Both? || (first.write.ListOnly? && disk.sig == g.sig)))
  {
    var start, first := Data([], None), steps[0].env;
    var o := Fetch(c, start, disk, first);
    RunFromFirst(c, start, disk, steps);
    DownloadStoredIff(c, start, disk, first, g);
    forall i | 0 <= i < |steps[1..]| ensures steps[1..][i] == steps[i + 1] {
    }
    FilesFrozen(c, o.data, o.disk, steps[1..], g);
  }

  // --- The prefetch round ---

  predicate Due(d: Data, now: int) { d.refresh.Some? && d.refresh.value <= now }

  function Narrow(interval: int, delay: int): int {
    if delay >= MINIMUM_PREFETCH_INTERVAL && (interval == MINIMUM_PREFETCH_INTERVAL || interval > delay)
    then delay else interval
  }

  function Interval(delays: seq<int>): int {
    if delays == [] then MINIMUM_PREFETCH_INTERVAL
    else Narrow(Interval(delays[..|delays| - 1]), delays[|delays| - 1])
  }

  /** The delays above the minimum behind the last delay of exactly the minimum. */
  function Tail(delays: seq<int>): seq<int> {
    if delays == [] then []
    else
      var tail, last := Tail(delays[..|delays| - 1]), delays[|delays| - 1];
      if last == MINIMUM_PREFETCH_INTERVAL then []
      else if last > MINIMUM_PREFETCH_INTERVAL then tail + [last]
      else tail
  }

  predicate IsLeast(x: int, s: seq<int>) { x in s && forall y :: y in s ==> x <= y }

  /** What the loop computes, exactly: a delay of exactly the minimum makes it forget what came before. */
  lemma {:induction false} IntervalIsLeastOfTail(delays: seq<int>)
    ensures if Tail(delays) == [] then Interval(delays) == MINIMUM_PREFETCH_INTERVAL
            else IsLeast(Interval(delays), Tail(delays)) && Interval(delays) > MINIMUM_PREFETCH_INTERVAL
  {
    if delays != [] {
      IntervalIsLeastOfTail(delays[..|delays| - 1]);
    }
  }

  lemma {:induction false} TailHoldsAll(delays: seq<int>, x: int)
    requires MINIMUM_PREFETCH_INTERVAL !in delays && x in delays && x >= MINIMUM_PREFETCH_INTERVAL
    ensures x in Tail(delays)
  {
    var n := |delays| - 1;
    assert delays == delays[..n] + [delays[n]];
    if x != delays[n] {
      TailHoldsAll(delays[..n], x);
    }
  }

  /** The next round comes no later than any delay worth waiting for, exactly if no such delay equals
      the minimum, or none above the minimum follows the last that does. */
  lemma IntervalInTimeIff(delays: seq<int>)
    ensures (forall x :: x in delays && x >= MINIMUM_PREFETCH_INTERVAL ==> Interval(delays) <= x) <==>
            MINIMUM_PREFETCH_INTERVAL !in delays || Tail(delays) == []
  {
    IntervalIsLeastOfTail(delays);
    if MINIMUM_PREFETCH_INTERVAL !in delays {
      forall x | x in delays && x >= MINIMUM_PREFETCH_INTERVAL ensures x in Tail(delays) {
        TailHoldsAll(delays, x);
      }
    }
  }

  /** One source in a round. */
  datatype Entry = Entry(conf: Conf, data: Data, disk: Disk, env: Env)

  /** Delays of the fetches that were due and succeeded, in order. */
  function SuccessDelays(entries: seq<Entry>): seq<int> {
    if entries == [] then []
    else
      var delays, x := SuccessDelays(entries[..|entries| - 1]), entries[|entries| - 1];
      var o := Fetch(x.conf, x.data, x.disk, x.env);
      if Due(x.data, x.env.now) && !o.failed then delays + [o.delay] else delays
  }

  /** What becomes of a source in a round. */
  function AfterRound(x: Entry, now: int): (Data, Disk) {
    if Due(x.data, now) then var o := Fetch(x.conf, x.data, x.disk, x.env); (o.data, o.disk) else (x.data, x.disk)
  }

  // --- Whether the next round is in time ---

  /** The source keeps its refresh time: it is not due, or has no URL. */
  predicate KeepsRefresh(x: Entry, now: int) { !Due(x.data, now) || x.conf.urls == 0 }

  predicate FailsInRound(x: Entry, now: int) {
    !KeepsRefresh(x, now) && Fetch(x.conf, x.data, x.disk, x.env).failed
  }

  /** The source is not due before the next round. */
  predicate InTimeFor(x: Entry, now: int, interval: int) {
    var refresh := AfterRound(x, now).0.refresh;
    refresh.Some? ==> now + interval <= refresh.value
  }

  ghost predicate NextRoundInTime(entries: seq<Entry>, now: int) {
    forall i :: 0 <= i < |entries| ==> InTimeFor(entries[i], now, Interval(SuccessDelays(entries)))
  }

  lemma RefreshAfterRound(x: Entry)
    requires !KeepsRefresh(x, x.env.now)
    ensures var o := Fetch(x.conf, x.data, x.disk, x.env);
            AfterRound(x, x.env.now).0.refresh == Some(x.env.now + o.delay) &&
            (o.failed ==> o.delay == MINIMUM_PREFETCH_INTERVAL)
  {
  }

  predicate Succeeds(x: Entry) {
    Due(x.data, x.env.now) && !Fetch(x.conf, x.data, x.disk, x.env).failed
  }

  lemma {:induction false} SuccessIsListed(entries: seq<Entry>, i: int)
    requires 0 <= i < |entries| && Succeeds(entries[i])
    ensures var x := entries[i]; Fetch(x.conf, x.data, x.disk, x.env).delay in SuccessDelays(entries)
  {
    var n := |entries| - 1;
    if i < n {
      SuccessIsListed(entries[..n], i);
    }
  }

  lemma {:induction false} ListedIsSuccess(entries: seq<Entry>, delay: int) returns (i: int)
    requires delay in SuccessDelays(entries)
    ensures 0 <= i < |entries| && Succeeds(entries[i])
    ensures var x := entries[i]; Fetch(x.conf, x.data, x.disk, x.env).delay == delay
  {
    var n := |entries| - 1;
    var x := entries[n];
    if Succeeds(x) && Fetch(x.conf, x.data, x.disk, x.env).delay == delay {
      i := n;
    } else {
      i := ListedIsSuccess(entries[..n], delay);
    }
  }

  /** If the next round is in time, no listed delay is shorter than the interval. */
  lemma ListedDelayIsLong(entries: seq<Entry>, now: int, delay: int)
    requires (forall i :: 0 <= i < |entries| ==> entries[i].env.now == now) && NextRoundInTime(entries, now)
    requires delay in SuccessDelays(entries)
    ensures delay >= Interval(SuccessDelays(entries))
  {
    IntervalIsLeastOfTail(SuccessDelays(entries));
    var i := ListedIsSuccess(entries, delay);
    assert InTimeFor(entries[i], now, Interval(SuccessDelays(entries)));
    if !KeepsRefresh(entries[i], now) { RefreshAfterRound(entries[i]); }
  }

  /** What the sources that fetch nothing ask for: no refresh before the next round. */
  ghost predicate OthersCanWait(entries: seq<Entry>, now: int) {
    forall i :: 0 <= i < |entries| && KeepsRefresh(entries[i], now) && entries[i].data.refresh.Some? ==>
      now + Interval(SuccessDelays(entries)) <= entries[i].data.refresh.value
  }

  /** What the fetches allow: no delay below the minimum, and a round that comes later than the minimum
      only if no fetch failed and no delay equals the minimum. */
  ghost predicate FetchesCanWait(entries: seq<Entry>, now: int) {
    var delays := SuccessDelays(entries);
    && (forall x :: x in delays ==> x >= MINIMUM_PREFETCH_INTERVAL)
    && (|| Tail(delays) == []
        || (MINIMUM_PREFETCH_INTERVAL !in delays &&
            forall i :: 0 <= i < |entries| ==> !FailsInRound(entries[i], now)))
  }

  lemma InTimeIfAllCanWait(entries: seq<Entry>, now: int, i: int)
    requires forall k :: 0 <= k < |entries| ==> entries[k].env.now == now
    requires OthersCanWait(entries, now) && FetchesCanWait(entries, now) && 0 <= i < |entries|
    ensures InTimeFor(entries[i], now, Interval(SuccessDelays(entries)))
  {
    var x := entries[i];
    IntervalInTimeIff(SuccessDelays(entries));
    IntervalIsLeastOfTail(SuccessDelays(entries));
    if !KeepsRefresh(x, now) {
      RefreshAfterRound(x);
      if Succeeds(x) { SuccessIsListed(entries, i); } else { assert FailsInRound(x, now); }
    }
  }

  lemma AllCanWaitIfInTime(entries: seq<Entry>, now: int)
    requires (forall k :: 0 <= k < |entries| ==> entries[k].env.now == now) && NextRoundInTime(entries, now)
    ensures OthersCanWait(entries, now) && FetchesCanWait(entries, now)
  {
    var delays := SuccessDelays(entries);
    IntervalIsLeastOfTail(delays);
    forall x | x in delays ensures x >= Interval(delays) {
      ListedDelayIsLong(entries, now, x);
    }
    forall i | 0 <= i < |entries|
      ensures InTimeFor(entries[i], now, Interval(delays))
      ensures FailsInRound(entries[i], now) ==> Interval(delays) <= MINIMUM_PREFETCH_INTERVAL
    {
      if FailsInRound(entries[i], now) { RefreshAfterRound(entries[i]); }
    }
  }

  /** Exactly when no source is due before the next round, over all the sources: those that wait, those
      whose fetch failed and those that were fetched. */
  lemma RoundInTimeIff(entries: seq<Entry>, now: int)
    requires forall i :: 0 <= i < |entries| ==> entries[i].env.now == now
    ensures NextRoundInTime(entries, now) <==> OthersCanWait(entries, now) && FetchesCanWait(entries, now)
  {
    if NextRoundInTime(entries, now) {
      AllCanWaitIfInTime(entries, now);
    }
    if OthersCanWait(entries, now) && FetchesCanWait(entries, now) {
      forall i | 0 <= i < |entries| ensures InTimeFor(entries[i], now, Interval(SuccessDelays(entries))) {
        InTimeIfAllCanWait(entries, now, i);
      }
    }
  }

  // --- Rounds that come too late ---

  const ONE_URL: Conf := Conf(1, DEFAULT_PREFETCH_DELAY, DEFAULT_PREFETCH_DELAY, (_, _) => true)
  const NO_FILE: Disk := Disk(None, None, 0)

  /** A source that is downloaded in the round. */
  function Downloaded(now: int): Entry {
    Entry(ONE_URL, Data([], Some(now)), NO_FILE,
          Env(now, true, [Download(Some([1]), Some([2]))], Both, now, true))
  }

  /** One source behind another that is downloaded. */
  lemma DownloadedBehind(x: Entry, now: int)
    requires x.env.now == now
    ensures SuccessDelays([x, Downloaded(now)]) ==
            (if Succeeds(x) then [Fetch(x.conf, x.data, x.disk, x.env).delay] else []) + [DEFAULT_PREFETCH_DELAY]
    ensures Interval(SuccessDelays([x, Downloaded(now)])) ==
            if Succeeds(x) then Narrow(Narrow(MINIMUM_PREFETCH_INTERVAL, Fetch(x.conf, x.data, x.disk, x.env).delay),
                                       DEFAULT_PREFETCH_DELAY)
            else DEFAULT_PREFETCH_DELAY
  {
    var y := Downloaded(now);
    assert Succeeds(y) && Fetch(y.conf, y.data, y.disk, y.env).delay == DEFAULT_PREFETCH_DELAY;
    assert [x, y][..1] == [x] && [x][..0] == [];
    var first := SuccessDelays([x]);
    assert SuccessDelays([]) == [];
    assert SuccessDelays([x, y]) == first + [DEFAULT_PREFETCH_DELAY];
    assert (first + [DEFAULT_PREFETCH_DELAY])[..|first|] == first;
    if Succeeds(x) { assert first[..0] == []; }
    assert Interval([]) == MINIMUM_PREFETCH_INTERVAL;
  }

  /** The download of the first source fails: it is to be tried again in ten minutes, and the next round
      comes a day later. */
  lemma FailedSourceIsLate(now: int)
    ensures var x := Entry(ONE_URL, Data([], Some(now)), NO_FILE,
                           Env(now, true, [Download(None, None)], Both, now, true));
            && AfterRound(x, now).0.refresh == Some(now + MINIMUM_PREFETCH_INTERVAL)
            && Interval(SuccessDelays([x, Downloaded(now)])) == DEFAULT_PREFETCH_DELAY
            && !NextRoundInTime([x, Downloaded(now)], now)
  {
    var x := Entry(ONE_URL, Data([], Some(now)), NO_FILE, Env(now, true, [Download(None, None)], Both, now, true));
    DownloadedBehind(x, now);
    assert !InTimeFor([x, Downloaded(now)][0], now, DEFAULT_PREFETCH_DELAY);
  }

  /** The first source is due in an hour, and the next round comes a day later. */
  lemma WaitingSourceIsLate(now: int)
    ensures var x := Entry(ONE_URL, Data([1], Some(now + 60 * MINUTE)), NO_FILE,
                           Env(now, true, [Download(None, None)], Both, now, true));
            && Interval(SuccessDelays([x, Downloaded(now)])) == DEFAULT_PREFETCH_DELAY
            && !NextRoundInTime([x, Downloaded(now)], now)
  {
    var x := Entry(ONE_URL, Data([1], Some(now + 60 * MINUTE)), NO_FILE,
                   Env(now, true, [Download(None, None)], Both, now, true));
    DownloadedBehind(x, now);
    assert !InTimeFor([x, Downloaded(now)][0], now, DEFAULT_PREFETCH_DELAY);
  }

  /** Two sources that are due: the cache file of the first, replaced by someone else, has ten minutes
      left, the second is downloaded. The next round comes a day later, not in ten minutes. */
  lemma MinimumDelayForgotten(now: int)
    ensures var young := Disk(Some([1]), Some([2]), now - DEFAULT_PREFETCH_DELAY + MINIMUM_PREFETCH_INTERVAL);
            var x := Downloaded(now).(disk := young);
            var delays := SuccessDelays([x, Downloaded(now)]);
            && delays == [MINIMUM_PREFETCH_INTERVAL, DEFAULT_PREFETCH_DELAY]
            && Interval(delays) == DEFAULT_PREFETCH_DELAY && !NextRoundInTime([x, Downloaded(now)], now)
  {
    var young := Disk(Some([1]), Some([2]), now - DEFAULT_PREFETCH_DELAY + MINIMUM_PREFETCH_INTERVAL);
    var x := Downloaded(now).(disk := young);
    assert Succeeds(x) && Fetch(x.conf, x.data, x.disk, x.env).delay == MINIMUM_PREFETCH_INTERVAL;
    DownloadedBehind(x, now);
    assert !InTimeFor([x, Downloaded(now)][0], now, DEFAULT_PREFETCH_DELAY);
  }

  ghost function Entries(sources: seq<Source>, disks: seq<Disk>, envs: seq<Env>): (r: seq<Entry>)
    requires |sources| == |disks| == |envs|
    reads sources
    ensures |r| == |sources|
  {
    seq(|sources|, i requires 0 <= i < |sources| reads sources =>
      Entry(sources[i].conf, sources[i].Value(), disks[i], envs[i]))
  }

  /** What one source makes of the interval. */
  function NarrowedBy(x: Entry, interval: int): int {
    var o := Fetch(x.conf, x.data, x.disk, x.env);
    if Due(x.data, x.env.now) && !o.failed then Narrow(interval, o.delay) else interval
  }

  lemma RoundDelays(entries: seq<Entry>, k: nat)
    requires k < |entries|
    ensures Interval(SuccessDelays(entries[..k + 1])) ==
            NarrowedBy(entries[k], Interval(SuccessDelays(entries[..k])))
  {
    assert entries[..k + 1][..k] == entries[..k];
    var before, x := SuccessDelays(entries[..k]), entries[k];
    var delay := Fetch(x.conf, x.data, x.disk, x.env).delay;
    assert (before + [delay])[..|before|] == before;
  }

  /** One turn of the loop. */
  method PrefetchOne(source: Source, disk: Disk, e: Env, interval: int) returns (disk': Disk, interval': int)
    requires |e.downloads| == source.conf.urls
    modifies source
    ensures (source.Value(), disk') == AfterRound(Entry(source.conf, old(source.Value()), disk, e), e.now)
    ensures interval' == NarrowedBy(Entry(source.conf, old(source.Value()), disk, e), interval)
  {
    disk', interval' := disk, interval;
    if source.refresh.None? || source.refresh.value > e.now { return; }
    var delay, failed;
    disk', delay, failed := source.FetchWithCache(disk, e);
    if !failed {
      if delay >= MINIMUM_PREFETCH_INTERVAL && (interval == MINIMUM_PREFETCH_INTERVAL || interval > delay) {
        interval' := delay;
      }
    }
  }

  /** A round fetches exactly the sources that are due, one after the other, and leaves the others alone. */
  method PrefetchSources(sources: seq<Source>, disks: seq<Disk>, envs: seq<Env>, now: int)
    returns (interval: int, disks': seq<Disk>)
    requires |sources| == |disks| == |envs|
    requires forall i, j :: 0 <= i < j < |sources| ==> sources[i] != sources[j]
    requires forall i :: 0 <= i < |envs| ==> envs[i].now == now && |envs[i].downloads| == sources[i].conf.urls
    modifies sources
    ensures |disks'| == |sources|
    ensures forall i :: 0 <= i < |sources| ==>
              (sources[i].Value(), disks'[i]) == AfterRound(old(Entries(sources, disks, envs))[i], now)
    ensures interval == Interval(SuccessDelays(old(Entries(sources, disks, envs))))
  {
    ghost var entries := Entries(sources, disks, envs);
    interval, disks' := MINIMUM_PREFETCH_INTERVAL, disks;
    for k := 0 to |sources|
      invariant |disks'| == |sources|
      invariant forall i :: 0 <= i < k ==>
                  (sources[i].Value(), disks'[i]) == AfterRound(entries[i], now)
      invariant forall i :: k <= i < |sources| ==> sources[i].Value() == entries[i].data && disks'[i] == disks[i]
      invariant interval == Interval(SuccessDelays(entries[..k]))
    {
      RoundDelays(entries, k);
      assert entries[k].env.now == now;
      var disk;
      disk, interval := PrefetchOne(sources[k], disks[k], envs[k], interval);
      disks' := disks'[k := disk];
    }
    assert entries[..|sources|] == entries;
  }
}
