/** A write request from its first page to its thresholds: what holds between two requests and after each
    page, and what reads return. */
module Service {
  import opened Geometry
  import opened Requests
  import opened Recoverable
  import opened OrderState
  import opened Transfer
  import opened HostSteps
  import opened FlashSteps
  import opened Media
  import opened Journals
  import opened Banks
  import opened Sums
  import opened Arith
  import opened Room
  import opened FtlState
  import opened DeviceSteps
  import opened LogSteps
  import opened Format
  import opened ValidCounts
  import opened Wiring
  import opened Effects
  import opened Collection
  import opened N = Nand
  import opened W = WriteCache
  import LS = LogSpace
  import R = Ring

  const HOST_ROOM: nat := (GC_THRESHOLD - BATCH_GC_THRESHOLD) * LAST_PAGE - W.NC

  const HOST_MAPENTS: nat := (NUM_BANKS - 1) * NUM_MAPENTS_PER_PAGE - 512 + NUM_BANKS * W.NC

  /** Mapping entries that may be buffered, counting those that dirty pages will bring, after n requests. */
  function LoadAt(n: nat): nat {
    if n == 0 then 0 else HOST_MAPENTS
  }

  /** Between two requests: what the garbage collection and checkpoint thresholds leave for the next one. */
  ghost predicate Between(d: Device, dirty: seq<nat>) {
    && d.s.Clock() && |d.s.reqs| == d.s.g
    && HasRoom(d.ks, |d.mapents|, dirty, HOST_ROOM, LoadAt(d.s.g))
    && |d.s.deps| < NUM_DEPENTS_PER_PAGE
    && |d.j.pages| + (if d.s.deps == [] then 0 else 1) <= LS.LOG_SAFE
    && (d.s.v.commit == -1 && |d.s.reqs| <= 1 ==> |d.j.pages| <= 1)
  }

  /** k pages of request r are in the cache. */
  ghost predicate Serving(d: Device, dirty: seq<nat>, r: Request, k: nat) {
    && d.s.Clock() && |d.s.reqs| == d.s.g + 1 && d.s.reqs[d.s.g] == r && d.s.enq == k
    && k <= r.Span() && |d.s.reqs| <= MAX_REQS
    && HasRoom(d.ks, |d.mapents|, dirty, HOST_ROOM - k, LoadAt(d.s.g) + k)
    && |d.s.deps| < NUM_DEPENTS_PER_PAGE
    && |d.j.pages| * NUM_DEPENTS_PER_PAGE + |d.s.deps| <= LS.LOG_SAFE * NUM_DEPENTS_PER_PAGE + NUM_DEPENTS_PER_PAGE - 1 + k
    && (d.s.v.commit == -1 && |d.s.reqs| <= 1 ==> |d.j.pages| <= 1)
  }

  lemma ServingRoom(k: nat)
    requires k <= MAX_SPAN
    ensures HOST_ROOM - k >= 3 * LAST_PAGE >= 2 * LAST_PAGE && HOST_MAPENTS + k <= MAX_MAPENTS
    ensures forall g: nat :: LoadAt(g) + k <= MAX_MAPENTS
    ensures NUM_DEPENTS_PER_PAGE > 0
  {
    var n: nat, c: nat, p := NUM_BANKS, W.NC, LAST_PAGE;
    assert HOST_ROOM == 104 * p - c;
    MulMonotone(c, 512, n);
    assert n * c <= 512 * n;
    assert HOST_MAPENTS == (n - 1) * 1800 - 512 + n * c;
    assert MAX_MAPENTS == 3600 * n;
  }

  lemma BeginOnly(d: Device, dirty: seq<nat>, r: Request) returns (e: Device)
    requires d.Valid() && Between(d, dirty) && |d.s.reqs| < MAX_REQS
    ensures e.Valid() && e == d.(s := e.s) && e.s == d.s.(reqs := d.s.reqs + [r], enq := 0) && Later(d.s, e.s)
    ensures Serving(e, dirty, r, 0)
  {
    e := d.(s := Begin(d.s, r));
    BeginInv(d.s, r);
    BeginQuiet(d.s, r);
    QuietValid(d, e.s);
  }

  lemma ServingDrained(o: Device, d: Device, was: seq<nat>, dirty: seq<nat>, r: Request, k: nat)
    requires Serving(o, was, r, k) && Drained(o, d) && HasRoom(d.ks, |d.mapents|, dirty, HOST_ROOM - k, LoadAt(o.s.g) + k)
    ensures Serving(d, dirty, r, k)
  {
  }

  /** What is known of the old content of the page that the request writes next. */
  lemma OldContent(d: Device, dirty: seq<nat>, r: Request, k: nat, lpn: nat)
    requires d.Valid() && Serving(d, dirty, r, k) && k < r.Span() && lpn == r.First() + k
    ensures d.s.g < |d.s.reqs| && d.s.reqs[d.s.g] == r
    ensures lpn in d.s.cache ==> Agrees(d.s.cache[lpn].buf, lpn, d.s.reqs, d.s.g)
    ensures lpn in d.s.pmap ==> d.s.pmap[lpn] in d.s.data && !d.s.data[d.s.pmap[lpn]].Summary?
    ensures lpn in d.s.pmap && lpn !in d.s.cache ==> Agrees(d.s.data[d.s.pmap[lpn]].content, lpn, d.s.reqs, d.s.g)
    ensures lpn !in d.s.pmap && lpn !in d.s.cache ==> forall s: nat :: s < SECTORS_PER_PAGE ==> Lookup(d.s.reqs, d.s.g, SectorOf(lpn, s)) == None
  {
    assert d.s.Now(lpn) == d.s.g;
    if lpn in d.s.cache {
      assert EntryOK(d.s, lpn);
    } else if lpn in d.s.pmap {
      assert MappedPage(d.s, lpn);
    } else {
      assert !EverEnqueued(d.s, lpn);
      forall e | 0 <= e < d.s.g ensures !d.s.reqs[e].Touches(lpn) {
        assert !d.s.Enqueued(e, lpn);
      }
      forall s: nat | s < SECTORS_PER_PAGE ensures Lookup(d.s.reqs, d.s.g, SectorOf(lpn, s)) == None {
        NeverWritten(d.s.reqs, d.s.g, lpn, s);
      }
    }
    if lpn in d.s.pmap {
      assert MappedPage(d.s, lpn);
    }
  }

  lemma EvictOnly(d: Device, l: nat)
    requires d.Valid() && l in d.s.cache && !d.s.cache[l].dirty
    ensures d.(s := Evict(d.s, l)).Valid()
    ensures Evict(d.s, l) == d.s.(cache := d.s.cache - {l})
  {
    EvictInv(d.s, l);
    EvictQuiet(d.s, l);
    QuietValid(d, Evict(d.s, l));
  }

  lemma EnqueueStep(d: Device, lpn: nat, buf: seq<nat>)
    requires d.Valid() && CanEnqueue(d.s, lpn) && Agrees(buf, lpn, d.s.reqs, d.s.g + 1) && d.s.floor <= d.s.g
    ensures d.(s := Enqueue(d.s, lpn, buf)).Valid() && Later(d.s, Enqueue(d.s, lpn, buf))
  {
    EnqueueInv(d.s, lpn, buf);
    EnqueueExtends(d.s, lpn, buf);
    QuietValid(d, Enqueue(d.s, lpn, buf));
  }

  lemma ServingParts(d: Device, dirty: seq<nat>, r: Request, k: nat)
    requires d.Valid() && Serving(d, dirty, r, k)
    ensures d.s.Clock() && |d.s.reqs| == d.s.g + 1 && d.s.reqs[d.s.g] == r && d.s.enq == k
    ensures k < r.Span() ==> CanEnqueue(d.s, r.First() + k) && d.s.floor <= d.s.g
    ensures HasRoom(d.ks, |d.mapents|, dirty, HOST_ROOM - k, LoadAt(d.s.g) + k) && k <= MAX_SPAN
    ensures |d.s.deps| < NUM_DEPENTS_PER_PAGE
  {
    SpanBound(r);
  }

  /** The next page of the request goes into the cache, into a buffer whose page, if any, is clean or the same. */
  lemma EnqueueOnly(d: Device, dirty: seq<nat>, r: Request, k: nat, lpn: nat, buf: seq<nat>, was: Buffer) returns (e: Device)
    requires d.Valid() && Serving(d, dirty, r, k) && k < r.Span() && lpn == r.First() + k
    requires d.s.g < |d.s.reqs| && Agrees(buf, lpn, d.s.reqs, d.s.g + 1)
    requires lpn in d.s.cache ==> was.lpn == Some(lpn)
    requires was.lpn.Some? && was.lpn.value != lpn ==> was.lpn.value in d.s.cache && !d.s.cache[was.lpn.value].dirty
    ensures e.Valid() && e == d.(s := e.s) && Later(d.s, e.s)
    ensures var x := Buffer(true, r.Span(), Some(lpn), d.s.g, buf);
      e.s == d.s.(enq := k + 1, cache := ViewAfter(d.s.cache, was, x), deps := e.s.deps)
    ensures e.s.deps == if lpn in d.s.cache && d.s.cache[lpn].dirty
      then d.s.deps + [Dep(d.s.cache[lpn].epoch, d.s.g, d.s.cache[lpn].span)] else d.s.deps
  {
    hide Device.Valid, Serving, Agrees, Write.Span, Write.First, HasRoom;
    ServingParts(d, dirty, r, k);
    var c := d;
    if was.lpn.Some? && was.lpn.value != lpn {
      EvictOnly(d, was.lpn.value);
      c := d.(s := Evict(d.s, was.lpn.value));
    }
    EnqueueStep(c, lpn, buf);
    e := c.(s := Enqueue(c.s, lpn, buf));
    var x := Entry(true, r.Span(), d.s.g, buf);
    assert (d.s.cache - {lpn})[lpn := x] == d.s.cache[lpn := x];
  }

  // ---- Dependencies on the way, and the flag of the timer ----

  /** What putting page lpn into the cache makes of the buffered dependencies: one more if the page was dirty; and if
      they fill a log page, that is logged. */
  ghost predicate Merged(o: Device, lpn: nat, d: Device) {
    var more := if o.s.Dirty(lpn) then o.s.deps + [Dep(o.s.cache[lpn].epoch, o.s.g, o.s.cache[lpn].span)] else o.s.deps;
    if |more| >= NUM_DEPENTS_PER_PAGE then d.s.deps == [] && d.j.pages == o.j.pages + [LogPage.Deps(more)]
    else d.s.deps == more && d.j == o.j
  }

  lemma MergedIs(o: Device, lpn: nat, e: Device, d: Device)
    requires e == o.(s := e.s)
    requires e.s.deps == if lpn in o.s.cache && o.s.cache[lpn].dirty
      then o.s.deps + [Dep(o.s.cache[lpn].epoch, o.s.g, o.s.cache[lpn].span)] else o.s.deps
    requires if |e.s.deps| >= NUM_DEPENTS_PER_PAGE then d.s.deps == [] && d.j.pages == e.j.pages + [LogPage.Deps(e.s.deps)] else d == e
    ensures Merged(o, lpn, d)
    ensures |e.s.deps| < NUM_DEPENTS_PER_PAGE ==> d.j == o.j
    ensures |e.s.deps| >= NUM_DEPENTS_PER_PAGE ==> d.j != o.j
  {
  }

  predicate FullPage(p: LogPage) {
    p.Deps? && |p.deps| >= NUM_DEPENTS_PER_PAGE
  }

  /** The first page logged after j is one that dependencies filled. */
  predicate FilledAfter(j: Journal, k: Journal) {
    j.pages < k.pages && FullPage(k.pages[|j.pages|])
  }

  ghost predicate FilledSince(j: Journal, a: seq<Crash>, b: seq<Crash>) {
    exists i :: |a| <= i < |b| && FilledAfter(j, b[i].j)
  }

  /** Between o and d nothing was made safe. Only dependencies that filled a page were logged, and the flag of the
      timer is still set exactly if there were none. */
  ghost predicate Logging(o: Device, a: seq<Crash>, was: bool, d: Device, b: seq<Crash>, now: bool) {
    && o.j.pages <= d.j.pages && d.s.floor == o.s.floor && a <= b
    && now == (was && d.j.pages == o.j.pages)
    && (d.j.pages != o.j.pages ==> FilledSince(o.j, a, b))
  }

  lemma LoggingNone(d: Device, a: seq<Crash>, flag: bool)
    ensures Logging(d, a, flag, d, a, flag)
  {
  }

  lemma LoggingDrained(o: Device, a: seq<Crash>, s: State, d: Device, b: seq<Crash>, flag: bool)
    requires Drained(o, d) && Grown(a, s, b, d.s)
    ensures Logging(o, a, flag, d, b, flag)
  {
  }

  lemma LoggingTrans(o: Device, a: seq<Crash>, f: bool, c: Device, x: seq<Crash>, g: bool, d: Device, b: seq<Crash>, h: bool)
    requires Logging(o, a, f, c, x, g) && Logging(c, x, g, d, b, h)
    ensures Logging(o, a, f, d, b, h)
  {
    if c.j.pages != o.j.pages {
      var i :| |a| <= i < |x| && FilledAfter(o.j, x[i].j);
      assert FilledAfter(o.j, b[i].j);
    } else if d.j.pages != o.j.pages {
      var i :| |x| <= i < |b| && FilledAfter(c.j, b[i].j);
      assert FilledAfter(o.j, b[i].j);
    }
  }

  /** One page was put into the cache, and the dependencies logged if they filled a page. */
  lemma LoggingMerged(o: Device, a: seq<Crash>, f: bool, lpn: nat, d: Device, b: seq<Crash>, g: bool)
    requires Merged(o, lpn, d) && d.s.floor == o.s.floor && a <= b
    requires if d.j == o.j then g == f else !g && b == a + [Crash(d.flash, d.s, d.j)]
    ensures Logging(o, a, f, d, b, g)
  {
    if d.j != o.j {
      assert FilledAfter(o.j, b[|a|].j);
    }
  }

  /** All pages of request r went into the cache after o. */
  ghost predicate LoopEnd(o: Device, r: Request, e: Device) {
    && e.Valid() && e.s.reqs == o.s.reqs + [r] && |e.s.reqs| == e.s.g + 1 && e.s.g == o.s.g && e.s.enq == r.Span() && e.s.Settled()
    && e.s.v.commit == o.s.v.commit && e.s.floor == o.s.floor && o.j.pages <= e.j.pages
  }

  /** The checkpoint threshold of ftl_write, on the device. */
  predicate ChkptDue(d: Device) {
    |d.mapents| > (NUM_BANKS - 1) * NUM_MAPENTS_PER_PAGE - 512 || LS.BlocksLeft(|d.j.pages|) < 3
  }

  /** Whether the pages are flushed at the end of a write: the shortage of free blocks, the threshold of checkpoints
      and the flag of the timer decide, as they are at the end of its loop. */
  predicate Flushes(late: bool, e: Device) {
    late || BatchShort(e.ks) || ChkptDue(e)
  }

  /** What a write leaves, from the end of its loop on. If nothing is flushed, only the epoch goes on. */
  ghost predicate Finishing(late: bool, e: Device, d: Device) {
    && d.s.reqs == e.s.reqs
    && (!BatchShort(e.ks) ==> (d.s.v.commit == |d.s.reqs| - 1 <==> ChkptDue(e)))
    && if Flushes(late, e) then d.s.floor == |d.s.reqs| else d == e.(s := e.s.(g := e.s.g + 1, enq := 0))
  }

  lemma LoopEnds(o: Device, r: Request, b: Device, a: seq<Crash>, f: bool, e: Device, dirty: seq<nat>, crashes: seq<Crash>, g: bool)
    requires b == o.(s := b.s) && b.s == o.s.(reqs := o.s.reqs + [r], enq := 0)
    requires e.Valid() && Serving(e, dirty, r, r.Span()) && e.s.reqs == b.s.reqs && e.s.v.commit == b.s.v.commit
    requires Logging(b, a, f, e, crashes, g) && |o.s.reqs| == o.s.g
    ensures LoopEnd(o, r, e) && g == (f && e.j.pages == o.j.pages)
    ensures e.j.pages != o.j.pages ==> FilledSince(o.j, a, crashes)
  {
  }

  lemma LoopEndParts(o: Device, r: Request, e: Device)
    requires LoopEnd(o, r, e)
    ensures e.s.reqs == o.s.reqs + [r] && e.s.v.commit == o.s.v.commit
  {
  }

  lemma FilledStill(j: Journal, a: seq<Crash>, b: seq<Crash>, c: seq<Crash>)
    requires b <= c
    ensures FilledSince(j, a, b) ==> FilledSince(j, a, c)
  {
    if i :| |a| <= i < |b| && FilledAfter(j, b[i].j) {
      assert c[i] == b[i];
    }
  }

  /** The end of a write, from what garbage collection, the checkpoint and the flag of the timer do. */
  lemma FinishingIs(o: Device, r: Request, e: Device, late: bool, c: Device, flag: bool, checkpoint: bool, f: Device, still: bool, d: Device)
    requires LoopEnd(o, r, e)
    requires if BatchShort(e.ks) then GcDone(c) && !flag && c.s.reqs == e.s.reqs && c.s.v.commit == e.s.v.commit else c == e && flag == late
    requires (checkpoint <==> ChkptDue(c)) && f.s.reqs == c.s.reqs && f.s.v.commit == if checkpoint then |c.s.reqs| - 1 else c.s.v.commit
    requires if checkpoint then f.s.floor == |f.s.reqs| && !still
             else f == c.(s := c.s.(g := c.s.g + 1, enq := 0)) && still == flag
    requires if still then d.s.reqs == f.s.reqs && d.s.floor == |d.s.reqs| && d.s.v.commit == f.s.v.commit else d == f
    ensures Finishing(late, e, d)
  {
    hide Device.Valid, BatchShort, AllClean, State.Settled, ChkptDue;
    CommitBehind(e);
  }

  lemma CommitBehind(e: Device)
    requires e.Valid()
    ensures e.s.v.commit < e.s.g
  {
  }

  /** pool_write_buf came to the bank between o and d: a page was written back if more than half of the bank's buffers
      were dirty, and otherwise it has no victim to erase any more. */
  ghost predicate PoolTurn(o: Device, dirty: seq<nat>, bank: nat, d: Device) {
    && bank < NUM_BANKS == |dirty| == |d.ks|
    && if dirty[bank] > W.NC / 2 then |d.mapents| > |o.mapents| else d.ks[bank].vt == 0
  }

  lemma PoolTurnIs(o: Device, dirty: seq<nat>, bank: nat, d: Device, now: seq<nat>)
    requires bank < NUM_BANKS == |dirty| == |d.ks|
    requires dirty[bank] > W.NC / 2 ==> |d.mapents| == |o.mapents| + 1
    requires dirty[bank] <= W.NC / 2 ==> VictimErased(o, d, bank)
    ensures PoolTurn(o, dirty, bank, d)
  {
  }

  lemma PoolTurnOnward(o: Device, dirty: seq<nat>, bank: nat, c: Device, d: Device)
    requires PoolTurn(o, dirty, bank, c) && |d.mapents| >= |c.mapents| && SpentVictims(c.ks, d.ks)
    ensures PoolTurn(o, dirty, bank, d)
  {
  }

  // ---- A device at rest ----

  /** No bank has more than half of its buffers dirty, or a victim to erase: a turn of the pool does nothing. */
  ghost predicate Still(d: Device, dirty: seq<nat>) {
    |d.ks| == |dirty| == NUM_BANKS && forall b :: 0 <= b < NUM_BANKS ==> dirty[b] <= W.NC / 2 && d.ks[b].vt == 0
  }

  /** A device at rest with room for the page in the cache. */
  ghost predicate Ready(d: Device, dirty: seq<nat>, lpn: nat) {
    Still(d, dirty) && (lpn in d.s.cache || dirty[BankOf(lpn)] == 0)
  }

  /** Page lpn went into the cache, and nothing else happened. */
  ghost predicate PutIn(o: Device, lpn: nat, d: Device) {
    && d.ks == o.ks && d.mapents == o.mapents && Merged(o, lpn, d)
    && d.s.Dirty(lpn) && (forall l: nat :: l != lpn && d.s.Dirty(l) ==> o.s.Dirty(l))
  }

  ghost predicate OneMoreDirty(o: Device, was: seq<nat>, lpn: nat, dirty: seq<nat>) {
    |was| == NUM_BANKS && dirty == if o.s.Dirty(lpn) then was else was[BankOf(lpn) := was[BankOf(lpn)] + 1]
  }

  lemma MoreDirtyKept(o: Device, was: seq<nat>, lpn: nat, dirty: seq<nat>)
    requires OneMoreDirty(o, was, lpn, dirty)
    ensures HalfKept(was, dirty)
  {
  }

  /** A turn of the pool on a device at rest. */
  lemma PoolTurnStill(o: Device, dirty: seq<nat>, lpn: nat, b: nat, d: Device)
    requires b < NUM_BANKS == |dirty| && (dirty[b] <= W.NC / 2 ==> VictimErased(o, d, b)) && o.Valid() && d.Valid()
    ensures Ready(o, dirty, lpn) ==> d == o && dirty[b] <= W.NC / 2 && (lpn in o.s.cache || dirty[BankOf(lpn)] == 0)
  {
    hide Inv;
    if Ready(o, dirty, lpn) {
      assert o.ks[b := o.ks[b].(vt := 0)] == o.ks;
    }
  }

  lemma PutInParts(o: Device, c: Device, lpn: nat, d: Device)
    requires Drained(o, c) && PutIn(c, lpn, d)
    ensures |d.mapents| >= |o.mapents| && SpentVictims(o.ks, d.ks)
  {
  }

  lemma PutInIs(o: Device, was: seq<nat>, lpn: nat, e: Device, x: Buffer, y: Buffer, d: Device, dirty: seq<nat>)
    requires y.lpn == Some(lpn) && y.dirty && e == o.(s := e.s) && e.s.cache == ViewAfter(o.s.cache, x, y)
    requires Merged(o, lpn, d) && (d == e || (Logged(e, d)))
    requires lpn in o.s.cache ==> x.lpn == Some(lpn) && x.dirty == o.s.cache[lpn].dirty
    requires lpn !in o.s.cache ==> !x.dirty
    requires |was| == NUM_BANKS && dirty == if x.dirty then was else was[BankOf(lpn) := was[BankOf(lpn)] + 1]
    ensures PutIn(o, lpn, d) && OneMoreDirty(o, was, lpn, dirty)
  {
    forall l: nat | l != lpn && d.s.Dirty(l) ensures o.s.Dirty(l) {
    }
  }

  lemma PutInBegun(o: Device, b: Device, was: seq<nat>, lpn: nat, d: Device, dirty: seq<nat>)
    requires b == o.(s := b.s) && b.s == o.s.(reqs := b.s.reqs, enq := 0)
    ensures PutIn(b, lpn, d) ==> PutIn(o, lpn, d)
    ensures OneMoreDirty(b, was, lpn, dirty) ==> OneMoreDirty(o, was, lpn, dirty)
    ensures Ready(b, was, lpn) <==> Ready(o, was, lpn)
  {
    assert forall l: nat :: b.s.Dirty(l) <==> o.s.Dirty(l);
  }

  lemma FlushesIf(late: bool, e: Device)
    ensures BatchShort(e.ks) ==> Flushes(late, e)
  {
  }

  /** If nothing is flushed, none of the three took place. */
  lemma WhenFlushed(late: bool, e: Device, flag: bool, checkpoint: bool, still: bool)
    requires !BatchShort(e.ks) ==> flag == late && (checkpoint <==> ChkptDue(e))
    requires !checkpoint ==> still == flag
    ensures !Flushes(late, e) ==> !BatchShort(e.ks) && !checkpoint && !still
  {
  }

  lemma NoDepsYet(d: Device)
    requires d.Valid() && |d.s.reqs| <= 1
    ensures d.s.deps == []
  {
    if d.s.deps != [] {
      DependencyNeedsTwo(d.s);
    }
  }

  lemma DependencyNeedsTwo(s: State)
    requires s.Clock() && OrderState.Deps(s) && s.deps != []
    ensures |s.reqs| >= 2
  {
    assert DepOK(s, s.deps[0]);
  }

  lemma RoomForOne(ks: seq<Bank>, n: nat, was: seq<nat>, p: int, q: int, bank: nat)
    requires HasRoom(ks, n, was, p, q) && bank < NUM_BANKS == |was|
    ensures HasRoom(ks, n, was, p - 1, q + 1) && HasRoom(ks, n, was[bank := was[bank] + 1], p - 1, q + 1)
  {
    TotalUpdate(was, bank, was[bank] + 1);
    var dirty := was[bank := was[bank] + 1];
    forall b | 0 <= b < NUM_BANKS ensures Writable(ks[b]) >= dirty[b] + (p - 1) {
      assert Writable(ks[b]) >= was[b] + p;
    }
  }

  /** One more page of the request is in the cache; its dependency, if any, may have filled a log page. */
  lemma ServingNext(o: Device, was: seq<nat>, e: Device, d: Device, dirty: seq<nat>, r: Request, k: nat, bank: nat)
    requires Serving(o, was, r, k) && k < r.Span() && bank < NUM_BANKS == |was|
    requires e.Valid() && e == o.(s := e.s) && e.s == o.s.(enq := k + 1, cache := e.s.cache, deps := e.s.deps)
    requires |e.s.deps| <= |o.s.deps| + 1
    requires dirty == was || dirty == was[bank := was[bank] + 1]
    requires if |e.s.deps| >= NUM_DEPENTS_PER_PAGE then Logged(e, d) && |d.j.pages| == |e.j.pages| + 1 else d == e
    ensures Serving(d, dirty, r, k + 1)
  {
    hide Device.Valid, HasRoom, Write.Span;
    RoomForOne(o.ks, |o.mapents|, was, HOST_ROOM - k, LoadAt(o.s.g) + k, bank);
    if |d.s.reqs| <= 1 {
      NoDepsYet(e);
    }
  }

  /** A page of flash, read around the sectors that the request brings. */
  lemma PreReadRight(buf: seq<nat>, page: seq<nat>, lpn: nat, reqs: seq<Request>, n: nat, base: nat, cnt: nat, c: seq<nat>)
    requires n <= |reqs| && |buf| == SECTORS_PER_PAGE && Agrees(page, lpn, reqs, n) && base + cnt <= SECTORS_PER_PAGE && cnt > 0
    requires c == (if cnt == SECTORS_PER_PAGE then buf
                   else if base == 0 then CopyIn(buf, page, cnt, SECTORS_PER_PAGE - cnt)
                   else if (base + cnt) % SECTORS_PER_PAGE == 0 then CopyIn(buf, page, 0, SECTORS_PER_PAGE - cnt)
                   else CopyIn(buf, page, 0, SECTORS_PER_PAGE))
    ensures RightOutside(c, lpn, reqs, n, base, base + cnt)
  {
    DivMod(base + cnt, SECTORS_PER_PAGE);
    if base + cnt < SECTORS_PER_PAGE {
      DivUnique(base + cnt, SECTORS_PER_PAGE, 0, base + cnt);
    }
  }

  lemma AgreesRight(buf: seq<nat>, lpn: nat, reqs: seq<Request>, n: nat, left: nat, right: nat)
    requires n <= |reqs| && Agrees(buf, lpn, reqs, n)
    ensures RightOutside(buf, lpn, reqs, n, left, right)
  {
  }

  lemma NewRight(buf: seq<nat>, lpn: nat, reqs: seq<Request>, n: nat, left: nat, right: nat)
    requires n <= |reqs| && |buf| == SECTORS_PER_PAGE
    requires forall s: nat :: s < SECTORS_PER_PAGE ==> Lookup(reqs, n, SectorOf(lpn, s)) == None
    ensures RightOutside(buf, lpn, reqs, n, left, right)
  {
  }

  lemma RightSize(buf: seq<nat>, lpn: nat, reqs: seq<Request>, n: nat, left: nat, right: nat)
    requires n <= |reqs| && RightOutside(buf, lpn, reqs, n, left, right)
    ensures |buf| == SECTORS_PER_PAGE
  {
  }

  lemma BankIs(lpn: nat)
    ensures BankOf(lpn) < NUM_BANKS
  {
  }

  lemma PartFacts(base: nat, remain: nat)
    requires base < SECTORS_PER_PAGE && remain > 0
    ensures 0 < Part(base, remain) <= remain && base + Part(base, remain) <= SECTORS_PER_PAGE
  {
  }

  lemma AgreesSize(page: seq<nat>, lpn: nat, reqs: seq<Request>, n: nat)
    requires n <= |reqs| && Agrees(page, lpn, reqs, n)
    ensures |page| == SECTORS_PER_PAGE
  {
  }

  lemma LogHasRoom(d: Device, dirty: seq<nat>, r: Request, k: nat)
    requires Serving(d, dirty, r, k)
    ensures |d.j.pages| + 1 < LOG_CAP
  {
    SpanBound(r);
    LS.LogMargin();
  }

  /** All pages of request r are in the cache or on flash, and no bank is much short of free blocks. */
  ghost predicate Served(d: Device, dirty: seq<nat>, r: Request) {
    && d.s.Clock() && |d.s.reqs| == d.s.g + 1 && d.s.reqs[d.s.g] == r && d.s.enq == r.Span() && |d.s.reqs| <= MAX_REQS
    && LoadedAfter(d, dirty)
    && (d.s.v.commit == -1 && |d.s.reqs| <= 1 ==> |d.j.pages| <= 1)
    && (|d.s.reqs| <= 1 ==> |d.mapents| <= MAX_SPAN)
  }

  ghost predicate LoadedAfter(d: Device, dirty: seq<nat>) {
    && HasRoom(d.ks, |d.mapents|, dirty, HOST_ROOM, MAX_MAPENTS)
    && |d.s.deps| < NUM_DEPENTS_PER_PAGE && |d.j.pages| <= LS.LOG_SAFE + 7
  }

  lemma LogSoFar(d: Device, dirty: seq<nat>, r: Request, k: nat)
    requires Serving(d, dirty, r, k)
    ensures |d.j.pages| <= LS.LOG_SAFE + 6 && |d.j.pages| + 1 < LOG_CAP
  {
    SpanBound(r);
    LS.LogMargin();
  }

  lemma ServingSettled(d: Device, dirty: seq<nat>, r: Request)
    requires Serving(d, dirty, r, r.Span())
    ensures d.s.Settled() && HasRoom(d.ks, |d.mapents|, dirty, HOST_ROOM - r.Span(), LoadAt(d.s.g) + r.Span()) && r.Span() <= MAX_SPAN
  {
    SpanBound(r);
  }

  /** Free blocks are room, whatever is dirty in a cache of this size. */
  lemma FreeIsRoom(d: Device, dirty: seq<nat>, q: int)
    requires d.Valid() && |dirty| == NUM_BANKS == |d.ks| && forall b :: 0 <= b < NUM_BANKS ==> dirty[b] <= W.NC
    requires forall b :: 0 <= b < NUM_BANKS ==> |d.ks[b].free| >= GC_THRESHOLD - BATCH_GC_THRESHOLD
    requires |d.mapents| + Total(dirty) <= q
    ensures HasRoom(d.ks, |d.mapents|, dirty, HOST_ROOM, q)
  {
    forall b | 0 <= b < NUM_BANKS ensures Writable(d.ks[b]) >= dirty[b] + HOST_ROOM {
      FreeWritable(d, b);
    }
  }

  lemma FreeWritable(d: Device, b: nat)
    requires d.Valid() && b < NUM_BANKS == |d.ks| && |d.ks[b].free| >= GC_THRESHOLD - BATCH_GC_THRESHOLD
    ensures Writable(d.ks[b]) >= HOST_ROOM + W.NC
  {
    BankAt(d, b);
    MulMonotone(GC_THRESHOLD - BATCH_GC_THRESHOLD, |d.ks[b].free|, LAST_PAGE);
    ServingRoom(0);
  }

  lemma ServedDirectly(d: Device, dirty: seq<nat>, r: Request)
    requires d.Valid() && Serving(d, dirty, r, r.Span()) && HasRoom(d.ks, |d.mapents|, dirty, HOST_ROOM, LoadAt(d.s.g) + r.Span())
    ensures Served(d, dirty, r)
  {
    LogSoFar(d, dirty, r, r.Span());
    SpanBound(r);
    ServingRoom(r.Span());
  }

  lemma RoomForGc(ks: seq<Bank>, n: nat, dirty: seq<nat>, g: nat, k: nat)
    requires HasRoom(ks, n, dirty, HOST_ROOM - k, LoadAt(g) + k) && k <= MAX_SPAN
    ensures |ks| == NUM_BANKS && n <= MAX_MAPENTS && forall b :: 0 <= b < NUM_BANKS ==> Writable(ks[b]) >= 3 * LAST_PAGE
  {
    ServingRoom(k);
    forall b | 0 <= b < NUM_BANKS ensures Writable(ks[b]) >= 3 * LAST_PAGE {
      assert Writable(ks[b]) >= dirty[b] + (HOST_ROOM - k);
    }
  }

  /** After a flush and garbage collection. */
  lemma ServedByGc(o: Device, was: seq<nat>, c: Device, d: Device, dirty: seq<nat>, r: Request)
    requires o.Valid() && Serving(o, was, r, r.Span()) && FlushedFrom(o, c) && SameHost(c, d) && o.s.v.commit >= 0
    requires HasRoom(d.ks, |d.mapents|, dirty, HOST_ROOM, MAX_MAPENTS)
    ensures Served(d, dirty, r)
  {
    LogSoFar(o, was, r, r.Span());
    if |o.s.reqs| <= 1 {
      NoDepsYet(o);
    }
  }

  lemma FinishOnly(d: Device, dirty: seq<nat>, r: Request) returns (e: Device)
    requires d.Valid() && Served(d, dirty, r)
    ensures e.Valid() && e == d.(s := e.s) && e.s == d.s.(g := d.s.g + 1, enq := 0) && Later(d.s, e.s)
    ensures Finished(e, dirty)
  {
    e := d.(s := Finish(d.s));
    FinishInv(d.s);
    FinishQuiet(d.s);
    QuietValid(d, e.s);
    if |d.s.reqs| <= 1 {
      NoDepsYet(d);
    }
  }

  /** The request has its epoch, and the thresholds are still to be tested. */
  ghost predicate Finished(d: Device, dirty: seq<nat>) {
    && d.s.Settled() && d.s.Clock() && |d.s.reqs| == d.s.g > 0 && d.s.v.commit < d.s.g - 1
    && LoadedAfter(d, dirty)
    && (|d.s.reqs| <= 1 ==> |d.j.pages| <= 1 && d.s.deps == [] && |d.mapents| <= MAX_SPAN)
  }

  lemma FinishedParts(d: Device, dirty: seq<nat>)
    requires Finished(d, dirty)
    ensures d.s.Settled() && |d.s.reqs| == d.s.g > 0 && d.s.v.commit < d.s.g - 1
    ensures HasRoom(d.ks, |d.mapents|, dirty, HOST_ROOM, MAX_MAPENTS)
    ensures |d.j.pages| + 2 * NUM_BANKS + 3 < LOG_CAP && (d.s.g == 1 ==> |d.j.pages| <= 1 && d.s.deps == [])
    ensures d.s.g == 1 ==> |d.mapents| <= (NUM_BANKS - 1) * NUM_MAPENTS_PER_PAGE - 512
  {
    LS.LogMargin();
  }

  lemma CacheTotal(dirty: seq<nat>)
    requires |dirty| == NUM_BANKS && forall b :: 0 <= b < NUM_BANKS ==> dirty[b] <= W.NC
    ensures Total(dirty) <= NUM_BANKS * W.NC
  {
    TotalBound(dirty, W.NC);
  }

  lemma BetweenNow(d: Device, dirty: seq<nat>)
    requires Finished(d, dirty) && |d.j.pages| < LS.LOG_SAFE
    requires |d.mapents| <= (NUM_BANKS - 1) * NUM_MAPENTS_PER_PAGE - 512 && Total(dirty) <= NUM_BANKS * W.NC
    ensures Between(d, dirty)
  {
  }

  lemma BetweenCheckpoints(o: Device, was: seq<nat>, d: Device, dirty: seq<nat>)
    requires Finished(o, was) && d.s.reqs == o.s.reqs && d.s.g == o.s.g && d.s.enq == o.s.enq && d.s.v.commit == d.s.g - 1
    requires d.mapents == [] && d.s.deps == [] && |d.j.pages| < LS.LOG_SAFE
    requires HasRoom(d.ks, |d.mapents|, dirty, HOST_ROOM, MAX_MAPENTS) && Total(dirty) <= NUM_BANKS * W.NC
    ensures Between(d, dirty)
  {
  }

  lemma BetweenParts(d: Device, dirty: seq<nat>)
    requires d.Valid() && Between(d, dirty)
    ensures d.s.Settled() && HasRoom(d.ks, |d.mapents|, dirty, HOST_ROOM, LoadAt(d.s.g))
    ensures d.s.deps != [] ==> |d.j.pages| + 1 < LOG_CAP
    ensures HOST_ROOM >= 2 * LAST_PAGE && LoadAt(d.s.g) <= MAX_MAPENTS
  {
    LS.LogMargin();
    ServingRoom(0);
  }

  lemma BetweenFlushed(o: Device, was: seq<nat>, d: Device, dirty: seq<nat>)
    requires o.Valid() && Between(o, was) && FlushedFrom(o, d) && HasRoom(d.ks, |d.mapents|, dirty, HOST_ROOM, LoadAt(o.s.g))
    ensures Between(d, dirty)
  {
    if |o.s.reqs| <= 1 {
      NoDepsYet(o);
    }
  }

  lemma BetweenDrained(o: Device, was: seq<nat>, d: Device, dirty: seq<nat>)
    requires Between(o, was) && Drained(o, d) && HasRoom(d.ks, |d.mapents|, dirty, HOST_ROOM, LoadAt(o.s.g))
    ensures Between(d, dirty)
  {
  }

  lemma RequestParts(r: Request)
    ensures |r.data| > 0 && r.First() == r.lba / SECTORS_PER_PAGE && r.Span() >= 1
    ensures r.Last() == (r.lba + |r.data| - 1) / SECTORS_PER_PAGE && r.Span() == r.Last() - r.First() + 1
    ensures SECTORS_PER_PAGE > 0
  {
  }

  lemma CursorParts(lba: nat, n: nat, lpn: nat, base: nat, remain: nat)
    requires Cursor(lba, n, lpn, base, remain)
    ensures base < SECTORS_PER_PAGE && 0 < remain <= n
  {
  }

  lemma NothingDirty(dirty: seq<nat>)
    requires |dirty| == NUM_BANKS && forall b :: 0 <= b < |dirty| ==> dirty[b] == 0
    ensures Total(dirty) == 0
  {
    TotalConst(dirty, 0);
  }

  lemma HostRooms()
    ensures HOST_ROOM >= 3 * LAST_PAGE && HOST_ROOM >= 2 * LAST_PAGE && MAX_MAPENTS >= 0
  {
    ServingRoom(0);
  }

  /** Where the current content of a page is. */
  lemma CurrentContent(d: Device, lpn: nat)
    requires d.Valid() && d.s.Clock() && |d.s.reqs| == d.s.g
    ensures lpn in d.s.cache ==> Agrees(d.s.cache[lpn].buf, lpn, d.s.reqs, |d.s.reqs|)
    ensures lpn in d.s.pmap ==> d.s.pmap[lpn] in d.flash.data && !d.flash.data[d.s.pmap[lpn]].Summary?
    ensures lpn in d.s.pmap && lpn !in d.s.cache ==> Agrees(d.flash.data[d.s.pmap[lpn]].content, lpn, d.s.reqs, |d.s.reqs|)
    ensures lpn in d.s.pmap || lpn in d.s.cache <==> TouchedBefore(d.s.reqs, |d.s.reqs|, lpn)
  {
    assert d.s.Now(lpn) == d.s.g;
    if lpn in d.s.cache {
      assert EntryOK(d.s, lpn);
      EverTouched(d.s, lpn);
    }
    if lpn in d.s.pmap {
      assert MappedPage(d.s, lpn);
      EverTouched(d.s, lpn);
    }
    if TouchedBefore(d.s.reqs, |d.s.reqs|, lpn) {
      EverTouched(d.s, lpn);
    }
  }

  lemma EverTouched(s: State, lpn: nat)
    requires s.Clock() && |s.reqs| == s.g
    ensures EverEnqueued(s, lpn) <==> TouchedBefore(s.reqs, |s.reqs|, lpn)
  {
    if EverEnqueued(s, lpn) {
      var e: nat :| s.Enqueued(e, lpn);
      assert s.reqs[e].Touches(lpn);
    }
    if TouchedBefore(s.reqs, |s.reqs|, lpn) {
      var e :| 0 <= e < |s.reqs| && s.reqs[e].Touches(lpn);
      assert s.Enqueued(e, lpn);
    }
  }

  /** data holds what the requests wrote to the sectors from lba on. */
  ghost predicate ReadsBack(data: seq<nat>, reqs: seq<Request>, lba: nat) {
    forall i :: 0 <= i < |data| ==> SectorReads(data[i], reqs, lba + i)
  }

  /** x is what the last request to cover the sector wrote there. Pages that no request touched read as all
      ones; of the other sectors that none wrote, nothing is promised. */
  ghost predicate SectorReads(x: nat, reqs: seq<Request>, sector: nat) {
    && (Lookup(reqs, |reqs|, sector).Some? ==> x == Lookup(reqs, |reqs|, sector).value)
    && (!TouchedBefore(reqs, |reqs|, sector / SECTORS_PER_PAGE) ==> x == 0xFFFF_FFFF)
  }

  lemma PageReads(content: seq<nat>, reqs: seq<Request>, lpn: nat, base: nat, cnt: nat)
    requires Agrees(content, lpn, reqs, |reqs|) && TouchedBefore(reqs, |reqs|, lpn) && base + cnt <= SECTORS_PER_PAGE
    ensures |content| == SECTORS_PER_PAGE && ReadsBack(content[base..base + cnt], reqs, SectorOf(lpn, base))
  {
    var part := content[base..base + cnt];
    forall i | 0 <= i < cnt ensures SectorReads(part[i], reqs, SectorOf(lpn, base) + i) {
      SectorDiv(lpn, base + i);
      assert SectorOf(lpn, base + i) == SectorOf(lpn, base) + i;
    }
  }

  lemma BlankReads(data: seq<nat>, reqs: seq<Request>, lpn: nat, base: nat)
    requires base + |data| <= SECTORS_PER_PAGE && !TouchedBefore(reqs, |reqs|, lpn)
    requires forall i :: 0 <= i < |data| ==> data[i] == 0xFFFF_FFFF
    ensures ReadsBack(data, reqs, SectorOf(lpn, base))
  {
    forall i | 0 <= i < |data| ensures SectorReads(data[i], reqs, SectorOf(lpn, base) + i) {
      SectorDiv(lpn, base + i);
      if Lookup(reqs, |reqs|, SectorOf(lpn, base + i)).Some? {
        WrittenTouches(reqs, |reqs|, lpn, base + i);
      }
    }
  }

  lemma WrittenTouches(reqs: seq<Request>, n: nat, lpn: nat, s: nat)
    requires n <= |reqs| && s < SECTORS_PER_PAGE && Lookup(reqs, n, SectorOf(lpn, s)).Some?
    ensures TouchedBefore(reqs, n, lpn)
  {
    if forall e :: 0 <= e < n ==> !reqs[e].Touches(lpn) {
      NeverWritten(reqs, n, lpn, s);
    }
  }

  lemma ReadsMore(data: seq<nat>, part: seq<nat>, reqs: seq<Request>, lba: nat)
    requires ReadsBack(data, reqs, lba) && ReadsBack(part, reqs, lba + |data|)
    ensures ReadsBack(data + part, reqs, lba)
  {
    forall i | 0 <= i < |data + part| ensures SectorReads((data + part)[i], reqs, lba + i) {
      if i >= |data| {
        assert SectorReads(part[i - |data|], reqs, lba + |data| + (i - |data|));
      }
    }
  }

  lemma ReadsNothing(reqs: seq<Request>, lba: nat)
    ensures ReadsBack([], reqs, lba)
  {
  }

  lemma CursorSector(lba: nat, n: nat, lpn: nat, base: nat, remain: nat)
    requires Cursor(lba, n, lpn, base, remain)
    ensures SectorOf(lpn, base) == lba + (n - remain)
  {
  }

  lemma BetweenClock(d: Device, dirty: seq<nat>)
    requires Between(d, dirty)
    ensures d.s.Clock() && |d.s.reqs| == d.s.g
  {
  }

  lemma SectorsPositive()
    ensures SECTORS_PER_PAGE > 0
  {
  }

  lemma RingsParts(blocks: seq<seq<nat>>)
    requires Rings(blocks)
    ensures |blocks| == NUM_BANKS
    ensures forall b :: 0 <= b < NUM_BANKS ==> |blocks[b]| > GC_THRESHOLD && R.Distinct(blocks[b])
    ensures forall b, i :: 0 <= b < NUM_BANKS && 0 <= i < |blocks[b]| ==> blocks[b][i] > 0
  {
    assert forall b :: 0 <= b < NUM_BANKS ==> RingOK(blocks[b]);
  }

  lemma FormattedParts(blocks: seq<seq<nat>>, active: seq<Pos>) returns (e: Device)
    requires Rings(blocks) && |active| == NUM_BANKS
    requires forall b :: 0 <= b < NUM_BANKS ==> |blocks[b]| > 0 && active[b] == Pos(blocks[b][0], 0)
    ensures |blocks| == NUM_BANKS && forall b :: 0 <= b < |blocks| ==> |blocks[b]| > 0
    ensures e == Formatted(blocks) && e.Valid() && CrashSafe(Crash(e.flash, e.s, e.j)) && Sized(e.ks, 0, -1)
    ensures e == Device(Flash(map[], map[][LogAddr(0) := Tag(Before(0), active)], [EMPTY_SLOT, EMPTY_SLOT]), e.ks, e.s, e.j, [], 1)
    ensures e.s.g == 0 && e.s.pmap == map[] && e.s.deps == [] && e.s.v.commit == -1 && e.s.cache == map[] && e.s.reqs == []
    ensures |e.j.pages| == 1 && RoundRobin(0) == 0 && AlignedWith(active, e.ks) && LOG_CAP > 1
    ensures LogReady(map[], LogAddr(0))
  {
    FormattedValid(blocks);
    LogCapPositive();
    e := Formatted(blocks);
    assert active == ActivePages(e.ks);
  }

  lemma BetweenAtFirst(blocks: seq<seq<nat>>, d: Device, dirty: seq<nat>)
    requires Rings(blocks) && |blocks| == NUM_BANKS && (forall b :: 0 <= b < |blocks| ==> |blocks[b]| > 0) && d == Formatted(blocks)
    requires |dirty| == NUM_BANKS && forall b :: 0 <= b < NUM_BANKS ==> dirty[b] == 0
    ensures Between(d, dirty)
  {
    hide Device.Valid, HasRoom, RingOK;
    FormattedValid(blocks);
    RingsParts(blocks);
    NothingDirty(dirty);
    ServingRoom(0);
    assert forall b :: 0 <= b < NUM_BANKS ==> |d.ks[b].free| == |blocks[b]| - 1;
    FreeIsRoom(d, dirty, 0);
    MulMonotone(1, (NUM_LOG_BLKS_PER_BANK - 1) * LAST_PAGE + 1, NUM_BANKS);
  }

  lemma NothingCounted()
    ensures Exact(map[], map[]) && NUM_BANKS > 0
  {
    forall b: nat, blk: nat ensures MappedTo(map[], b, blk) == {} {
    }
  }

  lemma FreshMirrors(blocks: seq<seq<nat>>, rings: seq<R.Ring>, rs: seq<R.Ring>, vt: seq<nat>, lpns: seq<seq<nat>>)
    requires |blocks| == |rings| == |rs| == |vt| == |lpns| == NUM_BANKS
    requires forall b :: 0 <= b < NUM_BANKS ==> |blocks[b]| > 0 && rings[b].Valid() && vt[b] == 0 && lpns[b] == NoLpns()
    requires forall b :: 0 <= b < NUM_BANKS ==> rings[b].Used() == [] && rings[b].Free() == blocks[b][1..]
    requires forall b :: 0 <= b < NUM_BANKS ==> rings[b].Chain() == [blocks[b][0]] && R.PushedTo(rings[b], rs[b])
    ensures Mirrors(Formatted(blocks).ks, rs, vt, lpns)
  {
    var ks := Formatted(blocks).ks;
    forall b | 0 <= b < NUM_BANKS ensures Mirror(ks[b], rs[b], vt[b], lpns[b]) {
      assert R.PushedTo(rings[b], rs[b]);
    }
  }
}
