/** The flag that the timer sets is lost when dependencies fill a log page: the writes that show it. */
module Tick {
  import opened Geometry
  import opened Requests
  import opened Recoverable
  import opened Media
  import opened Banks
  import opened Sums
  import opened FtlState
  import opened DeviceSteps
  import opened Format
  import opened Collection
  import opened Service
  import LS = LogSpace
  import W = WriteCache
  import F = Ftl
  import Arith

  ghost predicate AllFree(ks: seq<Bank>) {
    |ks| == NUM_BANKS && forall b :: 0 <= b < NUM_BANKS ==> |ks[b].free| >= GC_THRESHOLD && ks[b].vt == 0
  }

  /** n writes of one page on a formatted device: they merge in the cache. */
  ghost predicate Repeated(o: Device, d: Device, dirty: seq<nat>, lpn: nat, n: nat) {
    && d.ks == o.ks && d.mapents == [] && |d.j.pages| == 1 && |d.s.reqs| == n && d.s.floor == 0
    && |d.s.deps| == (if n == 0 then 0 else n - 1) && (d.s.Dirty(lpn) <==> n > 0)
    && |dirty| == NUM_BANKS && forall b :: 0 <= b < NUM_BANKS ==> dirty[b] == if n > 0 && b == BankOf(lpn) then 1 else 0
  }

  lemma RepeatedNone(blocks: seq<seq<nat>>, d: Device, dirty: seq<nat>, lpn: nat)
    requires Rings(blocks) && (forall b :: 0 <= b < |blocks| ==> |blocks[b]| > 0) && d == Formatted(blocks)
    requires |dirty| == NUM_BANKS && forall b :: 0 <= b < NUM_BANKS ==> dirty[b] == 0
    ensures Repeated(d, d, dirty, lpn, 0) && AllFree(d.ks)
  {
    forall b | 0 <= b < NUM_BANKS ensures |d.ks[b].free| >= GC_THRESHOLD && d.ks[b].vt == 0 {
      assert RingOK(blocks[b]);
    }
  }

  lemma NoneShort(ks: seq<Bank>)
    requires AllFree(ks)
    ensures !BatchShort(ks)
  {
    TotalConst(Shorts(ks), 0);
  }

  /** The pool has nothing to do before the next of these writes, and the cache has room for it. */
  lemma RepeatedReady(o: Device, d: Device, dirty: seq<nat>, lpn: nat, n: nat)
    requires AllFree(o.ks) && Repeated(o, d, dirty, lpn, n) && W.NC >= 2
    ensures Ready(d, dirty, lpn) && |d.s.reqs| == n
  {
  }

  /** The next of these writes fills a log page exactly if there are enough of them. Nothing else is due. */
  lemma RepeatedLoop(o: Device, d: Device, dirty: seq<nat>, r: Request, n: nat, e: Device)
    requires AllFree(o.ks) && Repeated(o, d, dirty, r.First(), n) && n <= NUM_DEPENTS_PER_PAGE
    requires PutIn(d, r.First(), e)
    ensures !BatchShort(e.ks) && !ChkptDue(e)
    ensures e.j.pages == d.j.pages <==> n < NUM_DEPENTS_PER_PAGE
  {
    NoneShort(e.ks);
    LastPage();
    Arith.MulMonotone(127, LAST_PAGE, NUM_BANKS);
    LS.FirstBlocksLeft(|e.j.pages|);
  }

  lemma RepeatedNext(o: Device, d: Device, was: seq<nat>, r: Request, n: nat, e: Device, f: Device, dirty: seq<nat>)
    requires Repeated(o, d, was, r.First(), n) && n < NUM_DEPENTS_PER_PAGE
    requires PutIn(d, r.First(), e) && LoopEnd(d, r, e) && Finishing(false, e, f) && !Flushes(false, e)
    requires OneMoreDirty(d, was, r.First(), dirty)
    ensures Repeated(o, f, dirty, r.First(), n + 1)
  {
    hide Device.Valid, Flushes;
    assert f.s.Dirty(r.First()) <==> e.s.Dirty(r.First());
  }

  lemma NothingFlushed(d: Device, r: Request, e: Device, f: Device)
    requires LoopEnd(d, r, e) && Finishing(false, e, f) && !Flushes(false, e)
    ensures f.s.floor == d.s.floor && f.s.reqs == d.s.reqs + [r]
  {
    hide Device.Valid, Flushes;
  }

  lemma NotDue(e: Device)
    requires !BatchShort(e.ks) && !ChkptDue(e)
    ensures !Flushes(false, e)
  {
  }

  lemma RepeatedParts(o: Device, d: Device, dirty: seq<nat>, lpn: nat, n: nat)
    requires Repeated(o, d, dirty, lpn, n)
    ensures |d.s.reqs| == n && d.s.floor == 0
  {
  }

  lemma ManyRequests()
    ensures NUM_DEPENTS_PER_PAGE < MAX_REQS
  {
  }

  method RepeatOnce(ftl: F.Ftl, r: Request, ghost o: Device, ghost n: nat)
    requires ftl.Valid() && Between(ftl.d, ftl.cache.nDirty) && !ftl.requireFlushDepent && W.NC >= 2
    requires AllFree(o.ks) && Repeated(o, ftl.d, ftl.cache.nDirty, r.First(), n) && n < NUM_DEPENTS_PER_PAGE && r.Span() == 1
    modifies ftl, ftl.nand, ftl.blk, ftl.cache, ftl.space
    ensures ftl.Valid() && Between(ftl.d, ftl.cache.nDirty) && !ftl.requireFlushDepent
    ensures Repeated(o, ftl.d, ftl.cache.nDirty, r.First(), n + 1)
  {
    hide *;
    RepeatedReady(o, ftl.d, ftl.cache.nDirty, r.First(), n);
    ManyRequests();
    ghost var d, was := ftl.d, ftl.cache.nDirty;
    var ok;
    ghost var e;
    ok, e := ftl.Write(r);
    RepeatedLoop(o, d, was, r, n, e);
    NotDue(e);
    RepeatedNext(o, d, was, r, n, e, ftl.d, ftl.cache.nDirty);
  }

  /** Not every write after a tick makes everything safe: format, one page written NUM_DEPENTS_PER_PAGE times, a tick,
      and the page once more. Its dependency fills a log page, record_depent clears the flag, and nothing is flushed. */
  method TickLost(blocks: seq<seq<nat>>, blank: seq<nat>, r: Request) returns (ftl: F.Ftl)
    requires Rings(blocks) && |blank| == SECTORS_PER_PAGE && r.Span() == 1 && W.NC >= 2
    ensures |ftl.d.s.reqs| == NUM_DEPENTS_PER_PAGE + 1 && ftl.d.s.floor == 0 && !ftl.requireFlushDepent
  {
    hide *;
    ftl := new F.Ftl(blocks, blank);
    ghost var o := ftl.d;
    RepeatedNone(blocks, o, ftl.cache.nDirty, r.First());
    ManyRequests();
    var n := 0;
    while n < NUM_DEPENTS_PER_PAGE
      invariant 0 <= n <= NUM_DEPENTS_PER_PAGE && fresh(ftl) && fresh(ftl.nand) && fresh(ftl.blk) && fresh(ftl.cache) && fresh(ftl.space)
      invariant ftl.Valid() && Between(ftl.d, ftl.cache.nDirty) && !ftl.requireFlushDepent
      invariant Repeated(o, ftl.d, ftl.cache.nDirty, r.First(), n)
    {
      RepeatOnce(ftl, r, o, n);
      n := n + 1;
    }
    ftl.ScheduleFlushDepent();
    RepeatedReady(o, ftl.d, ftl.cache.nDirty, r.First(), n);
    RepeatedParts(o, ftl.d, ftl.cache.nDirty, r.First(), n);
    ghost var d, was := ftl.d, ftl.cache.nDirty;
    var ok;
    ghost var e;
    ok, e := ftl.Write(r);
    RepeatedLoop(o, d, was, r, n, e);
    NotDue(e);
    NothingFlushed(d, r, e, ftl.d);
  }
}
