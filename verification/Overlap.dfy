/** Recovery keeps the epochs of the pages in words that other data uses too. What that costs: writes that were
    flushed after a checkpoint, and are lost. */
module Overlap {
  import opened Geometry
  import opened Requests
  import opened Recoverable
  import opened OrderState
  import opened HostSteps
  import opened FlashSteps
  import opened PrefixTheorem
  import opened Media
  import opened Banks
  import opened Room
  import opened FtlState
  import opened DeviceSteps
  import opened LogSteps
  import opened N = Nand
  import opened Wiring
  import opened Effects
  import opened Checkpoints
  import opened Format
  import opened Service
  import opened Dram
  import opened Spill
  import opened Chains
  import opened Sights
  import opened R = Recovery
  import opened Run

  // ---- Steps of the firmware on single pages ----

  ghost predicate Quiescent(d: Device) {
    d.Valid() && d.s.Clock() && |d.s.reqs| == d.s.g && |d.s.reqs| < MAX_REQS && d.s.floor <= d.s.g
  }

  /** A request of one page that is not cached, or is. */
  lemma OnePage(d: Device, r: Request, buf: seq<nat>) returns (e: Device)
    requires Quiescent(d) && r.Span() == 1 && Agrees(buf, r.First(), d.s.reqs + [r], |d.s.reqs| + 1)
    ensures e.Valid() && e == d.(s := e.s) && e.s.Clock() && |e.s.reqs| == e.s.g == d.s.g + 1
    ensures var x := Entry(true, 1, d.s.g, buf);
      e.s == d.s.(reqs := d.s.reqs + [r], g := d.s.g + 1, enq := 0, cache := d.s.cache[r.First() := x], deps := e.s.deps)
    ensures e.s.deps == if d.s.Dirty(r.First())
      then d.s.deps + [Dep(d.s.cache[r.First()].epoch, d.s.g, d.s.cache[r.First()].span)] else d.s.deps
  {
    hide Device.Valid, Agrees;
    var lpn := r.First();
    BeginStep(d, r);
    var b := d.(s := Begin(d.s, r));
    EnqueueStep(b, lpn, buf);
    var c := b.(s := Enqueue(b.s, lpn, buf));
    FinishStep(c);
    e := c.(s := Finish(c.s));
  }

  lemma BeginStep(d: Device, r: Request)
    requires Quiescent(d)
    ensures d.(s := Begin(d.s, r)).Valid()
  {
    BeginInv(d.s, r);
    BeginQuiet(d.s, r);
    QuietValid(d, Begin(d.s, r));
  }

  lemma FinishStep(d: Device)
    requires d.Valid() && d.s.Clock() && d.s.Busy() && d.s.Settled()
    ensures d.(s := Finish(d.s)).Valid()
  {
    FinishInv(d.s);
    FinishQuiet(d.s);
    QuietValid(d, Finish(d.s));
  }

  ghost predicate OnlyDirty(s: State, lpn: nat) {
    forall l: nat :: s.Dirty(l) ==> l == lpn
  }

  /** The only dirty page is written back, and everything received so far is safe. */
  lemma FlushOne(d: Device, lpn: nat) returns (e: Device)
    requires d.Valid() && Sized(d.ks, |d.mapents|, d.s.v.commit) && |d.ks| == NUM_BANKS && d.ks[BankOf(lpn)].fill < LAST_PAGE
    requires d.s.Settled() && d.s.deps == [] && d.s.Dirty(lpn) && OnlyDirty(d.s, lpn)
    ensures e.Valid() && Sized(e.ks, |e.mapents|, e.s.v.commit) && |e.ks| == NUM_BANKS
    ensures e.s.reqs == d.s.reqs && e.s.g == d.s.g && e.s.enq == d.s.enq && e.s.floor == |d.s.reqs| && e.s.deps == []
    ensures e.s.v == d.s.v.(lanes := e.s.v.lanes) && e.j == d.j && (forall l: nat :: !e.s.Dirty(l))
    ensures var b := BankOf(lpn);
      && |d.ks[b].chain| > 0 && d.ks[b].Active() > 0 && e.s.pmap == d.s.pmap[lpn := Loc(b, d.ks[b].Active(), d.ks[b].fill)]
      && e.ks == d.ks[b := e.ks[b]] && e.ks[b].chain == d.ks[b].chain && e.ks[b].fill == d.ks[b].fill + 1
    ensures forall l: nat :: Uncopied(d.s.v, l) ==> Uncopied(e.s.v, l)
  {
    hide Device.Valid, Sized, Inv, Uncopied, LaneAfter;
    ActivePositive(d, BankOf(lpn));
    var c := WriteBackOnly(d, lpn);
    StillUncopied(d.s.v, c.s.v, BankOf(lpn), Item(c.s.pmap[lpn], c.s.data[c.s.pmap[lpn]]));
    assert forall l: nat :: l in c.s.cache && c.s.cache[l].dirty ==> d.s.Dirty(l) && l != lpn;
    e := RaiseFloorOnly(c);
  }

  lemma StillUncopied(v: View, w: View, b: nat, it: Item)
    requires b < |v.lanes| && w.lanes == LaneAfter(v.lanes, b, it) && it.page.Host?
    ensures forall l: nat :: Uncopied(v, l) ==> Uncopied(w, l)
  {
    forall l: nat | Uncopied(v, l) ensures Uncopied(w, l) {
      forall c, i | 0 <= c < |w.lanes| && 0 <= i < |w.lanes[c].items| ensures !CopyOf(w.lanes[c].items[i], l) {
        if c != b || i < |v.lanes[c].items| {
          assert w.lanes[c].items[i] == v.lanes[c].items[i];
        }
      }
    }
  }

  lemma ActivePositive(d: Device, b: nat)
    requires d.Valid() && Sized(d.ks, |d.mapents|, d.s.v.commit) && b < NUM_BANKS
    ensures |d.ks| == NUM_BANKS && |d.ks[b].chain| > 0 && d.ks[b].chain[|d.ks[b].chain| - 1] > 0
  {
    DeviceParts(d, b);
    assert SizedBank(d.ks[b], |d.mapents|, d.s.v.commit);
  }

  /** A device as a checkpoint leaves it, with two pages left in every open block. */
  ghost predicate AfterCheckpoint(d: Device) {
    && d.Valid() && JustCommitted(d.s) && d.s.floor == |d.s.reqs| == d.s.g && d.s.deps == []
    && (forall l: nat :: !d.s.Dirty(l))
    && Sized(d.ks, |d.mapents|, d.s.v.commit) && |d.j.pages| + 1 < LOG_CAP
    && |d.ks| == NUM_BANKS && forall b :: 0 <= b < NUM_BANKS ==> d.ks[b].fill + 2 <= LAST_PAGE
  }

  /** Format, one write, flush, checkpoint. */
  lemma Checkpointed(blocks: seq<seq<nat>>, lpn: nat) returns (d: Device)
    requires Rings(blocks) && lpn < NUM_LPAGES
    ensures AfterCheckpoint(d) && |d.s.reqs| == 1 && |d.j.pages| == 3 && d.s.v.commit == 0
    ensures d.s.v.cmap.Keys == {lpn} && PpnOf(d.s.v.cmap, lpn) > 0 && forall l: nat :: Uncopied(d.s.v, l)
    ensures JustWritten(d.ks, d.s.v.cmap, lpn)
  {
    hide Device.Valid, Sized, Inv, Agrees, CrashSafe, MidCheckpoint, JustCommitted, Committable, Taggable, Formatted;
    hide PushedAll, AlignedWith, PpnOf, Uncopied, LOG_CAP, Write.Span, Write.First, JustWritten;
    var c := FlushedOnce(blocks, lpn);
    StartCheckpoint(c);
    LogRoom();
    var e := LogMapEntsOnly(c, |c.mapents|);
    CommittableIs(e.s);
    TaggableIs(e);
    AlignedActive(e);
    d := TagOnly(e, ActivePages(e.ks), |c.mapents|, false);
    CommittedAll(d, lpn);
    PushedFill(e.ks, d.ks);
    PushedWritten(e.ks, d.ks, d.s.pmap, lpn);
    assert forall l: nat :: d.s.Dirty(l) ==> c.s.Dirty(l);
  }

  /** Page lpn was the last to be programmed in its bank. */
  ghost predicate JustWritten(ks: seq<Bank>, pmap: map<nat, Loc>, lpn: nat) {
    var b := BankOf(lpn);
    && |ks| == NUM_BANKS && |ks[b].chain| > 0 && ks[b].fill == 1
    && lpn in pmap && pmap[lpn] == Loc(b, ks[b].Active(), 0)
  }

  lemma PushedWritten(ks: seq<Bank>, qs: seq<Bank>, pmap: map<nat, Loc>, lpn: nat)
    requires PushedAll(ks, qs) && JustWritten(ks, pmap, lpn)
    ensures JustWritten(qs, pmap, lpn)
  {
    assert PushedOne(ks[BankOf(lpn)], qs[BankOf(lpn)]);
  }

  lemma FlushedOnce(blocks: seq<seq<nat>>, lpn: nat) returns (d: Device)
    requires Rings(blocks) && lpn < NUM_LPAGES
    ensures d.Valid() && Sized(d.ks, |d.mapents|, d.s.v.commit) && d.s.v.commit == -1 && |d.ks| == NUM_BANKS
    ensures d.s.Clock() && |d.s.reqs| == d.s.g == d.s.floor == 1 && d.s.deps == [] && (forall l: nat :: !d.s.Dirty(l)) && |d.j.pages| == 1
    ensures d.s.pmap.Keys == {lpn} && d.s.pmap[lpn].blk > 0 && JustWritten(d.ks, d.s.pmap, lpn)
    ensures forall b :: 0 <= b < NUM_BANKS ==> d.ks[b].fill <= 1
  {
    hide Device.Valid, Sized, Inv, Agrees, CrashSafe;
    FormattedValid(blocks);
    var o := Formatted(blocks);
    FewRequests();
    var r, buf := WriteTo(lpn, []);
    var c := OnePage(o, r, buf);
    OnlyNew(o.s, c.s, lpn);
    d := FlushOne(c, lpn);
    StillClock(d);
  }

  lemma LogRoom()
    ensures LOG_CAP > 4
  {
    LogCapPositive();
    Arith.MulMonotone(8, NUM_BANKS, LAST_PAGE);
  }

  lemma CommittableIs(s: State)
    requires s.Clock() && |s.reqs| == s.g == s.floor > 0 && s.deps == [] && (forall l: nat :: !s.Dirty(l))
    ensures Committable(s)
  {
  }

  lemma AlignedActive(d: Device)
    requires MidCheckpoint(d)
    ensures HaveChains(d.ks) && AlignedWith(ActivePages(d.ks), d.ks)
  {
    hide Inv;
    DataOKChains(d);
  }

  lemma CommittedAll(d: Device, lpn: nat)
    requires JustCommitted(d.s) && d.s.pmap.Keys == {lpn} && d.s.pmap[lpn].blk > 0
    ensures d.s.v.cmap == d.s.pmap && PpnOf(d.s.v.cmap, lpn) > 0 && forall l: nat :: Uncopied(d.s.v, l)
  {
    assert lpn in d.s.pmap.Keys;
    Arith.MulMonotone(1, d.s.pmap[lpn].blk, PAGES_PER_VBLK);
  }

  lemma PushedFill(ks: seq<Bank>, qs: seq<Bank>)
    requires PushedAll(ks, qs)
    ensures |ks| == |qs| == NUM_BANKS && forall b :: 0 <= b < NUM_BANKS ==> qs[b].fill == ks[b].fill
  {
    forall b | 0 <= b < NUM_BANKS ensures qs[b].fill == ks[b].fill {
      assert PushedOne(ks[b], qs[b]);
    }
  }

  /** After a checkpoint, one page is written for the first time and flushed. */
  lemma FirstWrite(d: Device, r: Request, buf: seq<nat>) returns (e: Device)
    requires AfterCheckpoint(d) && |d.s.reqs| < MAX_REQS
    requires r.Span() == 1 && Agrees(buf, r.First(), d.s.reqs + [r], |d.s.reqs| + 1)
    ensures e.Valid() && CrashSafe(Crash(e.flash, e.s, e.j)) && Sized(e.ks, |e.mapents|, e.s.v.commit) && |e.ks| == NUM_BANKS
    ensures e.s.reqs == d.s.reqs + [r] && e.s.floor == |e.s.reqs| == e.s.g && e.s.Clock() && e.s.deps == []
    ensures e.s.v == d.s.v.(lanes := e.s.v.lanes) && e.j == d.j && (forall l: nat :: !e.s.Dirty(l))
    ensures forall b :: 0 <= b < NUM_BANKS ==> e.ks[b].fill < LAST_PAGE
  {
    hide Device.Valid, Sized, Inv, Agrees, CrashSafe;
    var c := OnePage(d, r, buf);
    OnlyNew(d.s, c.s, r.First());
    e := FlushOne(c, r.First());
    ValidIsSafe(e);
    StillClock(e);
  }

  lemma OnlyNew(s: State, t: State, lpn: nat)
    requires (forall l: nat :: !s.Dirty(l)) && lpn in t.cache && t.cache == s.cache[lpn := t.cache[lpn]]
    ensures OnlyDirty(t, lpn)
  {
    assert forall l: nat :: t.Dirty(l) && l != lpn ==> s.Dirty(l);
  }

  lemma StillClock(d: Device)
    requires d.Valid()
    ensures d.s.Clock()
  {
  }

  /** Then another page is written twice, so that the first version is replaced in the cache, and flushed. */
  lemma MergedWrites(d: Device, r2: Request, r3: Request, buf2: seq<nat>, buf3: seq<nat>) returns (e: Device)
    requires Quiescent(d) && |d.s.reqs| + 1 < MAX_REQS && d.s.deps == [] && (forall l: nat :: !d.s.Dirty(l)) && |d.j.pages| + 1 < LOG_CAP
    requires Sized(d.ks, |d.mapents|, d.s.v.commit) && |d.ks| == NUM_BANKS && d.ks[BankOf(r2.First())].fill < LAST_PAGE
    requires r2.Span() == r3.Span() == 1 && r2.First() == r3.First()
    requires Agrees(buf2, r2.First(), d.s.reqs + [r2], |d.s.reqs| + 1)
    requires Agrees(buf3, r2.First(), d.s.reqs + [r2] + [r3], |d.s.reqs| + 2)
    ensures CrashSafe(Crash(e.flash, e.s, e.j))
    ensures e.s.reqs == d.s.reqs + [r2] + [r3] && e.s.floor == |e.s.reqs| && e.j.pages != []
    ensures e.s.v.commit == d.s.v.commit && e.s.v.cmap == d.s.v.cmap
    ensures var n := |d.s.reqs|; e.s.v.deps == d.s.v.deps + [Dep(n, n + 1, 1)]
  {
    hide Device.Valid, Sized, Inv, Agrees, CrashSafe, Write.Span, Write.First, LOG_CAP;
    var lpn := r2.First();
    var c2 := OnePage(d, r2, buf2);
    OnlyNew(d.s, c2.s, lpn);
    var c3 := OnePage(c2, r3, buf3);
    assert c3.s.deps == [Dep(d.s.g, d.s.g + 1, 1)];
    var c4 := LogDepsOnly(c3);
    assert c4.s.cache == c3.s.cache == d.s.cache[lpn := c3.s.cache[lpn]];
    OnlyNew(d.s, c4.s, lpn);
    e := FlushOne(c4, lpn);
    ValidIsSafe(e);
  }

  /** All of it: a checkpoint, a first write of one page, a flush, two writes of another page, a flush. */
  lemma ThreeWrites(d: Device, r: Request, r2: Request, r3: Request, buf: seq<nat>, buf2: seq<nat>,
        buf3: seq<nat>) returns (e: Device)
    requires AfterCheckpoint(d) && |d.s.reqs| + 2 < MAX_REQS
    requires r.Span() == r2.Span() == r3.Span() == 1 && r2.First() == r3.First()
    requires Agrees(buf, r.First(), d.s.reqs + [r], |d.s.reqs| + 1)
    requires Agrees(buf2, r2.First(), d.s.reqs + [r] + [r2], |d.s.reqs| + 2)
    requires Agrees(buf3, r2.First(), d.s.reqs + [r] + [r2] + [r3], |d.s.reqs| + 3)
    ensures CrashSafe(Crash(e.flash, e.s, e.j))
    ensures e.s.reqs == d.s.reqs + [r] + [r2] + [r3] && e.s.floor == |e.s.reqs| && e.j.pages != []
    ensures e.s.v.commit == d.s.v.commit && e.s.v.cmap == d.s.v.cmap
    ensures var n := |d.s.reqs|; e.s.v.deps == [Dep(n + 1, n + 2, 1)]
  {
    hide Device.Valid, Sized, Inv, Agrees, CrashSafe, Write.Span, Write.First, LOG_CAP;
    var c := FirstWrite(d, r, buf);
    e := MergedWrites(c, r2, r3, buf2, buf3);
  }

  // ---- What recovery makes of it ----

  /** Everything received was flushed after a checkpoint, and the tables fit: what recovery finds should be
      all of it. */
  ghost predicate AllFlushed(c: Crash) {
    && CrashSafe(c) && |c.s.reqs| <= MAX_REQS && CountersFit(c) && ListFits(c)
    && c.j.pages != [] && c.s.v.commit >= 0 && c.s.floor == |c.s.reqs|
  }

  /** Request e is the only one that touched the page. */
  ghost predicate OnlyWriter(c: Crash, e: nat, lpn: nat) {
    && c.s.v.commit < e < |c.s.reqs| && c.s.reqs[e].Touches(lpn) && lpn !in c.s.v.cmap
    && forall k: nat :: c.s.v.commit < k < |c.s.reqs| && c.s.reqs[k].Touches(lpn) ==> k == e
  }

  /** The page whose epoch lies over the first entry of the dependency list is lost, if that names a request
      as new as the one that wrote it. */
  method OverlapLoses(flash: Flash, shown: (Source, nat) -> nat, ghost c: Crash, ghost e: nat) returns (pmap: map<nat,
        Loc>, epoch: nat)
    requires AllFlushed(c) && c.flash == flash && SanityCheck()
    requires OnlyWriter(c, e, RECOVERY_AT)
    requires c.s.v.deps != [] && forall i :: 0 <= i < |c.s.v.deps| ==> e <= c.s.v.deps[i].src
    ensures epoch == |c.s.reqs| && RECOVERY_AT !in pmap && !PageRight(flash.data, pmap, RECOVERY_AT, c.s.reqs, epoch)
  {
    hide CrashSafe, Inv, Image, LeftBehind, Remapped, Reached, Unmoved, OnlyWriter, MappedAs, LanesRead, Recovery.SeenAt;
    ghost var spans := SpansOf(c);
    CrashParts(c);
    TablesInOrder();
    FtlBufInside(0);
    var rec := new Recovery(flash, shown);
    ghost var stale, list := rec.Recover(c.s.v, c.j, spans);
    pmap, epoch := rec.pmap, rec.epochIncomplete;
    AllRecovered(c, spans, epoch);
    FirstOfList(c, stale, spans, list, e);
    NeverCommitted(c, stale, spans, list, e, RECOVERY_AT);
    NotThere(flash.data, pmap, stale.pmap, c, e, RECOVERY_AT, epoch);
  }

  /** The page whose epoch is the first word of FTL_BUF is lost, if it holds ones: they are read over its
      epoch, and so are those of erased pages. */
  method BufferLoses(flash: Flash, shown: (Source, nat) -> nat, ghost c: Crash, ghost e: nat) returns (pmap: map<nat,
        Loc>, epoch: nat)
    requires AllFlushed(c) && c.flash == flash && SanityCheck()
    requires OnlyWriter(c, e, FTL_BUF_AT)
    requires forall loc: Loc :: loc !in flash.data || IsPageOf(flash.data[loc], FTL_BUF_AT) ==> shown(OfData(loc), 0) == U32 - 1
    ensures epoch == |c.s.reqs| && FTL_BUF_AT !in pmap && !PageRight(flash.data, pmap, FTL_BUF_AT, c.s.reqs, epoch)
  {
    hide CrashSafe, Inv, Image, LeftBehind, Remapped, Reached, OnlyWriter, LanesRead;
    ghost var spans := SpansOf(c);
    CrashParts(c);
    TablesInOrder();
    var rec := new Recovery(flash, shown);
    ghost var stale, list := rec.Recover(c.s.v, c.j, spans);
    pmap, epoch := rec.pmap, rec.epochIncomplete;
    AllRecovered(c, spans, epoch);
    NeverCommitted(c, stale, spans, list, e, FTL_BUF_AT);
    rec.ImageLanes(c.s.v, c.j);
    FirstWordPlace();
    OnesOver(flash.data, shown, c.s.v, spans, rec.FoundWord(c.s.v, c.j, FTL_BUF_AT), epoch);
    NotThere(flash.data, pmap, stale.pmap, c, e, FTL_BUF_AT, epoch);
  }

  /** No version is newer than ones. */
  lemma OnesOver(data: map<Loc, DataPage>, shown: (Source, nat) -> nat, v: View, spans: seq<nat>, x: nat, cut: nat)
    requires v.WellFormed() && SpansAre(v, spans) && LanesRead(data, v.lanes)
    requires forall loc: Loc :: loc !in data || IsPageOf(data[loc], FTL_BUF_AT) ==> shown(OfData(loc), 0) == U32 - 1
    ensures AfterAll(shown, Sight(x, None), Events(data, v.lanes, NUM_BANKS), FTL_BUF_AT, cut).at == None
  {
    hide FtlBuf, OwnerOf, OffsetOf, BankOf, Events;
    var a, items := FTL_BUF_AT, v.Items(FTL_BUF_AT);
    var b := BankOf(a);
    FirstWordPlace();
    assert LaneReads(data, 0, v.lanes[0]) && LaneReads(data, b, v.lanes[b]);
    forall i | 0 <= i < |items| && HostBelow(items[i], a, cut)
      ensures items[i].page.epoch < U32 - 1 && !OutShown(shown, items[i], a, cut)
    {
      assert ItemSpanIs(v.lanes[b].items[i], spans);
      WalksLocs(data, b, v.lanes[b].blks, v.lanes[b].start, items, i);
    }
    if b == 0 {
      OwnBuffer(shown, data, v, x, a, cut);
    } else {
      var t := OtherBuffer(shown, data, v, x, a, cut);
      LaneEnd(data, 0, v.lanes[0].blks, v.lanes[0].start, v.lanes[0].items);
    }
  }

  lemma FirstWordPlace()
    ensures InFtlBuf(FTL_BUF_AT) && OwnerOf(FTL_BUF_AT) == OffsetOf(FTL_BUF_AT) == 0 < SUMMARY_WORDS
  {
    FtlBufInside(0);
    BufferPlace(0, FTL_BUF_AT);
  }

  lemma AllRecovered(c: Crash, spans: seq<nat>, epoch: nat)
    requires AllFlushed(c) && SpansAre(c.s.v, spans) && |spans| == |c.s.reqs| && CutTaken(c.s.v, epoch)
    ensures epoch == |c.s.reqs|
  {
    hide CrashSafe, SpansAre, CutTaken;
    EpochRightIf(c);
    FlushedIff(c, epoch);
    CutReceived(c, spans, epoch);
  }

  /** The first word of the list is at least as new as every version of the page. */
  lemma FirstOfList(c: Crash, stale: Mapping, spans: seq<nat>, list: seq<Dep>, e: nat)
    requires CrashSafe(c) && |c.s.v.lanes| == NUM_BANKS && LeftBehind(stale, c.s.v, spans, list) && OnlyWriter(c, e, RECOVERY_AT)
    requires c.s.v.deps != [] && forall i :: 0 <= i < |c.s.v.deps| ==> e <= c.s.v.deps[i].src
    ensures R.NoneFresh(c.s.v, stale, RECOVERY_AT)
  {
    hide Image;
    assert |multiset(list)| == |multiset(c.s.v.deps)|;
    assert list[0] in multiset(list) && list[0] in c.s.v.deps;
    assert EntryAt(0) == RECOVERY_AT;
    var items := c.s.v.Items(RECOVERY_AT);
    forall i | 0 <= i < |items| ensures !Fresh(items[i], RECOVERY_AT, stale.cut, stale) {
      assert ItemGood(c.s, items[i]);
      assert c.s.v.ItemOK(BankOf(RECOVERY_AT), items[i]);
    }
  }

  /** A page that was not mapped at the commit is not mapped when recovery begins to map pages. */
  lemma NeverCommitted(c: Crash, stale: Mapping, spans: seq<nat>, list: seq<Dep>, e: nat, lpn: nat)
    requires CrashSafe(c) && |c.s.v.lanes| == NUM_BANKS && LeftBehind(stale, c.s.v, spans, list) && ListFits(c) && OnlyWriter(c, e, lpn)
    requires CountersFit(c)
    ensures lpn !in stale.pmap
  {
    hide Image, Collected, Uncounted, LeftBehind;
    ListFitting(c.s.v, stale, spans, list);
    FittingUncounted(c, lpn);
    ImageFormed(c);
    UncountedMapped(c.s.v, lpn);
    var items := c.s.v.Items(lpn);
    forall i | 0 <= i < |items| ensures !CopyOf(items[i], lpn) {
      assert ItemGood(c.s, items[i]);
    }
  }

  lemma NotThere(data: map<Loc, DataPage>, pmap: map<nat, Loc>, was: map<nat, Loc>, c: Crash, e: nat, lpn: nat, epoch: nat)
    requires lpn !in was && Unmoved(pmap, was, lpn) && OnlyWriter(c, e, lpn) && epoch == |c.s.reqs|
    ensures lpn !in pmap && !PageRight(data, pmap, lpn, c.s.reqs, epoch)
  {
  }

  // ---- Such devices exist ----

  /** A request for one sector of the page, and the page as it is after it. */
  lemma WriteTo(lpn: nat, reqs: seq<Request>) returns (r: Request, buf: seq<nat>)
    requires lpn < NUM_LPAGES
    ensures r.Span() == 1 && r.First() == lpn && (forall l: nat :: r.Touches(l) <==> l == lpn)
    ensures Agrees(buf, lpn, reqs + [r], |reqs| + 1)
  {
    SectorDiv(lpn, 0);
    r := Write(SectorOf(lpn, 0), [0]);
    var more := reqs + [r];
    buf := seq<nat>(SECTORS_PER_PAGE, (s: nat) requires s < SECTORS_PER_PAGE =>
      var want := Lookup(more, |more|, SectorOf(lpn, s)); if want.Some? then want.value else 0);
  }

  /** If the epochs of the pages reach the table, there is a write that recovery loses although it was flushed:
      format, write page 0, flush, checkpoint; write the page at RECOVERY_ADDR, flush; write page 0 twice, flush. */
  lemma OverlapInput(blocks: seq<seq<nat>>) returns (c: Crash, e: nat)
    requires Rings(blocks) && RECOVERY_AT < NUM_LPAGES && 3 < RECOVERY_ENTRIES
    ensures AllFlushed(c) && OnlyWriter(c, e, RECOVERY_AT) && |c.s.reqs| == 4
    ensures c.s.v.deps != [] && forall i :: 0 <= i < |c.s.v.deps| ==> e <= c.s.v.deps[i].src
  {
    hide Device.Valid, Sized, Inv, Agrees, CrashSafe, Write.Span, Write.First;
    FtlBufInside(0);
    var d := Checkpointed(blocks, 0);
    e := |d.s.reqs|;
    var r, buf := WriteTo(RECOVERY_AT, d.s.reqs);
    var r2, buf2 := WriteTo(0, d.s.reqs + [r]);
    var r3, buf3 := WriteTo(0, d.s.reqs + [r] + [r2]);
    var x := ThreeWrites(d, r, r2, r3, buf, buf2, buf3);
    c := Crash(x.flash, x.s, x.j);
  }

  /** If they reach FTL_BUF, there is one that recovery loses for some data of the host: format, write another page,
      flush, checkpoint; write the page at FTL_BUF, flush. */
  lemma BufferInput(blocks: seq<seq<nat>>) returns (c: Crash, e: nat)
    requires Rings(blocks) && FTL_BUF_AT < NUM_LPAGES && 1 < NUM_LPAGES
    ensures AllFlushed(c) && OnlyWriter(c, e, FTL_BUF_AT) && |c.s.reqs| == 2
  {
    hide Device.Valid, Sized, Inv, Agrees, CrashSafe, Write.Span, Write.First;
    var d := Checkpointed(blocks, if FTL_BUF_AT == 0 then 1 else 0);
    e := |d.s.reqs|;
    var r, buf := WriteTo(FTL_BUF_AT, d.s.reqs);
    var x := FirstWrite(d, r, buf);
    SomeLog(d);
    c := Crash(x.flash, x.s, x.j);
  }

  /** No epoch shares its word, in any crash, if and only if the epochs of all pages end before FTL_BUF. */
  lemma ClearIff(blocks: seq<seq<nat>>)
    requires Rings(blocks)
    ensures (forall c :: CrashSafe(c) ==> EpochsClear(c)) <==> NUM_LPAGES <= FTL_BUF_AT
  {
    hide Device.Valid, Sized, Inv, Agrees, CrashSafe, Write.Span, Write.First;
    if NUM_LPAGES <= FTL_BUF_AT {
      forall c | CrashSafe(c) ensures EpochsClear(c) {
        SmallDiskClear(c);
      }
    } else {
      FtlBufInside(0);
      var d := Checkpointed(blocks, FTL_BUF_AT);
      var r, buf := WriteTo(FTL_BUF_AT, d.s.reqs);
      var x := FirstWrite(d, r, buf);
      var c := Crash(x.flash, x.s, x.j);
      assert c.s.reqs[|d.s.reqs|].Touches(FTL_BUF_AT);
      assert !EpochClear(c, FTL_BUF_AT);
    }
  }

  lemma SomeLog(d: Device)
    requires d.Valid()
    ensures d.j.pages != []
  {
  }
}
