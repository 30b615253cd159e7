/** What opening a block, writing a page back, erasing a block, logging dependencies and a flush make of the
    device, field by field. */
module Effects {
  import opened Geometry
  import opened Requests
  import opened Recoverable
  import opened OrderState
  import opened Transfer
  import opened HostSteps
  import opened FlashSteps
  import opened Media
  import opened Journals
  import opened Banks
  import opened Room
  import opened FtlState
  import opened DeviceSteps
  import opened LogSteps
  import opened ValidCounts
  import opened Wiring
  import opened WriteCache
  import opened N = Nand

  /** At most a summary page was programmed in bank b, and that left its next page free. */
  ghost predicate NextPageFree(o: Device, d: Device, b: nat) {
    && |d.ks| == |o.ks| == NUM_BANKS && b < NUM_BANKS
    && d.ks == o.ks[b := d.ks[b]]
    && d.ks[b].used == o.ks[b].used && d.ks[b].vt == o.ks[b].vt && Writable(d.ks[b]) == Writable(o.ks[b])
    && d.ks[b].fill < LAST_PAGE && |d.ks[b].chain| > 0
    && d.mapents == o.mapents && d.slot == o.slot && d.j == o.j
    && SameButLinks(o.s, d.s)
  }

  ghost predicate SameButLinks(s: State, t: State) {
    t == s.(data := t.data, v := s.v.(lanes := t.v.lanes)) && SameItems(s, t)
    && forall l :: l in s.data ==> l in t.data && t.data[l] == s.data[l]
  }

  lemma LinkReady(d: Device, b: nat)
    requires d.Valid() && b < NUM_BANKS == |d.ks| && d.ks[b].fill == LAST_PAGE && Writable(d.ks[b]) >= 2 * LAST_PAGE
    ensures |d.ks[b].free| >= 2 && |d.ks[b].chain| > 0 && |d.s.v.lanes| == NUM_BANKS && d.s.data == d.flash.data
    ensures Loc(b, d.ks[b].chain[|d.ks[b].chain| - 1], LAST_PAGE) !in d.flash.data
    ensures Loc(b, d.ks[b].chain[|d.ks[b].chain| - 1], LAST_PAGE - 1) in d.flash.data
  {
    RoomToLink(d.ks[b]);
    BankAt(d, b);
    LinkStepParts(d, b);
  }

  lemma LinkOnly(d: Device, b: nat) returns (e: Device)
    requires d.Valid() && Sized(d.ks, |d.mapents|, d.s.v.commit)
    requires b < NUM_BANKS == |d.ks| && d.ks[b].fill == LAST_PAGE && Writable(d.ks[b]) >= 2 * LAST_PAGE
    ensures e.Valid() && CrashSafe(Crash(e.flash, e.s, e.j)) && Sized(e.ks, |e.mapents|, e.s.v.commit)
    ensures NextPageFree(d, e, b) && Later(d.s, e.s)
    ensures var k := d.ks[b];
      && |k.free| >= 2 && |k.chain| > 0
      && e == d.(flash := e.flash, ks := d.ks[b := e.ks[b]], s := e.s)
      && e.ks[b] == k.(chain := k.chain + [k.free[0]], free := k.free[1..], fill := 0, lpns := NoLpns())
      && e.s == d.s.(data := e.s.data, v := e.s.v) && e.s.v.commit == d.s.v.commit
      && e.flash == d.flash.(data := d.flash.data[Loc(b, k.chain[|k.chain| - 1], LAST_PAGE) := Summary(k.lpns, k.free[0])])
  {
    hide Device.Valid, CrashSafe, Sized, Inv, SameItems, BanksOK, SizedBank, Mirrors, BankOK;
    LinkReady(d, b);
    e := LinkStep(d, b);
    LinkStepParts(d, b);
    LinkStepValid(d, b);
    BankAt(d, b);
    LinkedSized(d.ks, b, |d.mapents|, d.s.v.commit);
  }

  lemma NoLink(d: Device, b: nat)
    requires d.Valid() && b < NUM_BANKS && |d.ks| == NUM_BANKS && d.ks[b].fill != LAST_PAGE
    ensures NextPageFree(d, d, b)
  {
    hide BankOK, LogOK, SlotsOK, CrashSafe, MapIn, VictimsDisposable, Coverage, Chained, Retained, MapContents, MapDomain, Cached, Accounting;
    BankAt(d, b);
    assert d.ks == d.ks[b := d.ks[b]];
  }

  lemma TakeNext(active: seq<Pos>, o: Device, d: Device, b: nat, ppn: Pos)
    requires AlignedWith(active, o.ks) && NextPageFree(o, d, b) && |d.ks[b].chain| > 0
    requires ppn == Pos(d.ks[b].chain[|d.ks[b].chain| - 1], d.ks[b].fill)
    ensures Ahead(active[b := Pos(ppn.blk, ppn.pg + 1)], d.ks, b)
  {
    forall c | 0 <= c < NUM_BANKS && c != b ensures ActiveAt(active[c], d.ks[c]) {
      assert ActiveAt(active[c], o.ks[c]);
    }
  }

  lemma InRange(s: State, lpn: nat)
    requires s.Clock() && EverEnqueued(s, lpn)
    ensures lpn < NUM_LPAGES
  {
    var e: nat :| s.Enqueued(e, lpn);
    if e < s.g {
      assert s.reqs[e].Touches(lpn);
    }
  }

  lemma WriteBackFields(d: Device, lpn: nat)
    requires |d.ks| == |d.s.v.lanes| == NUM_BANKS && lpn in d.s.cache && d.s.data == d.flash.data
    requires var k := d.ks[BankOf(lpn)]; |k.chain| > 0 && k.fill < LAST_PAGE == |k.lpns|
    ensures var b := BankOf(lpn); var k := d.ks[b]; var c := d.s.cache[lpn]; var l := Loc(b, k.chain[|k.chain| - 1], k.fill);
      var e := WriteBackStep(d, lpn);
      && e == Device(d.flash.(data := d.flash.data[l := Host(lpn, c.span, c.epoch, c.buf)]),
                     d.ks[b := k.(fill := k.fill + 1, lpns := k.lpns[k.fill := lpn])],
                     e.s, d.j, d.mapents + [(lpn, l)], d.slot)
      && e.s == d.s.(data := e.s.data, v := e.s.v, pmap := d.s.pmap[lpn := l], cache := d.s.cache[lpn := c.(dirty := false)])
      && Later(d.s, e.s) && e.s.v == d.s.v.(lanes := e.s.v.lanes)
      && e.ks == d.ks[b := Filled(k, lpn)] && d.NextLoc(b) == l
      && e.s.v.lanes == LaneAfter(d.s.v.lanes, b, Item(l, Host(lpn, c.span, c.epoch, c.buf)))
  {
  }

  lemma DeviceParts(d: Device, b: nat)
    requires d.Valid() && b < NUM_BANKS
    ensures |d.ks| == |d.s.v.lanes| == NUM_BANKS && d.s.data == d.flash.data
    ensures |d.ks[b].chain| > 0 && d.ks[b].fill <= LAST_PAGE == |d.ks[b].lpns|
  {
    BankAt(d, b);
  }

  lemma DirtyInRange(d: Device, lpn: nat)
    requires d.Valid() && lpn in d.s.cache
    ensures lpn < NUM_LPAGES && |d.s.cache[lpn].buf| == SECTORS_PER_PAGE
    ensures d.s.cache[lpn].dirty <==> d.s.Dirty(lpn)
  {
    assert EntryOK(d.s, lpn);
    InRange(d.s, lpn);
  }

  /** What writing back page lpn makes of the device. */
  lemma WriteBackOnly(d: Device, lpn: nat) returns (e: Device)
    requires d.Valid() && Sized(d.ks, |d.mapents|, d.s.v.commit) && |d.ks| == NUM_BANKS
    requires lpn in d.s.cache && d.s.cache[lpn].dirty && d.ks[BankOf(lpn)].fill < LAST_PAGE
    ensures e.Valid() && CrashSafe(Crash(e.flash, e.s, e.j)) && Sized(e.ks, |e.mapents|, e.s.v.commit)
    ensures Later(d.s, e.s) && e.s.v == d.s.v.(lanes := e.s.v.lanes)
    ensures var b := BankOf(lpn); var k := d.ks[b]; |k.chain| > 0 && |k.lpns| == LAST_PAGE && |d.s.v.lanes| == NUM_BANKS
    ensures var b := BankOf(lpn); var k := d.ks[b]; var c := d.s.cache[lpn]; var l := Loc(b, k.chain[|k.chain| - 1], k.fill);
      && l !in d.flash.data && (l.pg > 0 ==> Loc(l.bank, l.blk, l.pg - 1) in d.flash.data)
      && e == Device(d.flash.(data := d.flash.data[l := Host(lpn, c.span, c.epoch, c.buf)]),
                     d.ks[b := k.(fill := k.fill + 1, lpns := k.lpns[k.fill := lpn])],
                     e.s, d.j, d.mapents + [(lpn, l)], d.slot)
      && e.s == d.s.(data := e.s.data, v := e.s.v, pmap := d.s.pmap[lpn := l], cache := d.s.cache[lpn := c.(dirty := false)])
      && e.s.v.lanes == LaneAfter(d.s.v.lanes, b, Item(l, Host(lpn, c.span, c.epoch, c.buf)))
      && Writable(e.ks[b]) == Writable(k) - 1
    ensures Drained(d, e)
  {
    hide Device.Valid, CrashSafe, Sized, Inv, WriteBackStep, Later, State.Dirty, LaneAfter;
    DeviceParts(d, BankOf(lpn));
    DirtyInRange(d, lpn);
    WriteBackFields(d, lpn);
    WriteBackStepParts(d, lpn);
    WriteBackStepValid(d, lpn);
    e := WriteBackStep(d, lpn);
    FilledSized(d.ks, BankOf(lpn), lpn, |d.mapents|, d.s.v.commit);
    DrainedByWriteBack(d, e, lpn, e.s.cache[lpn]);
  }

  lemma MappedInData(d: Device, l: nat)
    requires d.Valid() && l in d.s.pmap
    ensures d.s.pmap[l] in d.s.data && !d.s.data[d.s.pmap[l]].Summary? && d.s.data[d.s.pmap[l]].lpn == l
    ensures |d.s.data[d.s.pmap[l]].content| == SECTORS_PER_PAGE
    ensures d.s.pmap[l].bank == BankOf(l) && d.s.pmap[l].pg < LAST_PAGE
  {
    assert MappedPage(d.s, l) && Places(d.s.pmap[l], l, d.ks[BankOf(l)]);
  }

  lemma FilledBelow(d: Device, b: nat, pg: nat)
    requires d.Valid() && b < NUM_BANKS == |d.ks| && |d.ks[b].chain| > 0
    requires Loc(b, d.ks[b].Active(), pg) in d.s.data && pg < LAST_PAGE
    ensures pg < d.ks[b].fill
  {
    BankAt(d, b);
  }

  /** The pages mapped into a block that is being filled. */
  lemma ActiveCount(d: Device, b: nat, lpn: nat)
    requires d.Valid() && b < NUM_BANKS == |d.ks| && d.ks[b].fill < LAST_PAGE
    ensures |d.ks[b].chain| > 0
    ensures |MappedTo(d.s.pmap, b, d.ks[b].chain[|d.ks[b].chain| - 1]) - {lpn}| < LAST_PAGE
  {
    hide Device.Valid;
    DeviceParts(d, b);
    var k := d.ks[b];
    var pmap := d.s.pmap;
    forall l | l in pmap
      ensures pmap[l] in d.s.data && !d.s.data[pmap[l]].Summary? && d.s.data[pmap[l]].lpn == l
      ensures InBlock(pmap[l], b, k.Active()) ==> pmap[l].pg < k.fill
    {
      MappedInData(d, l);
      if InBlock(pmap[l], b, k.Active()) {
        FilledBelow(d, b, pmap[l].pg);
      }
    }
    CountAtMost(d.s.data, pmap, b, k.Active(), k.fill);
  }

  /** Pages were written back or blocks erased between o and d; the requests and what is cached are the same. */
  ghost predicate Drained(o: Device, d: Device) {
    && d.j == o.j && d.slot == o.slot
    && d.s.reqs == o.s.reqs && d.s.g == o.s.g && d.s.enq == o.s.enq && d.s.deps == o.s.deps
    && d.s.floor == o.s.floor && d.s.v.commit == o.s.v.commit
    && SameCached(o.s.cache, d.s.cache)
    && |d.mapents| >= |o.mapents| && SpentVictims(o.ks, d.ks)
  }

  /** No victim became pending. */
  ghost predicate SpentVictims(ks: seq<Bank>, qs: seq<Bank>) {
    |qs| == |ks| && forall b :: 0 <= b < |ks| && ks[b].vt == 0 ==> qs[b].vt == 0
  }

  ghost predicate SameCached(was: map<nat, Entry>, now: map<nat, Entry>) {
    && was.Keys == now.Keys
    && forall l :: l in was ==> now[l] == was[l] || now[l] == was[l].(dirty := false)
  }

  lemma DrainedTrans(a: Device, b: Device, c: Device)
    requires Drained(a, b) && Drained(b, c)
    ensures Drained(a, c)
  {
  }

  lemma DrainedDeps(o: Device, d: Device)
    requires Drained(o, d)
    ensures d.s.deps == o.s.deps && d.s.floor == o.s.floor && d.j == o.j
  {
  }

  lemma DrainedNone(d: Device)
    ensures Drained(d, d)
  {
  }

  lemma DrainedByLink(o: Device, d: Device, b: nat)
    requires NextPageFree(o, d, b)
    ensures Drained(o, d)
    ensures |d.ks| == NUM_BANKS && d.ks == o.ks[b := d.ks[b]] && d.mapents == o.mapents
    ensures d.ks[b].fill < LAST_PAGE && |d.ks[b].chain| > 0 && Writable(d.ks[b]) == Writable(o.ks[b])
    ensures d.s.cache == o.s.cache && d.s.pmap == o.s.pmap
  {
  }

  lemma DrainedByWriteBack(o: Device, e: Device, lpn: nat, c: Entry)
    requires lpn in o.s.cache && c == o.s.cache[lpn].(dirty := false)
    requires e.j == o.j && e.slot == o.slot
    requires e.s == o.s.(data := e.s.data, v := e.s.v, pmap := e.s.pmap, cache := o.s.cache[lpn := c])
    requires e.s.v.commit == o.s.v.commit && |e.mapents| >= |o.mapents| && SpentVictims(o.ks, e.ks)
    ensures Drained(o, e)
  {
  }

  /** What logging the buffered dependencies makes of the device. */
  lemma LogDepsOnly(d: Device) returns (e: Device)
    requires d.Valid() && Sized(d.ks, |d.mapents|, d.s.v.commit) && |d.j.pages| + 1 < LOG_CAP
    ensures e.Valid() && CrashSafe(Crash(e.flash, e.s, e.j)) && Sized(e.ks, |e.mapents|, e.s.v.commit)
    ensures Logged(d, e) && Later(d.s, e.s) && |e.j.pages| == |d.j.pages| + 1
    ensures LogReady(d.flash.log, LogAddr(|d.j.pages|)) && e.s == d.s.(v := e.s.v, deps := [])
    ensures e.s.v.deps == d.s.v.deps + d.s.deps && e.j.pages == d.j.pages + [LogPage.Deps(d.s.deps)]
    ensures e == d.(flash := d.flash.(log := d.flash.log[LogAddr(|d.j.pages|) := LogPage.Deps(d.s.deps)]), j := e.j, s := e.s)
  {
    hide Device.Valid, CrashSafe, Sized, Inv, Describes, Ordered;
    LogDepsStepValid(d);
    e := LogDepsStep(d);
  }

  /** The buffered dependencies were logged between o and d. */
  ghost predicate Logged(o: Device, d: Device) {
    && d.ks == o.ks && d.mapents == o.mapents && d.slot == o.slot
    && d.s == o.s.(v := d.s.v, deps := []) && d.s.v == o.s.v.(deps := d.s.v.deps)
  }

  lemma LoggedFloor(o: Device, d: Device)
    requires Logged(o, d)
    ensures d.s.floor == o.s.floor
  {
  }

  lemma LoggedNone(d: Device)
    requires d.s.deps == []
    ensures Logged(d, d)
  {
  }

  /** Everything received so far is on flash, and marked as such. */
  lemma RaiseFloorOnly(d: Device) returns (e: Device)
    requires d.Valid() && d.s.Settled()
    requires d.s.deps == [] && forall l: nat :: l in d.s.cache ==> !d.s.cache[l].dirty
    ensures e.Valid() && e == d.(s := d.s.(floor := |d.s.reqs|)) && Later(d.s, e.s)
    ensures Flushed(e.s)
  {
    e := d.(s := RaiseFloor(d.s));
    RaiseFloorInv(d.s);
    RaiseFloorQuiet(d.s);
    QuietValid(d, RaiseFloor(d.s));
  }

  /** Steps of the firmware that leave the flash as it is. */
  lemma QuietValid(d: Device, t: State)
    requires d.Valid() && Inv(t) && Extends(d.s, t)
    requires t.data == d.s.data && t.v == d.s.v && t.pmap == d.s.pmap && |t.reqs| <= MAX_REQS
    ensures d.(s := t).Valid() && Later(d.s, t)
  {
    VictimsCarry(d.s, t, d.ks, d.ks);
  }

  lemma EraseOnly(d: Device, b: nat) returns (e: Device)
    requires d.Valid() && Sized(d.ks, |d.mapents|, d.s.v.commit) && b < NUM_BANKS == |d.ks| && d.ks[b].vt != 0
    ensures e.Valid() && CrashSafe(Crash(e.flash, e.s, e.j)) && Sized(e.ks, |e.mapents|, e.s.v.commit)
    ensures Drained(d, e) && Later(d.s, e.s) && Writable(e.ks[b]) == Writable(d.ks[b])
    ensures e.s == d.s.(data := e.s.data)
    ensures e == d.(flash := d.flash.(data := Without(d.flash.data, b, d.ks[b].vt)), ks := d.ks[b := d.ks[b].(vt := 0)], s := e.s)
  {
    hide Device.Valid, CrashSafe, Sized, Inv;
    DeviceParts(d, b);
    EraseStepValid(d, b);
    ErasedSized(d.ks, b, |d.mapents|, d.s.v.commit);
    e := EraseStep(d, b);
  }

  /** The collected block of bank b, if there was one, was erased, and nothing else happened. */
  ghost predicate VictimErased(o: Device, d: Device, b: nat) {
    && b < NUM_BANKS == |o.ks|
    && d == o.(flash := if o.ks[b].vt == 0 then o.flash else o.flash.(data := Without(o.flash.data, b, o.ks[b].vt)),
               ks := o.ks[b := o.ks[b].(vt := 0)],
               s := o.s.(data := d.s.data))
  }

  lemma VictimErasedNone(d: Device, b: nat)
    requires b < NUM_BANKS == |d.ks| && d.ks[b].vt == 0
    ensures VictimErased(d, d, b)
  {
    assert d.ks[b := d.ks[b].(vt := 0)] == d.ks;
  }

  lemma VictimErasedIs(d: Device, e: Device, b: nat)
    requires b < NUM_BANKS == |d.ks| && d.ks[b].vt != 0 && e.s == d.s.(data := e.s.data)
    requires e == d.(flash := d.flash.(data := Without(d.flash.data, b, d.ks[b].vt)), ks := d.ks[b := d.ks[b].(vt := 0)], s := e.s)
    ensures VictimErased(d, e, b)
  {
  }

  lemma VictimErasedParts(o: Device, d: Device, b: nat)
    requires VictimErased(o, d, b)
    ensures b < NUM_BANKS == |d.ks| == |o.ks| && d.ks == o.ks[b := o.ks[b].(vt := 0)] && d.mapents == o.mapents
    ensures d.s == o.s.(data := d.s.data)
  {
  }

  /** Everything received is on flash between o and d. */
  ghost predicate FlushedFrom(o: Device, d: Device) {
    && d.s.reqs == o.s.reqs && d.s.g == o.s.g && d.s.enq == o.s.enq && d.s.v.commit == o.s.v.commit && d.slot == o.slot
    && d.s.floor == |d.s.reqs| && d.s.deps == [] && AllClean(d.s) && Flushed(d.s)
    && |d.j.pages| == |o.j.pages| + if o.s.deps == [] then 0 else 1
  }

  lemma LoggedParts(o: Device, d: Device)
    requires Logged(o, d)
    ensures d.ks == o.ks && d.mapents == o.mapents && d.s.pmap == o.s.pmap && d.s.cache == o.s.cache
  {
  }

  lemma SettledVia(o: Device, b: Device, c: Device)
    requires o.s.Settled() && Logged(o, b) && Drained(b, c)
    ensures c.s.Settled() && c.s.deps == []
  {
  }

  lemma FlushedVia(o: Device, b: Device, c: Device, e: Device)
    requires Logged(o, b) && Drained(b, c) && e == c.(s := c.s.(floor := |c.s.reqs|)) && Flushed(e.s)
    requires |b.j.pages| == |o.j.pages| + if o.s.deps == [] then 0 else 1
    ensures FlushedFrom(o, e)
  {
  }

  lemma FlushedParts(o: Device, d: Device)
    requires FlushedFrom(o, d)
    ensures d.s.reqs == o.s.reqs && d.s.g == o.s.g && d.s.enq == o.s.enq && d.s.v.commit == o.s.v.commit && d.slot == o.slot
    ensures d.s.floor == |d.s.reqs| && d.s.deps == [] && AllClean(d.s)
    ensures |d.j.pages| == |o.j.pages| + if o.s.deps == [] then 0 else 1
  {
  }

  lemma SameKeys(o: Device, d: Device, l: nat)
    requires Drained(o, d)
    ensures l in o.s.cache <==> l in d.s.cache
    ensures d.s.reqs == o.s.reqs && d.s.g == o.s.g && d.s.enq == o.s.enq && d.s.v.commit == o.s.v.commit
  {
  }

  lemma LoggedReqs(o: Device, d: Device)
    requires Logged(o, d)
    ensures d.s.reqs == o.s.reqs && d.s.g == o.s.g && d.s.enq == o.s.enq && d.slot == o.slot && d.s.v.commit == o.s.v.commit
  {
  }

  /** The least recently used dirty buffer of the bank was written back. */
  ghost predicate OldestCleaned(was: seq<seq<Buffer>>, lru: seq<seq<nat>>, now: seq<seq<Buffer>>, bank: nat) {
    && bank < |was| && bank < |lru|
    && exists id: nat :: id < |was[bank]| && LeastRecent(was[bank], lru[bank], id, true)
         && now == was[bank := was[bank][id := was[bank][id].(dirty := false)]]
  }

  lemma OldestCleanedIs(was: seq<seq<Buffer>>, lru: seq<seq<nat>>, bank: nat, id: nat)
    requires bank < |was| && bank < |lru| && id < |was[bank]| && LeastRecent(was[bank], lru[bank], id, true)
    ensures OldestCleaned(was, lru, was[bank := was[bank][id := was[bank][id].(dirty := false)]], bank)
  {
  }
}
