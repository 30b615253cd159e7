/** The operations on the log and on the persisted map: logging dependencies, a checkpoint, and reclaiming
    the log. At every flash operation the device stays recoverable, to the same state or to the one the
    tag page commits. */
module LogSteps {
  import opened Geometry
  import opened Requests
  import opened Recoverable
  import opened OrderState
  import opened HostSteps
  import opened Transfer
  import opened FlashSteps
  import opened Media
  import opened Journals
  import opened Banks
  import opened Nand
  import opened FtlState
  import opened DeviceSteps
  import LS = LogSpace
  import Arith

  /** The part of the device's consistency that does not concern the log. */
  ghost predicate DataOK(d: Device) {
    && Inv(d.s) && |d.s.reqs| <= MAX_REQS && d.s.data == d.flash.data
    && BanksOK(d.flash.data, d.ks, d.s.v.lanes)
    && MapIn(d.s.pmap, d.ks)
    && VictimsDisposable(d.s, d.ks)
  }

  function OnLog(d: Device, page: LogPage, j: Journal): Device {
    d.(flash := d.flash.(log := d.flash.log[LogAddr(|d.j.pages|) := page]), j := j)
  }

  // ---- record_depent ----

  function LogDepsStep(d: Device): Device {
    OnLog(d, Deps(d.s.deps), AddDeps(d.j, d.s.deps)).(s := LogDeps(d.s))
  }

  lemma LogDepsStepValid(d: Device)
    requires d.Valid() && |d.j.pages| + 1 < LOG_CAP
    ensures LogReady(d.flash.log, LogAddr(|d.j.pages|))
    ensures LogDepsStep(d).Valid() && CrashSafe(LogDepsStep(d).Now())
  {
    hide Inv, BanksOK, MapIn, VictimsDisposable, LogOK, SlotsOK, CrashSafe, Shape, OrderState.Deps, Extends;
    var e := LogDepsStep(d);
    Basics(d, 0);
    LogDepsReady(d);
    LogDepsLog(d);
    SlotsKept(d);
    VictimsCarry(d.s, e.s, d.ks, e.ks);
    ValidIsSafe(e);
  }

  lemma SlotsKept(d: Device)
    requires SlotsOK(d.flash.slots, d.slot, d.j, d.s.v)
    ensures var e := LogDepsStep(d); SlotsOK(e.flash.slots, e.slot, e.j, e.s.v)
  {
  }

  lemma LogDepsReady(d: Device)
    requires d.Valid()
    ensures Inv(LogDeps(d.s)) && Extends(d.s, LogDeps(d.s))
  {
    LogDepsInv(d.s);
    LogDepsShape(d.s);
  }

  lemma LogDepsLog(d: Device)
    requires LogOK(d.flash.log, d.j, d.s.v, d.s.pmap, d.mapents)
    ensures LogReady(d.flash.log, LogAddr(|d.j.pages|))
    ensures var e := LogDepsStep(d); LogOK(e.flash.log, e.j, e.s.v, e.s.pmap, e.mapents)
  {
    LogAppend(d.flash.log, d.j.pages, Deps(d.s.deps));
    AddDepsDescribes(d.j, d.s.v, d.s.deps);
  }

  // ---- record_mapent ----

  /** Part of the buffered mapping entries, all but d.mapents, is already in the log. */
  ghost predicate LogPart(log: map<LogLoc, LogPage>, j: Journal, v: View, pmap: map<nat, Loc>, rest: seq<(nat, Loc)>) {
    && LogHolds(log, j.pages)
    && v.commit >= -1 && |v.lanes| == NUM_BANKS
    && |j.pages| > 0 && Ordered(j) && Describes(j, v)
    && TagsUpTo(j, v.commit)
    && Replay(v.cmap, SinceTag(j) + rest) == pmap
  }

  ghost predicate MidCheckpoint(d: Device) {
    && DataOK(d)
    && LogPart(d.flash.log, d.j, d.s.v, d.s.pmap, d.mapents) && |d.j.pages| < LOG_CAP
    && SlotsOK(d.flash.slots, d.slot, d.j, d.s.v)
  }

  lemma StartLog(log: map<LogLoc, LogPage>, j: Journal, v: View, pmap: map<nat, Loc>, mapents: seq<(nat, Loc)>)
    requires LogOK(log, j, v, pmap, mapents)
    ensures LogPart(log, j, v, pmap, mapents)
  {
    NoMapEntries(j.pages[j.tag + 1..]);
    assert [] + mapents == mapents;
  }

  lemma StartCheckpoint(d: Device)
    requires d.Valid()
    ensures MidCheckpoint(d)
  {
    hide Inv, BanksOK, MapIn, VictimsDisposable, LogOK, LogPart, SlotsOK;
    StartLog(d.flash.log, d.j, d.s.v, d.s.pmap, d.mapents);
  }

  function LogMapEntsStep(d: Device, n: nat): Device
    requires n <= |d.mapents|
  {
    OnLog(d, MapEnts(d.mapents[..n]), AddMapEnts(d.j, d.mapents[..n])).(mapents := d.mapents[n..])
  }

  lemma LogPartGrows(log: map<LogLoc, LogPage>, j: Journal, v: View, pmap: map<nat, Loc>, rest: seq<(nat, Loc)>, n: nat)
    requires LogPart(log, j, v, pmap, rest) && n <= |rest|
    ensures LogReady(log, LogAddr(|j.pages|))
    ensures LogPart(log[LogAddr(|j.pages|) := MapEnts(rest[..n])], AddMapEnts(j, rest[..n]), v, pmap, rest[n..])
  {
    hide Describes, LogHolds, Replay, MapEntries, SinceTag;
    LogAppend(log, j.pages, MapEnts(rest[..n]));
    AddMapEntsDescribes(j, v, rest[..n]);
    SinceTagGrows(j, MapEnts(rest[..n]));
    assert SinceTag(j) + rest == SinceTag(j) + rest[..n] + rest[n..];
  }

  lemma MidCheckpointSafe(d: Device)
    requires MidCheckpoint(d)
    ensures CrashSafe(d.Now())
  {
    MakeCrashSafe(d.flash, d.ks, d.j, d.s, d.slot);
  }

  lemma LogMapEntsStepOK(d: Device, n: nat)
    requires MidCheckpoint(d) && |d.j.pages| + 1 < LOG_CAP && n <= |d.mapents|
    ensures LogReady(d.flash.log, LogAddr(|d.j.pages|))
    ensures MidCheckpoint(LogMapEntsStep(d, n)) && CrashSafe(LogMapEntsStep(d, n).Now())
  {
    LogPartGrows(d.flash.log, d.j, d.s.v, d.s.pmap, d.mapents, n);
    MidCheckpointSafe(LogMapEntsStep(d, n));
  }

  lemma SinceTagGrows(j: Journal, page: LogPage)
    requires j.tag < |j.pages| && page.MapEnts?
    ensures SinceTag(j.(pages := j.pages + [page])) == SinceTag(j) + page.ents
  {
    hide MapEntries;
    assert (j.pages + [page])[j.tag + 1..] == j.pages[j.tag + 1..] + [page];
    MapEntriesConcat(j.pages[j.tag + 1..], [page]);
    DepEntriesOne(page);
  }

  // ---- record_tag ----

  function ActivePages(ks: seq<Bank>): seq<Pos>
    requires forall b :: 0 <= b < |ks| ==> |ks[b].chain| > 0
  {
    seq<Pos>(|ks|, b requires 0 <= b < |ks| => Pos(ks[b].Active(), ks[b].fill))
  }

  ghost predicate HaveChains(ks: seq<Bank>) {
    |ks| == NUM_BANKS && forall b :: 0 <= b < |ks| ==> |ks[b].chain| > 0
  }

  lemma DataOKChains(d: Device)
    requires BanksOK(d.flash.data, d.ks, d.s.v.lanes)
    ensures HaveChains(d.ks)
  {
    forall b | 0 <= b < |d.ks| ensures |d.ks[b].chain| > 0 {
      assert BankOK(d.flash.data, b, d.ks[b], d.s.v.lanes[b]);
    }
  }

  function PushedBanks(ks: seq<Bank>): seq<Bank>
    requires forall b :: 0 <= b < |ks| ==> |ks[b].chain| > 0
  {
    seq<Bank>(|ks|, b requires 0 <= b < |ks| => Pushed(ks[b]))
  }

  function TagStep(d: Device): Device
    requires HaveChains(d.ks) && d.s.g > 0
  {
    OnLog(d, Tag(d.s.g - 1, ActivePages(d.ks)), AddTag(d.j, d.s.g - 1, ActivePages(d.ks)))
      .(s := Commit(d.s, PushedLanes(d.ks)), ks := PushedBanks(d.ks), mapents := [])
  }

  /** The device is flushed and about to be committed. */
  ghost predicate Committable(s: State) {
    s.Clock() && !s.Busy() && Flushed(s) && s.g > 0
  }

  lemma PushedPlaces(loc: Loc, lpn: nat, k: Bank)
    requires |k.chain| > 0 && Places(loc, lpn, k)
    ensures Places(loc, lpn, Pushed(k))
  {
    if loc.blk in k.used {
      var i :| 0 <= i < |k.used| && k.used[i] == loc.blk;
      assert Pushed(k).used[i] == loc.blk;
    } else if loc.blk != k.Active() {
      var i :| 0 <= i < |k.chain| && k.chain[i] == loc.blk;
      assert Pushed(k).used[|k.used| + i] == loc.blk;
    } else {
      assert Pushed(k).chain[0] == loc.blk;
    }
  }

  lemma TagMapIn(pmap: map<nat, Loc>, ks: seq<Bank>)
    requires HaveChains(ks) && MapIn(pmap, ks)
    ensures MapIn(pmap, PushedBanks(ks))
  {
    forall l: nat | l in pmap ensures Places(pmap[l], l, PushedBanks(ks)[BankOf(l)]) {
      PushedPlaces(pmap[l], l, ks[BankOf(l)]);
    }
  }

  /** A commit maps what is mapped now, and that is not in a collected block. */
  lemma TagVictims(s: State, t: State, ks: seq<Bank>)
    requires HaveChains(ks) && |s.v.lanes| == NUM_BANKS && EmptyLanes(t.v.lanes)
    requires t.pmap == t.v.cmap == s.pmap && VictimsDisposable(s, ks)
    ensures VictimsDisposable(t, PushedBanks(ks))
  {
    forall b: nat | b < NUM_BANKS && PushedBanks(ks)[b].vt != 0 ensures Disposable(t, b, PushedBanks(ks)[b].vt) {
      assert Disposable(s, b, ks[b].vt);
    }
  }

  lemma TagData(d: Device)
    requires DataOK(d) && HaveChains(d.ks) && Committable(d.s)
    ensures DataOK(TagStep(d))
  {
    var e := TagStep(d);
    CommitInv(d.s, PushedLanes(d.ks));
    PushBanks(d.flash.data, d.ks, e.ks, d.s.v.lanes);
    TagMapIn(d.s.pmap, d.ks);
    TagVictims(d.s, e.s, d.ks);
  }

  lemma TagStarts(d: Device)
    requires HaveChains(d.ks) && d.s.g > 0
    ensures forall b :: 0 <= b < NUM_BANKS ==> StartsAt(TagStep(d).s.v.lanes[b], ActivePages(d.ks)[b])
  {
  }

  /** The tag page of a checkpoint. */
  lemma TagStepValid(d: Device)
    requires MidCheckpoint(d) && d.mapents == [] && |d.j.pages| + 1 < LOG_CAP
    requires Committable(d.s) && d.s.v.commit < d.s.g - 1
    ensures HaveChains(d.ks) && LogReady(d.flash.log, LogAddr(|d.j.pages|))
    ensures TagStep(d).Valid() && CrashSafe(TagStep(d).Now())
    ensures TagStep(d).j.epoch.Some? ==> TagStep(d).j.epoch.value < TagStep(d).s.v.commit
  {
    DataOKChains(d);
    var e := TagStep(d);
    TagData(d);
    TagStarts(d);
    LogAppend(d.flash.log, d.j.pages, Tag(d.s.g - 1, ActivePages(d.ks)));
    assert SinceTag(d.j) + [] == SinceTag(d.j);
    AddTagDescribes(d.j, d.s.v, d.s.g - 1, ActivePages(d.ks), e.s.v);
    ValidIsSafe(e);
  }

  // ---- blkmgr_reclaim_log ----

  /** The state has just been committed: nothing was programmed or logged since. */
  ghost predicate JustCommitted(s: State) {
    && s.Clock() && s.v.commit == s.g - 1 && s.v.commit >= 0
    && |s.v.lanes| == NUM_BANKS
    && s.v.cmap == s.pmap && s.v.deps == [] && EmptyLanes(s.v.lanes)
  }

  lemma CrashSafeWith(d: Device, f: Flash, j: Journal)
    requires DataOK(d) && f.data == d.flash.data
    requires LogReads(f.log, j.pages) && MapReads(f.slots, j.base, j.epoch) && Describes(j, d.s.v)
    ensures CrashSafe(Crash(f, d.s, j))
  {
    MakeImage(f, d.ks, j, d.s.v);
  }

  lemma HoldsReads(log: map<LogLoc, LogPage>, pages: seq<LogPage>)
    requires LogHolds(log, pages) && |pages| < LOG_CAP
    ensures LogReads(log, pages)
  {
  }

  /** While the new map is being persisted, the old one and the log are what recovery uses. */
  lemma PartialMapSafe(d: Device, part: map<nat, map<nat, Loc>>)
    requires d.Valid()
    ensures CrashSafe(Crash(d.flash.(slots := d.flash.slots[d.slot := Slot(part, None)]), d.s, d.j))
  {
    PartialMapIgnored(d.flash.slots, d.slot, d.j.base, d.j.epoch, part);
    HoldsReads(d.flash.log, d.j.pages);
    CrashSafeWith(d, d.flash.(slots := d.flash.slots[d.slot := Slot(part, None)]), d.j);
  }

  function NewBase(d: Device): Journal
    requires d.s.v.commit >= 0
  {
    var e: nat := d.s.v.commit;
    d.j.(base := d.s.v.cmap, epoch := Some(e))
  }

  /** The slots once the new map is complete; left is what remains of the old one. */
  function MapSlots(d: Device, slot: Slot, left: Slot): seq<Slot>
    requires |d.flash.slots| == 2 && d.slot < 2
  {
    d.flash.slots[d.slot := slot][1 - d.slot := left]
  }

  /** A complete copy of the map that was just committed, and an old one that may be partly erased. */
  ghost predicate NewMap(d: Device, slot: Slot, left: Slot) {
    && d.Valid() && JustCommitted(d.s) && d.s.v.commit > 0
    && (d.j.epoch.Some? ==> d.j.epoch.value < d.s.v.commit)
    && HoldsMap(slot, d.s.pmap) && slot.commit == Some(d.s.v.commit)
    && (left == d.flash.slots[1 - d.slot] || left.commit == None)
  }

  /** With the new map complete, the log that led to it still gives the same state. */
  lemma NewMapSafe(d: Device, slot: Slot, left: Slot)
    requires NewMap(d, slot, left)
    ensures CrashSafe(Crash(d.flash.(slots := MapSlots(d, slot, left)), d.s, NewBase(d)))
  {
    NewMapChosen(d.flash.slots, d.slot, d.j.base, d.j.epoch, slot, d.s.pmap, d.s.v.commit, left);
    NewBaseDescribes(d.j, d.s.v, Some(d.s.v.commit));
    HoldsReads(d.flash.log, d.j.pages);
    CrashSafeWith(d, d.flash.(slots := MapSlots(d, slot, left)), NewBase(d));
  }

  function EmptyJournal(d: Device): Journal
    requires d.s.v.commit >= 0
  {
    var e: nat := d.s.v.commit;
    Journal(d.s.v.cmap, Some(e), [], 0, 0)
  }

  /** From the erasure of its first block on, the log reads as empty, and the persisted map is the state. */
  lemma ErasingLogSafe(d: Device, slot: Slot, left: Slot, log: map<LogLoc, LogPage>)
    requires NewMap(d, slot, left) && LogAddr(0) !in log
    ensures CrashSafe(Crash(d.flash.(log := log, slots := MapSlots(d, slot, left)), d.s, EmptyJournal(d)))
  {
    NewMapChosen(d.flash.slots, d.slot, d.j.base, d.j.epoch, slot, d.s.pmap, d.s.v.commit, left);
    LogCapPositive();
    CrashSafeWith(d, d.flash.(log := log, slots := MapSlots(d, slot, left)), EmptyJournal(d));
  }

  lemma LogCapPositive()
    ensures LOG_CAP > NUM_BANKS * LAST_PAGE
  {
    Arith.MulMonotone(2, NUM_LOG_BLKS_PER_BANK, LAST_PAGE * NUM_BANKS);
    assert NUM_LOG_BLKS_PER_BANK * (LAST_PAGE * NUM_BANKS) == LOG_CAP;
    assert 2 * (LAST_PAGE * NUM_BANKS) == 2 * LAST_PAGE * NUM_BANKS;
    Arith.MulMonotone(1, LAST_PAGE, NUM_BANKS);
  }


  /** After the reclaim the log is empty, the other slot erased, and the state what the map says. */
  ghost predicate Reclaimed(d: Device) {
    && DataOK(d) && JustCommitted(d.s)
    && LogHolds(d.flash.log, []) && d.j.pages == []
    && d.j.base == d.s.v.cmap && d.j.epoch == Some(d.s.v.commit)
    && SlotsOK(d.flash.slots, d.slot, d.j, d.s.v)
  }

  /** The first page of the fresh log is the tag again. */
  lemma FreshTagValid(d: Device)
    requires Reclaimed(d) && Committable(d.s)
    ensures HaveChains(d.ks) && LogReady(d.flash.log, LogAddr(|d.j.pages|))
    ensures TagStep(d).Valid() && CrashSafe(TagStep(d).Now())
  {
    DataOKChains(d);
    var e := TagStep(d);
    var tag := Tag(d.s.g - 1, ActivePages(d.ks));
    TagData(d);
    TagStarts(d);
    LogAppend(d.flash.log, d.j.pages, tag);
    LogCapPositive();
    assert e.j.pages == [tag];
    assert e.j.pages[..0] == [] && e.j.pages[1..] == [];
    ValidIsSafe(e);
  }
}
