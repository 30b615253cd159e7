/** What the pages of a checkpoint, the full map and the reclaiming of the log make of the device. */
module Checkpoints {
  import opened Geometry
  import opened Requests
  import opened Recoverable
  import opened OrderState
  import opened HostSteps
  import opened Media
  import opened Journals
  import opened Banks
  import opened Room
  import opened FtlState
  import opened DeviceSteps
  import opened LogSteps
  import opened Effects
  import opened Wiring
  import opened N = Nand
  import LS = LogSpace
  import R = Ring

  /** Pages that n mapping entries take. */
  function PagesFor(n: nat): nat {
    (n + NUM_MAPENTS_PER_PAGE - 1) / NUM_MAPENTS_PER_PAGE
  }

  lemma PagesForNext(n: nat)
    requires n > 0
    ensures NUM_MAPENTS_PER_PAGE > 0
    ensures n > NUM_MAPENTS_PER_PAGE ==> PagesFor(n) == PagesFor(n - NUM_MAPENTS_PER_PAGE) + 1
    ensures n <= NUM_MAPENTS_PER_PAGE ==> PagesFor(n) == 1
    ensures PagesFor(0) == 0
  {
  }

  lemma PagesForMax(n: nat)
    requires n <= MAX_MAPENTS
    ensures PagesFor(n) <= 2 * NUM_BANKS
  {
  }

  lemma LogMapEntsOnly(d: Device, n: nat) returns (e: Device)
    requires MidCheckpoint(d) && |d.j.pages| + 1 < LOG_CAP && n <= |d.mapents|
    ensures MidCheckpoint(e) && CrashSafe(Crash(e.flash, e.s, e.j)) && |e.j.pages| == |d.j.pages| + 1
    ensures LogReady(d.flash.log, LogAddr(|d.j.pages|))
    ensures e == d.(flash := d.flash.(log := d.flash.log[LogAddr(|d.j.pages|) := MapEnts(d.mapents[..n])]), j := e.j, mapents := d.mapents[n..])
  {
    hide MidCheckpoint, CrashSafe;
    LogMapEntsStepOK(d, n);
    e := LogMapEntsStep(d, n);
  }

  /** A full map of the committed state may replace the log. */
  ghost predicate ReclaimReady(d: Device) {
    && d.Valid() && JustCommitted(d.s) && d.mapents == []
    && (d.j.epoch.Some? ==> d.j.epoch.value < d.s.v.commit)
  }

  /** Before a tag: a checkpoint whose mapping entries are logged, or an emptied log. */
  ghost predicate Taggable(d: Device, emptied: bool) {
    && Committable(d.s) && d.mapents == []
    && if emptied then Reclaimed(d) else MidCheckpoint(d) && |d.j.pages| + 1 < LOG_CAP && d.s.v.commit < d.s.g - 1
  }

  lemma PushedAlls(ks: seq<Bank>, n: nat, commit: int, later: nat)
    requires HaveChains(ks) && Sized(ks, n, commit) && forall b :: 0 <= b < NUM_BANKS ==> ks[b].fill <= LAST_PAGE
    ensures PushedAll(ks, PushedBanks(ks)) && Sized(PushedBanks(ks), 0, later)
  {
    var qs := PushedBanks(ks);
    forall b | 0 <= b < NUM_BANKS ensures PushedOne(ks[b], qs[b]) && SizedBank(qs[b], 0, later) {
      assert SizedBank(ks[b], n, commit);
      PushedSized(ks[b], n, commit, later);
    }
  }

  lemma TaggableBanks(d: Device, emptied: bool)
    requires Taggable(d, emptied)
    ensures HaveChains(d.ks) && forall b :: 0 <= b < NUM_BANKS ==> d.ks[b].fill <= LAST_PAGE
    ensures |d.s.reqs| == d.s.g > 0 && d.s.v.commit <= d.s.g - 1 && d.s.floor <= d.s.g && |d.s.reqs| <= MAX_REQS
  {
    DataOKChains(d);
    forall b | 0 <= b < NUM_BANKS ensures d.ks[b].fill <= LAST_PAGE {
      assert BankOK(d.flash.data, b, d.ks[b], d.s.v.lanes[b]);
    }
  }

  lemma TagEither(d: Device, emptied: bool)
    requires Taggable(d, emptied)
    ensures HaveChains(d.ks) && d.s.g > 0 && LogReady(d.flash.log, LogAddr(|d.j.pages|))
    ensures ReclaimReady(TagStep(d)) || (emptied && TagStep(d).Valid() && JustCommitted(TagStep(d).s))
    ensures !emptied ==> ReclaimReady(TagStep(d))
    ensures CrashSafe(TagStep(d).Now())
  {
    TaggableBanks(d, emptied);
    if emptied {
      FreshTagValid(d);
    } else {
      TagStepValid(d);
    }
  }

  lemma TagFields(d: Device, active: seq<Pos>)
    requires HaveChains(d.ks) && AlignedWith(active, d.ks) && Committable(d.s) && d.s.floor <= d.s.g && d.s.v.commit <= d.s.g - 1
    ensures var e := TagStep(d);
      && e == Device(d.flash.(log := d.flash.log[LogAddr(|d.j.pages|) := Tag(Before(d.s.g), active)]), PushedBanks(d.ks), e.s, e.j, [], d.slot)
      && e.s == d.s.(v := e.s.v, floor := d.s.g) && e.s.v.commit == d.s.g - 1
      && |e.j.pages| == |d.j.pages| + 1 && Later(d.s, e.s) && Committable(e.s)
  {
    forall b | 0 <= b < NUM_BANKS ensures ActivePages(d.ks)[b] == active[b] {
      assert ActiveAt(active[b], d.ks[b]);
    }
    assert ActivePages(d.ks) == active;
    assert forall l: nat :: TagStep(d).s.Dirty(l) <==> d.s.Dirty(l);
  }

  /** What the tag page makes of the device. */
  lemma TagOnly(d: Device, active: seq<Pos>, n: nat, emptied: bool) returns (e: Device)
    requires Taggable(d, emptied) && AlignedWith(active, d.ks) && Sized(d.ks, n, d.s.v.commit)
    ensures e.Valid() && CrashSafe(Crash(e.flash, e.s, e.j)) && Sized(e.ks, 0, e.s.v.commit) && JustCommitted(e.s)
    ensures !emptied ==> ReclaimReady(e)
    ensures d.mapents == [] && SameWritables(d.ks, e.ks) && |e.j.pages| < LOG_CAP
    ensures Committable(e.s) && e.s.v.commit == d.s.g - 1 && e.s == d.s.(v := e.s.v, floor := d.s.g) && Later(d.s, e.s)
    ensures |d.s.reqs| == d.s.g > 0
    ensures e == Device(d.flash.(log := d.flash.log[LogAddr(|d.j.pages|) := Tag(Before(d.s.g), active)]), e.ks, e.s, e.j, [], d.slot)
    ensures |e.j.pages| == |d.j.pages| + 1 && LogReady(d.flash.log, LogAddr(|d.j.pages|))
    ensures PushedAll(d.ks, e.ks) && AlignedWith(active, e.ks)
  {
    TaggableBanks(d, emptied);
    hide Device.Valid, CrashSafe, Sized, Inv, MidCheckpoint, Reclaimed, JustCommitted, TagStep, AlignedWith, PushedAll, Mirrors;
    TagEither(d, emptied);
    TagFields(d, active);
    PushedAlls(d.ks, n, d.s.v.commit, d.s.g - 1);
    AlignedPushed(active, d.ks, PushedBanks(d.ks));
    PushedWritables(d.ks, PushedBanks(d.ks));
    e := TagStep(d);
  }

  /** A checkpoint can begin: the device is flushed and no request is being served. */
  lemma CheckpointReady(o: Device, d: Device)
    requires FlushedFrom(o, d) && d.Valid() && |d.s.reqs| == d.s.g > 0
    ensures Committable(d.s) && MidCheckpoint(d)
  {
    StartCheckpoint(d);
  }

  lemma TaggableIs(d: Device)
    requires Committable(d.s) && d.mapents == [] && MidCheckpoint(d) && |d.j.pages| + 1 < LOG_CAP && d.s.v.commit < d.s.g - 1
    ensures Taggable(d, false)
  {
  }

  /** The slot a partly persisted map makes: its first i pages. */
  ghost predicate Persisted(chunks: map<nat, map<nat, Loc>>, m: map<nat, Loc>, i: nat) {
    && (forall k: nat :: k in chunks <==> k < i)
    && (forall k: nat :: k in chunks ==> chunks[k] == ChunkOf(m, k))
  }

  lemma PersistedNone(m: map<nat, Loc>)
    ensures Persisted(map[], m, 0) && EMPTY_SLOT == Slot(map[], None)
  {
  }

  lemma PersistedNext(chunks: map<nat, map<nat, Loc>>, m: map<nat, Loc>, i: nat)
    requires Persisted(chunks, m, i)
    ensures i !in chunks && Persisted(chunks[i := ChunkOf(m, i)], m, i + 1)
    ensures i >= NUM_BANKS ==> i - NUM_BANKS in chunks
    ensures WithChunk(Slot(chunks, None), i, ChunkOf(m, i)) == Slot(chunks[i := ChunkOf(m, i)], None)
  {
  }

  lemma PersistedAll(chunks: map<nat, map<nat, Loc>>, m: map<nat, Loc>)
    requires Persisted(chunks, m, NUM_CHUNKS)
    ensures forall i :: 0 <= i < NUM_CHUNKS ==> i in chunks
  {
  }

  lemma ReclaimParts(d: Device)
    requires ReclaimReady(d) && d.s.g > 1
    ensures |d.flash.slots| == 2 && d.slot < 2 && d.flash.slots[d.slot] == EMPTY_SLOT
    ensures d.s.v.commit > 0 && Before(d.s.g) == d.s.v.commit == d.s.g - 1 && d.mapents == []
  {
  }

  lemma PartSafe(d: Device, chunks: map<nat, map<nat, Loc>>)
    requires ReclaimReady(d)
    ensures |d.flash.slots| == 2 && d.slot < 2
    ensures CrashSafe(Crash(Flash(d.flash.data, d.flash.log, d.flash.slots[d.slot := Slot(chunks, None)]), d.s, d.j))
  {
    PartialMapSafe(d, chunks);
  }

  /** From its commit page on, the new map is what recovery restores. */
  lemma MapComplete(d: Device, chunks: map<nat, map<nat, Loc>>, left: Slot, commit: nat)
    requires ReclaimReady(d) && d.s.v.commit == commit > 0 && Persisted(chunks, d.s.pmap, NUM_CHUNKS)
    requires |d.flash.slots| == 2 && d.slot < 2 && (left == d.flash.slots[1 - d.slot] || left.commit == None)
    ensures NewMap(d, Slot(chunks, Some(commit)), left)
    ensures CrashSafe(Crash(Flash(d.flash.data, d.flash.log, d.flash.slots[d.slot := Slot(chunks, Some(commit))][1 - d.slot := left]), d.s, NewBase(d)))
  {
    hide Device.Valid, CrashSafe, Inv, Persisted, HoldsMap, JustCommitted;
    var slot := Slot(chunks, Some(commit));
    MapInRange(d);
    PersistedHolds(chunks, d.s.pmap, Some(commit));
    NewMapSafe(d, slot, left);
  }

  lemma MapInRange(d: Device)
    requires d.Valid()
    ensures forall l :: l in d.s.pmap ==> l < NUM_LPAGES
  {
    forall l | l in d.s.pmap ensures l < NUM_LPAGES {
      assert Places(d.s.pmap[l], l, d.ks[BankOf(l)]);
    }
  }

  lemma PersistedHolds(chunks: map<nat, map<nat, Loc>>, m: map<nat, Loc>, commit: Option<nat>)
    requires Persisted(chunks, m, NUM_CHUNKS) && forall l :: l in m ==> l < NUM_LPAGES
    ensures HoldsMap(Slot(chunks, commit), m)
  {
  }

  lemma ErasedBank(left: Slot, b: nat)
    ensures WithoutBank(left, b).commit == (if b == 0 then None else left.commit)
    ensures (forall i: nat :: i in left.chunks ==> RoundRobin(i) >= b) ==> forall i: nat :: i in WithoutBank(left, b).chunks ==> RoundRobin(i) >= b + 1
  {
  }

  lemma NothingLeft(left: Slot)
    requires left.commit == None && forall i: nat :: i in left.chunks ==> RoundRobin(i) >= NUM_BANKS
    ensures left == EMPTY_SLOT
  {
    assert left.chunks == map[];
  }

  /** Blocks below cnt of every bank, and block cnt of the banks below b, are erased. */
  ghost predicate ErasedTo(log: map<LogLoc, LogPage>, was: map<LogLoc, LogPage>, cnt: nat, b: nat) {
    && (forall l :: l in log ==> l in was)
    && forall l :: l in log && l.bank < NUM_BANKS ==> l.blk > cnt || (l.blk == cnt && l.bank >= b)
  }

  lemma ErasedStep(log: map<LogLoc, LogPage>, was: map<LogLoc, LogPage>, cnt: nat, b: nat)
    requires ErasedTo(log, was, cnt, b)
    ensures ErasedTo(WithoutLog(log, b, cnt), was, cnt, b + 1)
    ensures cnt > 0 || b > 0 ==> LogAddr(0) !in log
    ensures cnt == 0 && b == 0 ==> LogAddr(0) !in WithoutLog(log, b, cnt)
  {
    assert LogAddr(0) == LogLoc(0, 0, 0);
  }

  lemma ErasedRow(log: map<LogLoc, LogPage>, was: map<LogLoc, LogPage>, cnt: nat)
    requires ErasedTo(log, was, cnt, NUM_BANKS)
    ensures ErasedTo(log, was, cnt + 1, 0)
  {
  }

  lemma ErasedNone(log: map<LogLoc, LogPage>)
    ensures ErasedTo(log, log, 0, 0)
  {
  }

  lemma ErasedAll(log: map<LogLoc, LogPage>, was: map<LogLoc, LogPage>, pages: seq<LogPage>)
    requires ErasedTo(log, was, NUM_LOG_BLKS_PER_BANK, 0) && LogHolds(was, pages) && |pages| < LOG_CAP
    ensures LogHolds(log, [])
  {
    forall k: nat ensures LogAddr(k) !in log {
      if k < |pages| {
        LS.RoomInBank(k);
      }
    }
  }

  lemma ErasingSafe(d: Device, slot: Slot, log: map<LogLoc, LogPage>)
    requires NewMap(d, slot, EMPTY_SLOT) && LogAddr(0) !in log && d.s.v.commit >= 0
    ensures |d.flash.slots| == 2 && d.slot < 2
    ensures CrashSafe(Crash(Flash(d.flash.data, log, d.flash.slots[d.slot := slot][1 - d.slot := EMPTY_SLOT]), d.s, EmptyJournal(d)))
  {
    ErasingLogSafe(d, slot, EMPTY_SLOT, log);
  }

  /** The device once the log is reclaimed. */
  function ReclaimStep(d: Device, slot: Slot, log: map<LogLoc, LogPage>): Device
    requires |d.flash.slots| == 2 && d.slot < 2 && d.s.v.commit >= 0
  {
    Device(Flash(d.flash.data, log, d.flash.slots[d.slot := slot][1 - d.slot := EMPTY_SLOT]), d.ks, d.s, EmptyJournal(d), [], 1 - d.slot)
  }

  lemma ReclaimDone(d: Device, slot: Slot, log: map<LogLoc, LogPage>)
    requires NewMap(d, slot, EMPTY_SLOT) && LogHolds(log, []) && Committable(d.s) && d.s.v.commit >= 0
    ensures |d.flash.slots| == 2 && d.slot < 2
    ensures Taggable(ReclaimStep(d, slot, log), true) && ReclaimStep(d, slot, log).j.pages == []
  {
  }

  lemma WithoutLogSmaller(log: map<LogLoc, LogPage>, b: nat, blk: nat)
    ensures LogAddr(0) !in log ==> LogAddr(0) !in WithoutLog(log, b, blk)
  {
  }

  lemma LogParts(d: Device)
    requires ReclaimReady(d)
    ensures LogHolds(d.flash.log, d.j.pages) && |d.j.pages| < LOG_CAP
  {
  }

  lemma ReclaimFields(d: Device, slot: Slot, log: map<LogLoc, LogPage>)
    requires |d.flash.slots| == 2 && d.slot < 2 && d.s.v.commit >= 0
    ensures var e := ReclaimStep(d, slot, log);
      && e == Device(Flash(d.flash.data, log, d.flash.slots[d.slot := slot][1 - d.slot := EMPTY_SLOT]), d.ks, d.s, e.j, [], 1 - d.slot)
      && e.j.pages == []
    ensures RoundRobin(0) == 0
  {
  }

  lemma RoomWritables(ks: seq<Bank>, qs: seq<Bank>, n: nat, dirty: seq<nat>, p: int, q: int)
    requires HasRoom(ks, n, dirty, p, q) && SameWritables(ks, qs)
    ensures HasRoom(qs, 0, dirty, p, q)
  {
    forall b | 0 <= b < NUM_BANKS ensures Writable(qs[b]) >= dirty[b] + p {
      assert Writable(ks[b]) >= dirty[b] + p;
    }
  }
}
