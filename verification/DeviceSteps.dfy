/** The firmware and the flash device together, between two operations, and the operations on data blocks:
    each keeps the whole consistent, and leaves a device that a crash may find. */
module DeviceSteps {
  import opened Geometry
  import opened Requests
  import opened Recoverable
  import opened OrderState
  import opened Transfer
  import opened HostSteps
  import opened FlashSteps
  import opened Media
  import opened Chains
  import opened Journals
  import opened Banks
  import opened Nand
  import opened FtlState

  /** ks are the blocks of each bank, mapents the mapping entries buffered since the last tag, slot the map
      slot that the next full map goes to. */
  datatype Device = Device(flash: Flash, ks: seq<Bank>, s: State, j: Journal, mapents: seq<(nat, Loc)>, slot: nat) {
    ghost predicate Valid() {
      && Inv(s) && |s.reqs| <= MAX_REQS && s.data == flash.data
      && BanksOK(flash.data, ks, s.v.lanes)
      && MapIn(s.pmap, ks)
      && VictimsDisposable(s, ks)
      && LogOK(flash.log, j, s.v, s.pmap, mapents) && |j.pages| < LOG_CAP
      && SlotsOK(flash.slots, slot, j, s.v)
    }

    function Now(): Crash {
      Crash(flash, s, j)
    }

    function NextLoc(b: nat): Loc
      requires b < |ks| && |ks[b].chain| > 0
    {
      Loc(b, ks[b].Active(), ks[b].fill)
    }
  }

  lemma BankAt(d: Device, b: nat)
    requires d.Valid() && b < NUM_BANKS
    ensures BankOK(d.flash.data, b, d.ks[b], d.s.v.lanes[b])
    ensures Blocks(d.ks[b]) && |d.ks[b].lpns| == LAST_PAGE && d.ks[b].fill <= LAST_PAGE
  {
  }

  /** Any moment between two operations is a safe one to crash at. */
  lemma ValidIsSafe(d: Device)
    requires d.Valid()
    ensures d.Now() == Crash(d.flash, d.s, d.j) && CrashSafe(d.Now())
  {
    MakeCrashSafe(d.flash, d.ks, d.j, d.s, d.slot);
  }

  /** The lanes start where they did. */
  ghost predicate SameStarts(lanes: seq<Lane>, other: seq<Lane>) {
    |lanes| == |other| == NUM_BANKS && forall b :: 0 <= b < NUM_BANKS ==> SameStart(lanes[b], other[b])
  }

  predicate SameStart(lane: Lane, other: Lane) {
    |lane.blks| > 0 && |other.blks| > 0 && lane.blks[0] == other.blks[0] && lane.start == other.start
  }

  /** The log describes what it did if the commit, its map and the logged dependencies are the same, and
      the lanes still start where they did. */
  lemma LogKept(d: Device, v: View, pmap: map<nat, Loc>, mapents: seq<(nat, Loc)>)
    requires LogOK(d.flash.log, d.j, d.s.v, d.s.pmap, d.mapents)
    requires v.commit == d.s.v.commit && v.cmap == d.s.v.cmap && v.deps == d.s.v.deps
    requires SameStarts(d.s.v.lanes, v.lanes)
    requires Replay(v.cmap, mapents) == pmap
    ensures LogOK(d.flash.log, d.j, v, pmap, mapents)
  {
    forall b | 0 <= b < NUM_BANKS ensures StartsAt(v.lanes[b], d.j.pages[d.j.tag].active[b]) {
      assert StartsAt(d.s.v.lanes[b], d.j.pages[d.j.tag].active[b]) && SameStart(d.s.v.lanes[b], v.lanes[b]);
    }
  }

  /** A step on the data blocks leaves the log and the persisted map as they are. */
  ghost predicate DataStep(d: Device, e: Device) {
    && e.flash == d.flash.(data := e.s.data) && e.j == d.j && e.slot == d.slot
    && e.s.reqs == d.s.reqs && e.s.v.deps == d.s.v.deps
    && Extends(d.s, e.s)
    && SameStarts(d.s.v.lanes, e.s.v.lanes)
    && Replay(d.s.v.cmap, e.mapents) == e.s.pmap
    && |d.ks| == |e.ks| == NUM_BANKS
    && forall b: nat :: b < NUM_BANKS && e.ks[b].vt != 0 ==> e.ks[b].vt == d.ks[b].vt
  }

  lemma DataStepValid(d: Device, e: Device)
    requires d.Valid() && DataStep(d, e)
    requires Inv(e.s) && BanksOK(e.s.data, e.ks, e.s.v.lanes) && MapIn(e.s.pmap, e.ks)
    ensures e.Valid() && CrashSafe(e.Now())
  {
    LogKept(d, e.s.v, e.s.pmap, e.mapents);
    VictimsCarry(d.s, e.s, d.ks, e.ks);
    ValidIsSafe(e);
  }

  lemma ReplayOne(m: map<nat, Loc>, ents: seq<(nat, Loc)>, lpn: nat, loc: Loc)
    ensures Replay(m, ents + [(lpn, loc)]) == Replay(m, ents)[lpn := loc]
  {
    var more := ents + [(lpn, loc)];
    assert more[..|more| - 1] == ents;
  }

  lemma LanesStart(d: Device, b: nat, lane: Lane)
    requires d.Valid() && b < NUM_BANKS
    requires lane.start == d.s.v.lanes[b].start && d.s.v.lanes[b].blks <= lane.blks
    ensures SameStarts(d.s.v.lanes, d.s.v.lanes[b := lane])
  {
    forall c | 0 <= c < NUM_BANKS ensures |d.s.v.lanes[c].blks| > 0 {
      BankAt(d, c);
    }
  }

  lemma Basics(d: Device, b: nat)
    requires d.Valid() && b < NUM_BANKS
    ensures |d.ks| == |d.s.v.lanes| == NUM_BANKS && d.s.data == d.flash.data
    ensures Replay(d.s.v.cmap, d.mapents) == d.s.pmap && MapIn(d.s.pmap, d.ks)
    ensures |d.ks[b].chain| > 0 && |d.ks[b].lpns| == LAST_PAGE && d.s.v.lanes[b].blks == d.ks[b].chain
  {
    BankAt(d, b);
  }

  // ---- The active block is closed and the next one opened ----

  function LinkStep(d: Device, b: nat): Device
    requires b < |d.ks| == |d.s.v.lanes| && |d.ks[b].chain| > 0 && |d.ks[b].free| > 0
  {
    var k := d.ks[b];
    var s := Link(d.s, b, k.Active(), k.lpns, k.free[0]);
    d.(flash := d.flash.(data := s.data), ks := d.ks[b := Linked(k)], s := s)
  }

  lemma LinkStepParts(d: Device, b: nat)
    requires d.Valid() && b < NUM_BANKS && d.ks[b].fill == LAST_PAGE && |d.ks[b].free| >= 2
    ensures |d.ks[b].chain| > 0
    ensures var e := LinkStep(d, b);
      && Loc(b, d.ks[b].Active(), LAST_PAGE) !in d.flash.data
      && Loc(b, d.ks[b].Active(), LAST_PAGE - 1) in d.flash.data
      && Inv(e.s) && SameItems(d.s, e.s) && e.s.pmap == d.s.pmap && e.s.v.cmap == d.s.v.cmap
      && BanksOK(e.flash.data, e.ks, e.s.v.lanes)
  {
    BankAt(d, b);
    LinkBanks(d.flash.data, d.ks, d.s.v.lanes, b);
    var k := d.ks[b];
    LinkInv(d.s, b, k.Active(), k.lpns, k.free[0]);
    LinkExtends(d.s, b, k.Active(), k.lpns, k.free[0]);
  }

  lemma LinkMapIn(d: Device, b: nat)
    requires |d.ks| == |d.s.v.lanes| == NUM_BANKS && b < NUM_BANKS && |d.ks[b].chain| > 0 && |d.ks[b].free| > 0 && MapIn(d.s.pmap, d.ks)
    ensures MapIn(d.s.pmap, LinkStep(d, b).ks)
  {
    var e := LinkStep(d, b);
    forall l: nat | l in d.s.pmap ensures Places(d.s.pmap[l], l, e.ks[BankOf(l)]) {
      assert Places(d.s.pmap[l], l, d.ks[BankOf(l)]);
    }
  }

  lemma LinkStepValid(d: Device, b: nat)
    requires d.Valid() && b < NUM_BANKS && d.ks[b].fill == LAST_PAGE && |d.ks[b].free| >= 2
    ensures |d.ks[b].chain| > 0
    ensures LinkStep(d, b).Valid() && CrashSafe(LinkStep(d, b).Now())
  {
    hide Device.Valid, Inv, BanksOK, CrashSafe, Extends, MapIn, SameStarts;
    Basics(d, b);
    LinkStepParts(d, b);
    var e := LinkStep(d, b);
    LinkMapIn(d, b);
    LanesStart(d, b, d.s.v.lanes[b].(blks := d.s.v.lanes[b].blks + [d.ks[b].free[0]]));
    DataStepValid(d, e);
  }

  // ---- A dirty page is written back to the active block ----

  function WriteBackStep(d: Device, lpn: nat): Device
    requires |d.ks| == |d.s.v.lanes| == NUM_BANKS && lpn in d.s.cache
    requires var k := d.ks[BankOf(lpn)]; |k.chain| > 0 && k.fill < |k.lpns|
  {
    var b := BankOf(lpn);
    var s := WriteBack(d.s, lpn, d.NextLoc(b));
    d.(flash := d.flash.(data := s.data), ks := d.ks[b := Filled(d.ks[b], lpn)], s := s,
       mapents := d.mapents + [(lpn, d.NextLoc(b))])
  }

  lemma WriteBackStepParts(d: Device, lpn: nat)
    requires d.Valid() && d.s.Dirty(lpn) && d.ks[BankOf(lpn)].fill < LAST_PAGE
    ensures var k := d.ks[BankOf(lpn)]; |k.chain| > 0 && k.fill < |k.lpns|
    ensures var e := WriteBackStep(d, lpn); var l := d.NextLoc(BankOf(lpn));
      && CanProgram(d.s, l, HostPage(d.s, lpn))
      && (l.pg > 0 ==> Loc(l.bank, l.blk, l.pg - 1) in d.flash.data)
      && Inv(e.s) && Extends(d.s, e.s)
      && BanksOK(e.flash.data, e.ks, e.s.v.lanes)
  {
    var b := BankOf(lpn);
    BankAt(d, b);
    FillBanks(d.flash.data, d.ks, d.s.v.lanes, b, HostPage(d.s, lpn));
    assert EntryOK(d.s, lpn);
    WriteBackInv(d.s, lpn, d.NextLoc(b));
    WriteBackExtends(d.s, lpn, d.NextLoc(b));
  }

  lemma MapInStep(d: Device, ks: seq<Bank>, lpn: nat, b: nat, q: Bank)
    requires |d.ks| == NUM_BANKS && b == BankOf(lpn) && MapIn(d.s.pmap, d.ks)
    requires ks == d.ks[b := q] && q.used == d.ks[b].used && q.chain == d.ks[b].chain && |q.chain| > 0
    requires d.ks[b].fill < LAST_PAGE && lpn < NUM_LPAGES
    ensures MapIn(d.s.pmap[lpn := d.NextLoc(b)], ks)
  {
  }

  lemma WriteBackStepValid(d: Device, lpn: nat)
    requires d.Valid() && d.s.Dirty(lpn) && lpn < NUM_LPAGES && d.ks[BankOf(lpn)].fill < LAST_PAGE
    ensures var k := d.ks[BankOf(lpn)]; |k.chain| > 0 && k.fill < |k.lpns|
    ensures WriteBackStep(d, lpn).Valid() && CrashSafe(WriteBackStep(d, lpn).Now())
  {
    hide Device.Valid, Inv, BanksOK, CrashSafe, Extends, MapIn, SameStarts, CanProgram;
    var b := BankOf(lpn);
    Basics(d, b);
    var e := WriteBackStep(d, lpn);
    WriteBackStepParts(d, lpn);
    MapInStep(d, e.ks, lpn, b, Filled(d.ks[b], lpn));
    LanesStart(d, b, e.s.v.lanes[b]);
    ReplayOne(d.s.v.cmap, d.mapents, lpn, d.NextLoc(b));
    DataStepValid(d, e);
  }

  // ---- Garbage collection moves a page of its victim ----

  function CopyStep(d: Device, lpn: nat): Device
    requires |d.ks| == |d.s.v.lanes| == NUM_BANKS
    requires lpn in d.s.pmap && d.s.pmap[lpn] in d.s.data && !d.s.data[d.s.pmap[lpn]].Summary?
    requires var k := d.ks[BankOf(lpn)]; |k.chain| > 0 && k.fill < |k.lpns|
  {
    var b := BankOf(lpn);
    var s := CopyBack(d.s, lpn, d.NextLoc(b));
    d.(flash := d.flash.(data := s.data), ks := d.ks[b := Filled(d.ks[b], lpn)], s := s,
       mapents := d.mapents + [(lpn, d.NextLoc(b))])
  }

  /** A valid page of a block closed before the commit. */
  ghost predicate Movable(d: Device, lpn: nat)
    requires |d.ks| == NUM_BANKS
  {
    && lpn in d.s.pmap && d.s.pmap[lpn].blk in d.ks[BankOf(lpn)].used
    && AllClean(d.s) && d.s.v.commit >= 0
  }

  lemma UsedNotInLane(d: Device, lpn: nat)
    requires d.Valid() && Movable(d, lpn)
    ensures !InLane(d.s.v, lpn, d.s.pmap[lpn])
  {
    var b := BankOf(lpn);
    BankAt(d, b);
    ItemsNotUsed(d.flash.data, b, d.ks[b], d.s.v.lanes[b]);
  }

  lemma ItemsNotUsed(data: map<Loc, DataPage>, b: nat, k: Bank, lane: Lane)
    requires BankOK(data, b, k, lane)
    ensures forall i :: 0 <= i < |lane.items| ==> lane.items[i].loc.blk !in k.used
  {
    DistinctParts(k);
    forall i | 0 <= i < |lane.items| ensures lane.items[i].loc.blk !in k.used {
      ItemInChain(data, b, k, lane, i);
    }
  }

  lemma CopyStepParts(d: Device, lpn: nat)
    requires d.Valid() && Movable(d, lpn) && d.ks[BankOf(lpn)].fill < LAST_PAGE
    ensures var k := d.ks[BankOf(lpn)]; |k.chain| > 0 && k.fill < |k.lpns|
    ensures d.s.pmap[lpn] in d.s.data && !d.s.data[d.s.pmap[lpn]].Summary?
    ensures var e := CopyStep(d, lpn); var l := d.NextLoc(BankOf(lpn));
      && CanCopy(d.s, lpn, l) && l !in d.flash.data
      && Inv(e.s) && Extends(d.s, e.s)
      && BanksOK(e.flash.data, e.ks, e.s.v.lanes)
  {
    var b := BankOf(lpn);
    BankAt(d, b);
    UsedNotInLane(d, lpn);
    assert MappedPage(d.s, lpn);
    FillBanks(d.flash.data, d.ks, d.s.v.lanes, b, CopiedPage(d.s, lpn));
    assert !d.s.Dirty(lpn);
    CopyBackInv(d.s, lpn, d.NextLoc(b));
    ProgramExtends(d.s, d.NextLoc(b), CopiedPage(d.s, lpn));
  }

  lemma PlacesIn(d: Device, lpn: nat)
    requires d.Valid() && Movable(d, lpn)
    ensures lpn < NUM_LPAGES && lpn in d.s.pmap
  {
    assert Places(d.s.pmap[lpn], lpn, d.ks[BankOf(lpn)]);
  }

  lemma CopyStepValid(d: Device, lpn: nat)
    requires d.Valid() && Movable(d, lpn) && d.ks[BankOf(lpn)].fill < LAST_PAGE
    ensures var k := d.ks[BankOf(lpn)]; |k.chain| > 0 && k.fill < |k.lpns|
    ensures d.s.pmap[lpn] in d.s.data && !d.s.data[d.s.pmap[lpn]].Summary?
    ensures CopyStep(d, lpn).Valid() && CrashSafe(CopyStep(d, lpn).Now())
  {
    hide Device.Valid, Inv, BanksOK, CrashSafe, Extends, SameStarts, CanCopy, Movable, AllClean;
    var b := BankOf(lpn);
    Basics(d, b);
    CopyStepParts(d, lpn);
    var e := CopyStep(d, lpn);
    PlacesIn(d, lpn);
    MapInStep(d, e.ks, lpn, b, Filled(d.ks[b], lpn));
    LanesStart(d, b, e.s.v.lanes[b]);
    ReplayOne(d.s.v.cmap, d.mapents, lpn, d.NextLoc(b));
    DataStepValid(d, e);
  }

  // ---- A collected block is erased ----

  function EraseStep(d: Device, b: nat): Device
    requires b < |d.ks|
  {
    var s := Erase(d.s, b, d.ks[b].vt);
    d.(flash := d.flash.(data := s.data), ks := d.ks[b := d.ks[b].(vt := 0)], s := s)
  }

  lemma EraseParts(d: Device, b: nat)
    requires d.Valid() && b < NUM_BANKS && d.ks[b].vt != 0
    ensures var e := EraseStep(d, b); Inv(e.s) && Extends(d.s, e.s) && BanksOK(e.s.data, e.ks, e.s.v.lanes)
  {
    EraseInv(d.s, b, d.ks[b].vt);
    EraseBanks(d.flash.data, d.ks, d.s.v.lanes, b);
  }

  lemma EraseMapIn(d: Device, b: nat)
    requires |d.ks| == NUM_BANKS && b < NUM_BANKS && MapIn(d.s.pmap, d.ks)
    ensures MapIn(d.s.pmap, EraseStep(d, b).ks)
  {
    var e := EraseStep(d, b);
    forall l: nat | l in d.s.pmap ensures Places(d.s.pmap[l], l, e.ks[BankOf(l)]) {
      assert Places(d.s.pmap[l], l, d.ks[BankOf(l)]);
    }
  }

  lemma EraseStepValid(d: Device, b: nat)
    requires d.Valid() && b < NUM_BANKS && d.ks[b].vt != 0
    ensures EraseStep(d, b).Valid() && CrashSafe(EraseStep(d, b).Now())
  {
    hide Device.Valid, Inv, BanksOK, CrashSafe, Extends, MapIn, SameStarts, Disposable;
    Basics(d, b);
    var e := EraseStep(d, b);
    EraseParts(d, b);
    EraseMapIn(d, b);
    LanesStart(d, b, d.s.v.lanes[b]);
    assert d.s.v.lanes[b := d.s.v.lanes[b]] == d.s.v.lanes;
    DataStepValid(d, e);
  }

  // ---- Garbage collection swaps its victim to the tail and, in the end, retires it ----

  function SwapStep(d: Device, b: nat, i: nat): Device
    requires b < |d.ks| && i < |d.ks[b].used|
  {
    d.(ks := d.ks[b := Swapped(d.ks[b], i)])
  }

  lemma SwappedPlaces(loc: Loc, lpn: nat, k: Bank, i: nat)
    requires i < |k.used| && Places(loc, lpn, k)
    ensures Places(loc, lpn, Swapped(k, i))
  {
    if loc.blk in k.used {
      var n :| 0 <= n < |k.used| && k.used[n] == loc.blk;
      assert Swapped(k, i).used[if n == 0 then i else if n == i then 0 else n] == loc.blk;
    }
  }

  lemma SwapStepValid(d: Device, b: nat, i: nat)
    requires d.Valid() && b < NUM_BANKS && i < |d.ks[b].used|
    ensures SwapStep(d, b, i).Valid()
  {
    hide Inv, BanksOK, MapIn, VictimsDisposable, LogOK, SlotsOK;
    Basics(d, b);
    SwapBanks(d.flash.data, d.ks, d.s.v.lanes, b, i);
    SwapMapIn(d.s.pmap, d.ks, b, i);
    SwapVictims(d.s, d.ks, b, i);
  }

  lemma SwapMapIn(pmap: map<nat, Loc>, ks: seq<Bank>, b: nat, i: nat)
    requires |ks| == NUM_BANKS && b < NUM_BANKS && i < |ks[b].used| && MapIn(pmap, ks)
    ensures MapIn(pmap, ks[b := Swapped(ks[b], i)])
  {
    var qs := ks[b := Swapped(ks[b], i)];
    forall l: nat | l in pmap ensures Places(pmap[l], l, qs[BankOf(l)]) {
      assert Places(pmap[l], l, ks[BankOf(l)]);
      if BankOf(l) == b {
        SwappedPlaces(pmap[l], l, ks[b], i);
      }
    }
  }

  lemma SwapVictims(s: State, ks: seq<Bank>, b: nat, i: nat)
    requires |ks| == |s.v.lanes| == NUM_BANKS && b < NUM_BANKS && i < |ks[b].used| && VictimsDisposable(s, ks)
    ensures VictimsDisposable(s, ks[b := Swapped(ks[b], i)])
  {
    var qs := ks[b := Swapped(ks[b], i)];
    forall c: nat | c < NUM_BANKS && qs[c].vt != 0 ensures Disposable(s, c, qs[c].vt) {
      assert Disposable(s, c, ks[c].vt);
    }
  }

  function RetireStep(d: Device, b: nat): Device
    requires b < |d.ks| && |d.ks[b].used| > 0
  {
    d.(ks := d.ks[b := Retire(d.ks[b])])
  }

  ghost predicate Emptied(d: Device, b: nat, blk: nat) {
    forall l: nat :: l in d.s.pmap ==> !InBlock(d.s.pmap[l], b, blk)
  }

  lemma RetireMapIn(d: Device, b: nat)
    requires |d.ks| == NUM_BANKS && b < NUM_BANKS && |d.ks[b].used| > 0
    requires MapIn(d.s.pmap, d.ks) && Emptied(d, b, d.ks[b].used[0])
    ensures MapIn(d.s.pmap, RetireStep(d, b).ks)
  {
    var k, q := d.ks[b], Retire(d.ks[b]);
    forall l: nat | l in d.s.pmap ensures Places(d.s.pmap[l], l, RetireStep(d, b).ks[BankOf(l)]) {
      assert Places(d.s.pmap[l], l, d.ks[BankOf(l)]);
      if BankOf(l) == b && d.s.pmap[l].blk in k.used {
        assert !InBlock(d.s.pmap[l], b, k.used[0]);
        var n :| 0 <= n < |k.used| && k.used[n] == d.s.pmap[l].blk;
        assert q.used[n - 1] == k.used[n];
      }
    }
  }

  lemma RetireStepValid(d: Device, b: nat)
    requires d.Valid() && b < NUM_BANKS && |d.ks[b].used| > 0 && d.ks[b].vt == 0 && d.ks[b].used[0] > 0
    requires Emptied(d, b, d.ks[b].used[0])
    requires AllClean(d.s) && d.s.floor == |d.s.reqs|
    ensures RetireStep(d, b).Valid()
  {
    var e := RetireStep(d, b);
    var vt := d.ks[b].used[0];
    BankAt(d, b);
    RetireBanks(d.flash.data, d.ks, d.s.v.lanes, b);
    RetireMapIn(d, b);
    FreeUntouched(d.flash.data, e.ks, d.s, b, vt);
    CollectedBlockDisposable(d.s, b, vt);
    forall c: nat | c < NUM_BANKS && e.ks[c].vt != 0 ensures Disposable(e.s, c, e.ks[c].vt) {
      if c != b {
        assert e.ks[c] == d.ks[c];
      }
    }
  }
}
