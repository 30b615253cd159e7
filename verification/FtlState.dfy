/** The parts of the firmware's own state, and that they describe the flash device. */
module FtlState {
  import opened Geometry
  import opened Requests
  import opened Recoverable
  import opened OrderState
  import opened Transfer
  import opened HostSteps
  import opened FlashSteps
  import opened Media
  import opened Chains
  import opened Journals
  import opened Banks
  import opened Nand

  /** Epochs stay clear of the two values that mark erased and copied pages. */
  const MAX_REQS: nat := U32 - 3

  // ---- The data blocks ----

  ghost predicate BanksOK(data: map<Loc, DataPage>, ks: seq<Bank>, lanes: seq<Lane>) {
    |ks| == |lanes| == NUM_BANKS && forall b :: 0 <= b < NUM_BANKS ==> BankOK(data, b, ks[b], lanes[b])
  }

  /** Every bank but b is as it was. */
  lemma OtherBanks(data: map<Loc, DataPage>, other: map<Loc, DataPage>, ks: seq<Bank>, lanes: seq<Lane>, b: nat,
        k: Bank, lane: Lane)
    requires BanksOK(data, ks, lanes) && b < NUM_BANKS
    requires forall l: Loc :: l.bank != b ==> (l in data <==> l in other) && (l in data ==> data[l] == other[l])
    requires BankOK(other, b, k, lane)
    ensures BanksOK(other, ks[b := k], lanes[b := lane])
  {
    var qs, ms := ks[b := k], lanes[b := lane];
    forall c | 0 <= c < NUM_BANKS ensures BankOK(other, c, qs[c], ms[c]) {
      if c != b {
        BankFrame(data, other, c, ks[c], lanes[c]);
      }
    }
  }

  /** Pages are mapped into blocks in use only. */
  ghost predicate MapIn(pmap: map<nat, Loc>, ks: seq<Bank>)
    requires |ks| == NUM_BANKS
  {
    forall l: nat :: l in pmap ==> l < NUM_LPAGES && Places(pmap[l], l, ks[BankOf(l)])
  }

  ghost predicate Places(loc: Loc, lpn: nat, k: Bank) {
    loc.bank == BankOf(lpn) && loc.pg < LAST_PAGE && (loc.blk in k.used || loc.blk in k.chain)
  }

  lemma InUseNotFree(k: Bank, blk: nat)
    requires Blocks(k) && (blk in k.used || blk in k.chain)
    ensures blk !in k.free
  {
    DistinctParts(k);
  }

  /** Collected blocks may be erased at any time. */
  ghost predicate VictimsDisposable(s: State, ks: seq<Bank>)
    requires |ks| == NUM_BANKS && |s.v.lanes| == NUM_BANKS
  {
    forall b: nat :: b < NUM_BANKS && ks[b].vt != 0 ==> Disposable(s, b, ks[b].vt)
  }

  lemma DisposableCarries(s: State, t: State, b: nat, blk: nat)
    requires Extends(s, t) && Disposable(s, b, blk)
    requires forall c, i :: 0 <= c < NUM_BANKS && 0 <= i < |t.v.lanes[c].items| ==> !InBlock(t.v.lanes[c].items[i].loc, b, blk)
    requires forall l: nat :: l in t.pmap ==> !InBlock(t.pmap[l], b, blk)
    ensures Disposable(t, b, blk)
  {
    forall l: nat | l in t.v.cmap && InBlock(t.v.cmap[l], b, blk) ensures HasCopy(t.v, l) || Superseded(t, l) {
      if HasCopy(s.v, l) {
        CopyCarries(s, t, l);
      } else {
        SupersededCarries(s, t, l);
      }
    }
  }

  /** The pages since the commit and the mapped pages are never in a free block. */
  lemma FreeUntouched(data: map<Loc, DataPage>, ks: seq<Bank>, s: State, b: nat, blk: nat)
    requires BanksOK(data, ks, s.v.lanes) && MapIn(s.pmap, ks) && b < NUM_BANKS && blk in ks[b].free
    ensures forall c, i :: 0 <= c < NUM_BANKS && 0 <= i < |s.v.lanes[c].items| ==> !InBlock(s.v.lanes[c].items[i].loc, b, blk)
    ensures forall l: nat :: l in s.pmap ==> !InBlock(s.pmap[l], b, blk)
  {
    forall c, i | 0 <= c < NUM_BANKS && 0 <= i < |s.v.lanes[c].items| ensures !InBlock(s.v.lanes[c].items[i].loc, b, blk) {
      ItemInChain(data, c, ks[c], s.v.lanes[c], i);
      InUseNotFree(ks[c], s.v.lanes[c].items[i].loc.blk);
    }
    forall l: nat | l in s.pmap ensures !InBlock(s.pmap[l], b, blk) {
      InUseNotFree(ks[BankOf(l)], s.pmap[l].blk);
    }
  }

  lemma VictimsCarry(s: State, t: State, ks: seq<Bank>, qs: seq<Bank>)
    requires Extends(s, t) && |ks| == NUM_BANKS
    requires BanksOK(t.data, qs, t.v.lanes) && MapIn(t.pmap, qs)
    requires VictimsDisposable(s, ks)
    requires forall b: nat :: b < NUM_BANKS && qs[b].vt != 0 ==> qs[b].vt == ks[b].vt
    ensures VictimsDisposable(t, qs)
  {
    forall b: nat | b < NUM_BANKS && qs[b].vt != 0 ensures Disposable(t, b, qs[b].vt) {
      assert BankOK(t.data, b, qs[b], t.v.lanes[b]);
      FreeUntouched(t.data, qs, t, b, qs[b].vt);
      DisposableCarries(s, t, b, qs[b].vt);
    }
  }

  // ---- The log and the persisted map ----

  ghost predicate TagsUpTo(j: Journal, commit: int) {
    forall k :: 0 <= k < |j.pages| && j.pages[k].Tag? ==> j.pages[k].epoch == U32 - 1 || j.pages[k].epoch <= commit
  }

  /** The log holds the journal, and the mapping entries buffered since the last tag lead from the map
      that the tag commits to the current one. */
  ghost predicate LogOK(log: map<LogLoc, LogPage>, j: Journal, v: View, pmap: map<nat, Loc>, mapents: seq<(nat, Loc)>) {
    && LogHolds(log, j.pages)
    && v.commit >= -1 && |v.lanes| == NUM_BANKS
    && Settled(j) && Describes(j, v)
    && TagsUpTo(j, v.commit)
    && Replay(v.cmap, mapents) == pmap
  }

  ghost predicate SlotsOK(slots: seq<Slot>, cur: nat, j: Journal, v: View) {
    && SlotsAt(slots, cur, j.base, j.epoch)
    && (j.epoch.Some? ==> j.epoch.value <= v.commit)
  }

  /** Between two operations the device always is a recoverable image. */
  lemma MakeImage(f: Flash, ks: seq<Bank>, j: Journal, v: View)
    requires v.WellFormed()
    requires BanksOK(f.data, ks, v.lanes)
    requires LogReads(f.log, j.pages) && MapReads(f.slots, j.base, j.epoch) && Describes(j, v)
    ensures Image(f, v, j)
  {
    forall b | 0 <= b < NUM_BANKS ensures LaneReads(f.data, b, v.lanes[b]) {
      assert BankOK(f.data, b, ks[b], v.lanes[b]);
    }
  }

  lemma MakeCrashSafe(f: Flash, ks: seq<Bank>, j: Journal, s: State, cur: nat)
    requires Inv(s) && s.data == f.data
    requires BanksOK(f.data, ks, s.v.lanes)
    requires LogHolds(f.log, j.pages) && |j.pages| < LOG_CAP && SlotsAt(f.slots, cur, j.base, j.epoch) && Describes(j, s.v)
    ensures CrashSafe(Crash(f, s, j))
  {
    SlotsRead(f.slots, cur, j.base, j.epoch);
    MakeImage(f, ks, j, s.v);
  }

  // ---- The crashes recorded so far ----

  /** From s to t only requests, floor and commit grew, and every crash recorded in between lies between
      the two. */
  ghost predicate Grown(before: seq<Crash>, s: State, after: seq<Crash>, t: State) {
    && before <= after
    && Later(s, t)
    && forall i :: |before| <= i < |after| ==> Later(s, after[i].s) && Later(after[i].s, t)
  }

  ghost predicate Later(s: State, t: State) {
    s.reqs <= t.reqs && s.floor <= t.floor && s.v.commit <= t.v.commit
  }

  lemma GrownTrans(a: seq<Crash>, s: State, b: seq<Crash>, t: State, c: seq<Crash>, u: State)
    requires Grown(a, s, b, t) && Grown(b, t, c, u)
    ensures Grown(a, s, c, u)
  {
    forall i | |a| <= i < |c| ensures Later(s, c[i].s) && Later(c[i].s, u) {
      if i < |b| {
        assert c[i] == b[i];
      }
    }
  }

  lemma GrownNone(a: seq<Crash>, s: State)
    ensures Grown(a, s, a, s)
  {
  }

  lemma LaterSame(s: State)
    ensures Later(s, s)
  {
  }

  lemma GrownPrefix(a: seq<Crash>, s: State, b: seq<Crash>, t: State)
    requires Grown(a, s, b, t)
    ensures a <= b
  {
  }

  lemma GrownLast(a: seq<Crash>, s: State, b: seq<Crash>, t: State, u: State)
    requires Grown(a, s, b, t) && Later(t, u)
    ensures Grown(a, s, b, u)
  {
  }

  lemma GrownOne(a: seq<Crash>, s: State, c: Crash)
    requires Later(s, c.s)
    ensures Grown(a, s, a + [c], c.s)
  {
  }

  /** Every crash recorded between a and b has the dependencies deps still buffered. */
  ghost predicate Holding(a: seq<Crash>, deps: seq<Dep>, b: seq<Crash>) {
    a <= b && forall i :: |a| <= i < |b| ==> b[i].s.deps == deps
  }

  lemma HoldingNone(a: seq<Crash>, deps: seq<Dep>)
    ensures Holding(a, deps, a)
  {
  }

  lemma HoldingOne(a: seq<Crash>, c: Crash)
    ensures Holding(a, c.s.deps, a + [c])
  {
  }

  lemma HoldingTrans(a: seq<Crash>, b: seq<Crash>, c: seq<Crash>, deps: seq<Dep>)
    requires Holding(a, deps, b) && Holding(b, deps, c)
    ensures Holding(a, deps, c)
  {
    forall i | |a| <= i < |c| ensures c[i].s.deps == deps {
      if i < |b| {
        assert c[i] == b[i];
      }
    }
  }

  // ---- Steps on the banks ----

  function LaneAfter(lanes: seq<Lane>, b: nat, it: Item): seq<Lane>
    requires b < |lanes|
  {
    lanes[b := lanes[b].(items := lanes[b].items + [it])]
  }

  lemma FillBanks(data: map<Loc, DataPage>, ks: seq<Bank>, lanes: seq<Lane>, b: nat, page: DataPage)
    requires BanksOK(data, ks, lanes) && b < NUM_BANKS && ks[b].fill < LAST_PAGE && !page.Summary? && BankOf(page.lpn) == b
    ensures var l := Loc(b, ks[b].Active(), ks[b].fill);
      && l !in data && |ks[b].lpns| == LAST_PAGE
      && (l.pg > 0 ==> Loc(l.bank, l.blk, l.pg - 1) in data)
      && BanksOK(data[l := page], ks[b := Filled(ks[b], page.lpn)], LaneAfter(lanes, b, Item(l, page)))
  {
    var l := Loc(b, ks[b].Active(), ks[b].fill);
    FillBank(data, b, ks[b], lanes[b], page);
    OtherBanks(data, data[l := page], ks, lanes, b, Filled(ks[b], page.lpn), lanes[b].(items := lanes[b].items + [Item(l, page)]));
  }

  lemma LinkBanks(data: map<Loc, DataPage>, ks: seq<Bank>, lanes: seq<Lane>, b: nat)
    requires BanksOK(data, ks, lanes) && b < NUM_BANKS && ks[b].fill == LAST_PAGE && |ks[b].free| >= 2
    ensures var k := ks[b]; var l := Loc(b, k.Active(), LAST_PAGE);
      && l !in data && Loc(b, k.Active(), LAST_PAGE - 1) in data
      && BanksOK(data[l := Summary(k.lpns, k.free[0])], ks[b := Linked(k)], lanes[b := lanes[b].(blks := lanes[b].blks + [k.free[0]])])
  {
    var k := ks[b];
    var l := Loc(b, k.Active(), LAST_PAGE);
    LinkBank(data, b, k, lanes[b]);
    OtherBanks(data, data[l := Summary(k.lpns, k.free[0])], ks, lanes, b, Linked(k), lanes[b].(blks := lanes[b].blks + [k.free[0]]));
  }

  lemma EraseBanks(data: map<Loc, DataPage>, ks: seq<Bank>, lanes: seq<Lane>, b: nat)
    requires BanksOK(data, ks, lanes) && b < NUM_BANKS && ks[b].vt != 0
    ensures BanksOK(Without(data, b, ks[b].vt), ks[b := ks[b].(vt := 0)], lanes)
  {
    EraseBank(data, Without(data, b, ks[b].vt), b, ks[b], lanes[b]);
    OtherBanks(data, Without(data, b, ks[b].vt), ks, lanes, b, ks[b].(vt := 0), lanes[b]);
    assert lanes[b := lanes[b]] == lanes;
  }

  lemma RetireBanks(data: map<Loc, DataPage>, ks: seq<Bank>, lanes: seq<Lane>, b: nat)
    requires BanksOK(data, ks, lanes) && b < NUM_BANKS && ks[b].vt == 0 && |ks[b].used| > 0 && ks[b].used[0] > 0
    ensures BanksOK(data, ks[b := Retire(ks[b])], lanes)
  {
    RetireBank(data, b, ks[b], lanes[b]);
  }

  lemma SwapBanks(data: map<Loc, DataPage>, ks: seq<Bank>, lanes: seq<Lane>, b: nat, i: nat)
    requires BanksOK(data, ks, lanes) && b < NUM_BANKS && i < |ks[b].used|
    ensures BanksOK(data, ks[b := Swapped(ks[b], i)], lanes)
  {
    SwapBank(data, b, ks[b], lanes[b], i);
  }

  function PushedLanes(ks: seq<Bank>): seq<Lane>
    requires forall b :: 0 <= b < |ks| ==> |ks[b].chain| > 0
  {
    seq<Lane>(|ks|, b requires 0 <= b < |ks| => Lane([ks[b].Active()], ks[b].fill, []))
  }

  lemma PushBanks(data: map<Loc, DataPage>, ks: seq<Bank>, qs: seq<Bank>, lanes: seq<Lane>)
    requires BanksOK(data, ks, lanes) && |qs| == NUM_BANKS
    requires forall b :: 0 <= b < NUM_BANKS ==> |ks[b].chain| > 0 && qs[b] == Pushed(ks[b])
    ensures BanksOK(data, qs, PushedLanes(ks))
  {
    forall b | 0 <= b < NUM_BANKS ensures BankOK(data, b, qs[b], PushedLanes(ks)[b]) {
      PushBank(data, b, ks[b], lanes[b]);
    }
  }
}
