/** What garbage collection makes of the device, and why it ends. */
module Collection {
  import opened Geometry
  import opened Recoverable
  import opened OrderState
  import opened FlashSteps
  import opened Banks
  import opened Sums
  import opened Arith
  import opened Room
  import opened FtlState
  import opened DeviceSteps
  import opened ValidCounts
  import opened Effects
  import R = Ring
  import opened N = Nand

  /** Between o and d, bank b only took copies of pages. */
  ghost predicate Kept(o: Device, d: Device, b: nat) {
    && |d.ks| == |o.ks| == NUM_BANKS && b < NUM_BANKS
    && d.ks == o.ks[b := d.ks[b]] && d.ks[b].used == o.ks[b].used && d.ks[b].vt == o.ks[b].vt
    && SameHost(o, d)
    && forall l :: l in o.flash.data ==> l in d.flash.data && d.flash.data[l] == o.flash.data[l]
  }

  /** The host's view, the log and the cache are the same. */
  ghost predicate SameHost(o: Device, d: Device) {
    && d.j == o.j && d.slot == o.slot
    && d.s.reqs == o.s.reqs && d.s.g == o.s.g && d.s.enq == o.s.enq && d.s.deps == o.s.deps
    && d.s.floor == o.s.floor && d.s.v.commit == o.s.v.commit && d.s.cache == o.s.cache
  }

  lemma KeptTrans(a: Device, b: Device, c: Device, bank: nat)
    requires Kept(a, b, bank) && Kept(b, c, bank)
    ensures Kept(a, c, bank)
  {
  }

  lemma KeptNone(d: Device, bank: nat)
    requires bank < NUM_BANKS == |d.ks|
    ensures Kept(d, d, bank)
  {
  }

  lemma KeptByLink(o: Device, d: Device, b: nat)
    requires NextPageFree(o, d, b) && o.s.data == o.flash.data && d.s.data == d.flash.data
    ensures Kept(o, d, b) && d.mapents == o.mapents && d.s.pmap == o.s.pmap
    ensures d.ks[b].fill < LAST_PAGE && |d.ks[b].chain| > 0 && Writable(d.ks[b]) == Writable(o.ks[b])
  {
  }

  /** vt is the block that bank b collects: the first of its used ones; list is what its summary page holds.
      The cache was flushed. */
  ghost predicate Collecting(d: Device, b: nat, vt: nat, list: seq<nat>) {
    && b < NUM_BANKS == |d.ks| && |d.ks[b].used| > 0 && d.ks[b].used[0] == vt && d.ks[b].vt == 0
    && Loc(b, vt, LAST_PAGE) in d.flash.data && d.flash.data[Loc(b, vt, LAST_PAGE)].Summary?
    && d.flash.data[Loc(b, vt, LAST_PAGE)].lpns == list && |list| == LAST_PAGE
    && d.s.v.commit >= 0 && AllClean(d.s) && d.s.floor == |d.s.reqs|
  }

  lemma CollectingKept(o: Device, d: Device, b: nat, vt: nat, list: seq<nat>)
    requires Collecting(o, b, vt, list) && Kept(o, d, b)
    ensures Collecting(d, b, vt, list)
  {
    assert forall l: nat :: d.s.Dirty(l) <==> o.s.Dirty(l);
  }

  lemma KeptUsed(o: Device, d: Device, b: nat)
    requires Kept(o, d, b)
    ensures b < NUM_BANKS == |d.ks| == |o.ks| && d.ks[b].used == o.ks[b].used
  {
  }

  lemma KeptReqs(o: Device, d: Device, b: nat)
    requires Kept(o, d, b)
    ensures d.s.reqs == o.s.reqs && d.s.floor == o.s.floor
  {
  }

  lemma CollectingList(d: Device, b: nat, vt: nat, list: seq<nat>)
    requires Collecting(d, b, vt, list)
    ensures |list| == LAST_PAGE
  {
  }

  /** What copying page lpn out of the victim makes of the device. */
  lemma CopyOnly(d: Device, lpn: nat, vt: nat, list: seq<nat>) returns (e: Device)
    requires d.Valid() && Sized(d.ks, |d.mapents|, d.s.v.commit) && Collecting(d, BankOf(lpn), vt, list)
    requires lpn in d.s.pmap && d.s.pmap[lpn].blk == vt && |d.ks| == NUM_BANKS && d.ks[BankOf(lpn)].fill < LAST_PAGE
    ensures e.Valid() && CrashSafe(Crash(e.flash, e.s, e.j)) && Sized(e.ks, |e.mapents|, e.s.v.commit)
    ensures Later(d.s, e.s) && Kept(d, e, BankOf(lpn)) && e.s.cache == d.s.cache
    ensures var b := BankOf(lpn); var k := d.ks[b]; |k.chain| > 0 && |k.lpns| == LAST_PAGE
    ensures var from := d.s.pmap[lpn]; from in d.flash.data && !d.flash.data[from].Summary?
    ensures var b := BankOf(lpn); var k := d.ks[b]; var l := Loc(b, k.chain[|k.chain| - 1], k.fill);
      && l !in d.flash.data && l.blk != vt
      && e == Device(d.flash.(data := d.flash.data[l := Copy(lpn, d.flash.data[d.s.pmap[lpn]].content)]),
                     d.ks[b := k.(fill := k.fill + 1, lpns := k.lpns[k.fill := lpn])],
                     e.s, d.j, d.mapents + [(lpn, l)], d.slot)
      && e.s == d.s.(data := e.s.data, v := e.s.v, pmap := d.s.pmap[lpn := l])
      && Writable(e.ks[b]) == Writable(k) - 1
  {
    var b := BankOf(lpn);
    hide Device.Valid, CrashSafe, Sized, Inv, CopyStep, Later, AllClean;
    DeviceParts(d, b);
    VictimNotActive(d, b);
    assert Movable(d, lpn);
    CopyStepParts(d, lpn);
    CopyStepValid(d, lpn);
    e := CopyStep(d, lpn);
    FilledSized(d.ks, b, lpn, |d.mapents|, d.s.v.commit);
    CopyFields(d, lpn);
  }

  lemma VictimNotActive(d: Device, b: nat)
    requires d.Valid() && b < NUM_BANKS == |d.ks| && |d.ks[b].used| > 0
    ensures |d.ks[b].chain| > 0 && d.ks[b].used[0] in d.ks[b].used && d.ks[b].used[0] != d.ks[b].chain[|d.ks[b].chain| - 1]
  {
    BankAt(d, b);
    DistinctParts(d.ks[b]);
  }

  lemma CopyFields(d: Device, lpn: nat)
    requires |d.ks| == |d.s.v.lanes| == NUM_BANKS && d.s.data == d.flash.data
    requires lpn in d.s.pmap && d.s.pmap[lpn] in d.s.data && !d.s.data[d.s.pmap[lpn]].Summary?
    requires var k := d.ks[BankOf(lpn)]; |k.chain| > 0 && k.fill < LAST_PAGE == |k.lpns| && d.NextLoc(BankOf(lpn)) !in d.s.data
    ensures var b := BankOf(lpn); var k := d.ks[b]; var l := Loc(b, k.chain[|k.chain| - 1], k.fill);
      var e := CopyStep(d, lpn);
      && e == Device(d.flash.(data := d.flash.data[l := Copy(lpn, d.flash.data[d.s.pmap[lpn]].content)]),
                     d.ks[b := k.(fill := k.fill + 1, lpns := k.lpns[k.fill := lpn])],
                     e.s, d.j, d.mapents + [(lpn, l)], d.slot)
      && e.s == d.s.(data := e.s.data, v := e.s.v, pmap := d.s.pmap[lpn := l])
      && Later(d.s, e.s) && Kept(d, e, b) && e.s.v.commit == d.s.v.commit
      && e.ks == d.ks[b := Filled(k, lpn)] && d.NextLoc(b) == l
  {
  }

  ghost predicate SameCounts(was: map<(nat, nat), nat>, now: map<(nat, nat), nat>, b: nat, blks: seq<nat>) {
    forall i :: 0 <= i < |blks| ==> CountOf(now, b, blks[i]) == CountOf(was, b, blks[i])
  }

  lemma SameCountsNone(was: map<(nat, nat), nat>, b: nat, blks: seq<nat>)
    ensures SameCounts(was, was, b, blks)
  {
  }

  lemma SameCountsTrans(x: map<(nat, nat), nat>, y: map<(nat, nat), nat>, z: map<(nat, nat), nat>, b: nat, blks: seq<nat>)
    requires SameCounts(x, y, b, blks) && SameCounts(y, z, b, blks)
    ensures SameCounts(x, z, b, blks)
  {
  }

  /** Counting a page in the active block changes no count of a block that may be collected. */
  lemma SameCountsByActive(d: Device, vcount: map<(nat, nat), nat>, b: nat, n: nat)
    requires d.Valid() && b < NUM_BANKS == |d.ks| && |d.ks[b].chain| > 0
    ensures SameCounts(vcount, Counted(vcount, b, d.ks[b].chain[|d.ks[b].chain| - 1], n), b, d.ks[b].used)
  {
    BankAt(d, b);
    DistinctParts(d.ks[b]);
  }

  /** vt is the first of the blocks with the fewest valid pages. */
  ghost predicate FirstLeast(blks: seq<nat>, vcount: map<(nat, nat), nat>, b: nat, vt: nat) {
    exists k: nat :: LeastAt(blks, vcount, b, vt, k)
  }

  ghost predicate LeastAt(blks: seq<nat>, vcount: map<(nat, nat), nat>, b: nat, vt: nat, k: nat) {
    && k < |blks| && blks[k] == vt
    && (forall i :: 0 <= i < |blks| ==> CountOf(vcount, b, vt) <= CountOf(vcount, b, blks[i]))
    && (forall i :: 0 <= i < k ==> CountOf(vcount, b, vt) < CountOf(vcount, b, blks[i]))
  }

  lemma FirstLeastIs(blks: seq<nat>, vcount: map<(nat, nat), nat>, b: nat, vt: nat, k: nat)
    requires k < |blks| && blks[k] == vt
    requires forall i :: 0 <= i < |blks| ==> CountOf(vcount, b, vt) <= CountOf(vcount, b, blks[i])
    requires forall i :: 0 <= i < k ==> CountOf(vcount, b, vt) < CountOf(vcount, b, blks[i])
    ensures FirstLeast(blks, vcount, b, vt)
  {
    assert LeastAt(blks, vcount, b, vt, k);
  }

  /** Every block that bank b may collect is full of valid pages. */
  ghost predicate NoGain(k: Bank, vcount: map<(nat, nat), nat>, b: nat) {
    |k.used| > 0 && forall i :: 0 <= i < |k.used| ==> CountOf(vcount, b, k.used[i]) >= LAST_PAGE
  }

  /** What makes the source's assertions in garbage collection fail: the buffer of mapping entries is full, or a bank
      that is short of free blocks has none to gain. */
  ghost predicate Stuck(ks: seq<Bank>, n: nat, vcount: map<(nat, nat), nat>) {
    n >= MAX_MAPENTS || exists b: nat :: b < |ks| && |ks[b].free| < GC_THRESHOLD && NoGain(ks[b], vcount, b)
  }

  /** How many free blocks a bank is short of. */
  function ShortOf(k: Bank): nat {
    if |k.free| < GC_THRESHOLD then GC_THRESHOLD - |k.free| else 0
  }

  function Shorts(ks: seq<Bank>): seq<nat> {
    seq<nat>(|ks|, b requires 0 <= b < |ks| => ShortOf(ks[b]))
  }

  /** The banks together are short of more blocks than the batch threshold. */
  predicate BatchShort(ks: seq<Bank>) {
    Total(Shorts(ks)) > BATCH_GC_THRESHOLD
  }

  lemma StuckFull(ks: seq<Bank>, n: nat, vcount: map<(nat, nat), nat>)
    requires n >= MAX_MAPENTS
    ensures Stuck(ks, n, vcount)
  {
  }

  lemma StuckBank(o: Bank, ks: seq<Bank>, n: nat, was: map<(nat, nat), nat>, now: map<(nat, nat), nat>, b: nat, vt: nat)
    requires b < |ks| && |ks[b].used| > 0 && ks[b].used == o.used
    requires forall i :: 0 <= i < |o.used| ==> CountOf(was, b, vt) <= CountOf(was, b, o.used[i])
    requires CountOf(was, b, vt) >= LAST_PAGE && SameCounts(was, now, b, o.used) && |ks[b].free| < GC_THRESHOLD
    ensures Stuck(ks, n, now)
  {
    assert NoGain(ks[b], now, b);
  }

  /** A bank from which pages were taken has not gained free blocks by it. */
  lemma StillShort(k: Bank, q: Bank, n: nat)
    requires |k.free| < GC_THRESHOLD && q.fill <= LAST_PAGE && Writable(q) == Writable(k) - n && n >= LAST_PAGE
    ensures |q.free| < GC_THRESHOLD
  {
    MulMonotone(|k.free| + 1, GC_THRESHOLD, LAST_PAGE);
    if |q.free| >= GC_THRESHOLD {
      MulMonotone(GC_THRESHOLD, |q.free|, LAST_PAGE);
    }
  }

  /** Pages below pg of the block are not mapped any more. */
  ghost predicate Remaining(pmap: map<nat, Loc>, b: nat, blk: nat, pg: nat) {
    forall l: nat :: l in pmap && InBlock(pmap[l], b, blk) ==> pmap[l].pg >= pg
  }

  /** The comparison that finds valid pages: what the summary page names is mapped to this very page, or
      nothing is. */
  lemma ValidPage(d: Device, b: nat, vt: nat, list: seq<nat>, pg: nat)
    requires d.Valid() && Collecting(d, b, vt, list) && pg < LAST_PAGE
    ensures BankOf(list[pg]) == b
    ensures var lpn := list[pg]; lpn in d.s.pmap && d.s.pmap[lpn].blk == vt && d.s.pmap[lpn].pg == pg ==> d.s.pmap[lpn] == Loc(b, vt, pg)
    ensures forall l: nat :: l in d.s.pmap && d.s.pmap[l] == Loc(b, vt, pg) ==> l == list[pg]
  {
    BankAt(d, b);
    assert Closed(d.flash.data, b, d.ks[b].used[0]);
    assert Holds(d.flash.data, Loc(b, vt, pg), list[pg]);
    forall l: nat | l in d.s.pmap ensures d.s.pmap[l] == Loc(b, vt, pg) ==> l == list[pg]
      ensures d.s.pmap[l].bank == BankOf(l)
    {
      MappedInData(d, l);
    }
  }

  lemma NothingRemains(d: Device, b: nat, vt: nat)
    requires d.Valid() && Remaining(d.s.pmap, b, vt, LAST_PAGE)
    ensures Emptied(d, b, vt) && MappedTo(d.s.pmap, b, vt) == {}
  {
    forall l: nat | l in d.s.pmap ensures !InBlock(d.s.pmap[l], b, vt) {
      MappedInData(d, l);
    }
  }

  lemma RemainingAll(pmap: map<nat, Loc>, b: nat, vt: nat)
    ensures Remaining(pmap, b, vt, 0)
  {
  }

  lemma RemainingNext(pmap: map<nat, Loc>, b: nat, vt: nat, pg: nat, lpn: nat)
    requires Remaining(pmap, b, vt, pg)
    requires forall l: nat :: l in pmap && pmap[l] == Loc(b, vt, pg) ==> l == lpn
    ensures !(lpn in pmap && pmap[lpn] == Loc(b, vt, pg)) ==> Remaining(pmap, b, vt, pg + 1)
    ensures forall loc: Loc :: loc.blk != vt ==> Remaining(pmap[lpn := loc], b, vt, pg + 1)
  {
  }

  lemma SwapOnly(d: Device, b: nat, i: nat) returns (e: Device)
    requires d.Valid() && Sized(d.ks, |d.mapents|, d.s.v.commit) && b < NUM_BANKS == |d.ks| && i < |d.ks[b].used|
    ensures e.Valid() && Sized(e.ks, |e.mapents|, e.s.v.commit) && Writable(e.ks[b]) == Writable(d.ks[b])
    ensures e == d.(ks := d.ks[b := d.ks[b].(used := d.ks[b].used[0 := d.ks[b].used[i]][i := d.ks[b].used[0]])])
  {
    hide Device.Valid, Sized;
    e := SwapStep(d, b, i);
    SwapStepValid(d, b, i);
    SwappedSized(d.ks, b, i, |d.mapents|, d.s.v.commit);
  }

  /** A bank that is short of free blocks has a victim, and that has its summary page. */
  lemma VictimThere(d: Device, b: nat)
    requires d.Valid() && Sized(d.ks, |d.mapents|, d.s.v.commit) && b < NUM_BANKS == |d.ks|
    requires |d.mapents| <= MAX_MAPENTS && |d.ks[b].free| < GC_THRESHOLD
    ensures |d.ks[b].used| > 0 && d.s.v.commit >= 0
  {
    BankAt(d, b);
    assert SizedBank(d.ks[b], |d.mapents|, d.s.v.commit);
    HasVictim(d.ks[b], |d.mapents|, d.s.v.commit);
  }

  lemma SummaryThere(d: Device, b: nat, i: nat)
    requires d.Valid() && b < NUM_BANKS == |d.ks| && i < |d.ks[b].used|
    ensures var l := Loc(b, d.ks[b].used[i], LAST_PAGE);
      l in d.flash.data && d.flash.data[l].Summary? && |d.flash.data[l].lpns| == LAST_PAGE
  {
    BankAt(d, b);
    assert Closed(d.flash.data, b, d.ks[b].used[i]);
  }

  lemma RetireOnly(d: Device, b: nat) returns (e: Device)
    requires d.Valid() && Sized(d.ks, |d.mapents|, d.s.v.commit) && b < NUM_BANKS == |d.ks| && |d.ks[b].used| > 0
    requires d.ks[b].vt == 0 && Emptied(d, b, d.ks[b].used[0]) && AllClean(d.s) && d.s.floor == |d.s.reqs|
    ensures e.Valid() && Sized(e.ks, |e.mapents|, e.s.v.commit) && Writable(e.ks[b]) == Writable(d.ks[b]) + LAST_PAGE
    ensures var k := d.ks[b]; e == d.(ks := d.ks[b := k.(used := k.used[1..], free := k.free + [k.used[0]], vt := k.used[0])])
  {
    assert SizedBank(d.ks[b], |d.mapents|, d.s.v.commit);
    RetireStepValid(d, b);
    RetiredSized(d.ks, b, |d.mapents|, d.s.v.commit);
    e := RetireStep(d, b);
  }

  lemma TailIsNotRsv(r: R.Ring)
    requires r.Valid() && |r.Used()| > 0
    ensures r.tail != r.rsv
  {
  }

  lemma CollectingIs(d: Device, b: nat, vt: nat, list: seq<nat>)
    requires b < NUM_BANKS == |d.ks| && |d.ks[b].used| > 0 && d.ks[b].used[0] == vt && d.ks[b].vt == 0
    requires Loc(b, vt, LAST_PAGE) in d.flash.data && d.flash.data[Loc(b, vt, LAST_PAGE)].Summary?
    requires d.flash.data[Loc(b, vt, LAST_PAGE)].lpns == list && |list| == LAST_PAGE
    requires d.s.v.commit >= 0 && AllClean(d.s) && d.s.floor == |d.s.reqs|
    ensures Collecting(d, b, vt, list)
  {
  }

  lemma CollectingParts(d: Device, b: nat, vt: nat, list: seq<nat>)
    requires Collecting(d, b, vt, list)
    ensures b < NUM_BANKS == |d.ks| && |d.ks[b].used| > 0 && d.ks[b].used[0] == vt && d.ks[b].vt == 0
    ensures AllClean(d.s) && d.s.floor == |d.s.reqs|
  {
  }

  lemma SameHostIs(o: Device, d: Device)
    requires d == o.(ks := d.ks)
    ensures SameHost(o, d)
  {
  }

  lemma FreeNotLowered(k: Bank, q: Bank)
    requires Writable(q) > Writable(k) && k.fill <= LAST_PAGE && q.fill <= LAST_PAGE
    ensures |q.free| >= |k.free|
  {
    if |q.free| < |k.free| {
      MulMonotone(|q.free| + 1, |k.free|, LAST_PAGE);
    }
  }

  lemma CleanSame(s: State, t: State)
    requires AllClean(s) && t == s.(data := t.data)
    ensures AllClean(t)
  {
    assert forall l: nat :: t.Dirty(l) <==> s.Dirty(l);
  }

  lemma SameHostVia(a: Device, b: Device, c: Device, d: Device, e: Device, bank: nat)
    requires b.s == a.s.(data := b.s.data) && Drained(a, b)
    requires SameHost(b, c) && Kept(c, d, bank) && SameHost(d, e)
    requires bank < NUM_BANKS == |a.ks| == |b.ks| == |c.ks| == |d.ks| == |e.ks|
    requires b.ks == a.ks[bank := b.ks[bank]] && c.ks == b.ks[bank := c.ks[bank]] && e.ks == d.ks[bank := e.ks[bank]]
    ensures SameHost(a, e) && e.ks == a.ks[bank := e.ks[bank]]
  {
  }

  lemma SameHostTrans(a: Device, b: Device, c: Device)
    requires SameHost(a, b) && SameHost(b, c)
    ensures SameHost(a, c)
    ensures AllClean(b.s) ==> AllClean(c.s)
    ensures b.s.floor == |b.s.reqs| ==> c.s.floor == |c.s.reqs|
  {
    assert forall l: nat :: c.s.Dirty(l) <==> b.s.Dirty(l);
  }

  /** The bank collected one of its used blocks: that is pending now, and more pages can be programmed. */
  ghost predicate CollectedOne(k: Bank, q: Bank) {
    && q.vt in k.used && |q.used| == |k.used| - 1
    && Writable(q) > Writable(k) && |q.free| >= |k.free|
  }

  /** Every bank that was short of free blocks collected one, and no other. */
  ghost predicate RoundDone(ks: seq<Bank>, qs: seq<Bank>, n: nat) {
    && n <= |ks| == |qs|
    && (forall b :: 0 <= b < n ==> if |ks[b].free| < GC_THRESHOLD then CollectedOne(ks[b], qs[b]) else qs[b] == ks[b])
    && (forall b :: n <= b < |ks| ==> qs[b] == ks[b])
  }

  lemma RoundNone(ks: seq<Bank>)
    ensures RoundDone(ks, ks, 0)
  {
  }

  lemma RoundNext(ks: seq<Bank>, qs: seq<Bank>, n: nat, more: seq<Bank>)
    requires RoundDone(ks, qs, n) && n < |ks| && |more| == |qs| && more == qs[n := more[n]]
    requires if |qs[n].free| < GC_THRESHOLD then CollectedOne(qs[n], more[n]) else more == qs
    ensures RoundDone(ks, more, n + 1)
  {
  }

  lemma CollectedIs(k: Bank, c: Bank, r: Bank, q: Bank, vt: nat)
    requires vt in k.used && |c.used| == |k.used| && r.used == c.used && |r.used| > 0 && q.used == r.used[1..] && q.vt == vt
    requires Writable(q) > Writable(k) && |q.free| >= |k.free|
    ensures CollectedOne(k, q)
  {
  }

  lemma CollectedRoom(k: Bank, q: Bank)
    requires CollectedOne(k, q)
    ensures Writable(q) > Writable(k) && |q.free| >= |k.free|
  {
  }

  /** What a bank lacks; positive as long as it is short of free blocks. */
  function Deficit(k: Bank): nat {
    var want := GC_THRESHOLD * LAST_PAGE + 1;
    if Writable(k) < want then want - Writable(k) else 0
  }

  function Deficits(ks: seq<Bank>): seq<nat> {
    seq<nat>(|ks|, b requires 0 <= b < |ks| => Deficit(ks[b]))
  }

  lemma DeficitDown(ks: seq<Bank>, b: nat, k: Bank)
    requires b < |ks| && |ks[b].free| < GC_THRESHOLD && Writable(k) > Writable(ks[b])
    ensures Total(Deficits(ks[b := k])) < Total(Deficits(ks))
  {
    MulMonotone(|ks[b].free| + 1, GC_THRESHOLD, LAST_PAGE);
    assert (|ks[b].free| + 1) * LAST_PAGE == |ks[b].free| * LAST_PAGE + LAST_PAGE;
    assert Deficit(k) < Deficit(ks[b]);
    TotalUpdate(Deficits(ks), b, Deficit(k));
    assert Deficits(ks[b := k]) == Deficits(ks)[b := Deficit(k)];
  }

  /** After the flush and the garbage collection of a write. */
  ghost predicate GcDone(d: Device) {
    && (forall b :: 0 <= b < |d.ks| ==> |d.ks[b].free| >= GC_THRESHOLD)
    && AllClean(d.s) && d.s.deps == [] && d.s.floor == |d.s.reqs|
  }

  lemma GcDoneIs(o: Device, d: Device)
    requires SameHost(o, d) && AllClean(o.s) && o.s.deps == [] && o.s.floor == |o.s.reqs|
    requires forall b :: 0 <= b < |d.ks| ==> |d.ks[b].free| >= GC_THRESHOLD
    ensures GcDone(d)
  {
    assert forall l: nat :: d.s.Dirty(l) <==> o.s.Dirty(l);
  }

  lemma SameHostReqs(o: Device, d: Device)
    requires SameHost(o, d)
    ensures d.s.reqs == o.s.reqs && d.s.v.commit == o.s.v.commit && d.s.floor == o.s.floor && d.s.deps == o.s.deps
  {
  }
}
