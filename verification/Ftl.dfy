/** The firmware: ftl.c, and the parts of cache.c, pgmap.c, log.c and blkmgr.c that drive the flash. Every
    operation is proved to leave, at each of its flash operations, a device that recovery brings back to a
    prefix of the write requests. */
module Ftl {
  import opened Geometry
  import opened Requests
  import opened Recoverable
  import opened OrderState
  import opened Transfer
  import opened HostSteps
  import opened FlashSteps
  import opened Media
  import opened Journals
  import opened Banks
  import opened Sums
  import opened Arith
  import opened Room
  import opened FtlState
  import opened DeviceSteps
  import opened LogSteps
  import opened Format
  import opened ValidCounts
  import opened N = Nand
  import R = Ring
  import B = BlkMgr
  import opened W = WriteCache
  import LS = LogSpace
  import opened Wiring
  import opened Effects
  import opened Collection
  import opened Checkpoints
  import opened Service

  function RingDist(a: nat, b: nat, n: nat): nat
    requires a < n && b < n
  {
    if a <= b then b - a else b + n - a
  }

  /** How often get_clean_cache_buf may still go round: until the pool reaches its bank, and then until the
      index reaches a clean buffer. */
  function PollsLeft(pool: nat, bank: nat, idx: nat, clean: Option<nat>): nat
    requires pool < NUM_BANKS && bank < NUM_BANKS && idx < W.NC && (clean.Some? ==> clean.value < W.NC)
  {
    if clean.None? then W.NC + RingDist(pool, bank, NUM_BANKS) else RingDist(idx, clean.value, W.NC)
  }

  lemma PollsLeftBy(pool: nat, bank: nat, idx: nat, clean: Option<nat>)
    requires pool < NUM_BANKS && bank < NUM_BANKS && idx < W.NC && (clean.Some? ==> clean.value < W.NC)
    ensures clean.Some? ==> PollsLeft(pool, bank, idx, clean) < W.NC
    ensures clean.None? ==> PollsLeft(pool, bank, idx, clean) >= W.NC
    ensures Wrap(pool, NUM_BANKS) < NUM_BANKS && Wrap(idx, W.NC) < W.NC
    ensures (if clean.Some? then idx != clean.value else pool != bank) ==>
              PollsLeft(Wrap(pool, NUM_BANKS), bank, Wrap(idx, W.NC), clean) < PollsLeft(pool, bank, idx, clean)
  {
  }

  class Ftl {
    const nand: N.Nand
    const blk: B.BlkMgr
    const cache: W.WriteCache
    const space: LS.LogSpace

    var gEpoch: nat
    var gPgSpan: nat
    /** PAGE_MAP: a page that is not in the map has ppn 0. */
    var pmap: map<nat, Loc>
    /** active_ppns, and for each bank the list of the active block's pages (LPNS). */
    var active: seq<Pos>
    var lpns: seq<seq<nat>>
    /** The dependencies and mapping entries that are still to be logged. */
    var deps: seq<Dep>
    var mapents: seq<(nat, Loc)>
    var bankActive: nat
    var requireFlushDepent: bool
    var mapBlkIdx: nat
    var poolBank: nat
    /** What all this amounts to. */
    ghost var d: Device

    /** The firmware's fields describe the device d. */
    ghost predicate Wired()
      reads this, nand, blk, space
    {
      && nand.Valid() && blk.Valid()
      && d.flash == nand.Content()
      && Mirrors(d.ks, blk.rings, blk.vt, lpns)
      && d.s.g == gEpoch && d.s.pmap == pmap && d.s.deps == deps && d.mapents == mapents && d.slot == mapBlkIdx
      && LogAligned()
    }

    /** And the device is consistent. */
    ghost predicate Core()
      reads this, nand, blk, space
    {
      && Wired()
      && d.Valid() && Sized(d.ks, |d.mapents|, d.s.v.commit)
    }

    ghost predicate LogAligned()
      reads this, space
    {
      && space.Striped(|d.j.pages|) && bankActive == RoundRobin(|d.j.pages|)
      && space.logBlkCnt + Total(space.blkLog) == NUM_LOG_BLKS_PER_BANK * NUM_BANKS
    }

    /** ftl_open on a new device: format() and its tag page. blank is what the buffers hold initially. */
    constructor (blocks: seq<seq<nat>>, blank: seq<nat>)
      requires Rings(blocks) && |blank| == SECTORS_PER_PAGE
      ensures fresh(nand) && fresh(blk) && fresh(cache) && fresh(space)
      ensures Valid() && Between(d, cache.nDirty) && d.s.reqs == [] && nand.crashes == [Crash(d.flash, d.s, d.j)]
      ensures (forall b :: 0 <= b < |blocks| ==> |blocks[b]| > 0) && d == Formatted(blocks) && !requireFlushDepent
      ensures |cache.nDirty| == NUM_BANKS && forall b :: 0 <= b < NUM_BANKS ==> cache.nDirty[b] == 0
    {
      RingsParts(blocks);
      nand := new N.Nand();
      blk := new B.BlkMgr(blocks);
      cache := new W.WriteCache(blank);
      space := new LS.LogSpace();
      gEpoch, gPgSpan, pmap, deps, mapents := 0, 0, map[], [], [];
      active := seq<Pos>(NUM_BANKS, b requires 0 <= b < NUM_BANKS => Pos(blocks[b][0], 0));
      lpns := seq<seq<nat>>(NUM_BANKS, b => NoLpns());
      bankActive, requireFlushDepent, mapBlkIdx, poolBank := 0, false, 1, 0;
      new;
      Format(blocks);
    }

    /** format: once every block is erased, the first tag page. */
    method Format(blocks: seq<seq<nat>>)
      requires cache.Valid() && cache.view == map[] && |cache.nDirty| == NUM_BANKS && blk.vcount == map[] && poolBank == 0
      requires forall b :: 0 <= b < NUM_BANKS ==> cache.nDirty[b] == 0
      requires nand.crashes == [] && !requireFlushDepent
      requires Rings(blocks) && |active| == |lpns| == |blk.rings| == |blk.vt| == NUM_BANKS
      requires nand.Valid() && nand.data == map[] && nand.log == map[] && nand.slots == [EMPTY_SLOT, EMPTY_SLOT]
      requires blk.Valid() && space.Striped(0) && space.logBlkCnt == NUM_LOG_BLKS_PER_BANK * NUM_BANKS - Total(space.blkLog)
      requires forall b :: 0 <= b < NUM_BANKS ==> blk.vt[b] == 0 && |blocks[b]| > 0 && blk.rings[b].Valid()
      requires forall b :: 0 <= b < NUM_BANKS ==>
                 blk.rings[b].Used() == [] && blk.rings[b].Chain() == [blocks[b][0]] && blk.rings[b].Free() == blocks[b][1..]
      requires forall b :: 0 <= b < NUM_BANKS ==> active[b] == Pos(blocks[b][0], 0) && lpns[b] == NoLpns()
      requires gEpoch == 0 && pmap == map[] && deps == [] && mapents == [] && mapBlkIdx == 1 && bankActive == 0
      modifies this`bankActive, this`d, nand, blk`rings, space
      ensures Valid() && Between(d, cache.nDirty) && d.s.reqs == [] && nand.crashes == [Crash(d.flash, d.s, d.j)]
      ensures (forall b :: 0 <= b < |blocks| ==> |blocks[b]| > 0) && d == Formatted(blocks) && !requireFlushDepent
    {
      hide *;
      ghost var e := FormattedParts(blocks, active);
      ghost var rings := blk.rings;
      blk.PushRsv();
      FreshMirrors(blocks, rings, blk.rings, blk.vt, lpns);
      PersistTag(e);
      d := e;
      Close();
      NothingCounted();
      CloseAll();
      BetweenAtFirst(blocks, d, cache.nDirty);
    }

    /** persist_tag, and the bank of the next log page. e is the device once the tag is programmed. */
    method PersistTag(ghost e: Device)
      requires nand.Valid() && CrashSafe(Crash(e.flash, e.s, e.j))
      requires 0 < |e.j.pages| <= LOG_CAP
      requires space.Striped(|e.j.pages| - 1) && bankActive == RoundRobin(|e.j.pages| - 1)
      requires LogReady(nand.log, LogAddr(|e.j.pages| - 1))
      requires e.flash == Flash(nand.data, nand.log[LogAddr(|e.j.pages| - 1) := Tag(Before(gEpoch), active)], nand.slots)
      modifies this`bankActive, nand, space
      ensures nand.Valid() && Flash(nand.data, nand.log, nand.slots) == e.flash
      ensures nand.crashes == old(nand.crashes) + [Crash(e.flash, e.s, e.j)]
      ensures space.Striped(|e.j.pages|) && bankActive == RoundRobin(|e.j.pages|)
      ensures space.logBlkCnt + Total(space.blkLog) == old(space.logBlkCnt + Total(space.blkLog))
    {
      hide *;
      var epochLatest := Before(gEpoch);
      var loc := space.Next(|e.j.pages| - 1, bankActive);
      nand.ProgramLog(loc, Tag(epochLatest, active), e.s, e.j);
      bankActive := Wrap(bankActive, NUM_BANKS);
    }

    /** What Wired means, for bodies that hide it. */
    lemma Open()
      requires Core() || Wired()
      ensures Core() ==> d.Valid() && Sized(d.ks, |d.mapents|, d.s.v.commit) && Wired()
      ensures nand.Valid() && blk.Valid()
      ensures d.flash == Flash(nand.data, nand.log, nand.slots)
      ensures Mirrors(d.ks, blk.rings, blk.vt, lpns)
      ensures d.s.g == gEpoch && d.s.pmap == pmap && d.s.deps == deps && d.mapents == mapents && d.slot == mapBlkIdx
      ensures space.Striped(|d.j.pages|) && bankActive == RoundRobin(|d.j.pages|)
      ensures space.logBlkCnt + Total(space.blkLog) == NUM_LOG_BLKS_PER_BANK * NUM_BANKS
      ensures |d.ks| == |blk.rings| == |blk.vt| == |lpns| == NUM_BANKS
    {
    }

    lemma Close()
      requires nand.Valid() && blk.Valid()
      requires d.flash == Flash(nand.data, nand.log, nand.slots)
      requires Mirrors(d.ks, blk.rings, blk.vt, lpns)
      requires d.s.g == gEpoch && d.s.pmap == pmap && d.s.deps == deps && d.mapents == mapents && d.slot == mapBlkIdx
      requires space.Striped(|d.j.pages|) && bankActive == RoundRobin(|d.j.pages|)
      requires space.logBlkCnt + Total(space.blkLog) == NUM_LOG_BLKS_PER_BANK * NUM_BANKS
      ensures Wired()
      ensures d.Valid() && Sized(d.ks, |d.mapents|, d.s.v.commit) ==> Core()
    {
    }

    lemma CloseCore()
      requires Wired() && d.Valid() && Sized(d.ks, |d.mapents|, d.s.v.commit)
      ensures Core()
    {
    }

    /** The active block is full: its summary page is programmed, with the link to the next free block. */
    method OpenNextBlk(bank: nat, full: nat) returns (clean: nat)
      requires Core() && bank < NUM_BANKS == |d.ks| && |d.ks[bank].chain| > 0 && full == d.ks[bank].chain[|d.ks[bank].chain| - 1]
      requires d.ks[bank].fill == LAST_PAGE && Writable(d.ks[bank]) >= 2 * LAST_PAGE
      modifies this`lpns, this`d, nand, blk`rings
      ensures Core() && NextPageFree(old(d), d, bank)
      ensures bank < |d.ks| && |d.ks[bank].chain| > 0 && clean == d.ks[bank].chain[|d.ks[bank].chain| - 1] && d.ks[bank].fill == 0
      ensures Grown(old(nand.crashes), old(d.s), nand.crashes, d.s)
      ensures Holding(old(nand.crashes), old(d.s.deps), nand.crashes)
    {
      hide *;
      Open();
      LinkReady(d, bank);
      MirrorAt(d.ks, blk.rings, blk.vt, lpns, bank);
      ghost var rings, was := blk.rings, lpns;
      ghost var e := LinkOnly(d, bank);
      clean := blk.GetAndIncActiveBlk(bank);
      nand.ProgramPage(Loc(bank, full, LAST_PAGE), Summary(lpns[bank], clean), e.s, e.j);
      lpns := lpns[bank := NoLpns()];
      MirrorsUpdate(d.ks, rings, blk.vt, was, bank, e.ks[bank], blk.rings, blk.vt, lpns);
      GrownOne(old(nand.crashes), d.s, Crash(e.flash, e.s, e.j));
      HoldingOne(old(nand.crashes), Crash(e.flash, e.s, e.j));
      d := e;
      Close();
    }

    /** get_and_inc_active_ppn: the next page of the bank. */
    method GetAndIncActivePpn(bank: nat) returns (ppn: Pos)
      requires Core() && AlignedWith(active, d.ks)
      requires bank < NUM_BANKS == |d.ks| && Writable(d.ks[bank]) >= 2 * LAST_PAGE
      modifies this`active, this`lpns, this`d, nand, blk`rings
      ensures Core() && NextPageFree(old(d), d, bank)
      ensures bank < |d.ks| && |d.ks[bank].chain| > 0 && ppn == Pos(d.ks[bank].chain[|d.ks[bank].chain| - 1], d.ks[bank].fill)
      ensures Ahead(active, d.ks, bank)
      ensures Grown(old(nand.crashes), old(d.s), nand.crashes, d.s)
      ensures Holding(old(nand.crashes), old(d.s.deps), nand.crashes)
    {
      hide *;
      Open();
      AlignedAt(active, d.ks, bank);
      ppn := active[bank];
      if ppn.pg == LAST_PAGE {
        var clean := OpenNextBlk(bank, ppn.blk);
        ppn := Pos(clean, 0);
      } else {
        NoLink(d, bank);
        GrownNone(nand.crashes, d.s);
        HoldingNone(nand.crashes, d.s.deps);
      }
      TakeNext(active, old(d), d, bank, ppn);
      Open();
      active := active[bank := Pos(ppn.blk, ppn.pg + 1)];
      Close();
    }

    // ---- cache.c ----

    ghost predicate Valid()
      reads this, nand, blk, space, cache
    {
      && Core() && AlignedWith(active, d.ks)
      && cache.Valid() && cache.view == d.s.cache
      && Exact(blk.vcount, pmap)
      && poolBank < NUM_BANKS
    }

    lemma OpenAll()
      requires Valid()
      ensures Core() && AlignedWith(active, d.ks)
      ensures cache.Valid() && cache.view == d.s.cache
      ensures Exact(blk.vcount, pmap)
      ensures poolBank < NUM_BANKS == |d.ks| && d.Valid()
    {
    }

    lemma CloseAll()
      requires Core() && AlignedWith(active, d.ks)
      requires cache.Valid() && cache.view == d.s.cache
      requires Exact(blk.vcount, pmap)
      requires poolBank < NUM_BANKS
      ensures Valid()
    {
    }

    /** dequeue gives up the old copy of the page it writes back. */
    method UncountOldPage(lpn: nat)
      requires Exact(blk.vcount, pmap) && d.Valid() && d.s.pmap == pmap
      modifies blk`vcount
      ensures ExactWithout(blk.vcount, pmap, lpn)
    {
      hide *;
      if lpn in pmap {
        DownOne(blk.vcount, pmap, lpn);
        blk.DecVcount(pmap[lpn].bank, pmap[lpn].blk);
      } else {
        DownNone(blk.vcount, pmap, lpn);
      }
    }

    /** set_lpn */
    method SetLpn(bank: nat, page: nat, lpn: nat)
      requires bank < |lpns| && page < |lpns[bank]|
      modifies this`lpns
      ensures |lpns| == |old(lpns)| && lpns == old(lpns)[bank := lpns[bank]]
      ensures lpns[bank] == old(lpns)[bank][page := lpn]
    {
      var list: seq<nat> := lpns[bank][page := lpn];
      lpns := lpns[bank := list];
    }

    /** log_insert_mapent */
    method LogInsertMapent(lpn: nat, loc: Loc)
      requires |mapents| < MAX_MAPENTS  // asserted by the source
      modifies this`mapents
      ensures mapents == old(mapents) + [(lpn, loc)]
    {
      mapents := mapents + [(lpn, loc)];
    }

    /** dequeue, on an idle bank: the least recently used dirty page is written back. True if there is none. */
    method Dequeue(bank: nat, ghost p: nat, ghost q: nat) returns (clean: bool)
      requires Valid() && bank < NUM_BANKS && p >= 2 * LAST_PAGE && q <= MAX_MAPENTS
      requires HasRoom(d.ks, |d.mapents|, cache.nDirty, p, q)
      modifies this`active, this`lpns, this`pmap, this`mapents, this`d, nand, blk`rings, blk`vcount, cache
      ensures Valid() && HasRoom(d.ks, |d.mapents|, cache.nDirty, p, q)
      ensures Drained(old(d), d) && Cleaned(old(cache.ents), cache.ents) && cache.lru == old(cache.lru)
      ensures |old(cache.nDirty)| == NUM_BANKS && (clean <==> old(cache.nDirty)[bank] == 0)
      ensures cache.nDirty == if clean then old(cache.nDirty) else old(cache.nDirty)[bank := old(cache.nDirty)[bank] - 1]
      ensures |d.mapents| == |old(d).mapents| + if clean then 0 else 1
      ensures if clean then cache.ents == old(cache.ents) else OldestCleaned(old(cache.ents), old(cache.lru), cache.ents, bank)
      ensures Grown(old(nand.crashes), old(d.s), nand.crashes, d.s)
      ensures Holding(old(nand.crashes), old(d.s.deps), nand.crashes)
    {
      hide *;
      OpenAll();
      cache.Lengths();
      var id := cache.OldestDirty(bank);
      if id.None? {
        DrainedNone(d);
        CleanedNone(cache.ents);
        GrownNone(nand.crashes, d.s);
        HoldingNone(nand.crashes, d.s.deps);
        return true;
      }
      cache.BufferAt(bank, id.value);
      var x := cache.ents[bank][id.value];
      OldestCleanedIs(cache.ents, cache.lru, bank, id.value);
      WriteBackPage(bank, id.value, x.lpn.value, x, p, q);
      return false;
    }

    method WriteBackPage(bank: nat, id: nat, lpn: nat, x: Buffer, ghost p: nat, ghost q: nat)
      requires Valid() && bank == BankOf(lpn) && p >= 2 * LAST_PAGE && q <= MAX_MAPENTS
      requires HasRoom(d.ks, |d.mapents|, cache.nDirty, p, q)
      requires |cache.ents| == |cache.nDirty| == NUM_BANKS && id < |cache.ents[bank]| == W.NC
      requires x == cache.ents[bank][id] && x.dirty && x.lpn == Some(lpn) && cache.nDirty[bank] > 0
      modifies this`active, this`lpns, this`pmap, this`mapents, this`d, nand, blk`rings, blk`vcount, cache
      ensures Valid() && HasRoom(d.ks, |d.mapents|, cache.nDirty, p, q)
      ensures Drained(old(d), d) && Cleaned(old(cache.ents), cache.ents) && cache.lru == old(cache.lru)
      ensures cache.ents == old(cache.ents)[bank := old(cache.ents)[bank][id := x.(dirty := false)]]
      ensures |d.mapents| == |old(d).mapents| + 1
      ensures old(cache.nDirty)[bank] > 0 && cache.nDirty == old(cache.nDirty)[bank := old(cache.nDirty)[bank] - 1]
      ensures Grown(old(nand.crashes), old(d.s), nand.crashes, d.s)
      ensures Holding(old(nand.crashes), old(d.s.deps), nand.crashes)
    {
      hide *;
      OpenAll();
      Open();
      cache.BufferAt(bank, id);
      RoomAt(d.ks, |d.mapents|, cache.nDirty, p, q, bank);
      UncountOldPage(lpn);
      Close();
      var ppn := GetAndIncActivePpn(bank);
      DrainedByLink(old(d), d, bank);
      ghost var d1, c1 := d, nand.crashes;
      ProgramBuffer(bank, id, lpn, x, ppn);
      DrainedTrans(old(d), d1, d);
      GrownTrans(old(nand.crashes), old(d).s, c1, d1.s, nand.crashes, d.s);
      HoldingTrans(old(nand.crashes), c1, nand.crashes, old(d).s.deps);
      assert d.ks == old(d).ks[bank := d.ks[bank]];
      RoomKept(old(d).ks, |old(d).mapents|, old(cache.nDirty), p, q, bank, d.ks[bank], |d.mapents|, cache.nDirty[bank]);
      CloseAll();
    }

    /** The rest of dequeue, once it knows the page to program. */
    method ProgramBuffer(bank: nat, id: nat, lpn: nat, x: Buffer, ppn: Pos)
      requires Core() && bank == BankOf(lpn) && bank < |d.ks| && d.ks[bank].fill < LAST_PAGE && |d.mapents| < MAX_MAPENTS
      requires |d.ks[bank].chain| > 0 && ppn == Pos(d.ks[bank].chain[|d.ks[bank].chain| - 1], d.ks[bank].fill)
      requires Ahead(active, d.ks, bank) && ExactWithout(blk.vcount, pmap, lpn)
      requires cache.Valid() && cache.view == d.s.cache && |cache.ents| == NUM_BANKS && id < |cache.ents[bank]| == W.NC
      requires x == cache.ents[bank][id] && x.dirty && x.lpn == Some(lpn)
      modifies this`lpns, this`pmap, this`mapents, this`d, nand, blk`vcount, cache
      ensures Core() && AlignedWith(active, d.ks) && Exact(blk.vcount, pmap)
      ensures cache.Valid() && cache.view == d.s.cache && Cleaned(old(cache.ents), cache.ents) && cache.lru == old(cache.lru)
      ensures cache.ents == old(cache.ents)[bank := old(cache.ents)[bank][id := x.(dirty := false)]]
      ensures |old(cache.nDirty)| == NUM_BANKS && old(cache.nDirty)[bank] > 0
      ensures cache.nDirty == old(cache.nDirty)[bank := old(cache.nDirty)[bank] - 1]
      ensures |d.ks| == |old(d).ks| && d.ks == old(d).ks[bank := d.ks[bank]]
      ensures Writable(d.ks[bank]) == Writable(old(d).ks[bank]) - 1 && |d.mapents| == |old(d).mapents| + 1
      ensures Drained(old(d), d)
      ensures Grown(old(nand.crashes), old(d.s), nand.crashes, d.s)
      ensures Holding(old(nand.crashes), old(d.s.deps), nand.crashes)
    {
      hide *;
      Open();
      cache.BufferAt(bank, id);
      ghost var was := lpns;
      ghost var e := WriteBackOnly(d, lpn);
      MirrorAt(d.ks, blk.rings, blk.vt, lpns, bank);
      ActiveCount(d, bank, lpn);
      var loc := Loc(bank, ppn.blk, ppn.pg);
      SetLpn(bank, ppn.pg, lpn);
      MapNewPage(lpn, loc);
      cache.MarkClean(bank, id);
      nand.ProgramPage(loc, Host(lpn, x.span, x.epoch, x.buf), e.s, e.j);
      MirrorsUpdate(d.ks, blk.rings, blk.vt, was, bank, e.ks[bank], blk.rings, blk.vt, lpns);
      FillAhead(active, d.ks, bank, e.ks[bank]);
      GrownOne(old(nand.crashes), d.s, Crash(e.flash, e.s, e.j));
      HoldingOne(old(nand.crashes), Crash(e.flash, e.s, e.j));
      d := e;
      Close();
    }

    /** dequeue maps the page to its new place, counts it there and buffers a mapping entry. */
    method MapNewPage(lpn: nat, loc: Loc)
      requires ExactWithout(blk.vcount, pmap, lpn) && |MappedTo(pmap, loc.bank, loc.blk) - {lpn}| < LAST_PAGE
      requires |mapents| < MAX_MAPENTS
      modifies this`pmap, this`mapents, blk`vcount
      ensures pmap == old(pmap)[lpn := loc] && Exact(blk.vcount, pmap) && mapents == old(mapents) + [(lpn, loc)]
    {
      hide *;
      LastPage();
      CountedAt(blk.vcount, pmap, lpn, loc);
      UpOne(blk.vcount, pmap, lpn, loc);
      pmap := pmap[lpn := loc];
      blk.IncVcount(loc.bank, loc.blk);
      LogInsertMapent(lpn, loc);
    }

    lemma SameWritable(k: Bank)
      ensures Writable(k.(vt := 0)) == Writable(k)
    {
    }

    lemma RoomSame(ks: seq<Bank>, p: int, q: int, bank: nat)
      requires HasRoom(ks, |d.mapents|, cache.nDirty, p, q) && bank < NUM_BANKS == |d.ks|
      requires d.ks == ks[bank := d.ks[bank]] && Writable(d.ks[bank]) == Writable(ks[bank])
      ensures HasRoom(d.ks, |d.mapents|, cache.nDirty, p, q)
    {
      RoomKept(ks, |d.mapents|, cache.nDirty, p, q, bank, d.ks[bank], |d.mapents|, cache.nDirty[bank]);
      assert cache.nDirty[bank := cache.nDirty[bank]] == cache.nDirty;
    }

    /** The collected block, if there is one, is erased. */
    method ErasePending(bank: nat)
      requires Core() && AlignedWith(active, d.ks) && bank < NUM_BANKS == |d.ks|
      modifies this`d, nand, blk`vt
      ensures Core() && AlignedWith(active, d.ks) && Drained(old(d), d) && VictimErased(old(d), d, bank)
      ensures Grown(old(nand.crashes), old(d.s), nand.crashes, d.s)
    {
      hide *;
      Open();
      MirrorAt(d.ks, blk.rings, blk.vt, lpns, bank);
      if blk.vt[bank] != 0 {
        ghost var e := EraseOnly(d, bank);
        nand.EraseBlock(bank, blk.vt[bank], e.s, e.j);
        ghost var vts := blk.vt;
        blk.ClearVt(bank);
        MirrorsUpdate(d.ks, blk.rings, vts, lpns, bank, e.ks[bank], blk.rings, blk.vt, lpns);
        GrownOne(old(nand.crashes), d.s, Crash(e.flash, e.s, e.j));
        KeepAligned(active, d.ks, bank, e.ks[bank]);
        VictimErasedIs(d, e, bank);
        d := e;
      } else {
        VictimErasedNone(d, bank);
        DrainedNone(d);
        GrownNone(nand.crashes, d.s);
      }
      Close();
    }

    /** blkmgr_erase_vt_blk, on an idle bank. */
    method EraseVtBlk(bank: nat, ghost p: nat, ghost q: nat)
      requires Valid() && bank < NUM_BANKS && HasRoom(d.ks, |d.mapents|, cache.nDirty, p, q)
      modifies this`d, nand, blk`vt
      ensures Valid() && HasRoom(d.ks, |d.mapents|, cache.nDirty, p, q)
      ensures Drained(old(d), d) && VictimErased(old(d), d, bank)
      ensures Grown(old(nand.crashes), old(d.s), nand.crashes, d.s)
    {
      hide *;
      OpenAll();
      Open();
      ErasePending(bank);
      VictimErasedParts(old(d), d, bank);
      Open();
      SameWritable(old(d).ks[bank]);
      RoomSame(old(d).ks, p, q, bank);
      CloseAll();
    }

    /** pool_write_buf, with all banks idle. */
    method PoolWriteBuf(ghost p: nat, ghost q: nat)
      requires Valid() && p >= 2 * LAST_PAGE && q <= MAX_MAPENTS
      requires HasRoom(d.ks, |d.mapents|, cache.nDirty, p, q)
      modifies this`active, this`lpns, this`pmap, this`mapents, this`poolBank, this`d, nand, blk`rings, blk`vt, blk`vcount, cache
      ensures Valid() && HasRoom(d.ks, |d.mapents|, cache.nDirty, p, q)
      ensures Drained(old(d), d) && Cleaned(old(cache.ents), cache.ents) && cache.lru == old(cache.lru)
      ensures old(poolBank) < NUM_BANKS == |old(cache.nDirty)| && poolBank == Wrap(old(poolBank), NUM_BANKS)
      ensures old(cache.nDirty)[old(poolBank)] > W.NC / 2 ==>
                && |d.mapents| == |old(d).mapents| + 1 && cache.nDirty == old(cache.nDirty)[old(poolBank) := old(cache.nDirty)[old(poolBank)] - 1]
                && OldestCleaned(old(cache.ents), old(cache.lru), cache.ents, old(poolBank))
      ensures old(cache.nDirty)[old(poolBank)] <= W.NC / 2 ==>
                cache.nDirty == old(cache.nDirty) && cache.ents == old(cache.ents) && VictimErased(old(d), d, old(poolBank))
      ensures HalfKept(old(cache.nDirty), cache.nDirty)
      ensures Grown(old(nand.crashes), old(d.s), nand.crashes, d.s)
    {
      hide *;
      OpenAll();
      cache.Lengths();
      ghost var dirty, pool := cache.nDirty, poolBank;
      if cache.nDirty[poolBank] > W.NC / 2 {
        var clean := Dequeue(poolBank, p, q);
      } else {
        CleanedNone(cache.ents);
        EraseVtBlk(poolBank, p, q);
      }
      OpenAll();
      Open();
      HalfKeptTurn(dirty, pool, cache.nDirty);
      poolBank := Wrap(poolBank, NUM_BANKS);
      Close();
      CloseAll();
    }

    /** One turn of the loop of get_clean_cache_buf. x is a buffer known to be clean, if there is one. */
    method PoolOnce(bank: nat, idx: nat, ghost x: Option<nat>, ghost p: nat, ghost q: nat) returns (next: nat,
          ghost y: Option<nat>)
      requires Valid() && bank < NUM_BANKS && p >= 2 * LAST_PAGE && q <= MAX_MAPENTS
      requires HasRoom(d.ks, |d.mapents|, cache.nDirty, p, q)
      requires |cache.ents| == |cache.nDirty| == NUM_BANKS && |cache.ents[bank]| == W.NC && idx < W.NC && poolBank < NUM_BANKS
      requires cache.ents[bank][idx].dirty
      requires x.None? ==> cache.nDirty[bank] == W.NC
      requires x.Some? ==> x.value < W.NC && !cache.ents[bank][x.value].dirty
      modifies this`active, this`lpns, this`pmap, this`mapents, this`poolBank, this`d, nand, blk`rings, blk`vt, blk`vcount, cache
      ensures Valid() && HasRoom(d.ks, |d.mapents|, cache.nDirty, p, q)
      ensures Drained(old(d), d) && cache.lru == old(cache.lru)
      ensures |cache.ents| == |cache.nDirty| == NUM_BANKS && |cache.ents[bank]| == W.NC && next < W.NC && poolBank < NUM_BANKS
      ensures y.None? ==> cache.nDirty[bank] == W.NC
      ensures y.Some? ==> y.value < W.NC && !cache.ents[bank][y.value].dirty
      ensures PollsLeft(poolBank, bank, next, y) < PollsLeft(old(poolBank), bank, idx, x)
      ensures HalfKept(old(cache.nDirty), cache.nDirty)
      ensures Grown(old(nand.crashes), old(d.s), nand.crashes, d.s)
    {
      hide *;
      OpenAll();
      PollsLeftBy(poolBank, bank, idx, x);
      ghost var pool, ents := poolBank, cache.ents;
      PoolWriteBuf(p, q);
      OpenAll();
      CleanedAt(ents, cache.ents, bank, idx);
      next := Wrap(idx, W.NC);
      y := x;
      if x.Some? {
        CleanedAt(ents, cache.ents, bank, x.value);
      } else if pool == bank {
        y := cache.FindClean(bank);
        PollsLeftBy(poolBank, bank, next, y);
      }
    }

    /** get_clean_cache_buf: the least recently used clean buffer. The loop ends: once the pool has come
        round to this bank it has a clean buffer, and the index comes round to that. */
    method GetCleanCacheBuf(bank: nat, ghost p: nat, ghost q: nat) returns (id: nat)
      requires Valid() && bank < NUM_BANKS && p >= 2 * LAST_PAGE && q <= MAX_MAPENTS
      requires HasRoom(d.ks, |d.mapents|, cache.nDirty, p, q)
      modifies this`active, this`lpns, this`pmap, this`mapents, this`poolBank, this`d, nand, blk`rings, blk`vt, blk`vcount, cache
      ensures Valid() && HasRoom(d.ks, |d.mapents|, cache.nDirty, p, q)
      ensures Drained(old(d), d) && cache.lru == old(cache.lru)
      ensures |cache.ents| == |cache.lru| == NUM_BANKS && id < |cache.ents[bank]| == W.NC && !cache.ents[bank][id].dirty
      ensures LeastRecent(cache.ents[bank], cache.lru[bank], id, false)
      ensures HalfKept(old(cache.nDirty), cache.nDirty)
      ensures Grown(old(nand.crashes), old(d.s), nand.crashes, d.s)
      ensures |old(cache.nDirty)| == NUM_BANKS && (old(cache.nDirty)[bank] == 0 ==> d == old(d) && cache.nDirty == old(cache.nDirty))
    {
      hide *;
      OpenAll();
      cache.Lengths();
      DrainedNone(d);
      GrownNone(nand.crashes, d.s);
      if cache.nDirty[bank] == 0 {
        cache.CleanBank(bank);
      }
      HalfKeptSame(cache.nDirty);
      var idx: nat := 0;
      ghost var x: Option<nat> := cache.FindClean(bank);
      while cache.ents[bank][idx].dirty
        invariant Valid() && HasRoom(d.ks, |d.mapents|, cache.nDirty, p, q) && poolBank < NUM_BANKS
        invariant Drained(old(d), d) && cache.lru == old(cache.lru)
        invariant |cache.ents| == |cache.nDirty| == NUM_BANKS && |cache.ents[bank]| == W.NC && idx < W.NC
        invariant old(cache.nDirty)[bank] == 0 ==> d == old(d) && cache.ents == old(cache.ents) && cache.nDirty == old(cache.nDirty)
        invariant HalfKept(old(cache.nDirty), cache.nDirty)
        invariant x.None? ==> cache.nDirty[bank] == W.NC
        invariant x.Some? ==> x.value < W.NC && !cache.ents[bank][x.value].dirty
        invariant Grown(old(nand.crashes), old(d.s), nand.crashes, d.s)
        decreases PollsLeft(poolBank, bank, idx, x)
      {
        ghost var d1, c1, dirty := d, nand.crashes, cache.nDirty;
        idx, x := PoolOnce(bank, idx, x, p, q);
        DrainedTrans(old(d), d1, d);
        HalfKeptTrans(old(cache.nDirty), dirty, cache.nDirty);
        GrownTrans(old(nand.crashes), old(d).s, c1, d1.s, nand.crashes, d.s);
      }
      OpenAll();
      var oldest := cache.OldestWith(bank, false);
      id := oldest.value;
    }

    /** One round of flush_write_buf over the banks. */
    method DequeueAll(ghost p: nat, ghost q: nat) returns (done: bool)
      requires Valid() && p >= 2 * LAST_PAGE && q <= MAX_MAPENTS
      requires HasRoom(d.ks, |d.mapents|, cache.nDirty, p, q)
      modifies this`active, this`lpns, this`pmap, this`mapents, this`d, nand, blk`rings, blk`vcount, cache
      ensures Valid() && HasRoom(d.ks, |d.mapents|, cache.nDirty, p, q)
      ensures Drained(old(d), d)
      ensures done ==> cache.nDirty == old(cache.nDirty) && forall b :: 0 <= b < |cache.nDirty| ==> cache.nDirty[b] == 0
      ensures !done ==> Total(cache.nDirty) < Total(old(cache.nDirty))
      ensures Grown(old(nand.crashes), old(d.s), nand.crashes, d.s)
      ensures Holding(old(nand.crashes), old(d.s.deps), nand.crashes)
    {
      hide *;
      OpenAll();
      cache.Lengths();
      DrainedNone(d);
      GrownNone(nand.crashes, d.s);
      HoldingNone(nand.crashes, d.s.deps);
      done := true;
      var bank: nat := 0;
      while bank < NUM_BANKS
        invariant bank <= NUM_BANKS && Valid() && HasRoom(d.ks, |d.mapents|, cache.nDirty, p, q)
        invariant Drained(old(d), d) && |cache.nDirty| == NUM_BANKS
        invariant done ==> cache.nDirty == old(cache.nDirty) && forall b :: 0 <= b < bank ==> cache.nDirty[b] == 0
        invariant !done ==> Total(cache.nDirty) < Total(old(cache.nDirty))
        invariant Grown(old(nand.crashes), old(d.s), nand.crashes, d.s)
        invariant Holding(old(nand.crashes), old(d.s.deps), nand.crashes)
      {
        ghost var d1, c1, n1 := d, nand.crashes, cache.nDirty;
        var clean := Dequeue(bank, p, q);
        if !clean {
          TotalUpdate(n1, bank, n1[bank] - 1);
        }
        done := done && clean;
        DrainedTrans(old(d), d1, d);
        GrownTrans(old(nand.crashes), old(d).s, c1, d1.s, nand.crashes, d.s);
        DrainedDeps(old(d), d1);
        HoldingTrans(old(nand.crashes), c1, nand.crashes, old(d).s.deps);
        bank := bank + 1;
      }
    }

    /** flush_write_buf */
    method FlushWriteBuf(ghost p: nat, ghost q: nat)
      requires Valid() && p >= 2 * LAST_PAGE && q <= MAX_MAPENTS
      requires HasRoom(d.ks, |d.mapents|, cache.nDirty, p, q)
      modifies this`active, this`lpns, this`pmap, this`mapents, this`d, nand, blk`rings, blk`vcount, cache
      ensures Valid() && HasRoom(d.ks, |d.mapents|, cache.nDirty, p, q)
      ensures Drained(old(d), d)
      ensures forall l: nat :: l in d.s.cache ==> !d.s.cache[l].dirty
      ensures forall b :: 0 <= b < |cache.nDirty| ==> cache.nDirty[b] == 0
      ensures Grown(old(nand.crashes), old(d.s), nand.crashes, d.s)
      ensures Holding(old(nand.crashes), old(d.s.deps), nand.crashes)
    {
      hide *;
      DrainedNone(d);
      GrownNone(nand.crashes, d.s);
      HoldingNone(nand.crashes, d.s.deps);
      var done := false;
      while !done
        invariant Valid() && HasRoom(d.ks, |d.mapents|, cache.nDirty, p, q)
        invariant Drained(old(d), d)
        invariant done ==> forall b :: 0 <= b < |cache.nDirty| ==> cache.nDirty[b] == 0
        invariant Grown(old(nand.crashes), old(d.s), nand.crashes, d.s)
        invariant Holding(old(nand.crashes), old(d.s.deps), nand.crashes)
        decreases Total(cache.nDirty), !done
      {
        ghost var d1, c1 := d, nand.crashes;
        done := DequeueAll(p, q);
        DrainedTrans(old(d), d1, d);
        GrownTrans(old(nand.crashes), old(d).s, c1, d1.s, nand.crashes, d.s);
        DrainedDeps(old(d), d1);
        HoldingTrans(old(nand.crashes), c1, nand.crashes, old(d).s.deps);
      }
      OpenAll();
      cache.Lengths();
      cache.CleanWhenZero();
    }

    // ---- log.c: dependencies ----

    /** record_depent: the buffered dependencies become a page of the log. */
    method RecordDepent()
      requires Core() && (deps != [] ==> |d.j.pages| + 1 < LOG_CAP)
      modifies this`requireFlushDepent, this`deps, this`bankActive, this`d, nand, space
      ensures Core() && Logged(old(d), d) && deps == [] && !requireFlushDepent
      ensures |d.j.pages| == |old(d).j.pages| + if old(deps) == [] then 0 else 1
      ensures if old(deps) == [] then d == old(d) && nand.crashes == old(nand.crashes)
              else d.j.pages == old(d).j.pages + [LogPage.Deps(old(deps))] && nand.crashes == old(nand.crashes) + [Crash(d.flash, d.s, d.j)]
      ensures d.s.floor == old(d).s.floor
      ensures Grown(old(nand.crashes), old(d.s), nand.crashes, d.s) && Holding(old(nand.crashes), [], nand.crashes)
    {
      hide *;
      Open();
      requireFlushDepent := false;
      GrownNone(nand.crashes, d.s);
      HoldingNone(nand.crashes, []);
      if deps != [] {
        ghost var e := LogDepsOnly(d);
        var loc := space.Next(|d.j.pages|, bankActive);
        nand.ProgramLog(loc, LogPage.Deps(deps), e.s, e.j);
        bankActive := Wrap(bankActive, NUM_BANKS);
        deps := [];
        LoggedFloor(d, e);
        GrownOne(old(nand.crashes), d.s, Crash(e.flash, e.s, e.j));
        HoldingOne(old(nand.crashes), Crash(e.flash, e.s, e.j));
        d := e;
      } else {
        LoggedNone(d);
      }
      Close();
    }

    // ---- blkmgr.c: garbage collection ----

    /** A step of the loop of garbage_collection: the page of the victim is moved if it is valid. False if
        the source's assertion on the number of mapping entries stops the firmware. */
    method MovePage(bank: nat, vt: nat, page: nat, lpn: nat, ghost list: seq<nat>) returns (ok: bool, moved: bool)
      requires Core() && AlignedWith(active, d.ks) && bank < NUM_BANKS == |d.ks| && Writable(d.ks[bank]) >= 2 * LAST_PAGE
      requires |d.mapents| <= MAX_MAPENTS && page < LAST_PAGE
      requires Collecting(d, bank, vt, list) && page < |list| && lpn == list[page]
      requires ExactBut(blk.vcount, pmap, bank, vt) && Remaining(pmap, bank, vt, page)
      modifies this`active, this`lpns, this`pmap, this`mapents, this`d, nand, blk`rings, blk`vcount
      ensures nand.Valid() && Grown(old(nand.crashes), old(d.s), nand.crashes, d.s)
      ensures d.s.reqs == old(d).s.reqs && d.s.floor == old(d).s.floor
      ensures ok ==> Core() && AlignedWith(active, d.ks) && Kept(old(d), d, bank) && |d.mapents| <= MAX_MAPENTS
      ensures ok ==> ExactBut(blk.vcount, pmap, bank, vt) && Remaining(pmap, bank, vt, page + 1)
      ensures ok ==> bank < |d.ks| && Writable(d.ks[bank]) == Writable(old(d).ks[bank]) - if moved then 1 else 0
      ensures ok ==> |MappedTo(pmap, bank, vt)| == |MappedTo(old(pmap), bank, vt)| - if moved then 1 else 0
      ensures ok ==> SameCounts(old(blk.vcount), blk.vcount, bank, old(d).ks[bank].used)
      ensures !ok ==> |mapents| >= MAX_MAPENTS && d.mapents == mapents
    {
      hide *;
      Open();
      ValidPage(d, bank, vt, list, page);
      RemainingNext(pmap, bank, vt, page, lpn);
      if lpn in pmap && pmap[lpn].blk == vt && pmap[lpn].pg == page {
        var ppn := GetAndIncActivePpn(bank);
        Open();
        DeviceParts(old(d), bank);
        DeviceParts(d, bank);
        KeptByLink(old(d), d, bank);
        KeptReqs(old(d), d, bank);
        if |mapents| >= MAX_MAPENTS {
          return false, true;
        }
        ghost var d1, c1 := d, nand.crashes;
        KeptUsed(old(d), d, bank);
        CollectingKept(old(d), d, bank, vt, list);
        CopyValidPage(bank, vt, page, lpn, ppn, list);
        KeptTrans(old(d), d1, d, bank);
        KeptReqs(old(d), d, bank);
        GrownTrans(old(nand.crashes), old(d).s, c1, d1.s, nand.crashes, d.s);
        Open();
        moved := true;
      } else {
        KeptNone(d, bank);
        SameCountsNone(blk.vcount, bank, d.ks[bank].used);
        GrownNone(nand.crashes, d.s);
        moved := false;
      }
      ok := true;
    }

    method CopyValidPage(bank: nat, vt: nat, page: nat, lpn: nat, ppn: Pos, ghost list: seq<nat>)
      requires Core() && Ahead(active, d.ks, bank) && bank == BankOf(lpn) && bank < |d.ks| && |d.mapents| < MAX_MAPENTS
      requires |d.ks[bank].chain| > 0 && ppn == Pos(d.ks[bank].chain[|d.ks[bank].chain| - 1], d.ks[bank].fill)
      requires d.ks[bank].fill < LAST_PAGE && Collecting(d, bank, vt, list)
      requires lpn in pmap && pmap[lpn] == Loc(bank, vt, page) && ExactBut(blk.vcount, pmap, bank, vt)
      modifies this`lpns, this`pmap, this`mapents, this`d, nand, blk`vcount
      ensures Core() && AlignedWith(active, d.ks) && Kept(old(d), d, bank) && |d.mapents| <= MAX_MAPENTS
      ensures pmap == old(pmap)[lpn := Loc(bank, ppn.blk, ppn.pg)] && ppn.blk != vt
      ensures ExactBut(blk.vcount, pmap, bank, vt) && |MappedTo(pmap, bank, vt)| == |MappedTo(old(pmap), bank, vt)| - 1
      ensures bank < |d.ks| && Writable(d.ks[bank]) == Writable(old(d).ks[bank]) - 1
      ensures SameCounts(old(blk.vcount), blk.vcount, bank, old(d).ks[bank].used)
      ensures Grown(old(nand.crashes), old(d.s), nand.crashes, d.s)
    {
      hide *;
      Open();
      ghost var was := lpns;
      ghost var e := CopyOnly(d, lpn, vt, list);
      MirrorAt(d.ks, blk.rings, blk.vt, lpns, bank);
      var from := pmap[lpn];
      var to := Loc(bank, ppn.blk, ppn.pg);
      SameCountsByActive(d, blk.vcount, bank, CountOf(blk.vcount, bank, ppn.blk) + 1);
      CountMovedPage(lpn, from, to);
      SetLpn(bank, ppn.pg, lpn);
      LogInsertMapent(lpn, to);
      nand.CopyBackPage(from, to, lpn, e.s, e.j);
      MirrorsUpdate(d.ks, blk.rings, blk.vt, was, bank, e.ks[bank], blk.rings, blk.vt, lpns);
      FillAhead(active, d.ks, bank, e.ks[bank]);
      GrownOne(old(nand.crashes), d.s, Crash(e.flash, e.s, e.j));
      d := e;
      Close();
    }

    /** Garbage collection maps the page to its new place and counts it there. */
    method CountMovedPage(lpn: nat, from: Loc, to: Loc)
      requires d.Valid() && d.s.pmap == pmap && ExactBut(blk.vcount, pmap, from.bank, from.blk)
      requires lpn in pmap && pmap[lpn] == from && to.bank == from.bank < NUM_BANKS == |d.ks| && to.blk != from.blk
      requires var k := d.ks[to.bank]; |k.chain| > 0 && to.blk == k.chain[|k.chain| - 1] && k.fill < LAST_PAGE
      modifies this`pmap, blk`vcount
      ensures pmap == old(pmap)[lpn := to] && ExactBut(blk.vcount, pmap, from.bank, from.blk)
      ensures blk.vcount == Counted(old(blk.vcount), to.bank, to.blk, CountOf(old(blk.vcount), to.bank, to.blk) + 1)
      ensures |MappedTo(pmap, from.bank, from.blk)| == |MappedTo(old(pmap), from.bank, from.blk)| - 1
    {
      hide *;
      LastPage();
      ActiveCount(d, to.bank, lpn);
      MovedCount(blk.vcount, pmap, lpn, to, from.bank, from.blk);
      var count := CountOf(blk.vcount, to.bank, to.blk);
      pmap := pmap[lpn := to];
      blk.SetVcount(to.bank, to.blk, count + 1);
    }

    /** The loop of garbage_collection over the pages of the victim. */
    method MoveValidPages(bank: nat, vt: nat, list: seq<nat>) returns (ok: bool, nValid: nat)
      requires Core() && AlignedWith(active, d.ks) && bank < NUM_BANKS == |d.ks| && Writable(d.ks[bank]) >= 3 * LAST_PAGE
      requires |d.mapents| <= MAX_MAPENTS && Collecting(d, bank, vt, list)
      requires ExactBut(blk.vcount, pmap, bank, vt)
      modifies this`active, this`lpns, this`pmap, this`mapents, this`d, nand, blk`rings, blk`vcount
      ensures nand.Valid() && Grown(old(nand.crashes), old(d.s), nand.crashes, d.s)
      ensures d.s.reqs == old(d).s.reqs && d.s.floor == old(d).s.floor
      ensures ok ==> Core() && AlignedWith(active, d.ks) && Kept(old(d), d, bank) && |d.mapents| <= MAX_MAPENTS
      ensures ok ==> ExactBut(blk.vcount, pmap, bank, vt) && Remaining(pmap, bank, vt, LAST_PAGE)
      ensures ok ==> bank < |d.ks| && Writable(d.ks[bank]) == Writable(old(d).ks[bank]) - nValid
      ensures ok ==> |MappedTo(pmap, bank, vt)| == |MappedTo(old(pmap), bank, vt)| - nValid
      ensures ok ==> SameCounts(old(blk.vcount), blk.vcount, bank, old(d).ks[bank].used)
      ensures !ok ==> |d.mapents| >= MAX_MAPENTS
    {
      hide *;
      Open();
      RemainingAll(pmap, bank, vt);
      KeptNone(d, bank);
      GrownNone(nand.crashes, d.s);
      CollectingList(d, bank, vt, list);
      SameCountsNone(blk.vcount, bank, d.ks[bank].used);
      nValid := 0;
      var page: nat := 0;
      while page < LAST_PAGE
        invariant page <= LAST_PAGE && nValid <= page
        invariant Core() && AlignedWith(active, d.ks) && Kept(old(d), d, bank) && |d.mapents| <= MAX_MAPENTS
        invariant Collecting(d, bank, vt, list)
        invariant ExactBut(blk.vcount, pmap, bank, vt) && Remaining(pmap, bank, vt, page)
        invariant bank < |d.ks| && Writable(d.ks[bank]) == Writable(old(d).ks[bank]) - nValid
        invariant SameCounts(old(blk.vcount), blk.vcount, bank, old(d).ks[bank].used)
        invariant |MappedTo(pmap, bank, vt)| == |MappedTo(old(pmap), bank, vt)| - nValid
        invariant Grown(old(nand.crashes), old(d.s), nand.crashes, d.s)
      {
        Open();
        ghost var d1, c1, v1 := d, nand.crashes, blk.vcount;
        KeptUsed(old(d), d, bank);
        var moved;
        ok, moved := MovePage(bank, vt, page, list[page], list);
        KeptReqs(old(d), d1, bank);
        GrownTrans(old(nand.crashes), old(d).s, c1, d1.s, nand.crashes, d.s);
        if !ok {
          return;
        }
        CollectingKept(d1, d, bank, vt, list);
        SameCountsTrans(old(blk.vcount), v1, blk.vcount, bank, old(d).ks[bank].used);
        KeptTrans(old(d), d1, d, bank);
        nValid := nValid + if moved then 1 else 0;
        page := page + 1;
      }
      Open();
      KeptReqs(old(d), d, bank);
      ok := true;
    }

    /** get_victim_blk, and its summary page. */
    method ChooseVictim(bank: nat) returns (vt: nat, list: seq<nat>)
      requires Core() && AlignedWith(active, d.ks) && bank < NUM_BANKS == |d.ks| && d.ks[bank].vt == 0
      requires |d.mapents| <= MAX_MAPENTS && |d.ks[bank].free| < GC_THRESHOLD
      requires AllClean(d.s) && d.s.floor == |d.s.reqs|
      modifies this`d, blk`rings
      ensures Core() && AlignedWith(active, d.ks) && Collecting(d, bank, vt, list)
      ensures SameHost(old(d), d) && d.flash == old(d).flash && d.mapents == old(d).mapents && d.s == old(d).s
      ensures bank < |d.ks| == |old(d).ks| && d.ks == old(d).ks[bank := d.ks[bank]] && Writable(d.ks[bank]) == Writable(old(d).ks[bank])
      ensures d.ks[bank].vt == 0 && d.ks[bank].free == old(d).ks[bank].free
      ensures vt in old(d).ks[bank].used && |d.ks[bank].used| == |old(d).ks[bank].used|
      ensures FirstLeast(old(d).ks[bank].used, blk.vcount, bank, vt)
      ensures forall i :: 0 <= i < |d.ks[bank].used| ==>
                CountOf(blk.vcount, bank, vt) <= CountOf(blk.vcount, bank, d.ks[bank].used[i])
    {
      hide *;
      Open();
      VictimThere(d, bank);
      MirrorAt(d.ks, blk.rings, blk.vt, lpns, bank);
      TailIsNotRsv(blk.rings[bank]);
      ghost var rings := blk.rings;
      ghost var k;
      vt, k := blk.GetVictimBlk(bank);
      FirstLeastIs(d.ks[bank].used, blk.vcount, bank, vt, k);
      SummaryThere(d, bank, k);
      list := nand.data[Loc(bank, vt, LAST_PAGE)].lpns;
      ghost var e := SwapOnly(d, bank, k);
      MirrorsUpdate(d.ks, rings, blk.vt, lpns, bank, e.ks[bank], blk.rings, blk.vt, lpns);
      KeepAligned(active, d.ks, bank, e.ks[bank]);
      SameHostIs(d, e);
      d := e;
      CollectingIs(d, bank, vt, list);
      Close();
    }

    /** garbage_collection. False if one of the source's assertions stops the firmware: too many mapping
        entries, or a victim all of whose pages are valid ("GC threshold set too large"). */
    method GarbageCollection(bank: nat) returns (ok: bool)
      requires Valid() && bank < NUM_BANKS == |d.ks| && Writable(d.ks[bank]) >= 3 * LAST_PAGE
      requires |d.mapents| <= MAX_MAPENTS && |d.ks[bank].free| < GC_THRESHOLD
      requires AllClean(d.s) && d.s.floor == |d.s.reqs|
      modifies this`active, this`lpns, this`pmap, this`mapents, this`d, nand, blk
      ensures nand.Valid() && Grown(old(nand.crashes), old(d.s), nand.crashes, d.s)
      ensures d.s.reqs == old(d).s.reqs && d.s.floor == old(d).s.floor
      ensures ok ==> Valid() && SameHost(old(d), d) && |d.mapents| <= MAX_MAPENTS
      ensures ok ==> bank < |d.ks| == |old(d).ks| && d.ks == old(d).ks[bank := d.ks[bank]]
      ensures ok ==> CollectedOne(old(d).ks[bank], d.ks[bank])
      ensures !ok ==> Stuck(d.ks, |d.mapents|, blk.vcount)
    {
      hide *;
      OpenAll();
      ErasePending(bank);
      VictimErasedParts(old(d), d, bank);
      SameWritable(old(d).ks[bank]);
      CleanSame(old(d).s, d.s);
      ghost var d1, c1 := d, nand.crashes;
      var vt, list := ChooseVictim(bank);
      var vcount := CountOf(blk.vcount, bank, vt);
      Open();
      ExactAt(blk.vcount, pmap, bank, vt);
      ghost var d2, v2 := d, blk.vcount;
      var nValid;
      ok, nValid := MoveValidPages(bank, vt, list);
      GrownTrans(old(nand.crashes), old(d).s, c1, d1.s, nand.crashes, d.s);
      if !ok {
        StuckFull(d.ks, |d.mapents|, blk.vcount);
        return;
      }
      KeptUsed(d2, d, bank);
      CollectingKept(d2, d, bank, vt, list);
      Open();
      NothingRemains(d, bank, vt);
      assert nValid == vcount;  // asserted by the source
      if nValid >= LAST_PAGE {
        CollectingParts(d, bank, vt, list);
        DeviceParts(d, bank);
        StillShort(d2.ks[bank], d.ks[bank], nValid);
        StuckBank(d2.ks[bank], d.ks, |d.mapents|, v2, blk.vcount, bank, vt);
        ok := false;
        return;
      }
      ghost var d3 := d;
      RetireCollected(bank, vt, list);
      SameHostVia(old(d), d1, d2, d3, d, bank);
      Open();
      DeviceParts(d, bank);
      DeviceParts(old(d), bank);
      FreeNotLowered(old(d).ks[bank], d.ks[bank]);
      CollectedIs(old(d).ks[bank], d2.ks[bank], d3.ks[bank], d.ks[bank], vt);
      CloseAll();
    }

    /** The end of garbage_collection. */
    method RetireCollected(bank: nat, vt: nat, ghost list: seq<nat>)
      requires Core() && AlignedWith(active, d.ks) && Collecting(d, bank, vt, list)
      requires ExactBut(blk.vcount, pmap, bank, vt) && Emptied(d, bank, vt) && MappedTo(pmap, bank, vt) == {}
      modifies this`d, blk
      ensures Core() && AlignedWith(active, d.ks) && Exact(blk.vcount, pmap)
      ensures SameHost(old(d), d) && d.mapents == old(d).mapents && d.s == old(d).s
      ensures bank < |d.ks| == |old(d).ks| && d.ks == old(d).ks[bank := d.ks[bank]]
      ensures Writable(d.ks[bank]) == Writable(old(d).ks[bank]) + LAST_PAGE
      ensures |old(d).ks[bank].used| > 0 && d.ks[bank].used == old(d).ks[bank].used[1..] && d.ks[bank].vt == vt
    {
      hide *;
      Open();
      CollectingParts(d, bank, vt, list);
      MirrorAt(d.ks, blk.rings, blk.vt, lpns, bank);
      ghost var e := RetireOnly(d, bank);
      ghost var rings, vts := blk.rings, blk.vt;
      ClearExact(blk.vcount, pmap, bank, vt);
      blk.RetireVictim(bank, vt);
      MirrorsUpdate(d.ks, rings, vts, lpns, bank, e.ks[bank], blk.rings, blk.vt, lpns);
      KeepAligned(active, d.ks, bank, e.ks[bank]);
      SameHostIs(d, e);
      d := e;
      Close();
    }

    // ---- ftl.c ----

    /** ftl_prefix_flush: the dependencies are logged before the pages are written back. From here on, every
        later crash recovers the requests received so far. */
    method PrefixFlush(ghost p: nat, ghost q: nat)
      requires Valid() && d.s.Settled() && p >= 2 * LAST_PAGE && q <= MAX_MAPENTS
      requires HasRoom(d.ks, |d.mapents|, cache.nDirty, p, q)
      requires deps != [] ==> |d.j.pages| + 1 < LOG_CAP
      modifies this`active, this`lpns, this`pmap, this`mapents, this`requireFlushDepent, this`deps, this`bankActive, this`d
      modifies nand, blk`rings, blk`vcount, cache, space
      ensures Valid() && HasRoom(d.ks, |d.mapents|, cache.nDirty, p, q)
      ensures FlushedFrom(old(d), d) && forall b :: 0 <= b < |cache.nDirty| ==> cache.nDirty[b] == 0
      ensures Grown(old(nand.crashes), old(d.s), nand.crashes, d.s) && Holding(old(nand.crashes), [], nand.crashes)
      ensures !requireFlushDepent
    {
      hide *;
      OpenAll();
      Open();
      RecordDepent();
      LoggedParts(old(d), d);
      Open();
      ghost var d1, c1 := d, nand.crashes;
      CloseAll();
      FlushWriteBuf(p, q);
      GrownTrans(old(nand.crashes), old(d).s, c1, d1.s, nand.crashes, d.s);
      HoldingTrans(old(nand.crashes), c1, nand.crashes, []);
      OpenAll();
      Open();
      SettledVia(old(d), d1, d);
      ghost var d2 := d;
      ghost var e := RaiseFloorOnly(d);
      GrownLast(old(nand.crashes), old(d).s, nand.crashes, d.s, e.s);
      d := e;
      FlushedVia(old(d), d1, d2, e);
      Close();
      CloseAll();
    }

    /** The first loop of garbage collection in ftl_write: every bank that is short of free blocks collects
        one. worked tells whether there was any. */
    method CollectRound() returns (ok: bool, ghost worked: bool)
      requires Valid() && AllClean(d.s) && d.s.floor == |d.s.reqs| && |d.mapents| <= MAX_MAPENTS
      requires forall b :: 0 <= b < |d.ks| ==> Writable(d.ks[b]) >= 3 * LAST_PAGE
      modifies this`active, this`lpns, this`pmap, this`mapents, this`d, nand, blk
      ensures nand.Valid() && Grown(old(nand.crashes), old(d.s), nand.crashes, d.s)
      ensures !ok ==> Stuck(d.ks, |d.mapents|, blk.vcount)
      ensures d.s.reqs == old(d).s.reqs && d.s.floor == old(d).s.floor
      ensures ok ==> Valid() && SameHost(old(d), d) && |d.mapents| <= MAX_MAPENTS
      ensures ok ==> forall b :: 0 <= b < |d.ks| ==> Writable(d.ks[b]) >= 3 * LAST_PAGE
      ensures ok ==> RoundDone(old(d).ks, d.ks, NUM_BANKS)
      ensures ok && worked ==> Total(Deficits(d.ks)) < Total(Deficits(old(d).ks))
      ensures ok && !worked ==> d == old(d) && forall b :: 0 <= b < |d.ks| ==> |d.ks[b].free| >= GC_THRESHOLD
    {
      hide *;
      OpenAll();
      Open();
      SameHostIs(d, d);
      GrownNone(nand.crashes, d.s);
      RoundNone(d.ks);
      ok, worked := true, false;
      var bank: nat := 0;
      while bank < NUM_BANKS
        invariant bank <= NUM_BANKS && Valid() && SameHost(old(d), d) && |d.mapents| <= MAX_MAPENTS && |d.ks| == NUM_BANKS
        invariant forall b :: 0 <= b < |d.ks| ==> Writable(d.ks[b]) >= 3 * LAST_PAGE
        invariant AllClean(d.s) && d.s.floor == |d.s.reqs| && ok && RoundDone(old(d).ks, d.ks, bank)
        invariant worked ==> Total(Deficits(d.ks)) < Total(Deficits(old(d).ks))
        invariant !worked ==> d == old(d) && forall b :: 0 <= b < bank ==> |d.ks[b].free| >= GC_THRESHOLD
        invariant Grown(old(nand.crashes), old(d.s), nand.crashes, d.s)
      {
        OpenAll();
        Open();
        MirrorAt(d.ks, blk.rings, blk.vt, lpns, bank);
        if blk.ReachGcThreshold(bank) {
          ghost var d1, c1 := d, nand.crashes;
          blk.ThresholdMeans(bank);
          ok := GarbageCollection(bank);
          SameHostReqs(old(d), d1);
          GrownTrans(old(nand.crashes), old(d).s, c1, d1.s, nand.crashes, d.s);
          if !ok {
            return;
          }
          CollectedRoom(d1.ks[bank], d.ks[bank]);
          DeficitDown(d1.ks, bank, d.ks[bank]);
          RoundNext(old(d).ks, d1.ks, bank, d.ks);
          SameHostTrans(old(d), d1, d);
          worked := true;
        } else {
          blk.ThresholdMeans(bank);
          assert d.ks == d.ks[bank := d.ks[bank]];
          RoundNext(old(d).ks, d.ks, bank, d.ks);
        }
        bank := bank + 1;
      }
      OpenAll();
      Open();
      SameHostReqs(old(d), d);
    }

    /** The second loop: is any bank still short of free blocks? */
    method AllCollected() returns (done: bool)
      requires Valid()
      ensures done <==> forall b :: 0 <= b < |d.ks| ==> |d.ks[b].free| >= GC_THRESHOLD
    {
      hide *;
      OpenAll();
      Open();
      done := true;
      var bank: nat := 0;
      while bank < NUM_BANKS
        invariant bank <= NUM_BANKS
        invariant done <==> forall b :: 0 <= b < bank ==> |d.ks[b].free| >= GC_THRESHOLD
      {
        MirrorAt(d.ks, blk.rings, blk.vt, lpns, bank);
        blk.ThresholdMeans(bank);
        if blk.ReachGcThreshold(bank) {
          done := false;
        }
        bank := bank + 1;
      }
    }

    /** The garbage collection of ftl_write, after its flush: until no bank is short of free blocks. It ends:
        every collected block gives back more pages than its valid ones took. */
    method CollectBanks() returns (ok: bool)
      requires Valid() && AllClean(d.s) && d.s.floor == |d.s.reqs| && |d.mapents| <= MAX_MAPENTS
      requires forall b :: 0 <= b < |d.ks| ==> Writable(d.ks[b]) >= 3 * LAST_PAGE
      modifies this`active, this`lpns, this`pmap, this`mapents, this`d, nand, blk
      ensures nand.Valid() && Grown(old(nand.crashes), old(d.s), nand.crashes, d.s)
      ensures !ok ==> Stuck(d.ks, |d.mapents|, blk.vcount)
      ensures d.s.reqs == old(d).s.reqs && d.s.floor == old(d).s.floor
      ensures ok ==> Valid() && SameHost(old(d), d) && |d.mapents| <= MAX_MAPENTS
      ensures ok ==> forall b :: 0 <= b < |d.ks| ==> |d.ks[b].free| >= GC_THRESHOLD
    {
      hide *;
      OpenAll();
      Open();
      SameHostIs(d, d);
      GrownNone(nand.crashes, d.s);
      ok := true;
      var done := false;
      while !done
        invariant Valid() && SameHost(old(d), d) && |d.mapents| <= MAX_MAPENTS && ok
        invariant AllClean(d.s) && d.s.floor == |d.s.reqs|
        invariant forall b :: 0 <= b < |d.ks| ==> Writable(d.ks[b]) >= 3 * LAST_PAGE
        invariant done ==> forall b :: 0 <= b < |d.ks| ==> |d.ks[b].free| >= GC_THRESHOLD
        invariant Grown(old(nand.crashes), old(d.s), nand.crashes, d.s)
        decreases Total(Deficits(d.ks)), !done
      {
        ghost var d1, c1 := d, nand.crashes;
        ghost var worked;
        ok, worked := CollectRound();
        SameHostReqs(old(d), d1);
        GrownTrans(old(nand.crashes), old(d).s, c1, d1.s, nand.crashes, d.s);
        if !ok {
          return;
        }
        SameHostTrans(old(d), d1, d);
        done := AllCollected();
      }
      OpenAll();
      Open();
      SameHostReqs(old(d), d);
    }

    // ---- log.c: checkpoints ----

    /** record_mapent: the mapping entries buffered since the last tag become pages of the log. */
    method RecordMapent(ghost n: nat)
      requires Wired() && MidCheckpoint(d) && Sized(d.ks, n, d.s.v.commit)
      requires |d.j.pages| + PagesFor(|d.mapents|) + 1 < LOG_CAP
      modifies this`mapents, this`bankActive, this`d, nand, space
      ensures Wired() && MidCheckpoint(d) && Sized(d.ks, n, d.s.v.commit) && mapents == d.mapents == []
      ensures d.ks == old(d).ks && d.s == old(d).s && d.slot == old(d).slot
      ensures |d.j.pages| == |old(d).j.pages| + PagesFor(|old(d).mapents|)
      ensures Grown(old(nand.crashes), old(d.s), nand.crashes, d.s)
    {
      hide *;
      Open();
      GrownNone(nand.crashes, d.s);
      LaterSame(d.s);
      PagesForNext(1);
      while mapents != []
        invariant Wired() && MidCheckpoint(d) && Sized(d.ks, n, d.s.v.commit) && d.mapents == mapents
        invariant d.ks == old(d).ks && d.s == old(d).s && d.slot == old(d).slot
        invariant |d.j.pages| + PagesFor(|mapents|) == |old(d).j.pages| + PagesFor(|old(d).mapents|)
        invariant Grown(old(nand.crashes), old(d.s), nand.crashes, d.s)
        decreases |mapents|
      {
        Open();
        ghost var c1 := nand.crashes;
        PagesForNext(|mapents|);
        var count := if |mapents| > NUM_MAPENTS_PER_PAGE then NUM_MAPENTS_PER_PAGE else |mapents|;
        PersistMapent(count);
        GrownTrans(old(nand.crashes), old(d).s, c1, d.s, nand.crashes, d.s);
        Open();
      }
      PagesForNext(1);
    }

    /** persist_mapent */
    method PersistMapent(count: nat)
      requires Wired() && MidCheckpoint(d) && |d.j.pages| + 1 < LOG_CAP && count <= |mapents|
      modifies this`mapents, this`bankActive, this`d, nand, space
      ensures Wired() && MidCheckpoint(d) && mapents == d.mapents == old(mapents)[count..]
      ensures d.ks == old(d).ks && d.s == old(d).s && d.slot == old(d).slot && |d.j.pages| == |old(d).j.pages| + 1
      ensures Grown(old(nand.crashes), old(d.s), nand.crashes, d.s)
    {
      hide *;
      Open();
      ghost var e := LogMapEntsOnly(d, count);
      var loc := space.Next(|d.j.pages|, bankActive);
      nand.ProgramLog(loc, MapEnts(mapents[..count]), e.s, e.j);
      bankActive := Wrap(bankActive, NUM_BANKS);
      mapents := mapents[count..];
      LaterSame(d.s);
      GrownOne(old(nand.crashes), d.s, Crash(e.flash, e.s, e.j));
      d := e;
      Close();
    }

    // ---- pgmap.c and blkmgr.c: the full map, and reclaiming the log ----

    /** The pages of pgmap_persist_map_table. */
    method PersistChunks() returns (ghost chunks: map<nat, map<nat, Loc>>)
      requires Wired() && ReclaimReady(d) && d.s.g > 1
      modifies nand
      ensures nand.Valid() && nand.data == d.flash.data && nand.log == d.flash.log && |d.flash.slots| == 2 && d.slot < 2
      ensures nand.slots == d.flash.slots[d.slot := Slot(chunks, None)] && Persisted(chunks, d.s.pmap, NUM_CHUNKS)
      ensures Grown(old(nand.crashes), d.s, nand.crashes, d.s)
    {
      hide *;
      Open();
      ReclaimParts(d);
      PersistedNone(d.s.pmap);
      GrownNone(nand.crashes, d.s);
      LaterSame(d.s);
      chunks := map[];
      assert d.flash.slots == d.flash.slots[d.slot := Slot(chunks, None)];
      var i: nat := 0;
      while i < NUM_CHUNKS
        invariant i <= NUM_CHUNKS && nand.Valid() && nand.data == d.flash.data && nand.log == d.flash.log
        invariant nand.slots == d.flash.slots[d.slot := Slot(chunks, None)] && Persisted(chunks, d.s.pmap, i)
        invariant Grown(old(nand.crashes), d.s, nand.crashes, d.s)
      {
        PersistedNext(chunks, d.s.pmap, i);
        PartSafe(d, chunks[i := ChunkOf(pmap, i)]);
        ghost var c1 := nand.crashes;
        ghost var more := Slot(chunks[i := ChunkOf(pmap, i)], None);
        assert nand.slots[d.slot := more] == d.flash.slots[d.slot := more];
        nand.ProgramChunk(mapBlkIdx, i, ChunkOf(pmap, i), d.s, d.j);
        chunks := chunks[i := ChunkOf(pmap, i)];
        GrownOne(c1, d.s, Crash(Flash(nand.data, nand.log, nand.slots), d.s, d.j));
        GrownTrans(old(nand.crashes), d.s, c1, d.s, nand.crashes, d.s);
        i := i + 1;
      }
    }

    /** blkmgr_erase_cur_map_blk, on the old map. */
    method EraseOldMap(ghost chunks: map<nat, map<nat, Loc>>, ghost commit: nat)
      requires ReclaimReady(d) && d.s.g > 1 && d.s.v.commit == commit && Persisted(chunks, d.s.pmap, NUM_CHUNKS)
      requires nand.Valid() && nand.data == d.flash.data && nand.log == d.flash.log && |d.flash.slots| == 2 && d.slot < 2
      requires nand.slots == d.flash.slots[d.slot := Slot(chunks, Some(commit))] && mapBlkIdx == 1 - d.slot
      modifies nand
      ensures nand.Valid() && nand.data == d.flash.data && nand.log == d.flash.log
      ensures nand.slots == d.flash.slots[d.slot := Slot(chunks, Some(commit))][1 - d.slot := EMPTY_SLOT]
      ensures Grown(old(nand.crashes), d.s, nand.crashes, d.s)
    {
      hide *;
      ReclaimParts(d);
      GrownNone(nand.crashes, d.s);
      LaterSame(d.s);
      ghost var left := d.flash.slots[1 - d.slot];
      ghost var base := d.flash.slots[d.slot := Slot(chunks, Some(commit))];
      assert base == base[1 - d.slot := left];
      var bank: nat := 0;
      while bank < NUM_BANKS
        invariant bank <= NUM_BANKS && nand.Valid() && nand.data == d.flash.data && nand.log == d.flash.log
        invariant nand.slots == base[1 - d.slot := left]
        invariant if bank == 0 then left == d.flash.slots[1 - d.slot] else left.commit == None
        invariant forall i: nat :: i in left.chunks ==> RoundRobin(i) >= bank
        invariant Grown(old(nand.crashes), d.s, nand.crashes, d.s)
      {
        ErasedBank(left, bank);
        MapComplete(d, chunks, WithoutBank(left, bank), commit);
        ghost var c1 := nand.crashes;
        assert base[1 - d.slot := left][1 - d.slot := WithoutBank(left, bank)] == base[1 - d.slot := WithoutBank(left, bank)];
        nand.EraseMapBlock(mapBlkIdx, bank, d.s, NewBase(d));
        left := WithoutBank(left, bank);
        GrownOne(c1, d.s, Crash(Flash(nand.data, nand.log, nand.slots), d.s, NewBase(d)));
        GrownTrans(old(nand.crashes), d.s, c1, d.s, nand.crashes, d.s);
        bank := bank + 1;
      }
      NothingLeft(left);
    }

    /** pgmap_persist_map_table: the full map and its commit page go to the erased slot; then the other slot
        is erased. */
    method PersistMapTable() returns (ghost slot: Slot)
      requires Wired() && ReclaimReady(d) && d.s.g > 1
      modifies this`mapBlkIdx, nand
      ensures nand.Valid() && nand.data == d.flash.data && nand.log == d.flash.log && |d.flash.slots| == 2 && d.slot < 2
      ensures nand.slots == d.flash.slots[d.slot := slot][1 - d.slot := EMPTY_SLOT] && NewMap(d, slot, EMPTY_SLOT)
      ensures mapBlkIdx == 1 - d.slot && Grown(old(nand.crashes), d.s, nand.crashes, d.s)
    {
      hide *;
      Open();
      ReclaimParts(d);
      LaterSame(d.s);
      ghost var chunks := PersistChunks();
      ghost var c1 := nand.crashes;
      var epochCommit := Before(gEpoch);
      slot := Slot(chunks, Some(epochCommit));
      MapComplete(d, chunks, d.flash.slots[1 - d.slot], epochCommit);
      assert d.flash.slots[d.slot := slot] == d.flash.slots[d.slot := slot][1 - d.slot := d.flash.slots[1 - d.slot]];
      assert nand.slots[d.slot := slot] == d.flash.slots[d.slot := slot];
      PersistedAll(chunks, d.s.pmap);
      nand.ProgramMapCommit(mapBlkIdx, epochCommit, d.s, NewBase(d));
      GrownOne(c1, d.s, Crash(Flash(nand.data, nand.log, nand.slots), d.s, NewBase(d)));
      GrownTrans(old(nand.crashes), d.s, c1, d.s, nand.crashes, d.s);
      mapBlkIdx := Wrap(mapBlkIdx, 2);
      ghost var c2 := nand.crashes;
      EraseOldMap(chunks, epochCommit);
      GrownTrans(old(nand.crashes), d.s, c2, d.s, nand.crashes, d.s);
      PersistedNone(d.s.pmap);
      MapComplete(d, chunks, EMPTY_SLOT, epochCommit);
    }

    /** One row of erase_all_log_blks. */
    method EraseLogRow(cnt: nat, ghost slot: Slot)
      requires NewMap(d, slot, EMPTY_SLOT) && d.s.v.commit >= 0 && |d.flash.slots| == 2 && d.slot < 2
      requires nand.Valid() && nand.data == d.flash.data && nand.slots == d.flash.slots[d.slot := slot][1 - d.slot := EMPTY_SLOT]
      requires ErasedTo(nand.log, d.flash.log, cnt, 0)
      modifies nand
      ensures nand.Valid() && nand.data == d.flash.data && nand.slots == old(nand.slots)
      ensures ErasedTo(nand.log, d.flash.log, cnt + 1, 0)
      ensures Grown(old(nand.crashes), d.s, nand.crashes, d.s)
    {
      hide *;
      GrownNone(nand.crashes, d.s);
      LaterSame(d.s);
      var bank: nat := 0;
      while bank < NUM_BANKS
        invariant bank <= NUM_BANKS && nand.Valid() && nand.data == d.flash.data && nand.slots == old(nand.slots)
        invariant ErasedTo(nand.log, d.flash.log, cnt, bank)
        invariant Grown(old(nand.crashes), d.s, nand.crashes, d.s)
      {
        ErasedStep(nand.log, d.flash.log, cnt, bank);
        WithoutLogSmaller(nand.log, bank, cnt);
        ErasingSafe(d, slot, WithoutLog(nand.log, bank, cnt));
        ghost var c1 := nand.crashes;
        nand.EraseLogBlock(bank, cnt, d.s, EmptyJournal(d));
        GrownOne(c1, d.s, Crash(Flash(nand.data, nand.log, nand.slots), d.s, EmptyJournal(d)));
        GrownTrans(old(nand.crashes), d.s, c1, d.s, nand.crashes, d.s);
        bank := bank + 1;
      }
      ErasedRow(nand.log, d.flash.log, cnt);
    }

    /** erase_all_log_blks */
    method EraseAllLogBlks(ghost slot: Slot)
      requires NewMap(d, slot, EMPTY_SLOT) && d.s.v.commit >= 0 && |d.flash.slots| == 2 && d.slot < 2
      requires nand.Valid() && nand.data == d.flash.data && nand.slots == d.flash.slots[d.slot := slot][1 - d.slot := EMPTY_SLOT]
      requires nand.log == d.flash.log && LogHolds(d.flash.log, d.j.pages) && |d.j.pages| < LOG_CAP
      modifies nand
      ensures nand.Valid() && nand.data == d.flash.data && nand.slots == old(nand.slots)
      ensures LogHolds(nand.log, [])
      ensures Grown(old(nand.crashes), d.s, nand.crashes, d.s)
    {
      hide *;
      GrownNone(nand.crashes, d.s);
      ErasedNone(nand.log);
      var cnt: nat := 0;
      while cnt < NUM_LOG_BLKS_PER_BANK
        invariant cnt <= NUM_LOG_BLKS_PER_BANK && nand.Valid() && nand.data == d.flash.data && nand.slots == old(nand.slots)
        invariant ErasedTo(nand.log, d.flash.log, cnt, 0)
        invariant Grown(old(nand.crashes), d.s, nand.crashes, d.s)
      {
        ghost var c1 := nand.crashes;
        EraseLogRow(cnt, slot);
        GrownTrans(old(nand.crashes), d.s, c1, d.s, nand.crashes, d.s);
        cnt := cnt + 1;
      }
      ErasedAll(nand.log, d.flash.log, d.j.pages);
    }

    /** blkmgr_reclaim_log, and revert_log_ppn for every bank. */
    method ReclaimLog()
      requires Wired() && ReclaimReady(d) && d.s.g > 1 && Committable(d.s)
      modifies this`mapBlkIdx, this`bankActive, this`d, nand, space
      ensures Wired() && Taggable(d, true) && d.j.pages == [] && d.ks == old(d).ks && d.s == old(d).s && d.slot == 1 - old(d).slot
      ensures Grown(old(nand.crashes), old(d.s), nand.crashes, d.s)
    {
      hide *;
      Open();
      ReclaimParts(d);
      LogParts(d);
      ghost var slot := PersistMapTable();
      ghost var c1 := nand.crashes;
      EraseAllLogBlks(slot);
      GrownTrans(old(nand.crashes), d.s, c1, d.s, nand.crashes, d.s);
      space.StripedValid(|d.j.pages|);
      space.ResetCount();
      ReclaimDone(d, slot, nand.log);
      ReclaimFields(d, slot, nand.log);
      d := ReclaimStep(d, slot, nand.log);
      space.Revert();
      bankActive := 0;
      Close();
    }

    /** record_tag. It may have to reclaim the log first, and then writes the tag again: once. */
    method RecordTag(ghost n: nat, ghost emptied: bool) returns (ghost depth: nat)
      requires Wired() && AlignedWith(active, d.ks) && Taggable(d, emptied) && Sized(d.ks, n, d.s.v.commit)
      requires if emptied then d.j.pages == [] else gEpoch == 1 ==> |d.j.pages| < LAST_PAGE * NUM_BANKS
      modifies this`mapBlkIdx, this`bankActive, this`d, nand, blk`rings, space
      ensures Core() && AlignedWith(active, d.ks) && d.mapents == [] && space.logBlkCnt >= 3 && JustCommitted(d.s)
      ensures d.s == old(d).s.(v := d.s.v, floor := d.s.g) && d.s.v.commit == d.s.g - 1 && SameWritables(old(d).ks, d.ks)
      ensures depth == if LS.BlocksLeft(|old(d).j.pages| + 1) < 3 then 1 else 0
      ensures if depth == 0 then |d.j.pages| == |old(d).j.pages| + 1 && d.slot == old(d).slot
                  && nand.slots == old(nand.slots) && |nand.crashes| == |old(nand.crashes)| + 1
              else !emptied && |d.j.pages| == 1 && d.slot == 1 - old(d).slot
      ensures Grown(old(nand.crashes), old(d.s), nand.crashes, d.s)
      decreases if emptied then 0 else 1
    {
      hide *;
      Open();
      ghost var rings := blk.rings;
      ghost var e := TagOnly(d, active, n, emptied);
      blk.PushRsv();
      PersistTag(e);
      MirrorsPushed(d.ks, e.ks, rings, blk.rings, blk.vt, lpns);
      GrownOne(old(nand.crashes), d.s, Crash(e.flash, e.s, e.j));
      d := e;
      Close();
      depth := 0;
      FewLogPages();
      space.CountLeft(|d.j.pages|);
      if space.logBlkCnt < 3 {
        if emptied || gEpoch == 1 {
          space.FarFromThreshold(|d.j.pages|);
        }
        ghost var d1, c1 := d, nand.crashes;
        ReclaimLog();
        GrownTrans(old(nand.crashes), old(d).s, c1, d1.s, nand.crashes, d.s);
        ghost var d2, c2 := d, nand.crashes;
        depth := RecordTag(0, true);
        GrownTrans(old(nand.crashes), old(d).s, c2, d2.s, nand.crashes, d.s);
        SameWritablesTrans(old(d).ks, d1.ks, d.ks);
        depth := 1;
      } else {
        CloseCore();
      }
    }

    lemma FewLogPages()
      ensures 1 <= LAST_PAGE * NUM_BANKS
    {
      MulMonotone(1, LAST_PAGE, NUM_BANKS);
    }

    /** reach_chkpt_threshold */
    predicate ReachChkptThreshold()
      reads this, space
    {
      |mapents| > (NUM_BANKS - 1) * NUM_MAPENTS_PER_PAGE - 512 || space.logBlkCnt < 3
    }

    /** The checkpoint at the end of ftl_write. */
    method Checkpoint(ghost p: nat, ghost q: nat)
      requires Valid() && p >= 2 * LAST_PAGE && q <= MAX_MAPENTS && HasRoom(d.ks, |d.mapents|, cache.nDirty, p, q)
      requires d.s.Settled() && |d.s.reqs| == d.s.g > 0 && d.s.v.commit < d.s.g - 1
      requires |d.j.pages| + 2 * NUM_BANKS + 3 < LOG_CAP && (d.s.g == 1 ==> |d.j.pages| <= 1 && deps == [])
      modifies this`active, this`lpns, this`pmap, this`mapents, this`requireFlushDepent, this`deps, this`bankActive
      modifies this`mapBlkIdx, this`d, nand, blk`rings, blk`vcount, cache, space
      ensures Valid() && HasRoom(d.ks, |d.mapents|, cache.nDirty, p, q) && space.logBlkCnt >= 3 && JustCommitted(d.s)
      ensures d.mapents == [] && d.s.deps == [] && d.s.reqs == old(d).s.reqs && d.s.g == old(d).s.g && d.s.enq == old(d).s.enq
      ensures d.s.v.commit == d.s.g - 1 && d.s.floor == |d.s.reqs| && !requireFlushDepent
      ensures Grown(old(nand.crashes), old(d.s), nand.crashes, d.s)
    {
      hide *;
      OpenAll();
      Open();
      PrefixFlush(p, q);
      FlushedParts(old(d), d);
      OpenAll();
      Open();
      CheckpointReady(old(d), d);
      RoomTotal(d.ks, |d.mapents|, cache.nDirty, p, q);
      PagesForMax(|d.mapents|);
      ghost var d1, c1, n := d, nand.crashes, |d.mapents|;
      RecordMapent(n);
      GrownTrans(old(nand.crashes), old(d).s, c1, d1.s, nand.crashes, d.s);
      TaggableIs(d);
      Open();
      ghost var d2, c2 := d, nand.crashes;
      if gEpoch == 1 {
        ManyLogPages();
      }
      ghost var depth := RecordTag(n, false);
      GrownTrans(old(nand.crashes), old(d).s, c2, d2.s, nand.crashes, d.s);
      RoomWritables(d1.ks, d.ks, n, cache.nDirty, p, q);
      Open();
      CloseAll();
    }

    lemma ManyLogPages()
      ensures 2 * NUM_BANKS + 2 < LAST_PAGE * NUM_BANKS
    {
      LastPage();
      MulMonotone(127, LAST_PAGE, NUM_BANKS);
    }

    // ---- ftl_write ----

    /** A clean buffer for a page that is not cached, with what the request leaves of its flash page: nothing
        is read if the request brings the whole page or the page was never written. */
    method FetchPage(r: Request, k: nat, lpn: nat, base: nat, remain: nat) returns (id: nat, buf: seq<nat>)
      requires Valid() && Serving(d, cache.nDirty, r, k) && k < r.Span() && lpn == r.First() + k && lpn !in d.s.cache
      requires Cursor(r.lba, |r.data|, lpn, base, remain) && base < SECTORS_PER_PAGE && remain > 0
      modifies this`active, this`lpns, this`pmap, this`mapents, this`poolBank, this`d, nand, blk`rings, blk`vt, blk`vcount, cache
      ensures Valid() && Serving(d, cache.nDirty, r, k) && lpn !in d.s.cache && Drained(old(d), d)
      ensures BankOf(lpn) < |cache.ents| && id < |cache.ents[BankOf(lpn)]| == W.NC && !cache.ents[BankOf(lpn)][id].dirty
      ensures d.s.g < |d.s.reqs| && RightOutside(buf, lpn, d.s.reqs, d.s.g, base, base + Part(base, remain))
      ensures HalfKept(old(cache.nDirty), cache.nDirty)
      ensures Grown(old(nand.crashes), old(d.s), nand.crashes, d.s)
      ensures BankOf(lpn) < |cache.lru| && LeastRecent(cache.ents[BankOf(lpn)], cache.lru[BankOf(lpn)], id, false)
      ensures |old(cache.nDirty)| == NUM_BANKS
      ensures old(cache.nDirty)[BankOf(lpn)] == 0 ==> d == old(d) && cache.nDirty == old(cache.nDirty)
    {
      hide *;
      OpenAll();
      ServingParts(d, cache.nDirty, r, k);
      ServingRoom(k);
      var bank := BankOf(lpn);
      BankIs(lpn);
      ghost var was := cache.nDirty;
      id := GetCleanCacheBuf(bank, HOST_ROOM - k, LoadAt(d.s.g) + k);
      ServingDrained(old(d), d, was, cache.nDirty, r, k);
      SameKeys(old(d), d, lpn);
      OpenAll();
      Open();
      OldContent(d, cache.nDirty, r, k, lpn);
      DeviceParts(d, bank);
      cache.BufferAt(bank, id);
      PartFacts(base, remain);
      var cnt := Part(base, remain);
      buf := cache.ents[bank][id].buf;
      if lpn in pmap {
        var page := nand.data[pmap[lpn]].content;
        AgreesSize(page, lpn, d.s.reqs, d.s.g);
        buf := PreRead(buf, page, base, cnt, lpn, d.s.reqs, d.s.g);
      } else {
        NewRight(buf, lpn, d.s.reqs, d.s.g, base, base + cnt);
      }
    }

    /** The pre-read of ftl_write: the right part, the left part or the whole of the page. Outside the part
        that the request brings, the buffer is then as the requests before it left the page. */
    method PreRead(buf: seq<nat>, page: seq<nat>, base: nat, cnt: nat, ghost lpn: nat, ghost reqs: seq<Request>,
          ghost n: nat)
      returns (c: seq<nat>)
      requires |buf| == |page| == SECTORS_PER_PAGE && 0 < cnt && base + cnt <= SECTORS_PER_PAGE
      requires n <= |reqs| && Agrees(page, lpn, reqs, n)
      ensures RightOutside(c, lpn, reqs, n, base, base + cnt)
    {
      c := buf;
      if cnt != SECTORS_PER_PAGE {
        if base == 0 || (base + cnt) % SECTORS_PER_PAGE == 0 {
          var basePreread := if base == 0 then cnt else 0;
          c := CopyIn(buf, page, basePreread, SECTORS_PER_PAGE - cnt);
        } else {
          c := CopyIn(buf, page, 0, SECTORS_PER_PAGE);
        }
      }
      PreReadRight(buf, page, lpn, reqs, n, base, cnt, c);
    }

    /** The page goes into the cache. If it overwrites a dirty page of an earlier request, the dependency is
        recorded first. */
    method EnqueuePage(r: Request, k: nat, lpn: nat, id: nat, base: nat, remain: nat, buf: seq<nat>)
      requires Valid() && Serving(d, cache.nDirty, r, k) && k < r.Span() && lpn == r.First() + k && gPgSpan == r.Span()
      requires Cursor(r.lba, |r.data|, lpn, base, remain) && base < SECTORS_PER_PAGE && remain > 0
      requires BankOf(lpn) < |cache.ents| && id < |cache.ents[BankOf(lpn)]| == W.NC
      requires lpn in d.s.cache ==> cache.ents[BankOf(lpn)][id].lpn == Some(lpn)
      requires lpn !in d.s.cache ==> !cache.ents[BankOf(lpn)][id].dirty
      requires d.s.g < |d.s.reqs| && RightOutside(buf, lpn, d.s.reqs, d.s.g, base, base + Part(base, remain))
      modifies this`requireFlushDepent, this`deps, this`bankActive, this`d, nand, space, cache
      ensures Valid() && Serving(d, cache.nDirty, r, k + 1) && d.s.reqs == old(d).s.reqs && d.s.v.commit == old(d).s.v.commit
      ensures Grown(old(nand.crashes), old(d.s), nand.crashes, d.s)
      ensures BankOf(lpn) < |old(cache.lru)| == |cache.lru| && cache.lru == old(cache.lru)[BankOf(lpn) := cache.lru[BankOf(lpn)]]
      ensures MovedToFront(old(cache.lru)[BankOf(lpn)], cache.lru[BankOf(lpn)], id)
      ensures PutIn(old(d), lpn, d) && OneMoreDirty(old(d), old(cache.nDirty), lpn, cache.nDirty)
      ensures Merged(old(d), lpn, d)
      ensures Logging(old(d), old(nand.crashes), old(requireFlushDepent), d, nand.crashes, requireFlushDepent)
    {
      hide *;
      OpenAll();
      Open();
      ServingParts(d, cache.nDirty, r, k);
      var bank := BankOf(lpn);
      BankIs(lpn);
      cache.BufferAt(bank, id);
      var x := cache.ents[bank][id];
      var right := base + Part(base, remain);
      ghost var dirty := cache.nDirty;
      PartFacts(base, remain);
      RightSize(buf, lpn, d.s.reqs, d.s.g, base, right);
      EnqueuedContent(buf, lpn, d.s.reqs, d.s.g, base, remain);
      ghost var e := EnqueueOnly(d, dirty, r, k, lpn, Overlay(buf, r, lpn, base, right), x);
      var merge := x.lpn == Some(lpn) && x.dirty;
      if merge {
        deps := deps + [Dep(x.epoch, gEpoch, x.span)];
      }
      ghost var c0 := nand.crashes;
      GrownNone(nand.crashes, d.s);
      GrownLast(nand.crashes, d.s, nand.crashes, d.s, e.s);
      ghost var o := d;
      d := e;
      Close();
      LogHasRoom(o, dirty, r, k);
      if merge && |deps| >= NUM_DEPENTS_PER_PAGE {
        RecordDepent();
        GrownTrans(old(nand.crashes), o.s, old(nand.crashes), e.s, nand.crashes, d.s);
        LoggedParts(e, d);
        LoggedReqs(e, d);
        Open();
      }
      MergedIs(o, lpn, e, d);
      GrownPrefix(c0, o.s, nand.crashes, d.s);
      LoggingMerged(o, c0, old(requireFlushDepent), lpn, d, nand.crashes, requireFlushDepent);
      cache.Enqueue(bank, lpn, id, buf, r, base, right, gEpoch, gPgSpan);
      PutInIs(o, dirty, lpn, e, x, Buffer(true, gPgSpan, Some(lpn), gEpoch, Overlay(buf, r, lpn, base, right)), d, cache.nDirty);
      ServingNext(o, dirty, e, d, cache.nDirty, r, k, bank);
      Open();
      CloseAll();
    }

    /** The part of the request on page lpn goes into the cache, which makes room for it if it has to. */
    method LoadPage(r: Request, k: nat, lpn: nat, base: nat, remain: nat)
      requires Valid() && Serving(d, cache.nDirty, r, k) && k < r.Span() && lpn == r.First() + k && gPgSpan == r.Span()
      requires Cursor(r.lba, |r.data|, lpn, base, remain) && base < SECTORS_PER_PAGE && remain > 0
      modifies this`active, this`lpns, this`pmap, this`mapents, this`poolBank, this`requireFlushDepent, this`deps, this`bankActive, this`d
      modifies nand, blk`rings, blk`vt, blk`vcount, cache, space
      ensures Valid() && Serving(d, cache.nDirty, r, k + 1) && d.s.reqs == old(d).s.reqs && d.s.v.commit == old(d).s.v.commit
      ensures HalfKept(old(cache.nDirty), cache.nDirty)
      ensures Grown(old(nand.crashes), old(d.s), nand.crashes, d.s)
      ensures Logging(old(d), old(nand.crashes), old(requireFlushDepent), d, nand.crashes, requireFlushDepent)
      ensures |d.mapents| >= |old(d).mapents| && SpentVictims(old(d).ks, d.ks)
      ensures |old(cache.nDirty)| == NUM_BANKS
      ensures lpn in old(d).s.cache || old(cache.nDirty)[BankOf(lpn)] == 0 ==>
                PutIn(old(d), lpn, d) && OneMoreDirty(old(d), old(cache.nDirty), lpn, cache.nDirty)
    {
      hide *;
      OpenAll();
      BankIs(lpn);
      cache.Lengths();
      GrownNone(nand.crashes, d.s);
      DrainedNone(d);
      HalfKeptSame(cache.nDirty);
      var found := cache.ExistInCache(BankOf(lpn), lpn);
      var id, buf;
      if found.None? {
        id, buf := FetchPage(r, k, lpn, base, remain);
      } else {
        id := found.value;
        cache.BufferAt(BankOf(lpn), id);
        buf := cache.ents[BankOf(lpn)][id].buf;
        OldContent(d, cache.nDirty, r, k, lpn);
        AgreesRight(buf, lpn, d.s.reqs, d.s.g, base, base + Part(base, remain));
      }
      ghost var c, x, f, dirty := d, nand.crashes, requireFlushDepent, cache.nDirty;
      SameKeys(old(d), c, lpn);
      LoggingDrained(old(d), old(nand.crashes), old(d).s, c, x, f);
      EnqueuePage(r, k, lpn, id, base, remain, buf);
      GrownTrans(old(nand.crashes), old(d).s, x, c.s, nand.crashes, d.s);
      LoggingTrans(old(d), old(nand.crashes), f, c, x, f, d, nand.crashes, requireFlushDepent);
      PutInParts(old(d), c, lpn, d);
      MoreDirtyKept(c, dirty, lpn, cache.nDirty);
      HalfKeptTrans(old(cache.nDirty), dirty, cache.nDirty);
    }

    /** A turn of the loop of ftl_write: a turn of the pool, and then the part of the request on page lpn. */
    method ServePage(r: Request, k: nat, lpn: nat, base: nat, remain: nat)
      requires Valid() && Serving(d, cache.nDirty, r, k) && k < r.Span() && lpn == r.First() + k && gPgSpan == r.Span()
      requires Cursor(r.lba, |r.data|, lpn, base, remain) && base < SECTORS_PER_PAGE && remain > 0
      modifies this`active, this`lpns, this`pmap, this`mapents, this`poolBank, this`requireFlushDepent, this`deps, this`bankActive, this`d
      modifies nand, blk`rings, blk`vt, blk`vcount, cache, space
      ensures Valid() && Serving(d, cache.nDirty, r, k + 1) && d.s.reqs == old(d).s.reqs && d.s.v.commit == old(d).s.v.commit
      ensures HalfKept(old(cache.nDirty), cache.nDirty)
      ensures Grown(old(nand.crashes), old(d.s), nand.crashes, d.s)
      ensures PoolTurn(old(d), old(cache.nDirty), old(poolBank), d)
      ensures Ready(old(d), old(cache.nDirty), lpn) ==>
                PutIn(old(d), lpn, d) && OneMoreDirty(old(d), old(cache.nDirty), lpn, cache.nDirty)
      ensures Logging(old(d), old(nand.crashes), old(requireFlushDepent), d, nand.crashes, requireFlushDepent)
    {
      hide *;
      OpenAll();
      ServingParts(d, cache.nDirty, r, k);
      ServingRoom(k);
      ghost var was, pool, f := cache.nDirty, poolBank, requireFlushDepent;
      PoolWriteBuf(HOST_ROOM - k, LoadAt(d.s.g) + k);
      ghost var c, x := d, nand.crashes;
      OpenAll();
      ghost var mid := cache.nDirty;
      PoolTurnIs(old(d), was, pool, c, cache.nDirty);
      PoolTurnStill(old(d), was, lpn, pool, c);
      ServingDrained(old(d), c, was, cache.nDirty, r, k);
      SameKeys(old(d), c, lpn);
      LoggingDrained(old(d), old(nand.crashes), old(d).s, c, x, f);
      LoadPage(r, k, lpn, base, remain);
      GrownTrans(old(nand.crashes), old(d).s, x, c.s, nand.crashes, d.s);
      LoggingTrans(old(d), old(nand.crashes), f, c, x, f, d, nand.crashes, requireFlushDepent);
      HalfKeptTrans(was, mid, cache.nDirty);
      PoolTurnOnward(old(d), was, pool, c, d);
    }

    /** The loop of ftl_write. */
    method ServeRequest(r: Request)
      requires Valid() && Serving(d, cache.nDirty, r, 0) && gPgSpan == r.Span()
      modifies this`active, this`lpns, this`pmap, this`mapents, this`poolBank, this`requireFlushDepent, this`deps, this`bankActive, this`d
      modifies nand, blk`rings, blk`vt, blk`vcount, cache, space
      ensures Valid() && Serving(d, cache.nDirty, r, r.Span()) && d.s.reqs == old(d).s.reqs && d.s.v.commit == old(d).s.v.commit
      ensures HalfKept(old(cache.nDirty), cache.nDirty)
      ensures Grown(old(nand.crashes), old(d.s), nand.crashes, d.s)
      ensures r.Span() == 1 && Ready(old(d), old(cache.nDirty), r.First()) ==>
                PutIn(old(d), r.First(), d) && OneMoreDirty(old(d), old(cache.nDirty), r.First(), cache.nDirty)
      ensures Logging(old(d), old(nand.crashes), old(requireFlushDepent), d, nand.crashes, requireFlushDepent)
    {
      hide *;
      RequestParts(r);
      GrownNone(nand.crashes, d.s);
      LoggingNone(d, nand.crashes, requireFlushDepent);
      OpenAll();
      cache.Lengths();
      HalfKeptSame(cache.nDirty);
      FirstCursor(r.lba, |r.data|);
      var remain: nat := |r.data|;
      var lpn: nat := r.lba / SECTORS_PER_PAGE;
      var base: nat := r.lba % SECTORS_PER_PAGE;
      CursorParts(r.lba, |r.data|, lpn, base, remain);
      var k: nat := 0;
      while remain != 0
        invariant Valid() && Serving(d, cache.nDirty, r, k) && d.s.reqs == old(d).s.reqs && d.s.v.commit == old(d).s.v.commit
        invariant lpn == r.First() + k && remain <= |r.data|
        invariant if remain == 0 then k == r.Span() else Cursor(r.lba, |r.data|, lpn, base, remain) && base < SECTORS_PER_PAGE
        invariant k == 0 ==> d == old(d) && cache.nDirty == old(cache.nDirty)
        invariant k == 1 && Ready(old(d), old(cache.nDirty), r.First()) ==>
                    PutIn(old(d), r.First(), d) && OneMoreDirty(old(d), old(cache.nDirty), r.First(), cache.nDirty)
        invariant HalfKept(old(cache.nDirty), cache.nDirty)
        invariant Grown(old(nand.crashes), old(d.s), nand.crashes, d.s)
        invariant Logging(old(d), old(nand.crashes), old(requireFlushDepent), d, nand.crashes, requireFlushDepent)
        decreases remain
      {
        ghost var d1, c1, f1, dirty := d, nand.crashes, requireFlushDepent, cache.nDirty;
        CursorInside(r.lba, |r.data|, lpn, base, remain);
        NextCursor(r.lba, |r.data|, lpn, base, remain);
        PartFacts(base, remain);
        ServePage(r, k, lpn, base, remain);
        HalfKeptTrans(old(cache.nDirty), dirty, cache.nDirty);
        GrownTrans(old(nand.crashes), old(d).s, c1, d1.s, nand.crashes, d.s);
        LoggingTrans(old(d), old(nand.crashes), old(requireFlushDepent), d1, c1, f1, d, nand.crashes, requireFlushDepent);
        remain := remain - Part(base, remain);
        base := 0;
        lpn := lpn + 1;
        k := k + 1;
      }
    }

    /** Before the first checkpoint no bank is short of free blocks. */
    lemma ShortMeansCommitted(k: nat)
      requires Core() && k <= MAX_SPAN && HasRoom(d.ks, |d.mapents|, cache.nDirty, HOST_ROOM - k, LoadAt(d.s.g) + k)
      requires |blk.rings| == NUM_BANKS && exists b :: 0 <= b < NUM_BANKS && blk.rings[b].free < GC_THRESHOLD
      ensures d.s.v.commit >= 0
    {
      hide *;
      Open();
      ServingRoom(k);
      RoomTotal(d.ks, |d.mapents|, cache.nDirty, HOST_ROOM - k, LoadAt(d.s.g) + k);
      var b :| 0 <= b < NUM_BANKS && blk.rings[b].free < GC_THRESHOLD;
      MirrorAt(d.ks, blk.rings, blk.vt, lpns, b);
      VictimThere(d, b);
    }

    /** What the rings are short of. */
    lemma ShortagesMirrored()
      requires Mirrors(d.ks, blk.rings, blk.vt, lpns)
      ensures |blk.rings| == NUM_BANKS && (Total(blk.Shortages(NUM_BANKS)) > BATCH_GC_THRESHOLD <==> BatchShort(d.ks))
    {
      FreeMirrored(d.ks, blk.rings, blk.vt, lpns);
      assert blk.Shortages(NUM_BANKS) == Shorts(d.ks);
    }


    /** The garbage collection of ftl_write: exactly if the banks are short of free blocks, and only after a flush. */
    method CollectIfNeeded(r: Request) returns (ok: bool)
      requires Valid() && Serving(d, cache.nDirty, r, r.Span())
      modifies this`active, this`lpns, this`pmap, this`mapents, this`requireFlushDepent, this`deps, this`bankActive, this`d
      modifies nand, blk, cache, space
      ensures nand.Valid() && Grown(old(nand.crashes), old(d.s), nand.crashes, d.s) && d.s.reqs == old(d).s.reqs
      ensures !ok ==> Stuck(d.ks, |d.mapents|, blk.vcount) && old(d).s.v.commit >= 0 && d.s.floor == |d.s.reqs|
      ensures if BatchShort(old(d).ks) then ok ==> GcDone(d) && !requireFlushDepent
              else ok && d == old(d) && requireFlushDepent == old(requireFlushDepent) && cache.nDirty == old(cache.nDirty)
      ensures ok ==> Valid() && Served(d, cache.nDirty, r) && d.s.v.commit == old(d).s.v.commit
    {
      hide *;
      OpenAll();
      Open();
      ServingSettled(d, cache.nDirty, r);
      ServingRoom(r.Span());
      LogSoFar(d, cache.nDirty, r, r.Span());
      cache.DirtyBound();
      ShortagesMirrored();
      var reached := blk.ReachBatchGcThreshold();
      if reached {
        ghost var o, was := d, cache.nDirty;
        ShortMeansCommitted(r.Span());
        PrefixFlush(HOST_ROOM - r.Span(), LoadAt(d.s.g) + r.Span());
        FlushedParts(o, d);
        OpenAll();
        cache.DirtyBound();
        RoomForGc(d.ks, |d.mapents|, cache.nDirty, o.s.g, r.Span());
        ghost var d1, c1 := d, nand.crashes;
        ok := CollectBanks();
        GrownTrans(old(nand.crashes), old(d).s, c1, d1.s, nand.crashes, d.s);
        if ok {
          OpenAll();
          NothingDirty(cache.nDirty);
          Thresholds();
          FreeIsRoom(d, cache.nDirty, MAX_MAPENTS);
          ServedByGc(o, was, d1, d, cache.nDirty, r);
          SameHostReqs(d1, d);
          GcDoneIs(d1, d);
        }
      } else {
        ok := true;
        GrownNone(nand.crashes, d.s);
        FreeMirrored(d.ks, blk.rings, blk.vt, lpns);
        RoomTotal(d.ks, |d.mapents|, cache.nDirty, HOST_ROOM - r.Span(), LoadAt(d.s.g) + r.Span());
        FreeIsRoom(d, cache.nDirty, LoadAt(d.s.g) + r.Span());
        ServedDirectly(d, cache.nDirty, r);
      }
    }

    /** The end of ftl_write: the request gets its epoch; then a checkpoint, if it is time for one. */
    method FinishRequest(r: Request)
      requires Valid() && Served(d, cache.nDirty, r)
      modifies this`gEpoch, this`active, this`lpns, this`pmap, this`mapents, this`requireFlushDepent, this`deps, this`bankActive
      modifies this`mapBlkIdx, this`d, nand, blk`rings, blk`vcount, cache, space
      ensures Valid() && Between(d, cache.nDirty) && d.s.reqs == old(d).s.reqs
      ensures d.s.v.commit == if old(ReachChkptThreshold()) then |d.s.reqs| - 1 else old(d).s.v.commit
      ensures |d.s.reqs| == 1 ==> !old(ReachChkptThreshold())
      ensures if old(ReachChkptThreshold()) then d.s.floor == |d.s.reqs| && !requireFlushDepent
              else d == old(d).(s := old(d).s.(g := old(d).s.g + 1, enq := 0)) && requireFlushDepent == old(requireFlushDepent) && cache.nDirty == old(cache.nDirty)
      ensures Grown(old(nand.crashes), old(d.s), nand.crashes, d.s)
    {
      hide *;
      OpenAll();
      Open();
      ThresholdIs();
      ghost var e := FinishOnly(d, cache.nDirty, r);
      gEpoch := gEpoch + 1;
      GrownNone(nand.crashes, d.s);
      GrownLast(nand.crashes, d.s, nand.crashes, d.s, e.s);
      d := e;
      Close();
      CloseAll();
      FinishedParts(d, cache.nDirty);
      HostRooms();
      ThresholdIs();
      CheckpointIfNeeded();
      GrownTrans(old(nand.crashes), old(d).s, old(nand.crashes), e.s, nand.crashes, d.s);
    }

    method CheckpointIfNeeded()
      requires Valid() && Finished(d, cache.nDirty)
      modifies this`active, this`lpns, this`pmap, this`mapents, this`requireFlushDepent, this`deps, this`bankActive
      modifies this`mapBlkIdx, this`d, nand, blk`rings, blk`vcount, cache, space
      ensures Valid() && Between(d, cache.nDirty) && d.s.reqs == old(d).s.reqs
      ensures d.s.v.commit == if old(ReachChkptThreshold()) then |d.s.reqs| - 1 else old(d).s.v.commit
      ensures |d.s.reqs| == 1 ==> !old(ReachChkptThreshold())
      ensures if old(ReachChkptThreshold()) then d.s.floor == |d.s.reqs| && !requireFlushDepent
              else d == old(d) && requireFlushDepent == old(requireFlushDepent) && cache.nDirty == old(cache.nDirty)
      ensures Grown(old(nand.crashes), old(d.s), nand.crashes, d.s)
    {
      hide *;
      OpenAll();
      Open();
      FinishedParts(d, cache.nDirty);
      HostRooms();
      ThresholdIs();
      cache.DirtyBound();
      CacheTotal(cache.nDirty);
      if gEpoch == 1 {
        FewLogPages();
        space.FarFromThreshold(|d.j.pages|);
      }
      if ReachChkptThreshold() {
        ghost var was := cache.nDirty;
        Checkpoint(HOST_ROOM, MAX_MAPENTS);
        OpenAll();
        Open();
        cache.DirtyBound();
        CacheTotal(cache.nDirty);
        space.RoomLeft(|d.j.pages|);
        BetweenCheckpoints(old(d), was, d, cache.nDirty);
      } else {
        space.RoomLeft(|d.j.pages|);
        BetweenNow(d, cache.nDirty);
        GrownNone(nand.crashes, d.s);
      }
    }

    lemma ThresholdIs()
      ensures ReachChkptThreshold() <==> |mapents| > (NUM_BANKS - 1) * NUM_MAPENTS_PER_PAGE - 512 || space.logBlkCnt < 3
    {
    }

    /** The threshold depends on the device only. */
    lemma ThresholdDue()
      requires d.mapents == mapents && space.Striped(|d.j.pages|)
      requires space.logBlkCnt + Total(space.blkLog) == NUM_LOG_BLKS_PER_BANK * NUM_BANKS
      ensures ReachChkptThreshold() <==> ChkptDue(d)
    {
      space.CountLeft(|d.j.pages|);
    }

    /** The beginning of ftl_write, up to the end of its loop. */
    method LoadRequest(r: Request)
      requires Valid() && Between(d, cache.nDirty) && |d.s.reqs| < MAX_REQS
      modifies this`gPgSpan, this`active, this`lpns, this`pmap, this`mapents, this`poolBank, this`requireFlushDepent, this`deps
      modifies this`bankActive, this`d, nand, blk`rings, blk`vt, blk`vcount, cache, space
      ensures Valid() && Serving(d, cache.nDirty, r, r.Span()) && LoopEnd(old(d), r, d)
      ensures requireFlushDepent == (old(requireFlushDepent) && d.j.pages == old(d).j.pages)
      ensures d.j.pages != old(d).j.pages ==> FilledSince(old(d).j, old(nand.crashes), nand.crashes)
      ensures r.Span() == 1 && Ready(old(d), old(cache.nDirty), r.First()) ==>
                PutIn(old(d), r.First(), d) && OneMoreDirty(old(d), old(cache.nDirty), r.First(), cache.nDirty)
      ensures HalfKept(old(cache.nDirty), cache.nDirty)
      ensures Grown(old(nand.crashes), old(d.s), nand.crashes, d.s)
    {
      hide *;
      OpenAll();
      Open();
      RequestParts(r);
      BetweenClock(d, cache.nDirty);
      ghost var e := BeginOnly(d, cache.nDirty, r);
      var lpn := r.lba / SECTORS_PER_PAGE;
      var lpnEnd := (r.lba + |r.data| - 1) / SECTORS_PER_PAGE;
      gPgSpan := lpnEnd - lpn + 1;
      GrownNone(nand.crashes, d.s);
      GrownLast(nand.crashes, d.s, nand.crashes, d.s, e.s);
      d := e;
      Close();
      CloseAll();
      ServeRequest(r);
      GrownTrans(old(nand.crashes), old(d).s, old(nand.crashes), e.s, nand.crashes, d.s);
      OpenAll();
      LoopEnds(old(d), r, e, old(nand.crashes), old(requireFlushDepent), d, cache.nDirty, nand.crashes, requireFlushDepent);
      PutInBegun(old(d), e, old(cache.nDirty), r.First(), d, cache.nDirty);
    }

    /** ftl_write. An empty request returns at once, without an epoch. loaded is the device at the end of the loop.
        False only if the banks were short of free blocks then, and an assertion of garbage collection stops the
        firmware. If the flag of the timer was set and no dependencies filled a log page in the loop, everything
        received is safe at the end; the flag is clear then in any case. Every crash so far is recoverable. */
    method Write(r: Request) returns (ok: bool, ghost loaded: Device)
      requires Valid() && Between(d, cache.nDirty) && |d.s.reqs| < MAX_REQS
      modifies this, nand, blk, cache, space
      ensures nand.Valid() && d.s.reqs == old(d).s.reqs + [r] && LoopEnd(old(d), r, loaded)
      ensures !ok ==> BatchShort(loaded.ks) && Stuck(d.ks, |d.mapents|, blk.vcount) && d.s.floor == |d.s.reqs|
      ensures ok ==> Valid() && Between(d, cache.nDirty) && !requireFlushDepent
      ensures ok ==> Finishing(old(requireFlushDepent) && loaded.j.pages == old(d).j.pages, loaded, d)
      ensures !Flushes(old(requireFlushDepent) && loaded.j.pages == old(d).j.pages, loaded) ==> HalfKept(old(cache.nDirty), cache.nDirty)
      ensures r.Span() == 1 && Ready(old(d), old(cache.nDirty), r.First()) ==>
                && PutIn(old(d), r.First(), loaded)
                && (!Flushes(old(requireFlushDepent) && loaded.j.pages == old(d).j.pages, loaded) ==>
                      ok && OneMoreDirty(old(d), old(cache.nDirty), r.First(), cache.nDirty))
      ensures loaded.j.pages != old(d).j.pages ==> FilledSince(old(d).j, old(nand.crashes), nand.crashes)
      ensures |old(d).s.reqs| == 0 && old(d).s.v.commit == -1 ==> ok && d.s.v.commit == -1
      ensures Grown(old(nand.crashes), old(d.s), nand.crashes, d.s)
    {
      hide *;
      LoadRequest(r);
      loaded := d;
      LoopEndParts(old(d), r, d);
      ghost var d1, c1, late := d, nand.crashes, requireFlushDepent;
      ok := CollectIfNeeded(r);
      GrownTrans(old(nand.crashes), old(d).s, c1, d1.s, nand.crashes, d.s);
      GrownPrefix(c1, d1.s, nand.crashes, d.s);
      FilledStill(old(d).j, old(nand.crashes), c1, nand.crashes);
      FlushesIf(late, loaded);
      if !ok {
        return;
      }
      OpenAll();
      Open();
      ThresholdDue();
      ghost var d2, c2, flag, checkpoint := d, nand.crashes, requireFlushDepent, ReachChkptThreshold();
      FinishRequest(r);
      GrownTrans(old(nand.crashes), old(d).s, c2, d2.s, nand.crashes, d.s);
      GrownPrefix(c2, d2.s, nand.crashes, d.s);
      FilledStill(old(d).j, old(nand.crashes), c2, nand.crashes);
      ghost var d3, c3, still := d, nand.crashes, requireFlushDepent;
      if requireFlushDepent {
        Flush();
        GrownTrans(old(nand.crashes), old(d).s, c3, d3.s, nand.crashes, d.s);
        GrownPrefix(c3, d3.s, nand.crashes, d.s);
        FilledStill(old(d).j, old(nand.crashes), c3, nand.crashes);
      }
      OpenAll();
      Open();
      WhenFlushed(late, loaded, flag, checkpoint, still);
      FinishingIs(old(d), r, loaded, late, d2, flag, checkpoint, d3, still, d);
    }

    /** ftl_flush: every later crash recovers all requests received so far, from the first checkpoint on. */
    method Flush()
      requires Valid() && Between(d, cache.nDirty)
      modifies this`active, this`lpns, this`pmap, this`mapents, this`requireFlushDepent, this`deps, this`bankActive, this`d
      modifies nand, blk`rings, blk`vcount, cache, space
      ensures Valid() && Between(d, cache.nDirty) && d.s.reqs == old(d).s.reqs
      ensures d.s.floor == |d.s.reqs| && d.s.v.commit == old(d).s.v.commit
      ensures Grown(old(nand.crashes), old(d.s), nand.crashes, d.s) && Holding(old(nand.crashes), [], nand.crashes)
      ensures d.s.deps == [] && !requireFlushDepent
    {
      hide *;
      OpenAll();
      Open();
      BetweenParts(d, cache.nDirty);
      ghost var was := cache.nDirty;
      PrefixFlush(HOST_ROOM, LoadAt(d.s.g));
      FlushedParts(old(d), d);
      BetweenFlushed(old(d), was, d, cache.nDirty);
    }

    /** What the main loop does when there is no command. */
    method Idle()
      requires Valid() && Between(d, cache.nDirty)
      modifies this`active, this`lpns, this`pmap, this`mapents, this`poolBank, this`d, nand, blk`rings, blk`vt, blk`vcount, cache
      ensures Valid() && Between(d, cache.nDirty) && d.s.reqs == old(d).s.reqs
      ensures old(poolBank) < NUM_BANKS == |old(cache.nDirty)| && poolBank == Wrap(old(poolBank), NUM_BANKS)
      ensures old(cache.nDirty)[old(poolBank)] > W.NC / 2 ==>
                && |d.mapents| == |old(d).mapents| + 1 && cache.nDirty == old(cache.nDirty)[old(poolBank) := old(cache.nDirty)[old(poolBank)] - 1]
                && OldestCleaned(old(cache.ents), old(cache.lru), cache.ents, old(poolBank))
      ensures old(cache.nDirty)[old(poolBank)] <= W.NC / 2 ==>
                cache.nDirty == old(cache.nDirty) && cache.ents == old(cache.ents) && VictimErased(old(d), d, old(poolBank))
      ensures Grown(old(nand.crashes), old(d.s), nand.crashes, d.s)
    {
      hide *;
      OpenAll();
      BetweenParts(d, cache.nDirty);
      ghost var was := cache.nDirty;
      PoolWriteBuf(HOST_ROOM, LoadAt(d.s.g));
      SameKeys(old(d), d, 0);
      BetweenDrained(old(d), was, d, cache.nDirty);
    }

    /** The timer asks for a flush at the end of the next request. */
    method ScheduleFlushDepent()
      requires Valid()
      modifies this`requireFlushDepent
      ensures Valid() && requireFlushDepent
    {
      hide *;
      OpenAll();
      Open();
      requireFlushDepent := true;
      Close();
      CloseAll();
    }

    /** A power cut between two commands. */
    ghost method PowerCut()
      requires Valid()
      modifies nand`crashes
      ensures Valid() && nand.crashes == old(nand.crashes) + [Crash(d.flash, d.s, d.j)]
      ensures Grown(old(nand.crashes), d.s, nand.crashes, d.s)
    {
      hide *;
      OpenAll();
      Open();
      ValidIsSafe(d);
      LaterSame(d.s);
      nand.PowerCut(d.s, d.j);
      GrownOne(old(nand.crashes), d.s, Crash(d.flash, d.s, d.j));
      Close();
      CloseAll();
    }

    // ---- ftl_read ----

    /** The part of a read that is on page lpn: from the cache, from flash, or all ones. */
    method ReadPage(lpn: nat, base: nat, cnt: nat) returns (part: seq<nat>)
      requires Valid() && d.s.Clock() && |d.s.reqs| == d.s.g && base + cnt <= SECTORS_PER_PAGE
      ensures |part| == cnt && ReadsBack(part, d.s.reqs, SectorOf(lpn, base))
    {
      hide *;
      OpenAll();
      Open();
      var bank := BankOf(lpn);
      BankIs(lpn);
      CurrentContent(d, lpn);
      var id := cache.ExistInCache(bank, lpn);
      if id.Some? {
        cache.Lengths();
        cache.BufferAt(bank, id.value);
        var content := cache.ents[bank][id.value].buf;
        PageReads(content, d.s.reqs, lpn, base, cnt);
        part := content[base..base + cnt];
      } else if lpn in pmap {
        var content := nand.data[pmap[lpn]].content;
        PageReads(content, d.s.reqs, lpn, base, cnt);
        part := content[base..base + cnt];
      } else {
        part := seq<nat>(cnt, i => 0xFFFF_FFFF);
        BlankReads(part, d.s.reqs, lpn, base);
      }
    }

    /** ftl_read: what the last request to cover each sector wrote there. */
    method Read(lba: nat, n: nat) returns (data: seq<nat>)
      requires Valid() && Between(d, cache.nDirty)
      ensures |data| == n && ReadsBack(data, d.s.reqs, lba)
    {
      hide *;
      BetweenClock(d, cache.nDirty);
      data := [];
      ReadsNothing(d.s.reqs, lba);
      if n == 0 {
        return;
      }
      FirstCursor(lba, n);
      SectorsPositive();
      var remain: nat := n;
      var lpn: nat := lba / SECTORS_PER_PAGE;
      var base: nat := lba % SECTORS_PER_PAGE;
      CursorParts(lba, n, lpn, base, remain);
      while remain != 0
        invariant remain <= n && |data| == n - remain && ReadsBack(data, d.s.reqs, lba)
        invariant remain > 0 ==> Cursor(lba, n, lpn, base, remain) && base < SECTORS_PER_PAGE
        decreases remain
      {
        CursorSector(lba, n, lpn, base, remain);
        NextCursor(lba, n, lpn, base, remain);
        PartFacts(base, remain);
        var cnt := Part(base, remain);
        var part := ReadPage(lpn, base, cnt);
        ReadsMore(data, part, d.s.reqs, lba);
        data := data + part;
        base := 0;
        remain := remain - cnt;
        lpn := lpn + 1;
      }
    }
  }
}
