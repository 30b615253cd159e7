/** Crash recovery: restore the persisted map, replay the log up to the last tag, count the pages of every
    write since, find the point to recover to, and map the pages below it. */
module Recovery {
  import opened Geometry
  import opened Requests
  import opened Recoverable
  import opened Counting
  import opened Media
  import opened Journals
  import opened Arith
  import opened Dram
  import opened Spill
  import opened Sights
  import LS = LogSpace
  import DependencyCut

  datatype PageType = Erased | CommitPage | MapPage | DepPage

  /** The spans of the writes the crashed device knows of: entries of the same write agree, and epochs
      are far from the two reserved values 0xFFFFFFFF and 0xFFFFFFFE. */
  ghost predicate SpansAre(v: View, spans: seq<nat>) {
    && |spans| < U32 - 2
    && v.commit < |spans|
    && (forall b, i :: 0 <= b < |v.lanes| && 0 <= i < |v.lanes[b].items| ==> ItemSpanIs(v.lanes[b].items[i], spans))
    && (forall i :: 0 <= i < |v.deps| ==> DepSpanIs(v.deps[i], spans))
  }

  ghost predicate ItemSpanIs(it: Item, spans: seq<nat>) {
    && !it.page.Summary? && it.page.lpn < NUM_LPAGES
    && (it.page.Host? ==> it.page.epoch < |spans| && it.page.span == spans[it.page.epoch] > 0)
  }

  ghost predicate DepSpanIs(d: Dep, spans: seq<nat>) {
    d.src < |spans| && d.dst < |spans| && d.span == spans[d.src] > 0
  }

  // ---- Partial progress over the lanes ----

  function PartCount(v: View, b: nat, i: nat, e: nat): nat
    requires b < |v.lanes| ==> i <= |v.lanes[b].items|
    requires b <= |v.lanes|
  {
    LaneCount(v.lanes[..b], e) + if b < |v.lanes| then HostCount(v.lanes[b].items[..i], e) else 0
  }

  /** The items of lpn's lane among the first b lanes and the first i items of the next. */
  function Visited(v: View, b: nat, i: nat, lpn: nat): seq<Item>
    requires |v.lanes| == NUM_BANKS
    requires b < |v.lanes| ==> i <= |v.lanes[b].items|
  {
    if BankOf(lpn) < b then v.Items(lpn) else if BankOf(lpn) == b then v.Items(lpn)[..i] else []
  }

  predicate InRange(v: View, b: nat, i: nat) {
    b <= |v.lanes| && (b < |v.lanes| ==> i <= |v.lanes[b].items|)
  }

  lemma PartCountStep(v: View, b: nat, i: nat, e: nat)
    requires b < |v.lanes| && i < |v.lanes[b].items|
    ensures PartCount(v, b, i + 1, e) == PartCount(v, b, i, e) + if IsHost(v.lanes[b].items[i], e) then 1 else 0
  {
    var items := v.lanes[b].items;
    assert items[..i + 1][..i] == items[..i];
  }

  lemma PartCountNextLane(v: View, b: nat, e: nat)
    requires b < |v.lanes|
    ensures PartCount(v, b + 1, 0, e) == PartCount(v, b, |v.lanes[b].items|, e)
  {
    assert v.lanes[..b + 1][..b] == v.lanes[..b];
    assert v.lanes[b].items[..|v.lanes[b].items|] == v.lanes[b].items;
    if b + 1 < |v.lanes| {
      assert v.lanes[b + 1].items[..0] == [];
    }
  }

  lemma PartCountAll(v: View, e: nat)
    ensures PartCount(v, |v.lanes|, 0, e) == LaneCount(v.lanes, e)
  {
    assert v.lanes[..|v.lanes|] == v.lanes;
  }

  /** Found entries name the span of their write. */
  lemma SomeEntry(v: View, spans: seq<nat>, e: nat, n: nat)
    requires SpansAre(v, spans) && Found(v, e) > 0 && SpanIs(v, e, n)
    ensures e < |spans| && n == spans[e]
  {
    if exists i :: 0 <= i < |v.deps| && v.deps[i].src == e {
      var i :| 0 <= i < |v.deps| && v.deps[i].src == e;
      assert DepSpanIs(v.deps[i], spans);
    } else {
      DepCountZero(v.deps, e);
      if forall b, i :: 0 <= b < |v.lanes| && 0 <= i < |v.lanes[b].items| ==> !IsHost(v.lanes[b].items[i], e) {
        LaneCountZero(v.lanes, e);
      } else {
        var b, i :| 0 <= b < |v.lanes| && 0 <= i < |v.lanes[b].items| && IsHost(v.lanes[b].items[i], e);
        assert ItemSpanIs(v.lanes[b].items[i], spans);
      }
    }
  }

  lemma AllSpans(v: View, spans: seq<nat>, e: nat)
    requires SpansAre(v, spans) && e < |spans|
    ensures SpanIs(v, e, spans[e])
  {
    forall b, i | 0 <= b < |v.lanes| && 0 <= i < |v.lanes[b].items| && IsHost(v.lanes[b].items[i], e)
      ensures v.lanes[b].items[i].page.span == spans[e]
    {
      assert ItemSpanIs(v.lanes[b].items[i], spans);
    }
    forall i | 0 <= i < |v.deps| && v.deps[i].src == e ensures v.deps[i].span == spans[e] {
      assert DepSpanIs(v.deps[i], spans);
    }
  }

  // ---- What the counters and the map show part-way ----

  datatype Tally = Tally(commit: nat, max: nat, counters: seq<Counter>) {
    function At(idx: nat): Counter {
      if idx < |counters| then counters[idx] else Counter(0, 0)
    }

    /** The counters show n pages of write e, and its span if there are any. */
    ghost predicate Shows(e: nat, n: nat, spans: seq<nat>)
      requires e > commit
    {
      var c := At(e - commit);
      && c.cnt == n
      && (n == 0 ==> c.span == 0)
      && (n > 0 ==> e < |spans| && c.span == spans[e] && e <= max)
    }
  }

  /** Pages of write e among the first b lanes, i items of the next one, and the dependencies in deps. */
  function CountSoFar(v: View, b: nat, i: nat, deps: seq<Dep>, e: nat): nat
    requires InRange(v, b, i)
  {
    PartCount(v, b, i, e) + DepCount(deps, e)
  }

  /** The counters, as far as the table has room for them, show what was counted so far, and the greatest epoch
      found is known. */
  ghost predicate Tallied(t: Tally, v: View, spans: seq<nat>, b: nat, i: nat, deps: seq<Dep>)
    requires InRange(v, b, i)
  {
    if v.commit < 0 then t.max == t.commit == U32 - 1
    else
      && t.commit == v.commit && t.max >= t.commit && t.max < |spans|
      && (t.max > t.commit ==> CountSoFar(v, b, i, deps, t.max) > 0)
      && (forall e: nat :: e > t.max ==> CountSoFar(v, b, i, deps, e) == 0)
      && (forall e: nat :: t.commit < e < t.commit + RECOVERY_ENTRIES ==> t.Shows(e, CountSoFar(v, b, i, deps, e), spans))
  }

  /** One more page of write e was counted. */
  lemma TalliedNext(t: Tally, u: Tally, v: View, spans: seq<nat>, b: nat, i: nat, deps: seq<Dep>, b2: nat, i2: nat, deps2: seq<Dep>,
        e: nat)
    requires InRange(v, b, i) && InRange(v, b2, i2) && Tallied(t, v, spans, b, i, deps) && v.commit >= 0
    requires t.commit < e < |spans| && |t.counters| == RECOVERY_ENTRIES
    requires u.commit == t.commit && u.max == (if e > t.max then e else t.max)
    requires u.counters == if e - t.commit < RECOVERY_ENTRIES
      then t.counters[e - t.commit := Counter(spans[e], t.At(e - t.commit).cnt + 1)] else t.counters
    requires forall k: nat :: CountSoFar(v, b2, i2, deps2, k) == CountSoFar(v, b, i, deps, k) + if k == e then 1 else 0
    ensures Tallied(u, v, spans, b2, i2, deps2)
  {
    hide CountSoFar;
    forall k: nat | u.commit < k < u.commit + RECOVERY_ENTRIES ensures u.Shows(k, CountSoFar(v, b2, i2, deps2, k), spans) {
      assert t.Shows(k, CountSoFar(v, b, i, deps, k), spans);
    }
  }

  /** Nothing was counted. */
  lemma TalliedSame(t: Tally, v: View, spans: seq<nat>, b: nat, i: nat, deps: seq<Dep>, b2: nat, i2: nat, deps2: seq<Dep>)
    requires InRange(v, b, i) && InRange(v, b2, i2) && Tallied(t, v, spans, b, i, deps)
    requires v.commit >= 0 ==> forall k: nat :: CountSoFar(v, b2, i2, deps2, k) == CountSoFar(v, b, i, deps, k)
    ensures Tallied(t, v, spans, b2, i2, deps2)
  {
    hide CountSoFar;
    if v.commit >= 0 {
      forall k: nat | t.commit < k < t.commit + RECOVERY_ENTRIES ensures t.Shows(k, CountSoFar(v, b2, i2, deps2, k), spans) {
        assert t.Shows(k, CountSoFar(v, b, i, deps, k), spans);
      }
    }
  }

  /** The map, the newest epoch mapped for each page, and the cut, while pages are being mapped. */
  datatype Mapping = Mapping(pmap: map<nat, Loc>, newest: map<nat, nat>, cut: nat) {
    function Newest(lpn: nat): nat {
      if lpn in newest then newest[lpn] else 0
    }
  }

  /** A version of page lpn below the cut, newer than what the memory shows at first. */
  ghost predicate Fresh(it: Item, lpn: nat, cut: nat, stale: Mapping) {
    HostBelow(it, lpn, cut) && it.page.epoch > stale.Newest(lpn)
  }

  /** Page lpn is mapped to the newest of the versions visited that are below the cut and newer than what
      the memory showed at first; if there is none, it is mapped as it was. */
  ghost predicate NewestBelow(m: Mapping, v: View, stale: Mapping, b: nat, i: nat, lpn: nat)
    requires |v.lanes| == NUM_BANKS && InRange(v, b, i)
  {
    var items := Visited(v, b, i, lpn);
    && (forall k :: 0 <= k < |items| && HostBelow(items[k], lpn, m.cut) ==> items[k].page.epoch <= m.Newest(lpn))
    && if exists k :: 0 <= k < |items| && Fresh(items[k], lpn, m.cut, stale) then
         && lpn in m.pmap
         && exists k :: 0 <= k < |items| && Fresh(items[k], lpn, m.cut, stale) && items[k].loc == m.pmap[lpn]
              && items[k].page.epoch == m.Newest(lpn)
       else
         m.Newest(lpn) == stale.Newest(lpn) && Unmoved(m.pmap, stale.pmap, lpn)
  }

  /** Where data pages are read over its epoch, a page is mapped as it was, or to one of its own versions below the
      cut. */
  ghost predicate LeftAlone(m: Mapping, v: View, stale: Mapping, b: nat, i: nat, lpn: nat)
    requires |v.lanes| == NUM_BANKS && InRange(v, b, i)
  {
    Unmoved(m.pmap, stale.pmap, lpn) || OwnVersion(m.pmap, Visited(v, b, i, lpn), m.cut, lpn)
  }

  ghost predicate OwnVersion(pmap: map<nat, Loc>, items: seq<Item>, cut: nat, lpn: nat) {
    lpn in pmap && exists k :: 0 <= k < |items| && HostBelow(items[k], lpn, cut) && items[k].loc == pmap[lpn]
  }

  ghost predicate AllNewestBelow(m: Mapping, v: View, stale: Mapping, b: nat, i: nat)
    requires |v.lanes| == NUM_BANKS && InRange(v, b, i)
  {
    && m.cut == stale.cut
    && (forall lpn: nat :: !Near(lpn) ==> NewestBelow(m, v, stale, b, i, lpn))
    && (forall lpn: nat :: Near(lpn) ==> LeftAlone(m, v, stale, b, i, lpn))
  }

  ghost predicate DepContext(pages: seq<LogPage>, v: View, spans: seq<nat>) {
    v.WellFormed() && SpansAre(v, spans) && v.deps == DepEntries(pages)
  }

  ghost predicate DepProgress(t: Tally, m: Memory, k: nat, count: bool, deps: seq<Dep>, pages: seq<LogPage>, v: View, spans: seq<nat>)
    requires |v.lanes| == NUM_BANKS
  {
    && k <= |pages| && deps == DepEntries(pages[..k])
    && (count ==> DepsCounted(t, m, v, spans, deps))
  }

  /** All pages of the lanes and the dependencies in deps are counted, in the table and beyond it. */
  ghost predicate DepsCounted(t: Tally, m: Memory, v: View, spans: seq<nat>, deps: seq<Dep>)
    requires |v.lanes| == NUM_BANKS
  {
    Tallied(t, v, spans, NUM_BANKS, 0, deps) && m == AfterDeps(AfterPart(v, NUM_BANKS, 0), v.commit, deps)
  }

  lemma ReplayStep(m: map<nat, Loc>, pages: seq<LogPage>, k: nat)
    requires k < |pages|
    ensures Replay(m, MapEntries(pages[..k + 1])) ==
            if pages[k].MapEnts? then Replay(Replay(m, MapEntries(pages[..k])), pages[k].ents)
            else Replay(m, MapEntries(pages[..k]))
  {
    assert pages[..k + 1][..k] == pages[..k];
    if pages[k].MapEnts? {
      ReplayConcat(m, MapEntries(pages[..k]), pages[k].ents);
    } else {
      assert MapEntries(pages[..k]) + [] == MapEntries(pages[..k]);
    }
  }

  predicate IsPageOf(page: DataPage, lpn: nat) {
    page.Host? && page.lpn == lpn
  }

  class Recovery {
    const f: Flash
    /** The words of each flash page as a read delivers them. */
    const shown: (Source, nat) -> nat
    const space: LS.LogSpace

    /** g_epoch and the page map. */
    var gEpoch: nat
    var pmap: map<nat, Loc>
    /** The recovery structure. */
    var epochCommit: nat
    var epochMax: nat
    var epochIncomplete: nat
    var active: seq<Pos>
    /** DRAM apart from the page map. All of it is zero at first; init_recovery clears the epochs again. */
    var words: map<nat, nat>

    constructor (f: Flash, shown: (Source, nat) -> nat)
      ensures this.f == f && this.shown == shown && fresh(space) && space.Striped(0)
      ensures gEpoch == 0 && pmap == map[] && words == map[]
    {
      this.f := f;
      this.shown := shown;
      space := new LS.LogSpace();
      gEpoch, pmap, words := 0, map[], map[];
      epochCommit, epochMax, epochIncomplete, active := 0, 0, 0, [];
    }

    /** The counters as they stand. */
    function T(): Tally
      reads this`epochCommit, this`epochMax, this`words
    {
      Tally(epochCommit, epochMax, TableIn(words))
    }

    /** The map and the epochs of the pages as they stand. */
    function M(): Mapping
      reads this`pmap, this`words, this`epochIncomplete
    {
      Mapping(pmap, EpochsIn(words), epochIncomplete)
    }

    function D(): Memory
      reads this`pmap, this`words
    {
      Memory(words, pmap)
    }

    /** The memory from the page map on. */
    function S(): Memory
      reads this`pmap, this`words
    {
      Memory(BeyondIn(words), pmap)
    }

    /** What reading flash pages does not change. */
    function Kept(): (seq<Counter>, map<nat, nat>, map<nat, nat>)
      reads this`words
    {
      (TableIn(words), ClearIn(words), BeyondIn(words))
    }

    /** nand_page_ptread into FTL_BUF(bank): n words of the page. */
    method Load(bank: nat, src: Source, n: nat)
      requires bank < NUM_BANKS && n <= BUF_WORDS
      modifies this`words
      ensures Kept() == old(Kept()) && T() == old(T()) && S() == old(S())
      ensures n <= NEAR_WORDS ==> M() == old(M())
      ensures PageOver(shown, src, bank, n, old(words), words)
    {
      hide TableIn, EpochsIn, ClearIn, BeyondIn, ReadOver, Near, FtlBuf;
      var page := shown;
      FtlBufInside(bank);
      ReadOverKeeps(words, bank, n, i => page(src, i));
      if n <= NEAR_WORDS {
        ReadOverNear(words, bank, n, i => page(src, i));
      }
      words := ReadOver(words, bank, n, i => page(src, i));
    }

    // ---- What reading the log leaves in FTL_BUF ----

    /** The word at a once the log pages from..n-1 were read, where x was before. */
    function LogOver(from: nat, n: nat, a: nat, x: nat): nat
      requires InFtlBuf(a)
    {
      if n <= from then x
      else if RoundRobin(n - 1) == OwnerOf(a) then shown(OfLog(LogAddr(n - 1)), OffsetOf(a))
      else LogOver(from, n - 1, a, x)
    }

    /** Between was and now the log pages from..n-1 were read. */
    ghost predicate LogRead(was: map<nat, nat>, from: nat, n: nat, now: map<nat, nat>) {
      forall a: nat :: InFtlBuf(a) ==> WordIn(now, a) == LogOver(from, n, a, WordIn(was, a))
    }

    lemma LogReadNone(was: map<nat, nat>, k: nat)
      ensures LogRead(was, k, k, was)
    {
    }

    lemma LogReadNext(was: map<nat, nat>, from: nat, n: nat, mid: map<nat, nat>, now: map<nat, nat>)
      requires LogRead(was, from, n, mid) && from <= n
      requires PageOver(shown, OfLog(LogAddr(n)), RoundRobin(n), BUF_WORDS, mid, now)
      ensures LogRead(was, from, n + 1, now)
    {
      hide FtlBuf, LogAddr, RoundRobin, Turns, OwnerOf, OffsetOf;
      var bank := RoundRobin(n);
      forall a: nat | InFtlBuf(a) ensures WordIn(now, a) == LogOver(from, n + 1, a, WordIn(was, a)) {
        PlaceInBuffer(a);
        if FtlBuf(bank) <= a < FtlBuf(bank) + BUF_WORDS {
          BufferPlace(bank, a);
        }
      }
    }

    lemma LogReadSteady(was: map<nat, nat>, from: nat, n: nat, mid: map<nat, nat>, now: map<nat, nat>)
      requires LogRead(was, from, n, mid) && SteadyIn(now) == SteadyIn(mid)
      ensures LogRead(was, from, n, now)
    {
      SteadyParts(now, mid);
    }

    lemma {:induction false} LogOverTwice(k: nat, n: nat, a: nat, x: nat)
      requires k <= n && InFtlBuf(a)
      ensures LogOver(k, n, a, LogOver(0, k, a, x)) == LogOver(0, n, a, x)
      decreases n
    {
      if k < n {
        LogOverTwice(k, n - 1, a, x);
      }
    }

    lemma LogReadOn(was: map<nat, nat>, k: nat, mid: map<nat, nat>, n: nat, now: map<nat, nat>)
      requires LogRead(was, 0, k, mid) && LogRead(mid, k, n, now) && k <= n
      ensures LogRead(was, 0, n, now)
    {
      forall a: nat | InFtlBuf(a) ensures WordIn(now, a) == LogOver(0, n, a, WordIn(was, a)) {
        LogOverTwice(k, n, a, WordIn(was, a));
      }
    }

    function Parse(loc: LogLoc): PageType {
      if loc !in f.log then Erased
      else match f.log[loc]
           case Tag(_, _) => CommitPage
           case MapEnts(_) => MapPage
           case Deps(_) => DepPage
    }

    // ---- pgmap_restore_map_table ----

    method RestoreMapTable(ghost m: map<nat, Loc>, ghost epoch: Option<nat>)
      requires MapReads(f.slots, m, epoch) && gEpoch == 0 && pmap == map[]
      modifies this`gEpoch, this`pmap
      ensures pmap == m
      ensures gEpoch == if epoch.Some? then epoch.value else 0
    {
      var e0, e1 := SlotEpoch(f.slots[0]), SlotEpoch(f.slots[1]);
      if e0 == 0 && e1 == 0 {
        return;
      }
      var cur := 1;
      if e0 > e1 {
        cur := 0;
        gEpoch := e0;
      } else {
        gEpoch := e1;
      }
      var i := 0;
      while i < NUM_CHUNKS
        invariant i <= NUM_CHUNKS && gEpoch == SlotEpoch(f.slots[cur])
        invariant forall l :: l in pmap <==> l in m && l / MAPS_PER_PAGE < i
        invariant forall l :: l in pmap ==> pmap[l] == m[l]
      {
        pmap := pmap + f.slots[cur].chunks[i];
        i := i + 1;
      }
      forall l | l in m ensures l in pmap {
        ChunkInRange(l);
      }
    }

    static lemma ChunkInRange(l: nat)
      requires l < NUM_LPAGES
      ensures l / MAPS_PER_PAGE < NUM_CHUNKS
    {
      Arith.DivMonotone(l, NUM_LPAGES - 1, MAPS_PER_PAGE);
    }

    // ---- Scanning the log ----

    /** find_last_commit: scans to the first erased page and keeps the last tag. */
    method FindLastCommit(ghost v: View, ghost j: Journal) returns (done: bool)
      requires v.commit >= -1 && |v.lanes| == NUM_BANKS
      requires LogReads(f.log, j.pages) && Describes(j, v) && space.Striped(0)
      modifies this`epochCommit, this`epochMax, this`epochIncomplete, this`active, this`words, space
      ensures space.Valid() && Kept() == old(Kept()) && LogRead(old(words), 0, |j.pages| + 1, words)
      ensures done <==> j.pages == []
      ensures done ==> epochIncomplete == gEpoch + 1
      ensures !done ==> epochCommit == Stored(v.commit) && active == j.pages[j.tag].active
      ensures epochMax == epochCommit
    {
      hide Describes, LogAddr, RoundRobin, MapEntries, Replay, StartsAt, DepEntries, Recovery.Kept, Recovery.LogRead, PageOver, FtlBuf, LS.LogSpace.Valid, Turns;
      FirstBank();
      LastTag(v, j);
      LogReadNone(words, 0);
      epochCommit := gEpoch;
      epochMax := epochCommit;
      epochIncomplete := epochCommit + 1;
      var found := false;
      var bank := 0;
      var kind := CommitPage;
      ghost var k := 0;
      while kind != Erased
        invariant k <= |j.pages| && bank == RoundRobin(if kind == Erased then k + 1 else k)
        invariant if kind == Erased then k == |j.pages| && space.Striped(k + 1) else space.Striped(k)
        invariant epochMax == epochCommit && Kept() == old(Kept())
        invariant LogRead(old(words), 0, if kind == Erased then k + 1 else k, words)
        invariant k == 0 ==> !found && epochIncomplete == gEpoch + 1
        invariant k > 0 && k > j.tag ==> found && epochCommit == j.pages[j.tag].epoch && active == j.pages[j.tag].active
        decreases |j.pages| - k, kind != Erased
      {
        var loc := space.Next(k, bank);
        ghost var was := words;
        Load(bank, OfLog(loc), BUF_WORDS);
        LogReadNext(old(words), 0, k, was, words);
        kind := Parse(loc);
        if kind == CommitPage {
          found := true;
          epochCommit := f.log[loc].epoch;
          active := f.log[loc].active;
          epochMax := epochCommit;
          epochIncomplete := epochCommit + 1;
        }
        bank := Wrap(bank, NUM_BANKS);
        if kind != Erased {
          k := k + 1;
        }
      }
      done := !found;
    }

    /** The loop that three of the phases share: from the start of the log to the last tag. Mapping entries
        are replayed on the way when collecting. */
    static lemma LastTag(v: View, j: Journal)
      requires v.commit >= -1 && |v.lanes| == NUM_BANKS && Describes(j, v)
      ensures j.pages != [] ==> Ordered(j) && j.pages[j.tag].epoch == Stored(v.commit)
    {
    }

    lemma FirstBank()
      ensures RoundRobin(0) == 0
    {
    }

    lemma ReplayNone(base: map<nat, Loc>, pages: seq<LogPage>)
      ensures Replay(base, MapEntries(pages[..0])) == base
    {
    }

    method SkipToCommit(replay: bool, ghost v: View, ghost j: Journal) returns (bank: nat)
      requires v.commit >= -1 && |v.lanes| == NUM_BANKS
      requires LogReads(f.log, j.pages) && Describes(j, v) && j.pages != [] && space.Valid()
      requires epochCommit == Stored(v.commit)
      requires replay ==> pmap == j.base
      modifies space, this`pmap, this`words
      ensures space.Striped(j.tag + 1) && bank == RoundRobin(j.tag + 1) && Kept() == old(Kept())
      ensures LogRead(old(words), 0, j.tag + 1, words)
      ensures pmap == if replay then v.cmap else old(pmap)
    {
      hide LogAddr, RoundRobin, MapEntries, Replay, StartsAt, DepEntries, Recovery.Kept, Recovery.LogRead, PageOver, FtlBuf, LS.LogSpace.Striped, LS.LogSpace.Valid;
      FirstBank();
      LogReadNone(words, 0);
      ReplayNone(j.base, j.pages);
      space.Revert();
      bank := 0;
      ghost var k := 0;
      var done := false;
      while !done
        invariant k <= j.tag + 1 && space.Striped(k) && bank == RoundRobin(k) && Kept() == old(Kept())
        invariant LogRead(old(words), 0, k, words)
        invariant done <==> k == j.tag + 1
        invariant pmap == if replay then Replay(j.base, MapEntries(j.pages[..k])) else old(pmap)
        decreases j.tag + 1 - k
      {
        var loc := space.Next(k, bank);
        assert loc in f.log && f.log[loc] == j.pages[k];
        ghost var was := words;
        Load(bank, OfLog(loc), BUF_WORDS);
        LogReadNext(old(words), 0, k, was, words);
        done := PassLogPage(loc, replay, k, j.base, j.pages);
        bank := Wrap(bank, NUM_BANKS);
        k := k + 1;
      }
      ReplayStep(j.base, j.pages, j.tag);
    }

    /** One page of the log on the way to the last tag. */
    method PassLogPage(loc: LogLoc, replay: bool, ghost k: nat, ghost base: map<nat, Loc>,
          ghost pages: seq<LogPage>) returns (done: bool)
      requires k < |pages| && loc in f.log && f.log[loc] == pages[k]
      requires replay ==> pmap == Replay(base, MapEntries(pages[..k]))
      modifies this`pmap
      ensures done <==> pages[k].Tag? && pages[k].epoch == epochCommit
      ensures pmap == if replay then Replay(base, MapEntries(pages[..k + 1])) else old(pmap)
    {
      done := false;
      ReplayStep(base, pages, k);
      var kind := Parse(loc);
      if kind == CommitPage {
        done := f.log[loc].epoch == epochCommit;
      } else if kind == MapPage {
        if replay {
          ProcessMapEnts(f.log[loc].ents);
        }
      } else if kind == Erased {
        done := true;
      }
    }

    /** process_mapent */
    method ProcessMapEnts(ents: seq<(nat, Loc)>)
      modifies this`pmap
      ensures pmap == Replay(old(pmap), ents)
    {
      var i := 0;
      while i < |ents|
        invariant 0 <= i <= |ents|
        invariant pmap == Replay(old(pmap), ents[..i])
      {
        pmap := pmap[ents[i].0 := ents[i].1];
        i := i + 1;
        assert ents[..i][..i - 1] == ents[..i - 1];
      }
      assert ents[..i] == ents;
    }

    // ---- Counting pages: retrieve_page_entries in mode 0, process_depent ----

    /** Writes the two words of an entry at RECOVERY_ADDR. An entry at RECOVERY_ENTRIES or beyond is not part
        of the table: its words are those of two pages in the page map. */
    method StoreEntry(i: nat, x: nat, y: nat)
      modifies this`words, this`pmap
      ensures TableIn(words) == if i < RECOVERY_ENTRIES then old(TableIn(words))[i := Counter(x, y)] else old(TableIn(words))
      ensures pmap == if i < RECOVERY_ENTRIES then old(pmap) else Overwritten(old(pmap), i, x, y)
      ensures S() == if i < RECOVERY_ENTRIES then old(S()) else old(S()).With(EntryAt(i), x).With(EntryAt(i) + 1, y)
      ensures SteadyIn(words) == old(SteadyIn(words))
    {
      hide WithPpn, PpnOf, FtlBuf, TableIn, SteadyIn, BeyondIn;
      if i < RECOVERY_ENTRIES {
        EntryWritten(words, i, x, y);
      } else {
        EntryBeyond(words, i, x);
        EntryBeyond(D().With(EntryAt(i), x).words, i, y);
      }
      var d := D().With(EntryAt(i), x).With(EntryAt(i) + 1, y);
      words, pmap := d.words, d.pmap;
    }

    /** add_recovery_ent: one more page of the write. */
    method AddRecoveryEnt(epoch: nat, span: nat)
      requires epoch > epochCommit
      modifies this`words, this`pmap, this`epochMax
      ensures epochMax == if epoch > old(epochMax) then epoch else old(epochMax)
      ensures SteadyIn(words) == old(SteadyIn(words))
      ensures var idx := epoch - epochCommit;
        if idx < RECOVERY_ENTRIES then
          T().counters == old(T()).counters[idx := Counter(span, old(T()).At(idx).cnt + 1)] && S() == old(S())
        else
          T().counters == old(T()).counters && S() == CountedAt(old(S()), idx, span)
    {
      hide TableIn, SteadyIn, BeyondIn, PpnOf, WithPpn, FtlBuf, Overwritten, StoredAs;
      if epoch > epochMax {
        epochMax := epoch;
      }
      var idx := epoch - epochCommit;
      FtlBufInside(0);
      if idx < RECOVERY_ENTRIES {
        TableAt(words, idx);
      } else {
        WordBeyond(words, pmap, EntryAt(idx) + 1);
      }
      StoreEntry(idx, span, D().Word(EntryAt(idx) + 1) + 1);
    }

    static lemma WordBeyond(words: map<nat, nat>, pmap: map<nat, Loc>, a: nat)
      requires a >= PAGE_MAP_AT
      ensures Memory(words, pmap).Word(a) == Memory(BeyondIn(words), pmap).Word(a)
    {
    }

    static lemma TableAt(words: map<nat, nat>, i: nat)
      requires i < RECOVERY_ENTRIES
      ensures TableIn(words)[i] == EntryIn(words, i)
    {
    }

    /** Mode 0 on one page. */
    method Count(it: Item, ghost v: View, ghost spans: seq<nat>, ghost b: nat, ghost i: nat)
      requires |v.lanes| == NUM_BANKS && b < NUM_BANKS && i < |v.lanes[b].items| && it == v.lanes[b].items[i]
      requires v.WellFormed() && SpansAre(v, spans)
      requires Tallied(T(), v, spans, b, i, []) && S() == AfterPart(v, b, i)
      modifies this`pmap, this`words, this`epochMax
      ensures Tallied(T(), v, spans, b, i + 1, []) && S() == AfterPart(v, b, i + 1) && SteadyIn(words) == old(SteadyIn(words))
    {
      hide Tallied, TableIn, SteadyIn, BeyondIn, CountedAt, CountSoFar, AfterPart;
      assert v.ItemOK(b, it) && ItemSpanIs(it, spans);
      AfterPartStep(v, b, i);
      CommitIs(T(), v, spans, b, i, []);
      ItemCounted(v, b, i);
      if it.page.Copy? {
        pmap := pmap[it.page.lpn := it.loc];
      } else if it.page.Host? && it.page.epoch > epochCommit {
        AddRecoveryEnt(it.page.epoch, it.page.span);
      }
      if it.page.Host? && v.commit >= 0 {
        TalliedNext(old(T()), T(), v, spans, b, i, [], b, i + 1, [], it.page.epoch);
      } else {
        TalliedSame(T(), v, spans, b, i, [], b, i + 1, []);
      }
    }

    static lemma CommitIs(t: Tally, v: View, spans: seq<nat>, b: nat, i: nat, deps: seq<Dep>)
      requires InRange(v, b, i) && Tallied(t, v, spans, b, i, deps) && v.commit >= -1
      ensures t.commit == Stored(v.commit)
    {
    }

    static lemma ItemCounted(v: View, b: nat, i: nat)
      requires b < |v.lanes| && i < |v.lanes[b].items|
      ensures var it := v.lanes[b].items[i];
        forall e: nat :: CountSoFar(v, b, i + 1, [], e) == CountSoFar(v, b, i, [], e) + if IsHost(it, e) then 1 else 0
    {
      ghost var next := i + 1;
      forall e: nat ensures CountSoFar(v, b, next, [], e) == CountSoFar(v, b, i, [], e) + if IsHost(v.lanes[b].items[i], e) then 1 else 0 {
        PartCountStep(v, b, i, e);
      }
    }

    static lemma VisitedStep(v: View, b: nat, i: nat, lpn: nat)
      requires |v.lanes| == NUM_BANKS && b < NUM_BANKS && i < |v.lanes[b].items|
      ensures Visited(v, b, i + 1, lpn) ==
              if BankOf(lpn) == b then Visited(v, b, i, lpn) + [v.lanes[b].items[i]] else Visited(v, b, i, lpn)
    {
    }

    // ---- Mapping pages below the cut: retrieve_page_entries in mode 1 ----

    /** Mode 1 on one page. Copies made by garbage collection carry 0xFFFFFFFE, which is never below the cut. */
    method Remap(it: Item, ghost v: View, ghost stale: Mapping, ghost b: nat, ghost i: nat)
      requires |v.lanes| == NUM_BANKS && b < NUM_BANKS && i < |v.lanes[b].items| && it == v.lanes[b].items[i]
      requires v.ItemOK(b, it) && it.page.lpn < NUM_LPAGES <= PAGE_MAP_AT
      requires AllNewestBelow(M(), v, stale, b, i)
      modifies this`pmap, this`words
      ensures AllNewestBelow(M(), v, stale, b, i + 1)
      ensures Traced(shown, [Look(it)], epochIncomplete, true, old(words), old(pmap), words, pmap)
    {
      hide AllNewestBelow, EpochsIn, Traced;
      var lpn := it.page.lpn;
      var prev := WordIn(words, lpn);
      if !Near(lpn) {
        EpochAt(words, lpn);
      }
      if it.page.Host? && it.page.epoch < epochIncomplete && it.page.epoch > prev {
        EpochWritten(words, lpn, it.page.epoch);
        pmap := pmap[lpn := it.loc];
        words := words[lpn := it.page.epoch];
      }
      TracedLook(shown, it, epochIncomplete, old(words), old(pmap), words, pmap);
      RemapNext(old(M()), M(), prev, it, v, stale, b, i);
    }

    /** What looking at one page makes of the mapping. */
    static lemma RemapNext(m: Mapping, n: Mapping, prev: nat, it: Item, v: View, stale: Mapping, b: nat, i: nat)
      requires |v.lanes| == NUM_BANKS && b < NUM_BANKS && i < |v.lanes[b].items| && it == v.lanes[b].items[i]
      requires v.ItemOK(b, it) && AllNewestBelow(m, v, stale, b, i)
      requires n.cut == m.cut && (!Near(it.page.lpn) ==> n == Looked(m, it))
      requires Near(it.page.lpn) ==> n.newest == m.newest
      requires n.pmap == if it.page.Host? && it.page.epoch < m.cut && it.page.epoch > prev then m.pmap[it.page.lpn := it.loc] else m.pmap
      ensures AllNewestBelow(n, v, stale, b, i + 1)
    {
      hide NewestBelow, LeftAlone, Visited;
      var next := i + 1;
      forall l: nat | !Near(l) ensures NewestBelow(n, v, stale, b, next, l) {
        assert NewestBelow(m, v, stale, b, i, l);
        if Near(it.page.lpn) {
          NewestOther(m, n, it, v, stale, b, i, l);
        } else {
          NewestNext(m, it, v, stale, b, i, l);
        }
      }
      forall l: nat | Near(l) ensures LeftAlone(n, v, stale, b, next, l) {
        assert LeftAlone(m, v, stale, b, i, l);
        LeftAloneNext(m, n, it, v, stale, b, i, l);
      }
    }

    static lemma EpochAt(words: map<nat, nat>, lpn: nat)
      requires lpn < PAGE_MAP_AT && !Near(lpn)
      ensures (if lpn in EpochsIn(words) then EpochsIn(words)[lpn] else 0) == WordIn(words, lpn)
    {
    }

    static lemma NewestOther(m: Mapping, n: Mapping, it: Item, v: View, stale: Mapping, b: nat, i: nat, l: nat)
      requires |v.lanes| == NUM_BANKS && b < NUM_BANKS && i < |v.lanes[b].items| && it == v.lanes[b].items[i]
      requires !it.page.Summary? && it.page.lpn != l
      requires n.cut == m.cut && n.Newest(l) == m.Newest(l) && Unmoved(n.pmap, m.pmap, l)
      requires NewestBelow(m, v, stale, b, i, l)
      ensures NewestBelow(n, v, stale, b, i + 1, l)
    {
      VisitedStep(v, b, i, l);
      var items, more := Visited(v, b, i, l), Visited(v, b, i + 1, l);
      if BankOf(l) == b {
        assert more[|items|] == it;
        assert forall k :: 0 <= k < |items| ==> more[k] == items[k];
      }
    }

    static lemma LeftAloneNext(m: Mapping, n: Mapping, it: Item, v: View, stale: Mapping, b: nat, i: nat, l: nat)
      requires |v.lanes| == NUM_BANKS && b < NUM_BANKS && i < |v.lanes[b].items| && it == v.lanes[b].items[i]
      requires v.ItemOK(b, it) && n.cut == m.cut && (Unmoved(n.pmap, m.pmap, l) || (HostBelow(it, l, m.cut) && l in n.pmap && n.pmap[l] == it.loc))
      requires LeftAlone(m, v, stale, b, i, l)
      ensures LeftAlone(n, v, stale, b, i + 1, l)
    {
      VisitedStep(v, b, i, l);
      var items, more := Visited(v, b, i, l), Visited(v, b, i + 1, l);
      if BankOf(l) == b {
        assert more[|items|] == it;
        assert forall k :: 0 <= k < |items| ==> more[k] == items[k];
      }
      if Unmoved(n.pmap, m.pmap, l) && OwnVersion(m.pmap, items, m.cut, l) {
        var k :| 0 <= k < |items| && HostBelow(items[k], l, m.cut) && items[k].loc == m.pmap[l];
        assert more[k] == items[k];
      }
    }

    /** The mapping once page it was looked at. */
    static function Looked(m: Mapping, it: Item): Mapping
      requires !it.page.Summary?
    {
      if it.page.Host? && it.page.epoch < m.cut && it.page.epoch > m.Newest(it.page.lpn)
      then Mapping(m.pmap[it.page.lpn := it.loc], m.newest[it.page.lpn := it.page.epoch], m.cut) else m
    }

    static lemma NewestNext(m: Mapping, it: Item, v: View, stale: Mapping, b: nat, i: nat, l: nat)
      requires |v.lanes| == NUM_BANKS && b < NUM_BANKS && i < |v.lanes[b].items| && it == v.lanes[b].items[i]
      requires v.ItemOK(b, it)
      requires NewestBelow(m, v, stale, b, i, l)
      ensures NewestBelow(Looked(m, it), v, stale, b, i + 1, l)
    {
      VisitedStep(v, b, i, l);
      var items, more := Visited(v, b, i, l), Visited(v, b, i + 1, l);
      if BankOf(l) == b {
        assert more[|items|] == it;
        assert forall k :: 0 <= k < |items| ==> more[k] == items[k];
      }
    }

    // ---- Following a chain ----

    /** What has been done when the first b lanes and i items of the next were visited. */
    ghost predicate Progress(remap: bool, v: View, spans: seq<nat>, stale: Mapping, b: nat, i: nat)
      requires |v.lanes| == NUM_BANKS && InRange(v, b, i)
      reads this`epochCommit, this`epochMax, this`words, this`pmap, this`epochIncomplete
    {
      if remap then AllNewestBelow(M(), v, stale, b, i)
      else Tallied(T(), v, spans, b, i, []) && S() == AfterPart(v, b, i)
    }

    /** What the events of a walk in either mode have made of FTL_BUF, and of the pages whose epochs are there. */
    ghost predicate Walked(remap: bool, ev: seq<Event>, w: map<nat, nat>, p: map<nat, Loc>, x: map<nat, nat>, q: map<nat, Loc>)
      reads this`epochIncomplete
    {
      && Traced(shown, ev, if remap then epochIncomplete else 0, remap, w, p, x, q)
      && (!remap ==> ClearIn(x) == ClearIn(w))
    }

    lemma WalkedNone(remap: bool, w: map<nat, nat>, p: map<nat, Loc>)
      ensures Walked(remap, [], w, p, w, p)
    {
      TracedNone(shown, if remap then epochIncomplete else 0, remap, w, p);
    }

    lemma WalkedOn(remap: bool, ev: seq<Event>, more: seq<Event>, w: map<nat, nat>, p: map<nat, Loc>, x: map<nat, nat>, q: map<nat, Loc>,
          y: map<nat, nat>, r: map<nat, Loc>)
      requires Walked(remap, ev, w, p, x, q) && Walked(remap, more, x, q, y, r)
      ensures Walked(remap, ev + more, w, p, y, r)
    {
      TracedOn(shown, ev, more, if remap then epochIncomplete else 0, remap, w, p, x, q, y, r);
    }

    method Visit(it: Item, remap: bool, ghost v: View, ghost spans: seq<nat>, ghost stale: Mapping, ghost b: nat,
          ghost i: nat)
      requires v.WellFormed() && SpansAre(v, spans) && NUM_LPAGES <= PAGE_MAP_AT
      requires b < NUM_BANKS && i < |v.lanes[b].items| && it == v.lanes[b].items[i]
      requires Progress(remap, v, spans, stale, b, i)
      modifies this`pmap, this`words, this`epochMax
      ensures Progress(remap, v, spans, stale, b, i + 1)
      ensures Walked(remap, [Look(it)], old(words), old(pmap), words, pmap)
    {
      hide Traced, SteadyIn, ClearIn;
      assert v.ItemOK(b, v.lanes[b].items[i]) && ItemSpanIs(it, spans);
      if remap {
        Remap(it, v, stale, b, i);
      } else {
        Count(it, v, spans, b, i);
        SteadyParts(words, old(words));
        TracedCount(shown, it, old(words), old(pmap), words, pmap);
      }
    }

    /** A flash page is read into FTL_BUF in the course of a walk. */
    method LoadPage(b: nat, src: Source, n: nat, remap: bool, ghost v: View, ghost spans: seq<nat>, ghost stale: Mapping,
          ghost i: nat)
      requires b < NUM_BANKS && n <= NEAR_WORDS && n <= BUF_WORDS
      requires |v.lanes| == NUM_BANKS && InRange(v, b, i) && Progress(remap, v, spans, stale, b, i)
      modifies this`words
      ensures Progress(remap, v, spans, stale, b, i)
      ensures Walked(remap, [Read(b, src, n)], old(words), pmap, words, pmap)
    {
      hide Tallied, AfterPart, AllNewestBelow, Recovery.T, Recovery.M, Recovery.S, TableIn, EpochsIn, ClearIn, BeyondIn, Traced, PageOver, FtlBuf;
      Load(b, src, n);
      TracedRead(shown, b, src, n, if remap then epochIncomplete else 0, remap, old(words), pmap, words);
    }

    /** One page of a block, which may be erased. */
    method ReadOne(loc: Loc, remap: bool, ghost v: View, ghost spans: seq<nat>, ghost stale: Mapping, ghost i: nat) returns (there: bool)
      requires v.WellFormed() && SpansAre(v, spans) && NUM_LPAGES <= PAGE_MAP_AT
      requires loc.bank < NUM_BANKS && i <= |v.lanes[loc.bank].items|
      requires loc in f.data ==> i < |v.lanes[loc.bank].items| && v.lanes[loc.bank].items[i] == Item(loc, f.data[loc])
      requires Progress(remap, v, spans, stale, loc.bank, i)
      modifies this`pmap, this`words, this`epochMax
      ensures there <==> loc in f.data
      ensures Progress(remap, v, spans, stale, loc.bank, if there then i + 1 else i)
      ensures Walked(remap, PageEvents(f.data, loc), old(words), old(pmap), words, pmap)
    {
      hide Progress, SpansAre, BUF_WORDS, Recovery.Walked;
      FtlBufInside(loc.bank);
      LoadPage(loc.bank, OfData(loc), SECTOR_WORDS, remap, v, spans, stale, i);
      there := loc in f.data;
      if there {
        ghost var w := words;
        Visit(Item(loc, f.data[loc]), remap, v, spans, stale, loc.bank, i);
        WalkedOn(remap, [Read(loc.bank, OfData(loc), SECTOR_WORDS)], [Look(Item(loc, f.data[loc]))], old(words), old(pmap), w, old(pmap), words, pmap);
      } else {
        assert PageEvents(f.data, loc) == [Read(loc.bank, OfData(loc), SECTOR_WORDS)];
      }
    }

    /** The pages of one block, from page pg on, until one is erased. */
    method ReadBlock(b: nat, blk: nat, from: nat, remap: bool, ghost v: View, ghost spans: seq<nat>, ghost stale: Mapping,
        ghost blks: seq<nat>, ghost first: nat)
      returns (pg: nat, ghost i: nat, ghost ev: seq<Event>)
      requires v.WellFormed() && SpansAre(v, spans) && NUM_LPAGES <= PAGE_MAP_AT
      requires b < NUM_BANKS && from <= LAST_PAGE && first <= |v.lanes[b].items| && |blks| > 0 && blk == blks[0]
      requires Walks(f.data, b, blks, from, v.lanes[b].items[first..])
      requires Progress(remap, v, spans, stale, b, first)
      modifies this`pmap, this`words, this`epochMax
      ensures first <= i <= |v.lanes[b].items| && pg <= LAST_PAGE
      ensures Walks(f.data, b, blks, pg, v.lanes[b].items[i..]) && (pg == LAST_PAGE || Loc(b, blk, pg) !in f.data)
      ensures LaneEvents(f.data, b, blks, from, v.lanes[b].items[first..]) == ev + BlockEnd(f.data, b, blks, pg, v.lanes[b].items[i..])
      ensures Progress(remap, v, spans, stale, b, i)
      ensures Walked(remap, ev, old(words), old(pmap), words, pmap)
    {
      hide Progress, SpansAre, BUF_WORDS, Recovery.Walked, Walks, LaneEvents, BlockEnd, PageEvents;
      ghost var items := v.lanes[b].items;
      pg, i, ev := from, first, [];
      WalkedNone(remap, words, pmap);
      ghost var all := LaneEvents(f.data, b, blks, from, items[first..]);
      while pg < LAST_PAGE
        invariant first <= i <= |items| && pg <= LAST_PAGE
        invariant Walks(f.data, b, blks, pg, items[i..]) && all == ev + LaneEvents(f.data, b, blks, pg, items[i..])
        invariant Progress(remap, v, spans, stale, b, i)
        invariant Walked(remap, ev, old(words), old(pmap), words, pmap)
      {
        ghost var w, p, loc := words, pmap, Loc(b, blk, pg);
        FirstPage(b, blks, pg, items, i);
        var there := ReadOne(Loc(b, blk, pg), remap, v, spans, stale, i);
        WalkedOn(remap, ev, PageEvents(f.data, loc), old(words), old(pmap), w, p, words, pmap);
        ev := ev + PageEvents(f.data, loc);
        if !there {
          return;
        }
        i := i + 1;
        pg := pg + 1;
      }
      PastLast(b, blks, items[i..]);
    }

    lemma PastLast(b: nat, blks: seq<nat>, items: seq<Item>)
      requires Walks(f.data, b, blks, LAST_PAGE, items)
      ensures LaneEvents(f.data, b, blks, LAST_PAGE, items) == BlockEnd(f.data, b, blks, LAST_PAGE, items)
    {
    }

    /** The first page of a walk. */
    lemma FirstPage(b: nat, blks: seq<nat>, pg: nat, items: seq<Item>, i: nat)
      requires pg < LAST_PAGE && i <= |items| && Walks(f.data, b, blks, pg, items[i..])
      ensures var loc := Loc(b, blks[0], pg);
        if loc in f.data then
          && i < |items| && items[i] == Item(loc, f.data[loc]) && Walks(f.data, b, blks, pg + 1, items[i + 1..])
          && LaneEvents(f.data, b, blks, pg, items[i..]) == PageEvents(f.data, loc) + LaneEvents(f.data, b, blks, pg + 1, items[i + 1..])
        else
          LaneEvents(f.data, b, blks, pg, items[i..]) == PageEvents(f.data, loc) + BlockEnd(f.data, b, blks, pg, items[i..])
    {
      if Loc(b, blks[0], pg) in f.data {
        assert items[i..][0] == items[i] && items[i..][1..] == items[i + 1..];
      }
    }

    /** The end of a block: its summary page, if there is one, leads to the next. */
    lemma LastOfBlock(b: nat, blks: seq<nat>, bi: nat, pg: nat, items: seq<Item>)
      requires pg <= LAST_PAGE && bi < |blks| && Walks(f.data, b, blks[bi..], pg, items)
      requires pg == LAST_PAGE || Loc(b, blks[bi], pg) !in f.data
      ensures var loc := Loc(b, blks[bi], LAST_PAGE);
        if loc in f.data then
          && f.data[loc].Summary? && bi + 1 < |blks| && f.data[loc].next == blks[bi + 1] && Walks(f.data, b, blks[bi + 1..], 0, items)
          && BlockEnd(f.data, b, blks[bi..], pg, items) == [Read(b, OfData(loc), SUMMARY_WORDS)] + LaneEvents(f.data, b, blks[bi + 1..], 0, items)
        else
          items == [] && BlockEnd(f.data, b, blks[bi..], pg, items) == [Read(b, OfData(loc), SUMMARY_WORDS)]
    {
      if Loc(b, blks[bi], LAST_PAGE) in f.data {
        assert blks[bi..][0] == blks[bi] && blks[bi..][1] == blks[bi + 1] && blks[bi..][1..] == blks[bi + 1..];
      }
    }

    /** retrieve_page_entries: from the page that was active at the commit, along the links. */
    method RetrievePageEntries(b: nat, pos: Pos, remap: bool, ghost v: View, ghost spans: seq<nat>, ghost stale: Mapping)
      requires v.WellFormed() && SpansAre(v, spans) && NUM_LPAGES <= PAGE_MAP_AT
      requires b < NUM_BANKS && LaneReads(f.data, b, v.lanes[b]) && StartsAt(v.lanes[b], pos)
      requires Progress(remap, v, spans, stale, b, 0)
      modifies this`pmap, this`words, this`epochMax
      ensures Progress(remap, v, spans, stale, b, |v.lanes[b].items|)
      ensures Walked(remap, LaneEvents(f.data, b, v.lanes[b].blks, v.lanes[b].start, v.lanes[b].items), old(words), old(pmap), words, pmap)
    {
      hide Progress, SpansAre, BUF_WORDS, Recovery.Walked, Walks, LaneEvents, BlockEnd;
      ghost var blks, items := v.lanes[b].blks, v.lanes[b].items;
      ghost var bi, i, ev: seq<Event> := 0, 0, [];
      var blk: nat, pg: nat := pos.blk, pos.pg;
      var done := false;
      FtlBufInside(b);
      WalkedNone(remap, words, pmap);
      assert items[0..] == items && blks[0..] == blks;
      ghost var all := LaneEvents(f.data, b, blks, pos.pg, items);
      while !done
        invariant 0 <= bi < |blks| && 0 <= i <= |items| && pg <= LAST_PAGE
        invariant blk == blks[bi]
        invariant if done then i == |items| && all == ev
                  else Walks(f.data, b, blks[bi..], pg, items[i..]) && all == ev + LaneEvents(f.data, b, blks[bi..], pg, items[i..])
        invariant Progress(remap, v, spans, stale, b, i)
        invariant Walked(remap, ev, old(words), old(pmap), words, pmap)
        decreases |blks| - bi, !done
      {
        ghost var w, p, more := words, pmap, [];
        pg, i, more := ReadBlock(b, blk, pg, remap, v, spans, stale, blks[bi..], i);
        WalkedOn(remap, ev, more, old(words), old(pmap), w, p, words, pmap);
        ev := ev + more;
        w := words;
        LastOfBlock(b, blks, bi, pg, items[i..]);
        LoadPage(b, OfData(Loc(b, blk, LAST_PAGE)), SUMMARY_WORDS, remap, v, spans, stale, i);
        WalkedOn(remap, ev, [Read(b, OfData(Loc(b, blk, LAST_PAGE)), SUMMARY_WORDS)], old(words), old(pmap), w, pmap, words, pmap);
        ev := ev + [Read(b, OfData(Loc(b, blk, LAST_PAGE)), SUMMARY_WORDS)];
        if Loc(b, blk, LAST_PAGE) in f.data {
          blk := f.data[Loc(b, blk, LAST_PAGE)].next;
          bi := bi + 1;
          pg := 0;
        } else {
          done := true;
        }
      }
    }

    /** retrieve_page_entries for region 0, which nothing was ever written to: its first page is found erased, and so is
        the summary page of the block. */
    method RetrieveRegion0(b: nat, remap: bool, ghost v: View, ghost spans: seq<nat>, ghost stale: Mapping)
      requires |v.lanes| == NUM_BANKS && b < NUM_BANKS && Progress(remap, v, spans, stale, b, 0)
      modifies this`words
      ensures Progress(remap, v, spans, stale, b, 0) && Walked(remap, Region0(b), old(words), pmap, words, pmap)
    {
      hide Progress, BUF_WORDS, Recovery.Walked;
      FtlBufInside(b);
      LoadPage(b, OfRegion0(b, 0), SECTOR_WORDS, remap, v, spans, stale, 0);
      ghost var w := words;
      LoadPage(b, OfRegion0(b, LAST_PAGE), SUMMARY_WORDS, remap, v, spans, stale, 0);
      WalkedOn(remap, [Read(b, OfRegion0(b, 0), SECTOR_WORDS)], [Read(b, OfRegion0(b, LAST_PAGE), SUMMARY_WORDS)],
        old(words), pmap, w, pmap, words, pmap);
      assert Region0(b) == [Read(b, OfRegion0(b, 0), SECTOR_WORDS)] + [Read(b, OfRegion0(b, LAST_PAGE), SUMMARY_WORDS)];
    }

    /** The walks through one bank. */
    method RetrieveBank(b: nat, pos: Pos, remap: bool, ghost v: View, ghost spans: seq<nat>, ghost stale: Mapping)
      requires v.WellFormed() && SpansAre(v, spans) && NUM_LPAGES <= PAGE_MAP_AT
      requires b < NUM_BANKS && LanesRead(f.data, v.lanes) && StartsAt(v.lanes[b], pos)
      requires Progress(remap, v, spans, stale, b, 0)
      modifies this`pmap, this`words, this`epochMax
      ensures Progress(remap, v, spans, stale, b, |v.lanes[b].items|)
      ensures Walked(remap, LaneWalk(f.data, v.lanes, b), old(words), old(pmap), words, pmap)
    {
      hide Progress, SpansAre, Recovery.Walked, Walks, LaneEvents, Region0;
      assert LaneReads(f.data, b, v.lanes[b]);
      RetrieveRegion0(b, remap, v, spans, stale);
      ghost var w := words;
      RetrievePageEntries(b, pos, remap, v, spans, stale);
      WalkedOn(remap, Region0(b), LaneEvents(f.data, b, v.lanes[b].blks, v.lanes[b].start, v.lanes[b].items),
        old(words), old(pmap), w, old(pmap), words, pmap);
    }

    /** process_depent on one page of the log. */
    method ProcessDepents(deps: seq<Dep>, ghost v: View, ghost spans: seq<nat>, ghost seen: seq<Dep>)
      requires v.commit >= -1 && |v.lanes| == NUM_BANKS && SpansAre(v, spans)
      requires forall i :: 0 <= i < |deps| ==> v.commit < deps[i].src && DepSpanIs(deps[i], spans)
      requires DepsCounted(T(), S(), v, spans, seen)
      modifies this`words, this`pmap, this`epochMax
      ensures DepsCounted(T(), S(), v, spans, seen + deps) && SteadyIn(words) == old(SteadyIn(words))
    {
      hide SteadyIn, TableIn, BeyondIn, DepsCounted;
      var i := 0;
      assert seen + deps[..0] == seen;
      while i < |deps|
        invariant 0 <= i <= |deps|
        invariant DepsCounted(T(), S(), v, spans, seen + deps[..i]) && SteadyIn(words) == old(SteadyIn(words))
      {
        ProcessDepent(deps[i], v, spans, seen + deps[..i]);
        assert seen + deps[..i + 1] == seen + deps[..i] + [deps[i]];
        i := i + 1;
      }
      assert deps[..i] == deps;
    }

    method ProcessDepent(d: Dep, ghost v: View, ghost spans: seq<nat>, ghost seen: seq<Dep>)
      requires v.commit >= -1 && |v.lanes| == NUM_BANKS && SpansAre(v, spans) && v.commit < d.src && DepSpanIs(d, spans)
      requires DepsCounted(T(), S(), v, spans, seen)
      modifies this`words, this`pmap, this`epochMax
      ensures DepsCounted(T(), S(), v, spans, seen + [d]) && SteadyIn(words) == old(SteadyIn(words))
    {
      hide Tallied, TableIn, SteadyIn, BeyondIn, CountedAt, CountSoFar, AfterPart, AfterDeps;
      AfterDepsNext(AfterPart(v, NUM_BANKS, 0), v.commit, seen, d);
      CommitIs(T(), v, spans, NUM_BANKS, 0, seen);
      DepCounted(v, seen, d);
      if d.src > epochCommit {
        AddRecoveryEnt(d.src, d.span);
      }
      if v.commit >= 0 {
        TalliedNext(old(T()), T(), v, spans, NUM_BANKS, 0, seen, NUM_BANKS, 0, seen + [d], d.src);
      } else {
        TalliedSame(T(), v, spans, NUM_BANKS, 0, seen, NUM_BANKS, 0, seen + [d]);
      }
    }

    static lemma DepCounted(v: View, seen: seq<Dep>, d: Dep)
      requires |v.lanes| == NUM_BANKS
      ensures forall e: nat :: CountSoFar(v, NUM_BANKS, 0, seen + [d], e) == CountSoFar(v, NUM_BANKS, 0, seen, e) + if e == d.src then 1 else 0
    {
      ghost var more := seen + [d];
      forall e: nat ensures CountSoFar(v, NUM_BANKS, 0, more, e) == CountSoFar(v, NUM_BANKS, 0, seen, e) + if e == d.src then 1 else 0 {
        DepCountConcat(seen, [d], e);
        assert [d][..0] == [];
      }
    }

    /** The log goes on with the dependency pages deps, and then with a page of another type. */
    ghost predicate DepPagesAt(k0: nat, pages: seq<LogPage>) {
      && k0 + |pages| < LOG_CAP
      && (forall i :: 0 <= i < |pages| ==> pages[i].Deps? && LogAddr(k0 + i) in f.log && f.log[LogAddr(k0 + i)] == pages[i])
      && Parse(LogAddr(k0 + |pages|)) != DepPage
    }

    /** One dependency page: it is counted when collecting, and listed when the cut is pulled back. */
    method TakeDepPage(more: seq<Dep>, count: bool, deps: seq<Dep>, ghost k: nat, ghost pages: seq<LogPage>,
          ghost v: View, ghost spans: seq<nat>)
      requires DepContext(pages, v, spans)
      requires k < |pages| && pages[k].Deps? && more == pages[k].deps
      requires DepProgress(T(), S(), k, count, deps, pages, v, spans)
      modifies this`words, this`pmap, this`epochMax
      ensures DepProgress(T(), S(), k + 1, count, deps + more, pages, v, spans) && SteadyIn(words) == old(SteadyIn(words))
      ensures !count ==> T() == old(T()) && pmap == old(pmap)
    {
      DepPrefix(pages, k);
      if count {
        DepsInRange(v, spans, |deps|, more);
        ProcessDepents(more, v, spans, deps);
      }
    }

    /** The loop over the dependency pages. */
    method ReadDepPages(first: nat, count: bool, ghost k0: nat, ghost pages: seq<LogPage>, ghost v: View,
          ghost spans: seq<nat>) returns (deps: seq<Dep>)
      requires DepContext(pages, v, spans)
      requires DepPagesAt(k0, pages) && space.Striped(k0) && first == RoundRobin(k0)
      requires DepProgress(T(), S(), 0, count, [], pages, v, spans)
      modifies space, this`words, this`pmap, this`epochMax
      ensures space.Valid() && ClearIn(words) == old(ClearIn(words)) && LogRead(old(words), k0, k0 + |pages| + 1, words)
      ensures DepProgress(T(), S(), |pages|, count, deps, pages, v, spans)
      ensures !count ==> T() == old(T()) && pmap == old(pmap)
    {
      hide LogAddr, RoundRobin, DepEntries, LS.LogSpace.Valid, Turns, DepProgress, Recovery.T, Recovery.S, ClearIn, SteadyIn, Recovery.LogRead, PageOver, FtlBuf;
      ghost var k := 0;
      LogReadNone(words, k0);
      var bank := first;
      deps := [];
      while true
        invariant k <= |pages|
        invariant space.Striped(k0 + k) && bank == RoundRobin(k0 + k)
        invariant DepProgress(T(), S(), k, count, deps, pages, v, spans) && ClearIn(words) == old(ClearIn(words))
        invariant LogRead(old(words), k0, k0 + k, words)
        invariant !count ==> T() == old(T()) && pmap == old(pmap)
        decreases |pages| - k
      {
        var loc := space.Next(k0 + k, bank);
        assert k < |pages| ==> pages[k].Deps? && f.log[loc] == pages[k];
        ghost var was := words;
        Load(bank, OfLog(loc), BUF_WORDS);
        LogReadNext(old(words), k0, k0 + k, was, words);
        if Parse(loc) != DepPage {
          assert k == |pages|;
          break;
        }
        was := words;
        TakeDepPage(f.log[loc].deps, count, deps, k, pages, v, spans);
        SteadyParts(words, was);
        LogReadSteady(old(words), k0, k0 + k + 1, was, words);
        deps := deps + f.log[loc].deps;
        k := k + 1;
        bank := Wrap(bank, NUM_BANKS);
      }
    }

    method ReadDependencies(first: nat, count: bool, ghost v: View, ghost j: Journal,
          ghost spans: seq<nat>) returns (deps: seq<Dep>)
      requires v.WellFormed() && SpansAre(v, spans)
      requires LogReads(f.log, j.pages) && Describes(j, v) && j.pages != []
      requires space.Striped(j.tag + 1) && first == RoundRobin(j.tag + 1)
      requires count ==> Tallied(T(), v, spans, NUM_BANKS, 0, []) && S() == AfterPart(v, NUM_BANKS, 0)
      modifies space, this`words, this`pmap, this`epochMax
      ensures space.Valid() && deps == v.deps && ClearIn(words) == old(ClearIn(words))
      ensures LogRead(old(words), j.tag + 1, j.tag + 2 + j.ndeps, words)
      ensures count ==> Tallied(T(), v, spans, NUM_BANKS, 0, v.deps) && S() == Collected(v)
      ensures !count ==> T() == old(T()) && pmap == old(pmap)
    {
      hide Tallied, AfterPart, AfterDeps, Collected, Recovery.T, Recovery.S, ClearIn, Recovery.LogRead, LogAddr, RoundRobin, Turns, Replay, MapEntries;
      ghost var pages := DepPages(v, j);
      AfterPartAll(v);
      AfterNoDeps(AfterPart(v, NUM_BANKS, 0), v.commit);
      deps := ReadDepPages(first, count, j.tag + 1, pages, v, spans);
      assert pages[..|pages|] == pages;
    }

    static lemma AfterNoDeps(m: Memory, commit: int)
      ensures AfterDeps(m, commit, []) == m
    {
    }

    lemma DepPages(v: View, j: Journal) returns (pages: seq<LogPage>)
      requires v.commit >= -1 && |v.lanes| == NUM_BANKS
      requires LogReads(f.log, j.pages) && Describes(j, v) && j.pages != []
      ensures |pages| == j.ndeps && v.deps == DepEntries(pages) && DepPagesAt(j.tag + 1, pages)
    {
      hide LogAddr, MapEntries, Replay, StartsAt;
      var after := j.pages[j.tag + 1..];
      pages := after[..j.ndeps];
      DepTail(after, j.ndeps);
      var end := j.tag + 1 + j.ndeps;
      assert end < |j.pages| ==> j.pages[end].MapEnts? && f.log[LogAddr(end)] == j.pages[end];
      forall i | 0 <= i < |pages| ensures pages[i].Deps? && LogAddr(j.tag + 1 + i) in f.log && f.log[LogAddr(j.tag + 1 + i)] == pages[i] {
        assert pages[i] == j.pages[j.tag + 1 + i];
      }
    }

    static lemma DepsInRange(v: View, spans: seq<nat>, n: nat, deps: seq<Dep>)
      requires v.WellFormed() && SpansAre(v, spans)
      requires n + |deps| <= |v.deps| && v.deps[n..n + |deps|] == deps
      ensures forall i :: 0 <= i < |deps| ==> v.commit < deps[i].src && DepSpanIs(deps[i], spans)
    {
      forall i | 0 <= i < |deps| ensures v.commit < deps[i].src && DepSpanIs(deps[i], spans) {
        assert v.deps[n + i] == deps[i];
      }
    }

    static lemma DepPrefix(pages: seq<LogPage>, k: nat)
      requires k < |pages| && pages[k].Deps?
      ensures DepEntries(pages[..k + 1]) == DepEntries(pages[..k]) + pages[k].deps
      ensures var n := |DepEntries(pages[..k])|;
        n + |pages[k].deps| <= |DepEntries(pages)| && DepEntries(pages)[n..n + |pages[k].deps|] == pages[k].deps
    {
      var upto, rest := pages[..k + 1], pages[k + 1..];
      assert upto[..k] == pages[..k];
      assert pages == upto + rest;
      DepEntriesConcat(upto, rest);
    }

    static lemma DepTail(pages: seq<LogPage>, n: nat)
      requires n <= |pages| && forall k :: n <= k < |pages| ==> !pages[k].Deps?
      ensures DepEntries(pages) == DepEntries(pages[..n])
    {
      assert pages == pages[..n] + pages[n..];
      DepEntriesConcat(pages[..n], pages[n..]);
      NoDepEntries(pages[n..]);
    }

    // ---- The phases of recovery ----

    lemma ImageLanes(v: View, j: Journal)
      requires Image(f, v, j)
      ensures LanesRead(f.data, v.lanes)
    {
    }

    /** collect_recovery_entries */
    method CollectRecoveryEntries(ghost v: View, ghost j: Journal, ghost spans: seq<nat>)
      requires Image(f, v, j) && SpansAre(v, spans) && j.pages != [] && space.Valid()
      requires NUM_LPAGES <= PAGE_MAP_AT && epochCommit == epochMax == Stored(v.commit) && active == j.pages[j.tag].active
      requires pmap == j.base && TableIn(words) == TableIn(map[]) && BeyondIn(words) == map[]
      modifies space, this`pmap, this`words, this`epochMax
      ensures space.Valid() && ClearIn(words) == old(ClearIn(words))
      ensures forall a: nat :: InFtlBuf(a) ==> WordIn(words, a) == CollectedOver(v, j, a, WordIn(old(words), a))
      ensures Tallied(T(), v, spans, NUM_BANKS, 0, v.deps) && S() == Collected(v)
    {
      hide ClearIn, TableIn, EpochsIn, BeyondIn, AfterPart, Collected, LanesRead, Walks, Traced, Events, Tallied, DepEntries, Replay, MapEntries;
      hide Recovery.LogRead, Recovery.CollectedOver, LogAddr, RoundRobin, Turns, LogReads, MapReads;
      ImageLanes(v, j);
      var bankLog := SkipToCommit(true, v, j);
      ghost var skipped, committed := words, pmap;
      CountNothing(v, spans);
      CountLanes(v, spans);
      ghost var counted, copied := words, pmap;
      var deps := ReadDependencies(bankLog, true, v, j, spans);
      CollectedIs(v, j, old(words), skipped, committed, counted, copied, words);
    }

    lemma CollectedIs(v: View, j: Journal, was: map<nat, nat>, skipped: map<nat, nat>, p: map<nat, Loc>, counted: map<nat, nat>,
          q: map<nat, Loc>, now: map<nat, nat>)
      requires LanesRead(f.data, v.lanes) && LogRead(was, 0, j.tag + 1, skipped)
      requires Traced(shown, Events(f.data, v.lanes, NUM_BANKS), 0, false, skipped, p, counted, q)
      requires LogRead(counted, j.tag + 1, j.tag + 2 + j.ndeps, now)
      ensures forall a: nat :: InFtlBuf(a) ==> WordIn(now, a) == CollectedOver(v, j, a, WordIn(was, a))
    {
      hide LanesRead, AfterAll;
      forall a: nat | InFtlBuf(a) ensures WordIn(now, a) == CollectedOver(v, j, a, WordIn(was, a)) {
        assert TracedAt(shown, Events(f.data, v.lanes, NUM_BANKS), 0, false, skipped, p, counted, q, a);
      }
    }

    /** What counting the pages of the lanes makes of a word of FTL_BUF. */
    ghost function Counted(v: View, a: nat, x: nat): nat
      requires LanesRead(f.data, v.lanes)
    {
      AfterAll(shown, Sight(x, None), Events(f.data, v.lanes, NUM_BANKS), a, 0).word
    }

    /** What collect_recovery_entries makes of it: the log up to the tag, the lanes, and the log after the tag are read. */
    ghost function CollectedOver(v: View, j: Journal, a: nat, x: nat): nat
      requires InFtlBuf(a) && LanesRead(f.data, v.lanes)
    {
      LogOver(j.tag + 1, j.tag + 2 + j.ndeps, a, Counted(v, a, LogOver(0, j.tag + 1, a, x)))
    }

    method CountLanes(ghost v: View, ghost spans: seq<nat>)
      requires v.WellFormed() && SpansAre(v, spans) && |active| == NUM_BANKS && NUM_LPAGES <= PAGE_MAP_AT
      requires LanesRead(f.data, v.lanes) && forall b :: 0 <= b < NUM_BANKS ==> StartsAt(v.lanes[b], active[b])
      requires Tallied(T(), v, spans, 0, 0, []) && S() == AfterPart(v, 0, 0)
      modifies this`pmap, this`words, this`epochMax
      ensures Walked(false, Events(f.data, v.lanes, NUM_BANKS), old(words), old(pmap), words, pmap)
      ensures Tallied(T(), v, spans, NUM_BANKS, 0, []) && S() == AfterPart(v, NUM_BANKS, 0)
    {
      hide Tallied, AfterPart, Walks, StartsAt, SpansAre, TableIn, BeyondIn, Recovery.Walked, LaneEvents;
      ghost var stale := M();
      WalkedNone(false, words, pmap);
      var bank := 0;
      while bank < NUM_BANKS
        invariant 0 <= bank <= NUM_BANKS
        invariant Tallied(T(), v, spans, bank, 0, []) && S() == AfterPart(v, bank, 0)
        invariant Walked(false, Events(f.data, v.lanes, bank), old(words), old(pmap), words, pmap)
      {
        ghost var w, p := words, pmap;
        RetrieveBank(bank, active[bank], false, v, spans, stale);
        WalkedOn(false, Events(f.data, v.lanes, bank), LaneWalk(f.data, v.lanes, bank), old(words), old(pmap), w, p, words, pmap);
        NextLane(v, spans, bank);
        bank := bank + 1;
      }
    }

    lemma CountNothing(v: View, spans: seq<nat>)
      requires v.WellFormed() && SpansAre(v, spans) && TableIn(words) == TableIn(map[]) && pmap == v.cmap && BeyondIn(words) == map[]
      requires epochCommit == epochMax == Stored(v.commit)
      ensures Tallied(T(), v, spans, 0, 0, []) && S() == AfterPart(v, 0, 0)
    {
      AfterPartNone(v);
      assert v.lanes[..0] == [];
      assert v.lanes[0].items[..0] == [];
      if v.commit >= 0 {
        forall e: nat | epochCommit < e < epochCommit + RECOVERY_ENTRIES ensures T().Shows(e, CountSoFar(v, 0, 0, [], e), spans) {
        }
      }
    }

    lemma NextLane(v: View, spans: seq<nat>, b: nat)
      requires |v.lanes| == NUM_BANKS && b < NUM_BANKS
      requires Tallied(T(), v, spans, b, |v.lanes[b].items|, []) && S() == AfterPart(v, b, |v.lanes[b].items|)
      ensures Tallied(T(), v, spans, b + 1, 0, []) && S() == AfterPart(v, b + 1, 0)
    {
      hide Tallied, AfterPart;
      var next := b + 1;
      AfterPartNextLane(v, b);
      forall e: nat ensures CountSoFar(v, next, 0, [], e) == CountSoFar(v, b, |v.lanes[b].items|, [], e) {
        PartCountNextLane(v, b, e);
      }
      TalliedSame(T(), v, spans, b, |v.lanes[b].items|, [], next, 0, []);
    }

    static lemma VisitedNextLane(v: View, b: nat, lpn: nat)
      requires |v.lanes| == NUM_BANKS && b < NUM_BANKS
      ensures Visited(v, b + 1, 0, lpn) == Visited(v, b, |v.lanes[b].items|, lpn)
    {
    }

    /** find_first_incomplete_write. An entry beyond the table is read from the page map. */
    method FindFirstIncompleteWrite(ghost v: View, ghost spans: seq<nat>)
      requires v.WellFormed() && SpansAre(v, spans)
      requires Tallied(T(), v, spans, NUM_BANKS, 0, v.deps) && S() == Collected(v)
      modifies this`epochIncomplete
      ensures Located(v, epochIncomplete)
    {
      hide *;
      var idx := 1;
      MaxKnown(v, spans);
      SeenNone(v);
      while idx <= epochMax - epochCommit
        invariant 1 <= idx
        invariant if v.commit < 0 then idx == 1 else SeenUpTo(v, v.commit + idx) && v.commit + idx <= epochMax + 1
        decreases epochMax - epochCommit + 1 - idx
      {
        var span, cnt := D().Word(EntryAt(idx)), D().Word(EntryAt(idx) + 1);
        SeenRead(v, spans, idx);
        if span == 0 || span != cnt {
          break;
        }
        SeenNext(v, v.commit + idx);
        idx := idx + 1;
      }
      if v.commit >= 0 && idx > epochMax - epochCommit {
        BeyondMax(v, spans, v.commit + idx);
      }
      epochIncomplete := (epochCommit + idx) % U32;
      LocatedAt(v, epochIncomplete);
    }

    lemma MaxKnown(v: View, spans: seq<nat>)
      requires v.WellFormed() && SpansAre(v, spans) && Tallied(T(), v, spans, NUM_BANKS, 0, v.deps)
      ensures if v.commit < 0 then epochMax == epochCommit == U32 - 1
              else epochCommit == v.commit <= epochMax < |spans| < U32 - 2
      ensures U32 == 0x1_0000_0000
    {
    }

    /** The two words of an entry tell whether its write is taken for complete. */
    lemma SeenRead(v: View, spans: seq<nat>, idx: nat)
      requires v.WellFormed() && SpansAre(v, spans) && v.commit >= 0 && 1 <= idx <= epochMax - epochCommit
      requires Tallied(T(), v, spans, NUM_BANKS, 0, v.deps) && S() == Collected(v)
      ensures var span, cnt := D().Word(EntryAt(idx)), D().Word(EntryAt(idx) + 1);
        Seen(v, v.commit + idx) <==> span != 0 && span == cnt
    {
      hide Complete, TableIn, BeyondIn, Collected;
      MaxKnown(v, spans);
      if idx < RECOVERY_ENTRIES {
        CounterRead(idx);
        CompleteIff(v, spans, v.commit + idx);
      } else {
        PartCountAll(v, epochMax);
        assert Found(v, epochMax) == CountSoFar(v, NUM_BANKS, 0, v.deps, epochMax) > 0;
        assert Reaching(v, v.commit + idx);
        WordBeyond(words, pmap, EntryAt(idx));
        WordBeyond(words, pmap, EntryAt(idx) + 1);
      }
    }

    lemma BeyondMax(v: View, spans: seq<nat>, e: nat)
      requires v.WellFormed() && SpansAre(v, spans) && v.commit >= 0 && e > epochMax
      requires Tallied(T(), v, spans, NUM_BANKS, 0, v.deps)
      ensures !Seen(v, e)
    {
      hide Balanced, Collected;
      forall k: nat | e <= k ensures Found(v, k) == 0 {
        PartCountAll(v, k);
        assert CountSoFar(v, NUM_BANKS, 0, v.deps, k) == 0;
      }
    }

    lemma CounterRead(idx: nat)
      requires idx < RECOVERY_ENTRIES
      ensures T().At(idx) == Counter(D().Word(EntryAt(idx)), D().Word(EntryAt(idx) + 1))
    {
      FtlBufInside(0);
    }

    /** A write is complete when the counters show as many pages as it spans. */
    lemma CompleteIff(v: View, spans: seq<nat>, e: nat)
      requires v.WellFormed() && SpansAre(v, spans) && v.commit >= 0 && epochCommit < e < epochCommit + RECOVERY_ENTRIES
      requires Tallied(T(), v, spans, NUM_BANKS, 0, v.deps)
      ensures var c := T().At(e - epochCommit); Complete(v, e) <==> c.span != 0 && c.span == c.cnt
      ensures e > epochMax ==> T().At(e - epochCommit).span == 0
    {
      hide TableIn;
      PartCountAll(v, e);
      assert T().Shows(e, CountSoFar(v, NUM_BANKS, 0, v.deps, e), spans);
      if Found(v, e) > 0 {
        AllSpans(v, spans, e);
        if Complete(v, e) {
          SomeEntry(v, spans, e, Found(v, e));
        }
      }
    }

    /** pull_epoch_incomplete. list is the sorted list that stays in memory. */
    method PullEpochIncomplete(ghost v: View, ghost j: Journal, ghost spans: seq<nat>) returns (ghost list: seq<Dep>)
      requires v.WellFormed() && SpansAre(v, spans)
      requires LogReads(f.log, j.pages) && Describes(j, v) && j.pages != [] && space.Valid()
      requires epochCommit == Stored(v.commit)
      modifies space, this`pmap, this`words, this`epochMax, this`epochIncomplete
      ensures space.Valid() && ClearIn(words) == old(ClearIn(words)) && LogRead(old(words), 0, j.tag + 2 + j.ndeps, words)
      ensures GreatestCut(v.deps, old(epochIncomplete), epochIncomplete)
      ensures DependencyCut.SortedBySrc(list) && multiset(list) == multiset(v.deps)
      ensures Listed(list, |list|, old(TableIn(words)), TableIn(words)) && Overlaid(list, |list|, old(pmap), pmap)
    {
      hide ClearIn, SteadyIn, Recovery.LogRead, TableIn, EpochsIn, Listed, Overlaid, GreatestCut, LogReads, Describes;
      var bank := SkipToCommit(false, v, j);
      ghost var skipped := words;
      var deps := ReadDependencies(bank, false, v, j, spans);
      LogReadOn(old(words), j.tag + 1, skipped, j.tag + 2 + j.ndeps, words);
      var sorted;
      epochIncomplete, sorted := DependencyCut.PullBack(deps, epochIncomplete);
      ghost var read := words;
      StoreList(sorted);
      SteadyParts(words, read);
      LogReadSteady(old(words), 0, j.tag + 2 + j.ndeps, read, words);
      list := sorted;
    }

    /** The list of dependencies, once it is sorted, in the place of the counters. */
    method StoreList(list: seq<Dep>)
      modifies this`words, this`pmap
      ensures SteadyIn(words) == old(SteadyIn(words))
      ensures Listed(list, |list|, old(TableIn(words)), TableIn(words)) && Overlaid(list, |list|, old(pmap), pmap)
    {
      hide SteadyIn, TableIn, Overwritten;
      var i := 0;
      while i < |list|
        invariant 0 <= i <= |list| && SteadyIn(words) == old(SteadyIn(words))
        invariant Listed(list, i, old(TableIn(words)), TableIn(words)) && Overlaid(list, i, old(pmap), pmap)
      {
        OverlaidNext(list, i, old(pmap), pmap);
        StoreEntry(i, list[i].src, list[i].dst);
        i := i + 1;
      }
    }

    static lemma OverlaidNext(list: seq<Dep>, n: nat, was: map<nat, Loc>, now: map<nat, Loc>)
      requires n < |list| && Overlaid(list, n, was, now)
      ensures Overlaid(list, n + 1, was, if n < RECOVERY_ENTRIES then now else Overwritten(now, n, list[n].src, list[n].dst))
    {
      hide Overwritten, LocOf;
      if n >= RECOVERY_ENTRIES {
        var next := Overwritten(now, n, list[n].src, list[n].dst);
        OverwrittenAt(now, n, list[n].src, list[n].dst);
        forall l: nat | l >= NUM_LPAGES || l >= 2 * (n + 1 - RECOVERY_ENTRIES) ensures Unmoved(next, was, l) {
          assert Unmoved(next, now, l) && Unmoved(now, was, l);
        }
        forall i: nat | RECOVERY_ENTRIES <= i < n + 1
          ensures 2 * (i - RECOVERY_ENTRIES) < NUM_LPAGES ==> StoredAs(next, 2 * (i - RECOVERY_ENTRIES), list[i].src)
          ensures 2 * (i - RECOVERY_ENTRIES) + 1 < NUM_LPAGES ==> StoredAs(next, 2 * (i - RECOVERY_ENTRIES) + 1, list[i].dst)
        {
          if i < n {
            assert Unmoved(next, now, 2 * (i - RECOVERY_ENTRIES)) && Unmoved(next, now, 2 * (i - RECOVERY_ENTRIES) + 1);
          }
        }
      }
    }

    /** remap_page_entries. found is the memory once the log has been read again, before the pages are mapped. */
    method RemapPageEntries(ghost v: View, ghost j: Journal, ghost spans: seq<nat>) returns (ghost found: map<nat, nat>)
      requires Image(f, v, j) && SpansAre(v, spans) && j.pages != [] && space.Valid() && NUM_LPAGES <= PAGE_MAP_AT
      requires epochCommit == Stored(v.commit) && active == j.pages[j.tag].active
      modifies space, this`pmap, this`words, this`epochMax
      ensures TableIn(found) == old(TableIn(words)) && ClearIn(found) == old(ClearIn(words)) && LogRead(old(words), 0, j.tag + 1, found)
      ensures AllNewestBelow(M(), v, Mapping(old(pmap), EpochsIn(found), epochIncomplete), NUM_BANKS, 0)
      ensures Traced(shown, Events(f.data, v.lanes, NUM_BANKS), epochIncomplete, true, found, old(pmap), words, pmap)
    {
      hide AllNewestBelow, Walks, StartsAt, ClearIn, TableIn, EpochsIn, BeyondIn, Recovery.LogRead, Traced, LanesRead;
      ImageLanes(v, j);
      var bankLog := SkipToCommit(false, v, j);
      found := words;
      RemapLanes(v, spans);
    }

    method RemapLanes(ghost v: View, ghost spans: seq<nat>)
      requires v.WellFormed() && SpansAre(v, spans) && |active| == NUM_BANKS && NUM_LPAGES <= PAGE_MAP_AT
      requires LanesRead(f.data, v.lanes) && forall b :: 0 <= b < NUM_BANKS ==> StartsAt(v.lanes[b], active[b])
      modifies this`pmap, this`words, this`epochMax
      ensures AllNewestBelow(M(), v, old(M()), NUM_BANKS, 0)
      ensures Walked(true, Events(f.data, v.lanes, NUM_BANKS), old(words), old(pmap), words, pmap)
    {
      hide AllNewestBelow, Walks, StartsAt, Recovery.T, Recovery.M, Recovery.Walked;
      var bank := 0;
      ghost var stale := M();
      NothingVisited(v, stale);
      WalkedNone(true, words, pmap);
      while bank < NUM_BANKS
        invariant 0 <= bank <= NUM_BANKS
        invariant Progress(true, v, spans, stale, bank, 0)
        invariant Walked(true, Events(f.data, v.lanes, bank), old(words), old(pmap), words, pmap)
      {
        ghost var w, p := words, pmap;
        RetrieveBank(bank, active[bank], true, v, spans, stale);
        WalkedOn(true, Events(f.data, v.lanes, bank), LaneWalk(f.data, v.lanes, bank), old(words), old(pmap), w, p, words, pmap);
        NewestNextLane(M(), v, stale, bank);
        bank := bank + 1;
      }
    }

    static lemma NothingVisited(v: View, m: Mapping)
      requires v.WellFormed()
      ensures AllNewestBelow(m, v, m, 0, 0)
    {
      forall lpn: nat ensures Visited(v, 0, 0, lpn) == [] {
      }
    }

    static lemma NewestNextLane(m: Mapping, v: View, stale: Mapping, b: nat)
      requires v.WellFormed() && b < NUM_BANKS && AllNewestBelow(m, v, stale, b, |v.lanes[b].items|)
      ensures AllNewestBelow(m, v, stale, b + 1, 0)
    {
      var next := b + 1;
      forall lpn: nat | !Near(lpn) ensures NewestBelow(m, v, stale, next, 0, lpn) {
        assert NewestBelow(m, v, stale, b, |v.lanes[b].items|, lpn);
        VisitedNextLane(v, b, lpn);
      }
      forall lpn: nat | Near(lpn) ensures LeftAlone(m, v, stale, next, 0, lpn) {
        assert LeftAlone(m, v, stale, b, |v.lanes[b].items|, lpn);
        VisitedNextLane(v, b, lpn);
      }
    }

    /** ftl_recovery, after the page map was restored. From any image that a crash can leave, the cut is the greatest
        that the image allows below the first write not taken for complete. Every page that data pages are not read
        over is mapped as the image determines if and only if it is reached. The others are mapped as before, or to
        one of their versions below the cut. */
    method Recover(ghost v: View, ghost j: Journal, ghost spans: seq<nat>) returns (ghost stale: Mapping,
          ghost list: seq<Dep>)
      requires Image(f, v, j) && SpansAre(v, spans) && NUM_LPAGES <= PAGE_MAP_AT
      requires space.Striped(0) && gEpoch == 0 && pmap == map[] && words == map[]
      modifies this, space
      ensures CutTaken(v, epochIncomplete)
      ensures j.pages == [] ==> Recovered(v, pmap, epochIncomplete)
      ensures j.pages != [] ==> stale.cut == epochIncomplete && LeftBehind(stale, v, spans, list) && FarLeft(stale, v, j)
      ensures j.pages != [] ==> forall lpn: nat :: InFtlBuf(lpn) ==> MappedAs(pmap, stale.pmap, SeenAt(v, j, lpn, epochIncomplete), lpn)
      ensures j.pages != [] ==> forall lpn: nat ::
                if Near(lpn) then Unmoved(pmap, stale.pmap, lpn) || OwnVersion(pmap, v.Items(lpn), epochIncomplete, lpn)
                else Remapped(v, pmap, epochIncomplete, lpn) <==> Reached(v, stale, lpn)
      ensures j.pages != [] ==> forall lpn: nat :: !Near(lpn) && NoneFresh(v, stale, lpn) ==> Unmoved(pmap, stale.pmap, lpn)
    {
      hide LogReads, MapReads, Tallied, LaneReads, SpansAre, Collected, AllNewestBelow, Remapped, FirstIncomplete, GreatestCut;
      hide TableIn, ClearIn, EpochsIn, BeyondIn, Listed, Overlaid, LeftBehind, Reached, Untouched, NoneFresh, CutIs, CutTaken, Located, Recovered;
      hide Recovery.LogRead, Recovery.FarLeft, Recovery.SeenAt, Recovery.CollectedOver, OwnVersion, Near, Unmoved, Traced, MappedAs, LanesRead;
      ImageLanes(v, j);
      stale, list := M(), [];
      RestoreMapTable(j.base, j.epoch);
      var done := FindLastCommit(v, j);
      if done {
        NothingSince(v, j);
        return;
      }
      NothingWritten();
      ghost var w1 := words;
      CollectRecoveryEntries(v, j, spans);
      ghost var t, w2 := T(), words;
      FindFirstIncompleteWrite(v, spans);
      ghost var e0 := epochIncomplete;
      list := PullEpochIncomplete(v, j, spans);
      CutFound(v, e0, epochIncomplete);
      ghost var w3, collected := words, pmap;
      ghost var found := RemapPageEntries(v, j, spans);
      stale := Mapping(collected, EpochsIn(found), epochIncomplete);
      LeftBehindIs(found, collected, epochIncomplete, t, v, spans, list);
      FoundIs(v, j, w1, w2, w3, found);
      FarLeftIs(v, j, found, collected, epochIncomplete);
      SeenAtIs(v, j, found, collected, words, pmap, epochIncomplete);
      forall lpn: nat
        ensures if Near(lpn) then Unmoved(pmap, stale.pmap, lpn) || OwnVersion(pmap, v.Items(lpn), epochIncomplete, lpn)
                else Remapped(v, pmap, epochIncomplete, lpn) <==> Reached(v, stale, lpn)
        ensures !Near(lpn) && NoneFresh(v, stale, lpn) ==> Unmoved(pmap, stale.pmap, lpn)
      {
        ReachedIff(M(), v, stale, lpn);
      }
    }

    // ---- The pages whose epochs lie in FTL_BUF ----

    /** The word at the epoch of page a when pages begin to be mapped: what the four walks through the log, and the
        one through the lanes that counts pages, have left there. */
    ghost function FoundWord(v: View, j: Journal, a: nat): nat
      requires InFtlBuf(a) && LanesRead(f.data, v.lanes)
    {
      LogOver(0, j.tag + 1, a, LogOver(0, j.tag + 2 + j.ndeps, a, CollectedOver(v, j, a, LogOver(0, |j.pages| + 1, a, 0))))
    }

    /** Where page a is mapped to on the way. */
    ghost function SeenAt(v: View, j: Journal, a: nat, cut: nat): Option<Loc>
      requires InFtlBuf(a) && LanesRead(f.data, v.lanes)
    {
      AfterAll(shown, Sight(FoundWord(v, j, a), None), Events(f.data, v.lanes, NUM_BANKS), a, cut).at
    }

    lemma FoundIs(v: View, j: Journal, w1: map<nat, nat>, w2: map<nat, nat>, w3: map<nat, nat>, found: map<nat, nat>)
      requires LanesRead(f.data, v.lanes) && LogRead(map[], 0, |j.pages| + 1, w1)
      requires forall a: nat :: InFtlBuf(a) ==> WordIn(w2, a) == CollectedOver(v, j, a, WordIn(w1, a))
      requires LogRead(w2, 0, j.tag + 2 + j.ndeps, w3) && LogRead(w3, 0, j.tag + 1, found)
      ensures FoundOnes(v, j, found)
    {
      hide Recovery.CollectedOver;
    }

    ghost predicate FoundOnes(v: View, j: Journal, found: map<nat, nat>)
      requires LanesRead(f.data, v.lanes)
    {
      forall a: nat :: InFtlBuf(a) ==> WordIn(found, a) == FoundWord(v, j, a)
    }

    /** A page behind the words that data pages are read over finds this word, as long as it is not mapped. */
    ghost predicate FarLeft(stale: Mapping, v: View, j: Journal)
      requires LanesRead(f.data, v.lanes)
    {
      forall a: nat :: Far(a) ==> stale.Newest(a) == FoundWord(v, j, a)
    }

    lemma FarLeftIs(v: View, j: Journal, found: map<nat, nat>, pmap: map<nat, Loc>, cut: nat)
      requires LanesRead(f.data, v.lanes) && FoundOnes(v, j, found)
      ensures FarLeft(Mapping(pmap, EpochsIn(found), cut), v, j)
    {
      hide EpochsIn, Recovery.FoundWord, LanesRead;
      forall a: nat | Far(a) ensures Mapping(pmap, EpochsIn(found), cut).Newest(a) == FoundWord(v, j, a) {
        FtlBufInside(0);
        EpochIs(found, a);
      }
    }

    lemma SeenAtIs(v: View, j: Journal, found: map<nat, nat>, p: map<nat, Loc>, words: map<nat, nat>, q: map<nat, Loc>, cut: nat)
      requires LanesRead(f.data, v.lanes) && FoundOnes(v, j, found)
      requires Traced(shown, Events(f.data, v.lanes, NUM_BANKS), cut, true, found, p, words, q)
      ensures forall lpn: nat :: InFtlBuf(lpn) ==> MappedAs(q, p, SeenAt(v, j, lpn, cut), lpn)
    {
      hide Recovery.FoundWord, LanesRead, MappedAs;
      forall lpn: nat | InFtlBuf(lpn) ensures MappedAs(q, p, SeenAt(v, j, lpn, cut), lpn) {
        assert TracedAt(shown, Events(f.data, v.lanes, NUM_BANKS), cut, true, found, p, words, q, lpn);
      }
    }

    /** A page whose epoch lies in the buffer of another bank is mapped right if and only if a version below the cut is newer
        than the word left there, or it was mapped right anyway. */
    lemma NearRight(v: View, j: Journal, was: map<nat, Loc>, pmap: map<nat, Loc>, cut: nat, a: nat)
      requires v.WellFormed() && LanesRead(f.data, v.lanes) && Near(a) && MappedAs(pmap, was, SeenAt(v, j, a, cut), a)
      requires BankOf(a) != OwnerOf(a) && (OwnerOf(a) < BankOf(a) ==> OffsetOf(a) < SUMMARY_WORDS)
      ensures var x, items := if OwnerOf(a) < BankOf(a) then EndWord(shown, v.lanes, a) else FoundWord(v, j, a), v.Items(a);
        Remapped(v, pmap, cut, a) <==>
          (exists i :: 0 <= i < |items| && HostBelow(items[i], a, cut) && items[i].page.epoch > x) || Remapped(v, was, cut, a)
    {
      hide BankOf, OwnerOf, OffsetOf, Events, LanesRead, Recovery.FoundWord, EndWord, FtlBuf;
      var x, items := if OwnerOf(a) < BankOf(a) then EndWord(shown, v.lanes, a) else FoundWord(v, j, a), v.Items(a);
      var t := OtherBuffer(shown, f.data, v, FoundWord(v, j, a), a, cut);
      if t == Sight(x, None) {
        SameRemapped(v, pmap, was, cut, a);
      } else {
        var k :| 0 <= k < |items| && Gives(items[k], a, cut, Sight(x, None), t);
        assert HostBelow(items[k], a, cut) && items[k].loc == pmap[a];
      }
    }

    /** If the last walk came to the bank, the word is that of the last log page there up to the tag. */
    lemma FoundInLog(v: View, j: Journal, a: nat) returns (k: nat)
      requires LanesRead(f.data, v.lanes) && InFtlBuf(a) && OwnerOf(a) <= j.tag && OwnerOf(a) < NUM_BANKS
      ensures k <= j.tag && RoundRobin(k) == OwnerOf(a) && (forall i :: k < i <= j.tag ==> RoundRobin(i) != OwnerOf(a))
      ensures FoundWord(v, j, a) == shown(OfLog(LogAddr(k)), OffsetOf(a))
    {
      RoundRobinFirst(OwnerOf(a));
      k := LogOverLast(j.tag + 1, a, OwnerOf(a));
    }

    /** Behind the near words only the walks through the log count. */
    lemma FoundFar(v: View, j: Journal, a: nat)
      requires v.WellFormed() && LanesRead(f.data, v.lanes) && Far(a)
      ensures var deps := j.tag + 2 + j.ndeps;
        FoundWord(v, j, a) == LogOver(0, j.tag + 1, a, LogOver(0, deps, a, LogOver(0, deps, a, LogOver(0, |j.pages| + 1, a, 0))))
    {
      hide LanesRead;
      FarUncounted(shown, f.data, v, NUM_BANKS, a, Sight(LogOver(0, j.tag + 1, a, LogOver(0, |j.pages| + 1, a, 0)), None));
      LogOverTwice(j.tag + 1, j.tag + 2 + j.ndeps, a, LogOver(0, |j.pages| + 1, a, 0));
    }

    static lemma {:induction false} RoundRobinFirst(b: nat)
      requires b < NUM_BANKS
      ensures RoundRobin(b) == b
    {
      if b > 0 {
        RoundRobinFirst(b - 1);
      }
    }

    lemma {:induction false} LogOverLast(n: nat, a: nat, i: nat) returns (k: nat)
      requires InFtlBuf(a) && i < n && RoundRobin(i) == OwnerOf(a)
      ensures k < n && RoundRobin(k) == OwnerOf(a) && (forall m :: k < m < n ==> RoundRobin(m) != OwnerOf(a))
      ensures forall x :: LogOver(0, n, a, x) == shown(OfLog(LogAddr(k)), OffsetOf(a))
    {
      if RoundRobin(n - 1) == OwnerOf(a) {
        k := n - 1;
      } else {
        k := LogOverLast(n - 1, a, i);
      }
    }

    static lemma NothingWritten()
      ensures ClearIn(map[]) == map[] && BeyondIn(map[]) == map[]
    {
    }

    static lemma CutFound(v: View, e0: nat, cut: nat)
      requires Located(v, e0) && GreatestCut(v.deps, e0, cut)
      ensures CutTaken(v, cut)
    {
    }

    /** With no tag page on flash the persisted map is the whole state. */
    lemma NothingSince(v: View, j: Journal)
      requires v.WellFormed() && Describes(j, v) && j.pages == []
      requires pmap == j.base && epochIncomplete == v.commit + 1
      ensures Recovered(v, pmap, epochIncomplete) && CutTaken(v, epochIncomplete)
    {
      var e0: nat := v.commit + 1;
      forall e: nat ensures Found(v, e) == 0 {
        LaneCountZero(v.lanes, e);
        DepCountZero(v.deps, e);
      }
      assert !Complete(v, e0);
      assert FirstIncomplete(v, e0) && GreatestCut(v.deps, e0, e0);
      assert Located(v, e0);
      forall lpn: nat ensures Remapped(v, pmap, e0, lpn) {
        assert v.Items(lpn) == [];
      }
    }
  }

  // ---- The recovery point ----

  lemma NotComplete(v: View, spans: seq<nat>)
    requires v.WellFormed() && SpansAre(v, spans)
    ensures !Complete(v, |spans|) && !Seen(v, |spans|)
  {
    hide Balanced, Collected;
    forall k: nat | |spans| <= k ensures Found(v, k) == 0 {
      if Found(v, k) > 0 {
        NoneBeyond(v, spans, k);
      }
    }
  }

  lemma NoneBeyond(v: View, spans: seq<nat>, e: nat)
    requires SpansAre(v, spans) && e >= |spans|
    ensures Found(v, e) == 0
  {
    forall i | 0 <= i < |v.deps| ensures v.deps[i].src != e {
      assert DepSpanIs(v.deps[i], spans);
    }
    DepCountZero(v.deps, e);
    forall b, i | 0 <= b < |v.lanes| && 0 <= i < |v.lanes[b].items| ensures !IsHost(v.lanes[b].items[i], e) {
      assert ItemSpanIs(v.lanes[b].items[i], spans);
    }
    LaneCountZero(v.lanes, e);
  }

  /** The recovery point is determined by the image. */
  lemma CutTakenUnique(v: View, a: nat, b: nat)
    requires CutTaken(v, a) && CutTaken(v, b)
    ensures a == b
  {
    hide Located;
    var x: nat :| Located(v, x) && GreatestCut(v.deps, x, a);
    var y: nat :| Located(v, y) && GreatestCut(v.deps, y, b);
    LocatedUnique(v, x, y);
    DependencyCut.GreatestCutUnique(v.deps, x, a, b);
  }

  // ---- What recovery makes of each page ----

  /** What the memory holds when the pages are mapped, as the image determines it: nothing where only epochs
      of pages are kept, the sorted dependencies in the place of the counters and counters behind them, and
      the map as counting left it, with what of the list is beyond the table over it. */
  ghost predicate LeftBehind(stale: Mapping, v: View, spans: seq<nat>, list: seq<Dep>)
    requires |v.lanes| == NUM_BANKS
  {
    && DependencyCut.SortedBySrc(list) && multiset(list) == multiset(v.deps)
    && (forall a: nat :: Clear(a) ==> stale.Newest(a) == 0)
    && (forall i: nat :: i < |list| && i < RECOVERY_ENTRIES ==>
          stale.Newest(EntryAt(i)) == list[i].src && stale.Newest(EntryAt(i) + 1) == list[i].dst)
    && (forall i: nat :: |list| <= i < RECOVERY_ENTRIES && i > 0 && v.commit >= 0 ==> CountLeft(stale, v, spans, i))
    && Overlaid(list, |list|, Collected(v).pmap, stale.pmap)
  }

  ghost predicate CountLeft(stale: Mapping, v: View, spans: seq<nat>, i: nat)
    requires v.commit >= 0
  {
    var n := Found(v, v.commit + i);
    && stale.Newest(EntryAt(i) + 1) == n
    && if n == 0 then stale.Newest(EntryAt(i)) == 0 else v.commit + i < |spans| && stale.Newest(EntryAt(i)) == spans[v.commit + i]
  }

  /** The table with the first n dependencies in it. */
  ghost predicate Listed(list: seq<Dep>, n: nat, was: seq<Counter>, now: seq<Counter>)
    requires n <= |list|
  {
    && |was| == |now| == RECOVERY_ENTRIES
    && forall i :: 0 <= i < RECOVERY_ENTRIES ==> now[i] == if i < n then Counter(list[i].src, list[i].dst) else was[i]
  }

  /** The page map with an entry of the list, beyond the table, written over two of its pages. */
  function Overwritten(pmap: map<nat, Loc>, i: nat, x: nat, y: nat): map<nat, Loc>
    requires i >= RECOVERY_ENTRIES
  {
    var lpn := 2 * (i - RECOVERY_ENTRIES);
    var first := if lpn < NUM_LPAGES then WithPpn(pmap, lpn, x) else pmap;
    if lpn + 1 < NUM_LPAGES then WithPpn(first, lpn + 1, y) else first
  }

  /** The page map with the first n dependencies of the list written, as far as they are beyond the table. */
  ghost predicate Overlaid(list: seq<Dep>, n: nat, was: map<nat, Loc>, now: map<nat, Loc>)
    requires n <= |list|
  {
    && (n <= RECOVERY_ENTRIES ==> now == was)
    && (forall lpn: nat :: lpn >= NUM_LPAGES || lpn >= 2 * (n - RECOVERY_ENTRIES) ==> Unmoved(now, was, lpn))
    && (forall i: nat :: RECOVERY_ENTRIES <= i < n && 2 * (i - RECOVERY_ENTRIES) < NUM_LPAGES ==>
          StoredAs(now, 2 * (i - RECOVERY_ENTRIES), list[i].src))
    && (forall i: nat :: RECOVERY_ENTRIES <= i < n && 2 * (i - RECOVERY_ENTRIES) + 1 < NUM_LPAGES ==>
          StoredAs(now, 2 * (i - RECOVERY_ENTRIES) + 1, list[i].dst))
  }

  lemma OverwrittenAt(pmap: map<nat, Loc>, i: nat, x: nat, y: nat)
    requires i >= RECOVERY_ENTRIES
    ensures var lpn, m := 2 * (i - RECOVERY_ENTRIES), Overwritten(pmap, i, x, y);
      && (lpn < NUM_LPAGES ==> StoredAs(m, lpn, x))
      && (lpn + 1 < NUM_LPAGES ==> StoredAs(m, lpn + 1, y))
      && (lpn + 1 < NUM_LPAGES ==> m == WithPpn(WithPpn(pmap, lpn, x), lpn + 1, y))
      && (forall l: nat :: (l != lpn && l != lpn + 1) || l >= NUM_LPAGES ==> Unmoved(m, pmap, l))
  {
  }

  /** No version of page lpn is below the cut. */
  ghost predicate Untouched(v: View, cut: nat, lpn: nat)
    requires |v.lanes| == NUM_BANKS
  {
    var items := v.Items(lpn);
    forall i :: 0 <= i < |items| ==> !HostBelow(items[i], lpn, cut)
  }

  /** Every version of page lpn below the cut is at most as new as what the memory shows. */
  ghost predicate NoneFresh(v: View, stale: Mapping, lpn: nat)
    requires |v.lanes| == NUM_BANKS
  {
    var items := v.Items(lpn);
    forall i :: 0 <= i < |items| ==> !Fresh(items[i], lpn, stale.cut, stale)
  }

  /** Recovery gets page lpn right: some version of it is newer than what the memory shows, or what it is
      mapped to anyway is right. */
  ghost predicate Reached(v: View, stale: Mapping, lpn: nat)
    requires |v.lanes| == NUM_BANKS
  {
    var items := v.Items(lpn);
    || (exists i :: 0 <= i < |items| && Fresh(items[i], lpn, stale.cut, stale))
    || Remapped(v, stale.pmap, stale.cut, lpn)
  }

  lemma ReachedIff(m: Mapping, v: View, stale: Mapping, lpn: nat)
    requires v.WellFormed() && AllNewestBelow(m, v, stale, NUM_BANKS, 0)
    ensures if Near(lpn) then Unmoved(m.pmap, stale.pmap, lpn) || OwnVersion(m.pmap, v.Items(lpn), m.cut, lpn)
            else Remapped(v, m.pmap, m.cut, lpn) <==> Reached(v, stale, lpn)
    ensures !Near(lpn) && NoneFresh(v, stale, lpn) ==> Unmoved(m.pmap, stale.pmap, lpn)
  {
    var items := v.Items(lpn);
    assert Visited(v, NUM_BANKS, 0, lpn) == items;
    if Near(lpn) {
      assert LeftAlone(m, v, stale, NUM_BANKS, 0, lpn);
    } else {
      assert NewestBelow(m, v, stale, NUM_BANKS, 0, lpn);
      if exists k :: 0 <= k < |items| && Fresh(items[k], lpn, m.cut, stale) {
        var k :| 0 <= k < |items| && Fresh(items[k], lpn, m.cut, stale) && items[k].loc == m.pmap[lpn]
                 && items[k].page.epoch == m.Newest(lpn);
        assert HostBelow(items[k], lpn, m.cut);
        assert Remapped(v, m.pmap, m.cut, lpn);
      } else {
        SameRemapped(v, m.pmap, stale.pmap, m.cut, lpn);
      }
    }
  }

  lemma SameRemapped(v: View, m: map<nat, Loc>, n: map<nat, Loc>, cut: nat, lpn: nat)
    requires |v.lanes| == NUM_BANKS && Unmoved(m, n, lpn)
    ensures Remapped(v, m, cut, lpn) <==> Remapped(v, n, cut, lpn)
  {
  }

  lemma LeftBehindIs(words: map<nat, nat>, pmap: map<nat, Loc>, cut: nat, t: Tally, v: View, spans: seq<nat>, list: seq<Dep>)
    requires v.WellFormed() && Tallied(t, v, spans, NUM_BANKS, 0, v.deps)
    requires DependencyCut.SortedBySrc(list) && multiset(list) == multiset(v.deps) && ClearIn(words) == map[]
    requires |t.counters| == RECOVERY_ENTRIES
    requires Listed(list, |list|, t.counters, TableIn(words)) && Overlaid(list, |list|, Collected(v).pmap, pmap)
    ensures LeftBehind(Mapping(pmap, EpochsIn(words), cut), v, spans, list)
  {
    hide Overlaid, Collected, TableIn, EpochsIn, ClearIn, FtlBuf;
    var stale := Mapping(pmap, EpochsIn(words), cut);
    forall a: nat | Clear(a) ensures stale.Newest(a) == 0 {
      ClearBelow(a);
      ClearAt(words, a);
      EpochIs(words, a);
    }
    forall i: nat | i < RECOVERY_ENTRIES
      ensures stale.Newest(EntryAt(i)) == TableIn(words)[i].span && stale.Newest(EntryAt(i) + 1) == TableIn(words)[i].cnt
    {
      FtlBufInside(0);
      TableIs(words, i);
      EpochIs(words, EntryAt(i));
      EpochIs(words, EntryAt(i) + 1);
    }
    forall i: nat | |list| <= i < RECOVERY_ENTRIES && i > 0 && v.commit >= 0 ensures CountLeft(stale, v, spans, i) {
      var e := v.commit + i;
      PartCountAll(v, e);
      assert t.Shows(e, CountSoFar(v, NUM_BANKS, 0, v.deps, e), spans);
    }
  }

  lemma ClearAt(words: map<nat, nat>, a: nat)
    requires ClearIn(words) == map[] && Clear(a)
    ensures WordIn(words, a) == 0
  {
    assert a !in ClearIn(words);
  }

  lemma EpochIs(words: map<nat, nat>, a: nat)
    requires a < PAGE_MAP_AT && !Near(a)
    ensures Mapping(map[], EpochsIn(words), 0).Newest(a) == WordIn(words, a)
    ensures (if a in EpochsIn(words) then EpochsIn(words)[a] else 0) == WordIn(words, a)
  {
  }

  lemma TableIs(words: map<nat, nat>, i: nat)
    requires i < RECOVERY_ENTRIES
    ensures TableIn(words)[i] == Counter(WordIn(words, EntryAt(i)), WordIn(words, EntryAt(i) + 1))
  {
  }

  /** A list that fits leaves the map as counting left it. */
  lemma ListFitting(v: View, stale: Mapping, spans: seq<nat>, list: seq<Dep>)
    requires |v.lanes| == NUM_BANKS && LeftBehind(stale, v, spans, list) && |v.deps| <= RECOVERY_ENTRIES
    ensures stale.pmap == Collected(v).pmap
  {
    assert |multiset(list)| == |multiset(v.deps)|;
  }

  /** A page that nothing lies over, neither over its epoch nor over its entry, is right; so is one with a version
      below the cut that nothing lies over. */
  lemma AllReached(v: View, stale: Mapping, spans: seq<nat>, list: seq<Dep>, lpn: nat)
    requires v.WellFormed() && LeftBehind(stale, v, spans, list) && |v.deps| <= RECOVERY_ENTRIES && Uncounted(v, lpn)
    requires v.commit == -1 ==> stale.cut == 0
    requires Clear(lpn) || Untouched(v, stale.cut, lpn)
    ensures Reached(v, stale, lpn) && (Untouched(v, stale.cut, lpn) ==> Remapped(v, stale.pmap, stale.cut, lpn))
  {
    hide Collected, Uncounted;
    var items := v.Items(lpn);
    ListFitting(v, stale, spans, list);
    if Untouched(v, stale.cut, lpn) {
      UncountedMapped(v, lpn);
    } else {
      var i :| 0 <= i < |items| && HostBelow(items[i], lpn, stale.cut);
      assert v.ItemOK(BankOf(lpn), items[i]);
      assert Fresh(items[i], lpn, stale.cut, stale);
    }
  }

  /** A list that does not fit: the epochs at its end are taken for the places of pages. Of the pages in
      question that were not written or copied since the commit, recovery gets exactly those right that are
      at such a place by chance. */
  lemma ListBeyondTable(v: View, stale: Mapping, spans: seq<nat>, list: seq<Dep>, lpn: nat)
    requires v.WellFormed() && LeftBehind(stale, v, spans, list)
    requires lpn < NUM_LPAGES && lpn < 2 * (|list| - RECOVERY_ENTRIES)
    requires forall i :: 0 <= i < |v.Items(lpn)| ==> !v.Items(lpn)[i].page.Summary? && v.Items(lpn)[i].page.lpn != lpn
    ensures var w := WordOf(list, lpn);
      Reached(v, stale, lpn) <==> if w == 0 then lpn !in v.cmap else lpn in v.cmap && v.cmap[lpn] == LocOf(lpn, w)
  {
    hide LocOf;
    var i, w := RECOVERY_ENTRIES + lpn / 2, WordOf(list, lpn);
    if lpn % 2 == 0 {
      assert lpn == 2 * (i - RECOVERY_ENTRIES) && StoredAs(stale.pmap, lpn, list[i].src);
    } else {
      assert lpn == 2 * (i - RECOVERY_ENTRIES) + 1 && StoredAs(stale.pmap, lpn, list[i].dst);
    }
    assert StoredAs(stale.pmap, lpn, w);
    var items := v.Items(lpn);
    forall k | 0 <= k < |items| ensures !HostBelow(items[k], lpn, stale.cut) && !CopyOf(items[k], lpn) {
      assert items[k].page.lpn != lpn;
    }
  }

  /** Counters beyond the table: a page behind the list that was not written or copied since the commit is mapped as
      it was then if nothing was counted over its entry. Otherwise an even page is taken to be at the place
      whose number is the span of a write, and an odd one always at a wrong place. */
  lemma CountBeyondTable(v: View, stale: Mapping, spans: seq<nat>, list: seq<Dep>, lpn: nat)
    requires v.WellFormed() && v.commit >= 0 && SpansAre(v, spans) && LeftBehind(stale, v, spans, list)
    requires lpn < NUM_LPAGES && lpn >= 2 * (|list| - RECOVERY_ENTRIES)
    requires forall i :: 0 <= i < |v.Items(lpn)| ==> v.Items(lpn)[i].page.lpn != lpn
    ensures var e := v.commit + EntryOver(lpn); var n := Found(v, e);
      && (n > 0 ==> e < |spans|)
      && (if n == 0 then Unmoved(stale.pmap, v.cmap, lpn)
          else StoredAs(stale.pmap, lpn, if lpn % 2 == 0 then spans[e] else PpnOf(v.cmap, lpn) + n))
      && (Reached(v, stale, lpn) <==> n == 0 || (lpn % 2 == 0 && lpn in v.cmap && v.cmap[lpn] == LocOf(lpn, spans[e])))
  {
    hide LocOf, Collected, PpnOf;
    var e, n := v.commit + EntryOver(lpn), Found(v, v.commit + EntryOver(lpn));
    if n > 0 && e >= |spans| {
      NoneBeyond(v, spans, e);
    }
    forall b, i | 0 <= b < |v.lanes| && 0 <= i < |v.lanes[b].items| ensures !CopyOf(v.lanes[b].items[i], lpn) {
      assert v.ItemOK(b, v.lanes[b].items[i]);
      if b == BankOf(lpn) {
        assert v.Items(lpn)[i].page.lpn != lpn;
      }
    }
    var items := v.Items(lpn);
    forall k | 0 <= k < |items| ensures !HostBelow(items[k], lpn, stale.cut) && !CopyOf(items[k], lpn) {
      assert items[k].page.lpn != lpn;
    }
    assert Unmoved(stale.pmap, Collected(v).pmap, lpn);
    if n == 0 {
      UncountedMapped(v, lpn);
    } else {
      AllSpans(v, spans, e);
      CollectedAt(v, lpn, spans[e]);
      CommittedWordIs(v, lpn);
      SpanPositive(v, spans, e);
      if lpn in v.cmap && v.cmap[lpn] == LocOf(lpn, PpnOf(v.cmap, lpn) + n) {
        LocOfPpn(v.cmap, lpn, PpnOf(v.cmap, lpn) + n);
      }
    }
  }

  lemma SpanPositive(v: View, spans: seq<nat>, e: nat)
    requires SpansAre(v, spans) && Found(v, e) > 0 && e < |spans|
    ensures spans[e] > 0
  {
    if spans[e] == 0 {
      forall i | 0 <= i < |v.deps| ensures v.deps[i].src != e {
        assert DepSpanIs(v.deps[i], spans);
      }
      DepCountZero(v.deps, e);
      forall b, i | 0 <= b < |v.lanes| && 0 <= i < |v.lanes[b].items| ensures !IsHost(v.lanes[b].items[i], e) {
        assert ItemSpanIs(v.lanes[b].items[i], spans);
      }
      LaneCountZero(v.lanes, e);
    }
  }

  lemma LocOfPpn(m: map<nat, Loc>, lpn: nat, w: nat)
    requires lpn in m && m[lpn] == LocOf(lpn, w)
    ensures PpnOf(m, lpn) == w
  {
    DivMod(w, PAGES_PER_VBLK);
  }

  /** The word of the list that lies over the entry of page lpn in the page map. */
  function WordOf(list: seq<Dep>, lpn: nat): nat
    requires lpn < 2 * (|list| - RECOVERY_ENTRIES)
  {
    var d := list[RECOVERY_ENTRIES + lpn / 2];
    if lpn % 2 == 0 then d.src else d.dst
  }
}
