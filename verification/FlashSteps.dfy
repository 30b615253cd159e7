/** Steps of the firmware that program or erase data pages, and that each of them keeps the invariant. */
module FlashSteps {
  import opened Geometry
  import opened Requests
  import opened Recoverable
  import opened Counting
  import opened OrderState
  import opened Transfer

  function Append(v: View, b: nat, it: Item): View
    requires b < |v.lanes|
  {
    v.(lanes := v.lanes[b := v.lanes[b].(items := v.lanes[b].items + [it])])
  }

  /** page is programmed at loc and page.lpn mapped to it. */
  function Program(s: State, loc: Loc, page: DataPage): State
    requires !page.Summary? && BankOf(page.lpn) < |s.v.lanes|
  {
    s.(data := s.data[loc := page],
       v := Append(s.v, BankOf(page.lpn), Item(loc, page)),
       pmap := s.pmap[page.lpn := loc])
  }

  ghost predicate CanProgram(s: State, loc: Loc, page: DataPage) {
    && !page.Summary?
    && loc !in s.data && loc.bank == BankOf(page.lpn)
    && |page.content| == SECTORS_PER_PAGE
  }

  lemma ProgramExtends(s: State, loc: Loc, page: DataPage)
    requires Shape(s) && CanProgram(s, loc, page)
    ensures Extends(s, Program(s, loc, page))
    ensures forall l :: Keeps(s, Program(s, loc, page), l)
    ensures var t := Program(s, loc, page); InLane(t.v, page.lpn, loc)
  {
    var t := Program(s, loc, page);
    var items := t.v.Items(page.lpn);
    assert items[|items| - 1] == Item(loc, page);
  }

  // ---- A dirty page is written back ----

  function HostPage(s: State, lpn: nat): DataPage
    requires lpn in s.cache
  {
    Host(lpn, s.cache[lpn].span, s.cache[lpn].epoch, s.cache[lpn].buf)
  }

  function WriteBack(s: State, lpn: nat, loc: Loc): State
    requires lpn in s.cache && BankOf(lpn) < |s.v.lanes|
  {
    Program(s, loc, HostPage(s, lpn)).(cache := s.cache[lpn := s.cache[lpn].(dirty := false)])
  }

  lemma WriteBackExtends(s: State, lpn: nat, loc: Loc)
    requires Shape(s) && s.Dirty(lpn) && EntryOK(s, lpn) && CanProgram(s, loc, HostPage(s, lpn))
    ensures var t := WriteBack(s, lpn, loc);
      && Extends(s, t) && InLane(t.v, lpn, loc) && OnFlash(t, lpn, s.cache[lpn].epoch)
      && forall l :: Keeps(s, t, l)
  {
    var page := HostPage(s, lpn);
    ProgramExtends(s, loc, page);
    var t := WriteBack(s, lpn, loc);
    assert t.v == Program(s, loc, page).v;
    var items := t.v.Items(lpn);
    assert IsHost(items[|items| - 1], page.epoch) && items[|items| - 1].page.lpn == lpn;
  }

  lemma WriteBackItem(s: State, lpn: nat, loc: Loc)
    requires Shape(s) && s.Dirty(lpn) && EntryOK(s, lpn) && CanProgram(s, loc, HostPage(s, lpn))
    ensures ItemGood(WriteBack(s, lpn, loc), Item(loc, HostPage(s, lpn)))
    ensures Agrees(s.cache[lpn].buf, lpn, s.reqs, s.cache[lpn].epoch + 1)
  {
    var e := s.cache[lpn].epoch;
    EntryVersion(s, lpn);
    assert WriteBack(s, lpn, loc).Enqueued(e, lpn);
  }

  /** The buffer of a dirty page holds the version its epoch names. */
  lemma EntryVersion(s: State, lpn: nat)
    requires Shape(s) && s.Dirty(lpn) && EntryOK(s, lpn)
    ensures Agrees(s.cache[lpn].buf, lpn, s.reqs, s.cache[lpn].epoch + 1)
  {
    var e := s.cache[lpn].epoch;
    assert s.Enqueued(e, lpn);
    if e == s.g {
      assert s.Now(lpn) == e + 1;
    } else {
      assert !s.Enqueued(s.g, lpn);
      AgreesBack(s.cache[lpn].buf, lpn, s.reqs, e + 1, s.g, s);
    }
  }

  lemma {:induction false} AgreesBack(content: seq<nat>, lpn: nat, reqs: seq<Request>, n: nat, k: nat, s: State)
    requires n <= k <= |reqs| && Agrees(content, lpn, reqs, k)
    requires s.Clock() && s.reqs == reqs && k <= s.g && forall e: nat :: n <= e ==> !s.Enqueued(e, lpn)
    ensures Agrees(content, lpn, reqs, n)
  {
    if n < k {
      assert !s.Enqueued(k - 1, lpn);
      forall i: nat | i < SECTORS_PER_PAGE
        ensures Lookup(reqs, k, SectorOf(lpn, i)) == Lookup(reqs, k - 1, SectorOf(lpn, i))
      {
        if reqs[k - 1].Covers(SectorOf(lpn, i)) {
          CoversTouches(reqs[k - 1], lpn, i);
        }
      }
      AgreesBack(content, lpn, reqs, n, k - 1, s);
    }
  }

  lemma WriteBackAccounted(s: State, lpn: nat, loc: Loc, e: nat)
    requires Shape(s) && s.Dirty(lpn) && CanProgram(s, loc, HostPage(s, lpn))
    requires Accounted(s, e)
    ensures Accounted(WriteBack(s, lpn, loc), e)
  {
    var t := WriteBack(s, lpn, loc);
    var b := BankOf(lpn);
    var it := Item(loc, HostPage(s, lpn));
    LaneCountAppend(s.v.lanes, b, t.v.lanes[b], it, e);
    assert t.v.lanes == s.v.lanes[b := t.v.lanes[b]];
    if s.cache[lpn].epoch == e {
      assert t.DirtyPages(e) == s.DirtyPages(e) - {lpn};
      assert lpn in s.DirtyPages(e);
    } else {
      assert t.DirtyPages(e) == s.DirtyPages(e);
    }
  }

  lemma WriteBackShape(s: State, lpn: nat, loc: Loc)
    requires Shape(s) && Deps(s) && s.Dirty(lpn) && EntryOK(s, lpn) && CanProgram(s, loc, HostPage(s, lpn))
    ensures Shape(WriteBack(s, lpn, loc)) && Deps(WriteBack(s, lpn, loc))
  {
  }

  lemma WriteBackMapped(s: State, lpn: nat, loc: Loc)
    requires Shape(s) && MapContents(s) && s.Dirty(lpn) && EntryOK(s, lpn) && CanProgram(s, loc, HostPage(s, lpn))
    ensures MapContents(WriteBack(s, lpn, loc))
  {
    var t := WriteBack(s, lpn, loc);
    WriteBackExtends(s, lpn, loc);
    forall l: nat | l in t.pmap ensures MappedPage(t, l) {
      if l != lpn {
        MappedCarries(s, t, l);
      }
    }
  }

  lemma WriteBackDomain(s: State, lpn: nat, loc: Loc)
    requires Shape(s) && MapDomain(s) && s.Dirty(lpn) && EntryOK(s, lpn) && CanProgram(s, loc, HostPage(s, lpn))
    ensures MapDomain(WriteBack(s, lpn, loc))
  {
    var t := WriteBack(s, lpn, loc);
    WriteBackExtends(s, lpn, loc);
    EverCarries(s, t, lpn);
    DomainCarries(s, t);
  }

  lemma WriteBackCached(s: State, lpn: nat, loc: Loc)
    requires Shape(s) && Cached(s) && s.Dirty(lpn) && CanProgram(s, loc, HostPage(s, lpn))
    ensures Cached(WriteBack(s, lpn, loc))
  {
    var t := WriteBack(s, lpn, loc);
    WriteBackExtends(s, lpn, loc);
    forall l: nat | l in t.cache ensures EntryOK(t, l) {
      EntryCarries(s, t, l);
    }
  }

  lemma WriteBackCoverage(s: State, lpn: nat, loc: Loc)
    requires Shape(s) && Coverage(s) && s.Dirty(lpn) && EntryOK(s, lpn) && CanProgram(s, loc, HostPage(s, lpn))
    ensures Coverage(WriteBack(s, lpn, loc))
  {
    var t := WriteBack(s, lpn, loc);
    WriteBackExtends(s, lpn, loc);
    forall l: nat, e: nat | t.v.commit < e && t.Enqueued(e, l) ensures Covered(t, l, e) {
      assert Covered(s, l, e);
      CoveredCarries(s, t, l, e);
    }
  }

  /** Writing a dirty page to flash keeps the invariant. */
  lemma WriteBackInv(s: State, lpn: nat, loc: Loc)
    requires Inv(s) && s.Dirty(lpn) && CanProgram(s, loc, HostPage(s, lpn))
    ensures Inv(WriteBack(s, lpn, loc))
  {
    var t := WriteBack(s, lpn, loc);
    assert EntryOK(s, lpn);
    WriteBackShape(s, lpn, loc);
    WriteBackExtends(s, lpn, loc);
    WriteBackItem(s, lpn, loc);
    ChainCarries(s, t);
    RetainedCarries(s, t);
    WriteBackMapped(s, lpn, loc);
    WriteBackDomain(s, lpn, loc);
    WriteBackCached(s, lpn, loc);
    WriteBackCoverage(s, lpn, loc);
    forall e: nat | t.v.commit < e ensures Accounted(t, e) {
      assert Accounted(s, e);
      WriteBackAccounted(s, lpn, loc, e);
    }
  }

  // ---- Garbage collection copies a valid page ----

  function CopiedPage(s: State, lpn: nat): DataPage
    requires lpn in s.pmap && s.pmap[lpn] in s.data && !s.data[s.pmap[lpn]].Summary?
  {
    Copy(lpn, s.data[s.pmap[lpn]].content)
  }

  ghost predicate CanCopy(s: State, lpn: nat, loc: Loc)
    requires Shape(s)
  {
    && lpn in s.pmap && MappedPage(s, lpn)
    && !InLane(s.v, lpn, s.pmap[lpn])
    && s.v.commit >= 0
    && !s.Dirty(lpn)
    && CanProgram(s, loc, CopiedPage(s, lpn))
  }

  function CopyBack(s: State, lpn: nat, loc: Loc): State
    requires lpn in s.pmap && s.pmap[lpn] in s.data && !s.data[s.pmap[lpn]].Summary? && BankOf(lpn) < |s.v.lanes|
  {
    Program(s, loc, CopiedPage(s, lpn))
  }

  lemma CopyBackShape(s: State, lpn: nat, loc: Loc)
    requires Shape(s) && Deps(s) && CanCopy(s, lpn, loc)
    ensures Shape(CopyBack(s, lpn, loc)) && Deps(CopyBack(s, lpn, loc))
    ensures Extends(s, CopyBack(s, lpn, loc))
  {
    ProgramExtends(s, loc, CopiedPage(s, lpn));
  }

  lemma CopyBackAccounted(s: State, lpn: nat, loc: Loc, e: nat)
    requires Shape(s) && CanCopy(s, lpn, loc)
    requires Accounted(s, e)
    ensures Accounted(CopyBack(s, lpn, loc), e)
  {
    var t := CopyBack(s, lpn, loc);
    var b := BankOf(lpn);
    LaneCountAppend(s.v.lanes, b, t.v.lanes[b], Item(loc, CopiedPage(s, lpn)), e);
    assert t.DirtyPages(e) == s.DirtyPages(e);
  }

  lemma CopyBackMapped(s: State, lpn: nat, loc: Loc)
    requires Shape(s) && MapContents(s) && CanCopy(s, lpn, loc)
    ensures MapContents(CopyBack(s, lpn, loc))
  {
    var t := CopyBack(s, lpn, loc);
    ProgramExtends(s, loc, CopiedPage(s, lpn));
    forall l: nat | l in t.pmap ensures MappedPage(t, l) {
      if l != lpn {
        MappedCarries(s, t, l);
      }
    }
  }

  lemma CopyBackDomain(s: State, lpn: nat, loc: Loc)
    requires Shape(s) && MapDomain(s) && CanCopy(s, lpn, loc)
    ensures MapDomain(CopyBack(s, lpn, loc))
  {
    ProgramExtends(s, loc, CopiedPage(s, lpn));
    DomainCarries(s, CopyBack(s, lpn, loc));
  }

  lemma CopyBackCached(s: State, lpn: nat, loc: Loc)
    requires Shape(s) && Cached(s) && CanCopy(s, lpn, loc)
    ensures Cached(CopyBack(s, lpn, loc))
  {
    var t := CopyBack(s, lpn, loc);
    ProgramExtends(s, loc, CopiedPage(s, lpn));
    forall l: nat | l in t.cache ensures EntryOK(t, l) {
      EntryCarries(s, t, l);
    }
  }

  lemma CopyBackCoverage(s: State, lpn: nat, loc: Loc)
    requires Shape(s) && Coverage(s) && CanCopy(s, lpn, loc)
    ensures Coverage(CopyBack(s, lpn, loc))
  {
    var t := CopyBack(s, lpn, loc);
    ProgramExtends(s, loc, CopiedPage(s, lpn));
    forall l: nat, e: nat | t.v.commit < e && t.Enqueued(e, l) ensures Covered(t, l, e) {
      assert Covered(s, l, e);
      CoveredCarries(s, t, l, e);
    }
  }

  lemma CopyBackPages(s: State, lpn: nat, loc: Loc)
    requires Shape(s) && Chained(s) && Retained(s) && CanCopy(s, lpn, loc)
    ensures Chained(CopyBack(s, lpn, loc)) && Retained(CopyBack(s, lpn, loc))
  {
    var t := CopyBack(s, lpn, loc);
    ProgramExtends(s, loc, CopiedPage(s, lpn));
    ChainCarries(s, t);
    RetainedCarries(s, t);
  }

  /** Moving a page that is still as it was at the commit keeps the invariant. */
  lemma CopyBackInv(s: State, lpn: nat, loc: Loc)
    requires Inv(s) && CanCopy(s, lpn, loc)
    ensures Inv(CopyBack(s, lpn, loc))
  {
    var t := CopyBack(s, lpn, loc);
    CopyBackShape(s, lpn, loc);
    CopyBackPages(s, lpn, loc);
    CopyBackMapped(s, lpn, loc);
    CopyBackDomain(s, lpn, loc);
    CopyBackCached(s, lpn, loc);
    CopyBackCoverage(s, lpn, loc);
    forall e: nat | t.v.commit < e ensures Accounted(t, e) {
      assert Accounted(s, e);
      CopyBackAccounted(s, lpn, loc, e);
    }
  }

  // ---- A summary page closes a block and links to the next one ----

  function Link(s: State, b: nat, blk: nat, lpns: seq<nat>, next: nat): State
    requires b < |s.v.lanes|
  {
    s.(data := s.data[Loc(b, blk, LAST_PAGE) := Summary(lpns, next)],
       v := s.v.(lanes := s.v.lanes[b := s.v.lanes[b].(blks := s.v.lanes[b].blks + [next])]))
  }

  lemma LinkExtends(s: State, b: nat, blk: nat, lpns: seq<nat>, next: nat)
    requires Shape(s) && Deps(s) && b < NUM_BANKS && Loc(b, blk, LAST_PAGE) !in s.data
    ensures var t := Link(s, b, blk, lpns, next);
      && Extends(s, t) && Shape(t) && Deps(t)
      && (forall l :: Keeps(s, t, l))
      && forall l: nat :: t.v.Items(l) == s.v.Items(l)
  {
  }

  lemma LinkMapped(s: State, b: nat, blk: nat, lpns: seq<nat>, next: nat)
    requires Shape(s) && Deps(s) && MapContents(s) && b < NUM_BANKS && Loc(b, blk, LAST_PAGE) !in s.data
    ensures MapContents(Link(s, b, blk, lpns, next))
  {
    var t := Link(s, b, blk, lpns, next);
    LinkExtends(s, b, blk, lpns, next);
    forall l: nat | l in t.pmap ensures MappedPage(t, l) {
      MappedCarries(s, t, l);
    }
  }

  /** Steps after which only data pages that nobody needs have changed. */
  ghost predicate SameItems(s: State, t: State) {
    && Extends(s, t)
    && t.reqs == s.reqs && t.g == s.g && t.enq == s.enq && t.cache == s.cache && t.deps == s.deps
    && t.floor == s.floor && t.v.deps == s.v.deps
    && forall b :: 0 <= b < NUM_BANKS ==> t.v.lanes[b].items == s.v.lanes[b].items
  }

  lemma SameItemsCached(s: State, t: State)
    requires SameItems(s, t) && Cached(s)
    ensures Cached(t)
  {
    forall l: nat | l in t.cache ensures EntryOK(t, l) {
      EntryCarries(s, t, l);
    }
  }

  lemma SameItemsCoverage(s: State, t: State)
    requires SameItems(s, t) && Coverage(s)
    ensures Coverage(t)
  {
    forall l: nat, e: nat | t.v.commit < e && t.Enqueued(e, l) ensures Covered(t, l, e) {
      assert Covered(s, l, e);
      CoveredCarries(s, t, l, e);
    }
  }

  lemma SameItemsInv(s: State, t: State)
    requires Inv(s) && SameItems(s, t) && Shape(t) && Deps(t) && Chained(t) && Retained(t) && MapContents(t)
    requires t.pmap == s.pmap
    ensures Inv(t)
  {
    SameItemsCached(s, t);
    SameItemsCoverage(s, t);
    DomainCarries(s, t);
    forall e: nat | t.v.commit < e ensures Accounted(t, e) {
      assert Accounted(s, e);
      LaneCountSame(s.v.lanes, t.v.lanes, e);
      assert t.DirtyPages(e) == s.DirtyPages(e);
    }
  }

  lemma LinkInv(s: State, b: nat, blk: nat, lpns: seq<nat>, next: nat)
    requires Inv(s) && b < NUM_BANKS && Loc(b, blk, LAST_PAGE) !in s.data
    ensures Inv(Link(s, b, blk, lpns, next))
  {
    var t := Link(s, b, blk, lpns, next);
    LinkExtends(s, b, blk, lpns, next);
    LinkMapped(s, b, blk, lpns, next);
    ChainCarries(s, t);
    RetainedCarries(s, t);
    SameItemsInv(s, t);
  }

  // ---- A victim block is erased ----

  predicate InBlock(loc: Loc, b: nat, blk: nat) {
    loc.bank == b && loc.blk == blk
  }

  function Without(data: map<Loc, DataPage>, b: nat, blk: nat): (d: map<Loc, DataPage>)
    ensures forall l :: l in d <==> l in data && !InBlock(l, b, blk)
    ensures forall l :: l in d ==> d[l] == data[l]
  {
    map l | l in data && !InBlock(l, b, blk) :: data[l]
  }

  function Erase(s: State, b: nat, blk: nat): State {
    s.(data := Without(s.data, b, blk))
  }

  /** No page since the commit and no mapped page is in the block, and what the commit mapped there has
      been copied or superseded. */
  ghost predicate Disposable(s: State, b: nat, blk: nat)
    requires |s.v.lanes| == NUM_BANKS
  {
    && (forall c, i :: 0 <= c < NUM_BANKS && 0 <= i < |s.v.lanes[c].items| ==> !InBlock(s.v.lanes[c].items[i].loc, b, blk))
    && (forall l: nat :: l in s.pmap ==> !InBlock(s.pmap[l], b, blk))
    && (forall l: nat :: l in s.v.cmap && InBlock(s.v.cmap[l], b, blk) ==> HasCopy(s.v, l) || Superseded(s, l))
  }

  /** Erasing a disposable block keeps the invariant: version retention. */
  lemma EraseInv(s: State, b: nat, blk: nat)
    requires Inv(s) && Disposable(s, b, blk)
    ensures Inv(Erase(s, b, blk))
  {
    var t := Erase(s, b, blk);
    assert Extends(s, t);
    forall l: nat | l in t.v.cmap ensures Keeps(s, t, s.v.cmap[l]) || HasCopy(t.v, l) || Superseded(t, l) {
      if InBlock(s.v.cmap[l], b, blk) {
        if Superseded(s, l) {
          SupersededCarries(s, t, l);
        }
      }
    }
    ChainCarries(s, t);
    RetainedCarries(s, t);
    EraseMapped(s, b, blk);
    SameItemsInv(s, t);
  }

  lemma EraseMapped(s: State, b: nat, blk: nat)
    requires Shape(s) && MapContents(s) && Disposable(s, b, blk)
    ensures MapContents(Erase(s, b, blk))
  {
    var t := Erase(s, b, blk);
    forall l: nat | l in t.pmap ensures MappedPage(t, l) {
      MappedCarries(s, t, l);
    }
  }

  ghost predicate AllClean(s: State) {
    forall lpn: nat :: !s.Dirty(lpn)
  }

  /** A block that was closed before the commit, and none of whose pages is mapped any more, may be
      erased after a flush: whatever the commit mapped there was copied or is superseded. */
  lemma CollectedBlockDisposable(s: State, b: nat, blk: nat)
    requires Inv(s) && s.floor == |s.reqs| && AllClean(s)
    requires forall c, i :: 0 <= c < NUM_BANKS && 0 <= i < |s.v.lanes[c].items| ==> !InBlock(s.v.lanes[c].items[i].loc, b, blk)
    requires forall l: nat :: l in s.pmap ==> !InBlock(s.pmap[l], b, blk)
    ensures Disposable(s, b, blk)
  {
    forall l: nat | l in s.v.cmap && InBlock(s.v.cmap[l], b, blk) ensures HasCopy(s.v, l) || Superseded(s, l) {
      assert TouchedBefore(s.reqs, s.v.commit + 1, l);
      var e :| 0 <= e < s.v.commit + 1 && s.reqs[e].Touches(l);
      assert s.Enqueued(e, l);
      assert EverEnqueued(s, l);
      assert l in s.pmap && MappedPage(s, l);
      assert InLane(s.v, l, s.pmap[l]);
      var items := s.v.Items(l);
      var i :| 0 <= i < |items| && items[i].loc == s.pmap[l] && !items[i].page.Summary? && items[i].page.lpn == l;
      assert ItemGood(s, items[i]) && s.v.ItemOK(BankOf(l), items[i]);
      if items[i].page.Host? {
        assert s.reqs[items[i].page.epoch].Touches(l);
      } else {
        assert CopyOf(items[i], l);
      }
    }
  }
}
