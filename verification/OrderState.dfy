/** The firmware's state as far as crash recovery is concerned, and the invariant that makes every
    crash recover to a prefix of the write requests. */
module OrderState {
  import opened Geometry
  import opened Requests
  import opened Recoverable

  /** A cached page; span and epoch are those of the request that last wrote it. */
  datatype Entry = Entry(dirty: bool, span: nat, epoch: nat, buf: seq<nat>)

  /** reqs are the requests received so far; the last of them is still being served if |reqs| == g + 1,
      and then enq of its pages are in the cache. Every epoch below floor is safe: its pages and its
      dependencies are on flash. */
  datatype State = State(
    data: map<Loc, DataPage>,
    reqs: seq<Request>, g: nat, enq: nat,
    cache: map<nat, Entry>,
    deps: seq<Dep>,
    pmap: map<nat, Loc>,
    v: View,
    floor: nat)
  {
    predicate Busy() {
      |reqs| == g + 1
    }

    /** All pages of the requests received so far are in the cache or on flash. */
    predicate Settled() {
      |reqs| == g || (|reqs| == g + 1 && enq == reqs[g].Span())
    }

    predicate Clock() {
      && (|reqs| == g || |reqs| == g + 1)
      && (Busy() ==> enq <= reqs[g].Span())
      && (!Busy() ==> enq == 0)
    }

    /** Write e has put page lpn into the cache. */
    predicate Enqueued(e: nat, lpn: nat)
      requires Clock()
    {
      || (e < g && reqs[e].Touches(lpn))
      || (e == g && Busy() && reqs[g].First() <= lpn < reqs[g].First() + enq)
    }

    /** The number of requests that the newest version of page lpn reflects. */
    function Now(lpn: nat): (n: nat)
      requires Clock()
      ensures n <= |reqs|
    {
      if Enqueued(g, lpn) then g + 1 else g
    }

    /** The number of pages that write e has put into the cache so far. */
    function EnqCount(e: nat): nat
      requires Clock()
    {
      if e < g then reqs[e].Span() else if e == g && Busy() then enq else 0
    }

    predicate Dirty(lpn: nat) {
      lpn in cache && cache[lpn].dirty
    }

    function DirtyPages(e: nat): set<nat> {
      set lpn | lpn in cache && cache[lpn].dirty && cache[lpn].epoch == e
    }
  }

  // ---- The parts of the invariant ----

  ghost predicate Shape(s: State) {
    && s.Clock()
    && s.v.WellFormed()
    && s.v.commit < s.g
    && s.v.commit < s.floor <= |s.reqs|
    && (s.floor == s.g + 1 ==> s.Settled())
  }

  /** Epoch accounting: the pages a request has put into the cache are on flash, or replaced by a
      dependency that is logged or buffered, or still dirty. */
  ghost predicate Accounted(s: State, e: nat)
    requires s.Clock()
  {
    Found(s.v, e) + DepCount(s.deps, e) + |s.DirtyPages(e)| == s.EnqCount(e)
  }

  ghost predicate Accounting(s: State)
    requires s.Clock()
  {
    forall e: nat :: s.v.commit < e ==> Accounted(s, e)
  }

  ghost predicate DepOK(s: State, d: Dep)
    requires s.Clock()
  {
    && s.v.commit < d.src < d.dst < |s.reqs|
    && d.span == s.reqs[d.src].Span()
  }

  ghost predicate Deps(s: State)
    requires s.Clock()
  {
    && (forall i :: 0 <= i < |s.v.deps| ==> DepOK(s, s.v.deps[i]) && (s.v.deps[i].src < s.floor ==> s.v.deps[i].dst < s.floor))
    && (forall i :: 0 <= i < |s.deps| ==> DepOK(s, s.deps[i]) && s.floor <= s.deps[i].src)
  }

  ghost predicate HostOK(s: State, it: Item)
    requires s.Clock() && it.page.Host?
  {
    var p := it.page;
    && s.Enqueued(p.epoch, p.lpn)
    && p.span == s.reqs[p.epoch].Span()
    && Agrees(p.content, p.lpn, s.reqs, p.epoch + 1)
  }

  ghost predicate CopyOK(s: State, it: Item)
    requires s.Clock() && it.page.Copy?
  {
    && 0 <= s.v.commit < s.g
    && it.page.lpn in s.v.cmap
    && Agrees(it.page.content, it.page.lpn, s.reqs, s.v.commit + 1)
  }

  ghost predicate ItemGood(s: State, it: Item)
    requires s.Clock()
  {
    && it.loc in s.data && s.data[it.loc] == it.page
    && (it.page.Host? ==> HostOK(s, it))
    && (it.page.Copy? ==> CopyOK(s, it))
  }

  /** Pages programmed since the commit are intact and right. */
  ghost predicate Chained(s: State)
    requires s.Clock() && |s.v.lanes| == NUM_BANKS
  {
    forall b, i :: 0 <= b < NUM_BANKS && 0 <= i < |s.v.lanes[b].items| ==> ItemGood(s, s.v.lanes[b].items[i])
  }

  ghost predicate OnFlash(s: State, lpn: nat, e: nat)
    requires |s.v.lanes| == NUM_BANKS
  {
    var items := s.v.Items(lpn);
    exists i :: 0 <= i < |items| && IsHost(items[i], e) && items[i].page.lpn == lpn
  }

  ghost predicate Replaced(reqs: seq<Request>, deps: seq<Dep>, lpn: nat, e: nat) {
    exists i :: 0 <= i < |deps| && deps[i].src == e < deps[i].dst < |reqs| && reqs[deps[i].dst].Touches(lpn)
  }

  /** No version of a page is lost: it is on flash, or dirty, or a dependency tells that it was
      overwritten in the cache. */
  ghost predicate Covered(s: State, lpn: nat, e: nat)
    requires s.Clock() && |s.v.lanes| == NUM_BANKS
  {
    || OnFlash(s, lpn, e)
    || (s.Dirty(lpn) && s.cache[lpn].epoch == e)
    || Replaced(s.reqs, s.v.deps, lpn, e)
    || Replaced(s.reqs, s.deps, lpn, e)
  }

  ghost predicate Coverage(s: State)
    requires s.Clock() && |s.v.lanes| == NUM_BANKS
  {
    forall lpn: nat, e: nat :: s.v.commit < e && s.Enqueued(e, lpn) ==> Covered(s, lpn, e)
  }

  ghost predicate HasCopy(v: View, lpn: nat)
    requires |v.lanes| == NUM_BANKS
  {
    var items := v.Items(lpn);
    exists i :: 0 <= i < |items| && CopyOf(items[i], lpn)
  }

  /** A request that every later crash recovers has replaced page lpn since the commit. */
  ghost predicate Superseded(s: State, lpn: nat) {
    exists e: nat :: s.v.commit < e < s.floor && e < |s.reqs| && s.reqs[e].Touches(lpn)
  }

  ghost predicate CommittedPage(s: State, lpn: nat)
    requires |s.v.lanes| == NUM_BANKS && 0 <= s.v.commit < |s.reqs| && lpn in s.v.cmap
  {
    || PageHolds(s.data, s.v.cmap[lpn], lpn, s.reqs, s.v.commit + 1)
    || HasCopy(s.v, lpn)
    || Superseded(s, lpn)
  }

  /** Version retention: what the commit mapped is still there, or is not needed any more. */
  ghost predicate Retained(s: State)
    requires s.Clock() && |s.v.lanes| == NUM_BANKS && -1 <= s.v.commit < s.g
  {
    && (forall lpn: nat :: lpn in s.v.cmap <==> TouchedBefore(s.reqs, s.v.commit + 1, lpn))
    && (forall lpn: nat :: lpn in s.v.cmap ==> CommittedPage(s, lpn))
  }

  ghost predicate InLane(v: View, lpn: nat, loc: Loc)
    requires |v.lanes| == NUM_BANKS
  {
    var items := v.Items(lpn);
    exists i :: 0 <= i < |items| && items[i].loc == loc && !items[i].page.Summary? && items[i].page.lpn == lpn
  }

  ghost predicate MappedPage(s: State, lpn: nat)
    requires s.Clock() && |s.v.lanes| == NUM_BANKS && -1 <= s.v.commit < s.g && lpn in s.pmap
  {
    var loc := s.pmap[lpn];
    && loc.bank == BankOf(lpn)
    && loc in s.data && !s.data[loc].Summary? && s.data[loc].lpn == lpn
    && |s.data[loc].content| == SECTORS_PER_PAGE
    && (!s.Dirty(lpn) ==> Agrees(s.data[loc].content, lpn, s.reqs, s.Now(lpn)))
    && (!InLane(s.v, lpn, loc) ==>
          lpn in s.v.cmap && s.v.cmap[lpn] == loc && Agrees(s.data[loc].content, lpn, s.reqs, s.v.commit + 1))
  }

  ghost predicate EverEnqueued(s: State, lpn: nat)
    requires s.Clock()
  {
    exists e: nat :: s.Enqueued(e, lpn)
  }

  /** The page map leads to the newest flash version of every page. */
  ghost predicate MapContents(s: State)
    requires s.Clock() && |s.v.lanes| == NUM_BANKS && -1 <= s.v.commit < s.g
  {
    forall lpn: nat :: lpn in s.pmap ==> MappedPage(s, lpn)
  }

  /** Pages are mapped if and only if they were written, except dirty pages that are not on flash yet. */
  ghost predicate MapDomain(s: State)
    requires s.Clock()
  {
    && (forall lpn: nat :: lpn in s.pmap ==> EverEnqueued(s, lpn))
    && (forall lpn: nat :: EverEnqueued(s, lpn) && !s.Dirty(lpn) ==> lpn in s.pmap)
  }

  ghost predicate EntryOK(s: State, lpn: nat)
    requires s.Clock() && lpn in s.cache
  {
    var c := s.cache[lpn];
    && Agrees(c.buf, lpn, s.reqs, s.Now(lpn))
    && EverEnqueued(s, lpn)
    && (c.dirty ==>
          && s.v.commit < c.epoch && s.floor <= c.epoch
          && s.Enqueued(c.epoch, lpn)
          && c.span == s.reqs[c.epoch].Span()
          && forall e: nat :: c.epoch < e ==> !s.Enqueued(e, lpn))
  }

  ghost predicate Cached(s: State)
    requires s.Clock()
  {
    forall lpn: nat :: lpn in s.cache ==> EntryOK(s, lpn)
  }

  ghost predicate Inv(s: State) {
    && Shape(s)
    && Accounting(s)
    && Deps(s)
    && Chained(s)
    && Coverage(s)
    && Retained(s)
    && MapContents(s)
    && MapDomain(s)
    && Cached(s)
  }
}
