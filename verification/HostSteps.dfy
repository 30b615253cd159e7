/** Steps of the firmware that do not program data pages, and that each of them keeps the invariant. */
module HostSteps {
  import opened Geometry
  import opened Requests
  import opened Recoverable
  import opened Counting
  import opened OrderState
  import opened Transfer

  // ---- A write request arrives ----

  function Begin(s: State, r: Request): State {
    s.(reqs := s.reqs + [r], enq := 0)
  }

  lemma BeginQuiet(s: State, r: Request)
    requires Shape(s) && !s.Busy()
    ensures Quiet(s, Begin(s, r))
  {
  }

  /** Receiving a request changes nothing that is persistent. */
  lemma BeginInv(s: State, r: Request)
    requires Inv(s) && !s.Busy()
    ensures Inv(Begin(s, r))
  {
    var t := Begin(s, r);
    BeginQuiet(s, r);
    forall e: nat | t.v.commit < e ensures Accounted(t, e) {
      assert Accounted(s, e);
      QuietDirtyPages(s, t, e);
    }
    QuietInv(s, t);
  }

  // ---- A clean buffer is reused ----

  function Evict(s: State, lpn: nat): State {
    s.(cache := s.cache - {lpn})
  }

  lemma EvictQuiet(s: State, lpn: nat)
    requires Shape(s) && !s.Dirty(lpn)
    ensures Quiet(s, Evict(s, lpn))
  {
  }

  lemma EvictInv(s: State, lpn: nat)
    requires Inv(s) && !s.Dirty(lpn)
    ensures Inv(Evict(s, lpn))
  {
    hide Quiet, Chained, Coverage, Retained, MapContents, MapDomain, Cached;
    var t := Evict(s, lpn);
    EvictQuiet(s, lpn);
    forall e: nat | t.v.commit < e ensures Accounted(t, e) {
      assert Accounted(s, e);
      QuietDirtyPages(s, t, e);
    }
    QuietInv(s, t);
  }

  // ---- The next page of the request being served enters the cache ----

  predicate CanEnqueue(s: State, lpn: nat)
    requires s.Clock()
  {
    s.Busy() && s.enq < s.reqs[s.g].Span() && lpn == s.reqs[s.g].First() + s.enq
  }

  function Enqueue(s: State, lpn: nat, buf: seq<nat>): State
    requires s.Clock() && CanEnqueue(s, lpn)
  {
    s.(enq := s.enq + 1,
       cache := s.cache[lpn := Entry(true, s.reqs[s.g].Span(), s.g, buf)],
       deps := if s.Dirty(lpn) then s.deps + [Dep(s.cache[lpn].epoch, s.g, s.cache[lpn].span)] else s.deps)
  }

  lemma EnqueuedAfter(s: State, lpn: nat, buf: seq<nat>)
    requires s.Clock() && CanEnqueue(s, lpn)
    ensures var t := Enqueue(s, lpn, buf);
      && t.Clock()
      && !s.Enqueued(s.g, lpn) && t.Enqueued(s.g, lpn)
      && (forall l: nat, e: nat :: t.Enqueued(e, l) <==> (s.Enqueued(e, l) || (l == lpn && e == s.g)))
      && (forall l: nat :: l != lpn ==> t.Now(l) == s.Now(l))
      && t.Now(lpn) == s.g + 1
      && (forall l: nat :: EverEnqueued(t, l) <==> (EverEnqueued(s, l) || l == lpn))
  {
    var t := Enqueue(s, lpn, buf);
    assert t.Enqueued(s.g, lpn);
    forall l: nat ensures EverEnqueued(t, l) <==> (EverEnqueued(s, l) || l == lpn) {
      if EverEnqueued(s, l) {
        var e: nat :| s.Enqueued(e, l);
        assert t.Enqueued(e, l);
      }
      if EverEnqueued(t, l) && l != lpn {
        var e: nat :| t.Enqueued(e, l);
        assert s.Enqueued(e, l);
      }
    }
  }

  lemma EnqueueDirtyPages(s: State, lpn: nat, buf: seq<nat>, e: nat)
    requires s.Clock() && CanEnqueue(s, lpn)
    requires s.Dirty(lpn) ==> s.cache[lpn].epoch < s.g
    ensures var t := Enqueue(s, lpn, buf);
      |t.DirtyPages(e)| == |s.DirtyPages(e)| + (if e == s.g then 1 else 0)
                           - (if s.Dirty(lpn) && s.cache[lpn].epoch == e then 1 else 0)
  {
    hide State.Clock, CanEnqueue;
    var t := Enqueue(s, lpn, buf);
    if e == s.g {
      assert t.DirtyPages(e) == s.DirtyPages(e) + {lpn};
      assert lpn !in s.DirtyPages(e);
    } else {
      assert t.DirtyPages(e) == s.DirtyPages(e) - {lpn};
    }
  }

  lemma EnqueueAccounting(s: State, lpn: nat, buf: seq<nat>)
    requires Inv(s) && CanEnqueue(s, lpn)
    ensures Accounting(Enqueue(s, lpn, buf)) && Deps(Enqueue(s, lpn, buf)) && Shape(Enqueue(s, lpn, buf))
  {
    var t := Enqueue(s, lpn, buf);
    EnqueuedAfter(s, lpn, buf);
    if s.Dirty(lpn) {
      assert EntryOK(s, lpn);
      assert s.Enqueued(s.cache[lpn].epoch, lpn);
    }
    forall e: nat | t.v.commit < e ensures Accounted(t, e) {
      assert Accounted(s, e);
      EnqueueDirtyPages(s, lpn, buf, e);
      if s.Dirty(lpn) {
        DepCountConcat(s.deps, [Dep(s.cache[lpn].epoch, s.g, s.cache[lpn].span)], e);
      }
    }
  }

  lemma EnqueueExtends(s: State, lpn: nat, buf: seq<nat>)
    requires Shape(s) && CanEnqueue(s, lpn)
    ensures Extends(s, Enqueue(s, lpn, buf))
  {
    EnqueuedAfter(s, lpn, buf);
  }

  lemma EnqueueCovered(s: State, lpn: nat, buf: seq<nat>, l: nat, e: nat)
    requires Shape(s) && Cached(s) && CanEnqueue(s, lpn)
    requires s.v.commit < e && Enqueue(s, lpn, buf).Enqueued(e, l)
    requires s.Enqueued(e, l) ==> Covered(s, l, e)
    ensures Covered(Enqueue(s, lpn, buf), l, e)
  {
    var t := Enqueue(s, lpn, buf);
    EnqueueExtends(s, lpn, buf);
    if s.Enqueued(e, l) {
      if s.Dirty(l) && s.cache[l].epoch == e && l == lpn {
        assert EntryOK(s, lpn);
        assert t.deps[|s.deps|] == Dep(e, s.g, s.cache[lpn].span);
        assert s.reqs[s.g].Touches(lpn);
        assert Replaced(t.reqs, t.deps, lpn, e);
      }
      CoveredCarries(s, t, l, e);
    }
  }

  lemma EnqueueCoverage(s: State, lpn: nat, buf: seq<nat>)
    requires Shape(s) && Cached(s) && Coverage(s) && CanEnqueue(s, lpn)
    ensures Coverage(Enqueue(s, lpn, buf))
  {
    var t := Enqueue(s, lpn, buf);
    forall l: nat, e: nat | t.v.commit < e && t.Enqueued(e, l) ensures Covered(t, l, e) {
      EnqueueCovered(s, lpn, buf, l, e);
    }
  }

  lemma EnqueueCached(s: State, lpn: nat, buf: seq<nat>)
    requires Shape(s) && Cached(s) && CanEnqueue(s, lpn) && Agrees(buf, lpn, s.reqs, s.g + 1) && s.floor <= s.g
    ensures Cached(Enqueue(s, lpn, buf))
  {
    var t := Enqueue(s, lpn, buf);
    EnqueueExtends(s, lpn, buf);
    EnqueuedAfter(s, lpn, buf);
    forall l: nat | l in t.cache ensures EntryOK(t, l) {
      if l != lpn {
        EntryCarries(s, t, l);
      }
    }
  }

  lemma EnqueueMapped(s: State, lpn: nat, buf: seq<nat>)
    requires Shape(s) && MapContents(s) && CanEnqueue(s, lpn)
    ensures MapContents(Enqueue(s, lpn, buf))
  {
    var t := Enqueue(s, lpn, buf);
    EnqueueExtends(s, lpn, buf);
    EnqueuedAfter(s, lpn, buf);
    forall l: nat | l in t.pmap ensures MappedPage(t, l) {
      MappedCarries(s, t, l);
    }
  }

  lemma EnqueueDomain(s: State, lpn: nat, buf: seq<nat>)
    requires Shape(s) && MapDomain(s) && CanEnqueue(s, lpn)
    ensures MapDomain(Enqueue(s, lpn, buf))
  {
    EnqueueExtends(s, lpn, buf);
    EnqueuedAfter(s, lpn, buf);
    DomainCarries(s, Enqueue(s, lpn, buf));
  }

  /** Putting a page into the cache keeps the invariant; if it overwrites a dirty page, the dependency
      takes over the accounting for the version that is lost. */
  lemma EnqueueInv(s: State, lpn: nat, buf: seq<nat>)
    requires Inv(s) && CanEnqueue(s, lpn) && Agrees(buf, lpn, s.reqs, s.g + 1) && s.floor <= s.g
    ensures Inv(Enqueue(s, lpn, buf))
  {
    var t := Enqueue(s, lpn, buf);
    EnqueueExtends(s, lpn, buf);
    EnqueueAccounting(s, lpn, buf);
    EnqueueCoverage(s, lpn, buf);
    EnqueueCached(s, lpn, buf);
    EnqueueMapped(s, lpn, buf);
    EnqueueDomain(s, lpn, buf);
    ChainCarries(s, t);
    RetainedCarries(s, t);
  }

  // ---- The buffered dependencies are logged ----

  function LogDeps(s: State): State {
    s.(v := s.v.(deps := s.v.deps + s.deps), deps := [])
  }

  lemma LogDepsShape(s: State)
    requires Shape(s) && Deps(s)
    ensures Quiet(s, LogDeps(s)) && Shape(LogDeps(s)) && Deps(LogDeps(s))
  {
  }

  /** Logging the dependencies moves them from volatile to persistent accounting. */
  lemma LogDepsInv(s: State)
    requires Inv(s)
    ensures Inv(LogDeps(s))
  {
    var t := LogDeps(s);
    LogDepsShape(s);
    forall e: nat | t.v.commit < e ensures Accounted(t, e) {
      assert Accounted(s, e);
      DepCountConcat(s.v.deps, s.deps, e);
      QuietDirtyPages(s, t, e);
    }
    QuietInv(s, t);
  }

  // ---- The request's loop has ended ----

  function Finish(s: State): State {
    s.(g := s.g + 1, enq := 0)
  }

  lemma FinishQuiet(s: State)
    requires Shape(s) && s.Busy() && s.Settled()
    ensures Quiet(s, Finish(s))
  {
    var t := Finish(s);
    forall l: nat, e: nat ensures t.Enqueued(e, l) <==> s.Enqueued(e, l) {
      FinishEnqueued(s, e, l);
    }
  }

  lemma FinishEnqueued(s: State, e: nat, l: nat)
    requires Shape(s) && s.Busy() && s.Settled()
    ensures Finish(s).Enqueued(e, l) <==> s.Enqueued(e, l)
  {
  }

  lemma FinishInv(s: State)
    requires Inv(s) && s.Busy() && s.Settled()
    ensures Inv(Finish(s))
  {
    var t := Finish(s);
    FinishQuiet(s);
    forall e: nat | t.v.commit < e ensures Accounted(t, e) {
      assert Accounted(s, e);
      QuietDirtyPages(s, t, e);
    }
    QuietInv(s, t);
  }

  // ---- Everything received so far is on flash ----

  ghost predicate Flushed(s: State) {
    s.deps == [] && forall lpn: nat :: !s.Dirty(lpn)
  }

  function RaiseFloor(s: State): State {
    s.(floor := |s.reqs|)
  }

  lemma RaiseFloorQuiet(s: State)
    requires Shape(s) && s.Settled() && Flushed(s) && Deps(s)
    ensures Quiet(s, RaiseFloor(s)) && Shape(RaiseFloor(s)) && Deps(RaiseFloor(s))
  {
  }

  /** After a flush, every request received so far is safe from any later crash. */
  lemma RaiseFloorInv(s: State)
    requires Inv(s) && s.Settled() && Flushed(s)
    ensures Inv(RaiseFloor(s))
  {
    var t := RaiseFloor(s);
    RaiseFloorQuiet(s);
    forall e: nat | t.v.commit < e ensures Accounted(t, e) {
      assert Accounted(s, e);
      QuietDirtyPages(s, t, e);
    }
    QuietInv(s, t);
  }

  // ---- Commit ----

  /** What the tag page of a checkpoint makes of the state: lanes starts afresh in every bank. */
  function Commit(s: State, lanes: seq<Lane>): State {
    s.(v := View(s.g - 1, s.pmap, lanes, []), floor := s.g)
  }

  ghost predicate EmptyLanes(lanes: seq<Lane>) {
    |lanes| == NUM_BANKS && forall b :: 0 <= b < NUM_BANKS ==> lanes[b].items == []
  }

  lemma EverSame(s: State, t: State, lpn: nat)
    requires s.Clock() && t.Clock() && forall e: nat :: s.Enqueued(e, lpn) <==> t.Enqueued(e, lpn)
    ensures EverEnqueued(s, lpn) <==> EverEnqueued(t, lpn)
  {
    if EverEnqueued(s, lpn) {
      var e: nat :| s.Enqueued(e, lpn);
      assert t.Enqueued(e, lpn);
    }
    if EverEnqueued(t, lpn) {
      var e: nat :| t.Enqueued(e, lpn);
      assert s.Enqueued(e, lpn);
    }
  }

  lemma CommitDomain(s: State, lpn: nat)
    requires s.Clock() && MapDomain(s) && !s.Busy() && Flushed(s)
    ensures lpn in s.pmap <==> TouchedBefore(s.reqs, s.g, lpn)
  {
    if lpn in s.pmap {
      var e: nat :| s.Enqueued(e, lpn);
      assert s.reqs[e].Touches(lpn);
    }
    if TouchedBefore(s.reqs, s.g, lpn) {
      var e :| 0 <= e < s.g && s.reqs[e].Touches(lpn);
      assert s.Enqueued(e, lpn);
    }
  }

  lemma CommitPage(s: State, lanes: seq<Lane>, lpn: nat)
    requires Shape(s) && !s.Busy() && Flushed(s) && EmptyLanes(lanes) && s.g > 0
    requires lpn in s.pmap && MappedPage(s, lpn)
    ensures CommittedPage(Commit(s, lanes), lpn) && MappedPage(Commit(s, lanes), lpn)
  {
    assert s.Now(lpn) == s.g;
  }

  lemma CommitRetained(s: State, lanes: seq<Lane>)
    requires Shape(s) && MapContents(s) && MapDomain(s) && !s.Busy() && Flushed(s) && EmptyLanes(lanes) && s.g > 0
    ensures Retained(Commit(s, lanes)) && MapContents(Commit(s, lanes))
  {
    forall lpn: nat ensures lpn in s.pmap <==> TouchedBefore(s.reqs, s.g, lpn) {
      CommitDomain(s, lpn);
    }
    forall lpn: nat | lpn in s.pmap ensures CommittedPage(Commit(s, lanes), lpn) && MappedPage(Commit(s, lanes), lpn) {
      CommitPage(s, lanes, lpn);
    }
  }

  lemma CommitMapDomain(s: State, lanes: seq<Lane>)
    requires s.Clock() && MapDomain(s)
    ensures MapDomain(Commit(s, lanes))
  {
    forall lpn: nat ensures EverEnqueued(s, lpn) <==> EverEnqueued(Commit(s, lanes), lpn) {
      EverSame(s, Commit(s, lanes), lpn);
    }
  }

  lemma CommitEntry(s: State, lanes: seq<Lane>, lpn: nat)
    requires Shape(s) && !s.Busy() && lpn in s.cache && EntryOK(s, lpn) && !s.Dirty(lpn)
    ensures EntryOK(Commit(s, lanes), lpn)
  {
    EverSame(s, Commit(s, lanes), lpn);
  }

  lemma CommitAccounted(s: State, lanes: seq<Lane>, e: nat)
    requires Shape(s) && !s.Busy() && Flushed(s) && EmptyLanes(lanes) && s.g <= e
    ensures Accounted(Commit(s, lanes), e)
  {
    LaneCountZero(lanes, e);
    assert forall lpn: nat :: lpn in s.cache ==> !s.Dirty(lpn);
    assert Commit(s, lanes).DirtyPages(e) == {};
  }

  /** A checkpoint of a flushed device keeps the invariant, with every request now committed. */
  lemma CommitInv(s: State, lanes: seq<Lane>)
    requires Inv(s) && !s.Busy() && Flushed(s) && EmptyLanes(lanes) && s.g > 0
    ensures Inv(Commit(s, lanes))
  {
    var t := Commit(s, lanes);
    CommitRetained(s, lanes);
    CommitMapDomain(s, lanes);
    forall e: nat | t.v.commit < e ensures Accounted(t, e) {
      CommitAccounted(s, lanes, e);
    }
    forall l: nat | l in t.cache ensures EntryOK(t, l) {
      CommitEntry(s, lanes, l);
    }
  }
}
