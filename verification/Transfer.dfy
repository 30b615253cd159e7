/** How the parts of the invariant carry over from a state to a later one. */
module Transfer {
  import opened Geometry
  import opened Requests
  import opened Recoverable
  import opened OrderState

  /** Between two commits, requests and lanes only grow. */
  ghost predicate Extends(s: State, t: State) {
    && s.Clock() && t.Clock()
    && s.reqs <= t.reqs && s.g <= t.g
    && -1 <= s.v.commit < s.g
    && t.v.commit == s.v.commit && t.v.cmap == s.v.cmap
    && |s.v.lanes| == |t.v.lanes| == NUM_BANKS
    && s.floor <= t.floor
    && (forall b :: 0 <= b < NUM_BANKS ==> s.v.lanes[b].items <= t.v.lanes[b].items)
    && (forall l: nat, e: nat :: s.Enqueued(e, l) ==> t.Enqueued(e, l))
  }

  predicate Keeps(s: State, t: State, loc: Loc) {
    loc in s.data ==> loc in t.data && t.data[loc] == s.data[loc]
  }

  lemma ItemCarries(s: State, t: State, it: Item)
    requires Extends(s, t) && Keeps(s, t, it.loc)
    requires ItemGood(s, it)
    ensures ItemGood(t, it)
  {
    if it.page.Host? {
      AgreesPrefix(it.page.content, it.page.lpn, s.reqs, t.reqs, it.page.epoch + 1);
    } else if it.page.Copy? {
      AgreesPrefix(it.page.content, it.page.lpn, s.reqs, t.reqs, s.v.commit + 1);
    }
  }

  /** All items carry over; those that were added are checked separately. */
  lemma ChainCarries(s: State, t: State)
    requires Extends(s, t) && Chained(s)
    requires forall b, i :: 0 <= b < NUM_BANKS && 0 <= i < |s.v.lanes[b].items| ==> Keeps(s, t, s.v.lanes[b].items[i].loc)
    requires forall b, i :: 0 <= b < NUM_BANKS && |s.v.lanes[b].items| <= i < |t.v.lanes[b].items| ==> ItemGood(t, t.v.lanes[b].items[i])
    ensures Chained(t)
  {
    forall b, i | 0 <= b < NUM_BANKS && 0 <= i < |t.v.lanes[b].items| ensures ItemGood(t, t.v.lanes[b].items[i]) {
      if i < |s.v.lanes[b].items| {
        assert t.v.lanes[b].items[i] == s.v.lanes[b].items[i];
        ItemCarries(s, t, s.v.lanes[b].items[i]);
      }
    }
  }

  lemma OnFlashCarries(s: State, t: State, lpn: nat, e: nat)
    requires Extends(s, t) && OnFlash(s, lpn, e)
    ensures OnFlash(t, lpn, e)
  {
    var items := s.v.Items(lpn);
    var i :| 0 <= i < |items| && IsHost(items[i], e) && items[i].page.lpn == lpn;
    assert t.v.Items(lpn)[i] == items[i];
  }

  lemma CopyCarries(s: State, t: State, lpn: nat)
    requires Extends(s, t) && HasCopy(s.v, lpn)
    ensures HasCopy(t.v, lpn)
  {
    var items := s.v.Items(lpn);
    var i :| 0 <= i < |items| && CopyOf(items[i], lpn);
    assert t.v.Items(lpn)[i] == items[i];
  }

  lemma InLaneCarries(s: State, t: State, lpn: nat, loc: Loc)
    requires Extends(s, t) && InLane(s.v, lpn, loc)
    ensures InLane(t.v, lpn, loc)
  {
    var items := s.v.Items(lpn);
    var i :| 0 <= i < |items| && items[i].loc == loc && !items[i].page.Summary? && items[i].page.lpn == lpn;
    assert t.v.Items(lpn)[i] == items[i];
  }

  lemma ReplacedCarries(reqs: seq<Request>, more: seq<Request>, deps: seq<Dep>, other: seq<Dep>, lpn: nat, e: nat)
    requires reqs <= more && Replaced(reqs, deps, lpn, e)
    requires forall d :: d in deps ==> d in other
    ensures Replaced(more, other, lpn, e)
  {
    var i :| 0 <= i < |deps| && deps[i].src == e < deps[i].dst < |reqs| && reqs[deps[i].dst].Touches(lpn);
    assert deps[i] in other;
    var j :| 0 <= j < |other| && other[j] == deps[i];
    assert more[other[j].dst] == reqs[deps[i].dst];
  }

  lemma SupersededCarries(s: State, t: State, lpn: nat)
    requires Extends(s, t) && Superseded(s, lpn)
    ensures Superseded(t, lpn)
  {
    var e: nat :| s.v.commit < e < s.floor && e < |s.reqs| && s.reqs[e].Touches(lpn);
    assert t.reqs[e] == s.reqs[e];
  }

  lemma CommittedCarries(s: State, t: State, lpn: nat)
    requires Extends(s, t) && 0 <= s.v.commit && lpn in s.v.cmap
    requires Keeps(s, t, s.v.cmap[lpn]) || HasCopy(t.v, lpn) || Superseded(t, lpn)
    requires CommittedPage(s, lpn)
    ensures CommittedPage(t, lpn)
  {
    if HasCopy(s.v, lpn) {
      CopyCarries(s, t, lpn);
    } else if Superseded(s, lpn) {
      SupersededCarries(s, t, lpn);
    } else {
      AgreesPrefix(s.data[s.v.cmap[lpn]].content, lpn, s.reqs, t.reqs, s.v.commit + 1);
    }
  }

  lemma TouchedCarries(reqs: seq<Request>, more: seq<Request>, n: nat, lpn: nat)
    requires n <= |reqs| && reqs <= more
    ensures TouchedBefore(reqs, n, lpn) <==> TouchedBefore(more, n, lpn)
  {
    if TouchedBefore(reqs, n, lpn) {
      var e :| 0 <= e < n && reqs[e].Touches(lpn);
      assert more[e].Touches(lpn);
    }
    if TouchedBefore(more, n, lpn) {
      var e :| 0 <= e < n && more[e].Touches(lpn);
      assert reqs[e].Touches(lpn);
    }
  }

  lemma RetainedCarries(s: State, t: State)
    requires Extends(s, t) && Retained(s)
    requires forall lpn: nat :: lpn in s.v.cmap ==> Keeps(s, t, s.v.cmap[lpn]) || HasCopy(t.v, lpn) || Superseded(t, lpn)
    ensures Retained(t)
  {
    forall lpn: nat ensures lpn in t.v.cmap <==> TouchedBefore(t.reqs, t.v.commit + 1, lpn) {
      TouchedCarries(s.reqs, t.reqs, s.v.commit + 1, lpn);
    }
    forall lpn: nat | lpn in t.v.cmap ensures t.v.commit >= 0 && CommittedPage(t, lpn) {
      assert TouchedBefore(s.reqs, s.v.commit + 1, lpn);
      CommittedCarries(s, t, lpn);
    }
  }

  lemma EverCarries(s: State, t: State, lpn: nat)
    requires Extends(s, t) && EverEnqueued(s, lpn)
    ensures EverEnqueued(t, lpn)
  {
    var e: nat :| s.Enqueued(e, lpn);
    assert t.Enqueued(e, lpn);
  }

  lemma EverBack(s: State, t: State, lpn: nat)
    requires s.Clock() && t.Clock() && EverEnqueued(t, lpn)
    requires forall e: nat :: t.Enqueued(e, lpn) ==> s.Enqueued(e, lpn)
    ensures EverEnqueued(s, lpn)
  {
    var e: nat :| t.Enqueued(e, lpn);
    assert s.Enqueued(e, lpn);
  }

  lemma DomainCarries(s: State, t: State)
    requires Extends(s, t) && MapDomain(s)
    requires forall l: nat :: l in s.pmap ==> l in t.pmap
    requires forall l: nat :: l in t.pmap ==> l in s.pmap || EverEnqueued(t, l)
    requires forall l: nat :: l !in t.pmap && !t.Dirty(l) ==> !s.Dirty(l)
    requires forall l: nat, e: nat :: t.Enqueued(e, l) && !t.Dirty(l) ==> s.Enqueued(e, l)
    ensures MapDomain(t)
  {
    forall l: nat | l in t.pmap ensures EverEnqueued(t, l) {
      if l in s.pmap {
        EverCarries(s, t, l);
      }
    }
    forall l: nat | EverEnqueued(t, l) && !t.Dirty(l) ensures l in t.pmap {
      EverBack(s, t, l);
    }
  }

  /** A page that was not enqueued in between means the same in both states. */
  lemma ContentCarries(s: State, t: State, lpn: nat, content: seq<nat>)
    requires Extends(s, t) && Agrees(content, lpn, s.reqs, s.Now(lpn))
    requires t.Now(lpn) == s.Now(lpn) || !EnqueuedSince(s, t, lpn)
    ensures Agrees(content, lpn, t.reqs, t.Now(lpn))
  {
    AgreesPrefix(content, lpn, s.reqs, t.reqs, s.Now(lpn));
    if t.Now(lpn) != s.Now(lpn) {
      AgreesAcross(content, lpn, t.reqs, s.Now(lpn), t.Now(lpn));
    }
  }

  ghost predicate EnqueuedSince(s: State, t: State, lpn: nat)
    requires s.Clock() && t.Clock()
  {
    s.Now(lpn) > t.Now(lpn) || exists e :: s.Now(lpn) <= e < t.Now(lpn) && t.reqs[e].Touches(lpn)
  }

  lemma MappedCarries(s: State, t: State, lpn: nat)
    requires Extends(s, t) && lpn in s.pmap && lpn in t.pmap && t.pmap[lpn] == s.pmap[lpn]
    requires MappedPage(s, lpn) && Keeps(s, t, s.pmap[lpn])
    requires !t.Dirty(lpn) ==> !s.Dirty(lpn) && (t.Now(lpn) == s.Now(lpn) || !EnqueuedSince(s, t, lpn))
    ensures MappedPage(t, lpn)
  {
    var loc := s.pmap[lpn];
    if !t.Dirty(lpn) {
      ContentCarries(s, t, lpn, s.data[loc].content);
    }
    if InLane(s.v, lpn, loc) {
      InLaneCarries(s, t, lpn, loc);
    } else {
      AgreesPrefix(s.data[loc].content, lpn, s.reqs, t.reqs, s.v.commit + 1);
    }
  }

  lemma EntryCarries(s: State, t: State, lpn: nat)
    requires Extends(s, t) && lpn in s.cache && lpn in t.cache
    requires s.floor == t.floor || !t.cache[lpn].dirty
    requires t.cache[lpn] == s.cache[lpn] || t.cache[lpn] == s.cache[lpn].(dirty := false)
    requires EntryOK(s, lpn)
    requires t.Now(lpn) == s.Now(lpn) || !EnqueuedSince(s, t, lpn)
    requires t.cache[lpn].dirty ==> forall e: nat :: t.Enqueued(e, lpn) ==> s.Enqueued(e, lpn)
    ensures EntryOK(t, lpn)
  {
    ContentCarries(s, t, lpn, s.cache[lpn].buf);
    EverCarries(s, t, lpn);
  }

  lemma CoveredCarries(s: State, t: State, lpn: nat, e: nat)
    requires Extends(s, t) && Covered(s, lpn, e)
    requires forall d :: d in s.v.deps ==> d in t.v.deps
    requires forall d :: d in s.deps ==> d in t.v.deps || d in t.deps
    requires s.Dirty(lpn) && s.cache[lpn].epoch == e ==> Covered(t, lpn, e)
    ensures Covered(t, lpn, e)
  {
    if OnFlash(s, lpn, e) {
      OnFlashCarries(s, t, lpn, e);
    } else if Replaced(s.reqs, s.v.deps, lpn, e) {
      ReplacedCarries(s.reqs, t.reqs, s.v.deps, t.v.deps, lpn, e);
    } else if Replaced(s.reqs, s.deps, lpn, e) {
      ReplacedEither(s, t, lpn, e);
    }
  }

  lemma ReplacedEither(s: State, t: State, lpn: nat, e: nat)
    requires s.reqs <= t.reqs && Replaced(s.reqs, s.deps, lpn, e)
    requires forall d :: d in s.deps ==> d in t.v.deps || d in t.deps
    ensures Replaced(t.reqs, t.v.deps, lpn, e) || Replaced(t.reqs, t.deps, lpn, e)
  {
    var i :| 0 <= i < |s.deps| && s.deps[i].src == e < s.deps[i].dst < |s.reqs| && s.reqs[s.deps[i].dst].Touches(lpn);
    assert s.deps[i] in s.deps;
    if s.deps[i] in t.v.deps {
      var j :| 0 <= j < |t.v.deps| && t.v.deps[j] == s.deps[i];
      assert t.reqs[t.v.deps[j].dst] == s.reqs[s.deps[i].dst];
    } else {
      var j :| 0 <= j < |t.deps| && t.deps[j] == s.deps[i];
      assert t.reqs[t.deps[j].dst] == s.reqs[s.deps[i].dst];
    }
  }

  // ---- Steps that program and erase nothing ----

  ghost predicate Quiet(s: State, t: State) {
    && Extends(s, t)
    && t.data == s.data && t.v.lanes == s.v.lanes && t.pmap == s.pmap
    && (forall l: nat, e: nat :: t.Enqueued(e, l) ==> s.Enqueued(e, l))
    && (forall l: nat :: t.Now(l) == s.Now(l) || !EnqueuedSince(s, t, l))
    && (forall l: nat :: t.Dirty(l) <==> s.Dirty(l))
    && (forall l: nat :: l in t.cache ==> l in s.cache && t.cache[l] == s.cache[l])
    && (forall d :: d in s.v.deps ==> d in t.v.deps)
    && (forall d :: d in s.deps ==> d in t.v.deps || d in t.deps)
    && (s.floor == t.floor || forall l: nat :: !t.Dirty(l))
  }

  lemma QuietMapped(s: State, t: State)
    requires Quiet(s, t) && MapContents(s)
    ensures MapContents(t)
  {
    forall l: nat | l in t.pmap ensures MappedPage(t, l) {
      MappedCarries(s, t, l);
    }
  }

  lemma QuietEntry(s: State, t: State, lpn: nat)
    requires Quiet(s, t) && lpn in t.cache && EntryOK(s, lpn)
    ensures EntryOK(t, lpn)
  {
    assert t.Dirty(lpn) <==> t.cache[lpn].dirty;
    EntryCarries(s, t, lpn);
  }

  lemma QuietCached(s: State, t: State)
    requires Quiet(s, t) && Cached(s)
    ensures Cached(t)
  {
    forall l: nat | l in t.cache ensures EntryOK(t, l) {
      QuietEntry(s, t, l);
    }
  }

  lemma QuietCoverage(s: State, t: State)
    requires Quiet(s, t) && Coverage(s)
    ensures Coverage(t)
  {
    forall l: nat, e: nat | t.v.commit < e && t.Enqueued(e, l) ensures Covered(t, l, e) {
      assert Covered(s, l, e);
      assert s.Dirty(l) ==> t.Dirty(l) && t.cache[l] == s.cache[l];
      CoveredCarries(s, t, l, e);
    }
  }

  lemma QuietDirtyPages(s: State, t: State, e: nat)
    requires Quiet(s, t)
    ensures t.DirtyPages(e) == s.DirtyPages(e)
  {
    assert forall l :: s.Dirty(l) <==> t.Dirty(l);
    assert forall l :: l in s.DirtyPages(e) ==> s.Dirty(l);
  }

  /** Steps that only change what is in volatile memory, or move dependencies into the log. */
  lemma QuietInv(s: State, t: State)
    requires Quiet(s, t) && Inv(s)
    requires Shape(t) && Deps(t) && Accounting(t)
    ensures Inv(t)
  {
    ChainCarries(s, t);
    RetainedCarries(s, t);
    QuietMapped(s, t);
    DomainCarries(s, t);
    QuietCached(s, t);
    QuietCoverage(s, t);
  }
}
