/** Order preservation: whatever recovery computes from a crashed device that satisfies the invariant is
    the effect of a prefix of the write requests, and the prefix includes everything that is durable. */
module PrefixTheorem {
  import opened Geometry
  import opened Requests
  import opened Recoverable
  import opened Counting
  import opened OrderState

  lemma SpansAgree(s: State, e: nat)
    requires Inv(s) && e < |s.reqs|
    ensures SpanIs(s.v, e, s.reqs[e].Span())
  {
  }

  /** Writes below the floor are complete on flash. */
  lemma SafeWritesComplete(s: State, e: nat)
    requires Inv(s) && s.v.commit < e < s.floor
    ensures Complete(s.v, e)
  {
    assert Accounted(s, e);
    assert s.DirtyPages(e) == {} by {
      forall lpn | lpn in s.cache ensures lpn !in s.DirtyPages(e) {
        assert EntryOK(s, lpn);
      }
    }
    DepCountZero(s.deps, e);
    SpansAgree(s, e);
  }

  lemma FoundIsPast(s: State, e: nat)
    requires Inv(s) && Found(s.v, e) > 0
    ensures e < |s.reqs|
  {
    if !(exists i :: 0 <= i < |s.v.deps| && s.v.deps[i].src == e) {
      DepCountZero(s.v.deps, e);
      if forall b, i :: 0 <= b < NUM_BANKS && 0 <= i < |s.v.lanes[b].items| ==> !IsHost(s.v.lanes[b].items[i], e) {
        LaneCountZero(s.v.lanes, e);
      } else {
        var b, i :| 0 <= b < NUM_BANKS && 0 <= i < |s.v.lanes[b].items| && IsHost(s.v.lanes[b].items[i], e);
        assert ItemGood(s, s.v.lanes[b].items[i]);
      }
    }
  }

  lemma SomeSpan(s: State, e: nat, n: nat)
    requires Inv(s) && e < |s.reqs| && Found(s.v, e) > 0 && SpanIs(s.v, e, n)
    ensures n == s.reqs[e].Span()
  {
    if exists i :: 0 <= i < |s.v.deps| && s.v.deps[i].src == e {
      var i :| 0 <= i < |s.v.deps| && s.v.deps[i].src == e;
      assert DepOK(s, s.v.deps[i]);
    } else {
      DepCountZero(s.v.deps, e);
      if forall b, i :: 0 <= b < NUM_BANKS && 0 <= i < |s.v.lanes[b].items| ==> !IsHost(s.v.lanes[b].items[i], e) {
        LaneCountZero(s.v.lanes, e);
      } else {
        var b, i :| 0 <= b < NUM_BANKS && 0 <= i < |s.v.lanes[b].items| && IsHost(s.v.lanes[b].items[i], e);
        assert ItemGood(s, s.v.lanes[b].items[i]);
      }
    }
  }

  /** A write that recovery finds complete has no page left in volatile memory. */
  lemma CompleteMeansPersistent(s: State, e: nat)
    requires Inv(s) && s.v.commit < e && Complete(s.v, e)
    ensures e < |s.reqs| && s.EnqCount(e) == s.reqs[e].Span()
    ensures DepCount(s.deps, e) == 0 && s.DirtyPages(e) == {}
  {
    FoundIsPast(s, e);
    SomeSpan(s, e, Found(s.v, e));
    assert Accounted(s, e);
  }

  /** The first incomplete write is neither below the floor nor beyond the requests received. */
  lemma IncompleteBounds(s: State, e0: nat)
    requires Inv(s) && FirstIncomplete(s.v, e0)
    ensures s.floor <= e0 <= |s.reqs|
    ensures e0 == s.g + 1 ==> s.Settled()
  {
    if e0 < s.floor {
      SafeWritesComplete(s, e0);
    }
    if e0 > |s.reqs| {
      CompleteMeansPersistent(s, |s.reqs|);
    }
    if e0 == s.g + 1 && s.v.commit < s.g {
      CompleteMeansPersistent(s, s.g);
    }
  }

  lemma FloorUncrossed(s: State)
    requires Inv(s)
    ensures Uncrossed(s.v.deps, s.floor)
  {
  }

  /** Flush durability: the cut is not below the floor. */
  lemma CutAboveFloor(s: State, e0: nat, cut: nat)
    requires Inv(s) && FirstIncomplete(s.v, e0) && GreatestCut(s.v.deps, e0, cut)
    ensures s.floor <= cut
  {
    IncompleteBounds(s, e0);
    FloorUncrossed(s);
  }

  /** A cut that gives a prefix: everything between the commit and the cut is complete, no dependency crosses it, and
      it is not below the floor. Before the first checkpoint it is 0. */
  ghost predicate SoundCut(s: State, cut: nat) {
    if s.v.commit < 0 then cut == 0
    else
      && s.floor <= cut && Uncrossed(s.v.deps, cut)
      && forall e: nat :: s.v.commit < e < cut ==> Complete(s.v, e)
  }

  /** The cut that the image determines is one. */
  lemma CutIsSound(s: State, cut: nat)
    requires Inv(s) && CutIs(s.v, cut)
    ensures SoundCut(s, cut)
  {
    CutBounds(s, cut);
  }

  lemma SoundBound(s: State, cut: nat)
    requires Inv(s) && SoundCut(s, cut)
    ensures cut <= |s.reqs|
  {
    if cut > |s.reqs| {
      CompleteMeansPersistent(s, |s.reqs|);
    }
  }

  /** Below the cut, every version that no later request below the cut replaced is on flash. */
  lemma VersionOnFlash(s: State, cut: nat, lpn: nat, e: nat)
    requires Inv(s) && SoundCut(s, cut)
    requires 0 <= s.v.commit < e < cut <= |s.reqs| && s.reqs[e].Touches(lpn)
    requires forall k :: e < k < cut ==> !s.reqs[k].Touches(lpn)
    ensures OnFlash(s, lpn, e)
  {
    CompleteMeansPersistent(s, e);
    assert s.EnqCount(e) == s.reqs[e].Span();
    assert s.Enqueued(e, lpn);
    assert Covered(s, lpn, e);
    assert lpn !in s.DirtyPages(e);
    NotReplaced(s.reqs, s.deps, lpn, e);
  }

  lemma NotReplaced(reqs: seq<Request>, deps: seq<Dep>, lpn: nat, e: nat)
    requires DepCount(deps, e) == 0
    ensures !Replaced(reqs, deps, lpn, e)
  {
    forall i | 0 <= i < |deps| ensures deps[i].src != e {
      DepCountPositive(deps, i);
    }
  }

  lemma {:induction false} LastTouch(reqs: seq<Request>, n: nat, lpn: nat) returns (e: nat)
    requires n <= |reqs| && TouchedBefore(reqs, n, lpn)
    ensures e < n && reqs[e].Touches(lpn)
    ensures forall k :: e < k < n ==> !reqs[k].Touches(lpn)
  {
    if reqs[n - 1].Touches(lpn) {
      e := n - 1;
    } else {
      e := LastTouch(reqs, n - 1, lpn);
    }
  }

  /** The newest version below the cut that is on flash is the one the last request below the cut wrote. */
  lemma NewestIsLast(s: State, cut: nat, lpn: nat, e: nat, it: Item)
    requires Inv(s) && ItemGood(s, it) && HostBelow(it, lpn, cut)
    requires e <= it.page.epoch && e < cut <= |s.reqs|
    requires forall k :: e < k < cut ==> !s.reqs[k].Touches(lpn)
    ensures PageHolds(s.data, it.loc, lpn, s.reqs, cut)
  {
    assert s.reqs[it.page.epoch].Touches(lpn);
    AgreesAcross(it.page.content, lpn, s.reqs, e + 1, cut);
  }

  /** A page some request since the commit wrote is recovered as the last request below the cut left it. */
  lemma RecentPage(s: State, m: map<nat, Loc>, cut: nat, lpn: nat, e: nat)
    requires Inv(s) && s.v.commit >= 0 && SoundCut(s, cut) && Remapped(s.v, m, cut, lpn)
    requires s.v.commit < e < cut <= |s.reqs| && s.reqs[e].Touches(lpn)
    requires forall k :: e < k < cut ==> !s.reqs[k].Touches(lpn)
    ensures lpn in m && PageHolds(s.data, m[lpn], lpn, s.reqs, cut)
  {
    VersionOnFlash(s, cut, lpn, e);
    var items := s.v.Items(lpn);
    assert exists i :: 0 <= i < |items| && HostBelow(items[i], lpn, cut) && e <= items[i].page.epoch;
    var i := NewestItem(s.v, m, cut, lpn, e);
    assert ItemGood(s, items[i]);
    NewestIsLast(s, cut, lpn, e, items[i]);
  }

  lemma NewestItem(v: View, m: map<nat, Loc>, cut: nat, lpn: nat, e: nat) returns (i: nat)
    requires |v.lanes| == NUM_BANKS && Remapped(v, m, cut, lpn)
    requires exists j :: 0 <= j < |v.Items(lpn)| && HostBelow(v.Items(lpn)[j], lpn, cut) && e <= v.Items(lpn)[j].page.epoch
    ensures i < |v.Items(lpn)| && lpn in m && v.Items(lpn)[i].loc == m[lpn]
    ensures HostBelow(v.Items(lpn)[i], lpn, cut) && e <= v.Items(lpn)[i].page.epoch
  {
    var items := v.Items(lpn);
    i :| 0 <= i < |items| && HostBelow(items[i], lpn, cut) && items[i].loc == m[lpn]
         && forall j :: 0 <= j < |items| && HostBelow(items[j], lpn, cut) ==> items[j].page.epoch <= items[i].page.epoch;
  }

  lemma NoHostBelow(s: State, cut: nat, lpn: nat)
    requires Inv(s) && s.v.commit < cut <= |s.reqs|
    requires forall k: nat :: s.v.commit < k < cut ==> !s.reqs[k].Touches(lpn)
    ensures var items := s.v.Items(lpn); forall i :: 0 <= i < |items| ==> !HostBelow(items[i], lpn, cut)
  {
    var items := s.v.Items(lpn);
    forall i | 0 <= i < |items| ensures !HostBelow(items[i], lpn, cut) {
      assert ItemGood(s, items[i]);
      assert s.v.ItemOK(BankOf(lpn), items[i]);
    }
  }

  /** A page that no request between the commit and the cut wrote is recovered as it was at the commit. */
  lemma OldPage(s: State, m: map<nat, Loc>, cut: nat, lpn: nat)
    requires Inv(s) && s.v.commit >= 0 && s.floor <= cut <= |s.reqs| && Remapped(s.v, m, cut, lpn)
    requires forall k: nat :: s.v.commit < k < cut ==> !s.reqs[k].Touches(lpn)
    ensures lpn in m <==> lpn in s.v.cmap
    ensures lpn in m ==> PageHolds(s.data, m[lpn], lpn, s.reqs, cut)
  {
    hide Accounting, Coverage, OrderState.Deps, MapContents, MapDomain, Cached;
    NoHostBelow(s, cut, lpn);
    var items := s.v.Items(lpn);
    if HasCopy(s.v, lpn) {
      var i :| 0 <= i < |items| && CopyOf(items[i], lpn) && items[i].loc == m[lpn];
      assert ItemGood(s, items[i]);
      AgreesAcross(items[i].page.content, lpn, s.reqs, s.v.commit + 1, cut);
    } else if lpn in s.v.cmap {
      assert CommittedPage(s, lpn);
      assert !Superseded(s, lpn);
      AgreesAcross(s.data[m[lpn]].content, lpn, s.reqs, s.v.commit + 1, cut);
    }
  }

  /** Every page that is mapped as v determines for such a cut is right, whatever becomes of the others. */
  lemma RecoveredPage(s: State, m: map<nat, Loc>, cut: nat, lpn: nat)
    requires Inv(s) && SoundCut(s, cut) && Remapped(s.v, m, cut, lpn)
    ensures cut <= |s.reqs| && PageRight(s.data, m, lpn, s.reqs, cut)
  {
    SoundBound(s, cut);
    if s.v.commit == -1 {
      FormattedPage(s, m, cut, lpn);
    } else if TouchedBefore(s.reqs, cut, lpn) {
      var e := LastTouch(s.reqs, cut, lpn);
      if e > s.v.commit {
        RecentPage(s, m, cut, lpn, e);
      } else {
        OldPage(s, m, cut, lpn);
        assert TouchedBefore(s.reqs, s.v.commit + 1, lpn);
      }
    } else {
      assert !TouchedBefore(s.reqs, s.v.commit + 1, lpn);
      OldPage(s, m, cut, lpn);
    }
  }

  /** A device that was formatted but never checkpointed recovers to an empty disk. */
  lemma FormattedPage(s: State, m: map<nat, Loc>, cut: nat, lpn: nat)
    requires Inv(s) && s.v.commit == -1 && cut == 0 && Remapped(s.v, m, cut, lpn)
    ensures lpn !in m && PageRight(s.data, m, lpn, s.reqs, cut)
  {
    var items := s.v.Items(lpn);
    forall i | 0 <= i < |items| ensures !HostBelow(items[i], lpn, cut) && !CopyOf(items[i], lpn) {
      assert ItemGood(s, items[i]);
    }
    assert lpn !in s.v.cmap;
  }

  /** Where the recovery point is, in every state of the invariant: not beyond the requests received; not
      below the floor if a checkpoint was taken since format; and 0 if none was. */
  lemma CutBounds(s: State, cut: nat)
    requires Inv(s) && CutIs(s.v, cut)
    ensures cut <= |s.reqs|
    ensures s.v.commit >= 0 ==> s.floor <= cut
    ensures s.v.commit == -1 ==> cut == 0
  {
    if s.v.commit >= 0 {
      var e0: nat :| FirstIncomplete(s.v, e0) && GreatestCut(s.v.deps, e0, cut);
      IncompleteBounds(s, e0);
      CutAboveFloor(s, e0, cut);
    }
  }

  /** The main result. Recovering from any state of the invariant yields exactly the pages that the
      first cut requests produced. */
  lemma RecoveryYieldsPrefix(s: State, m: map<nat, Loc>, cut: nat)
    requires Inv(s) && Recovered(s.v, m, cut)
    ensures HoldsPrefix(s.data, m, s.reqs, cut)
  {
    CutBounds(s, cut);
    CutIsSound(s, cut);
    forall lpn: nat ensures PageRight(s.data, m, lpn, s.reqs, cut) {
      assert Remapped(s.v, m, cut, lpn);
      RecoveredPage(s, m, cut, lpn);
    }
  }

  /** Flush durability, exactly: after a crash, everything below the floor is recovered if and only if a
      checkpoint was taken since format, or nothing had been written before the flush. */
  lemma FlushedSurvivesIff(s: State, cut: nat)
    requires Inv(s) && CutIs(s.v, cut)
    ensures s.floor <= cut <==> (s.v.commit >= 0 || s.floor == 0)
  {
    CutBounds(s, cut);
  }
}
