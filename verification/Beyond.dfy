/** More requests after a checkpoint than there are counters. What that costs: everything flushed since. */
module Beyond {
  import opened Geometry
  import opened Requests
  import opened Recoverable
  import opened OrderState
  import opened PrefixTheorem
  import opened Media
  import opened Banks
  import opened Room
  import opened FtlState
  import opened DeviceSteps
  import opened LogSteps
  import opened N = Nand
  import opened Effects
  import opened Format
  import opened Arith
  import opened Counting
  import opened Dram
  import opened Spill
  import opened Sights
  import opened R = Recovery
  import opened Run
  import opened Overlap
  import DependencyCut
  import LS = LogSpace

  // ---- What recovery makes of it ----

  /** As many requests as there are entries, each replacing in the cache what the one before it wrote, all flushed after
      a checkpoint that had page 1 mapped. None of them touched page 1, and the flash page after its own is
      erased. */
  ghost predicate Rewritten(c: Crash) {
    && CrashSafe(c) && |c.s.reqs| <= MAX_REQS && c.s.v.commit >= 0 && ListFits(c)
    && c.s.floor == |c.s.reqs| == c.s.v.commit + 1 + RECOVERY_ENTRIES
    && Replacing(c.s.v.deps, c.s.v.commit + 1, RECOVERY_ENTRIES) && c.s.reqs[|c.s.reqs| - 1].Span() == 1
    && 1 < NUM_LPAGES && PpnOf(c.s.v.cmap, 1) > 0 && Uncopied(c.s.v, 0) && Uncopied(c.s.v, 1)
    && Run.Untouched(c, 1) && LocOf(1, PpnOf(c.s.v.cmap, 1) + 1) !in c.flash.data
  }

  /** Each of n requests from first on but the last was replaced by the next. */
  ghost predicate Replacing(deps: seq<Dep>, first: nat, n: nat) {
    forall e: nat :: first <= e < first + n - 1 ==> ReplacedNext(deps, e)
  }

  ghost predicate ReplacedNext(deps: seq<Dep>, e: nat) {
    Dep(e, e + 1, 1) in deps
  }

  /** The last request has no counter of its own: its count is added to the place of page 1, so it is not seen. The
      dependencies then pull the recovery point back to the checkpoint: everything flushed since is lost, and so is
      page 1, which is taken to be one page further. */
  method CountersLose(flash: Flash, shown: (Source, nat) -> nat, ghost c: Crash) returns (pmap: map<nat, Loc>, epoch: nat)
    requires Rewritten(c) && c.flash == flash && SanityCheck()
    ensures epoch == c.s.v.commit + 1 < c.s.floor
    ensures !PageRight(flash.data, pmap, 1, c.s.reqs, epoch)
  {
    hide CrashSafe, Inv, Image, LeftBehind, Remapped, Reached, R.Untouched, NoneFresh, Unmoved, CutTaken, Rewritten;
    hide OwnVersion, MappedAs, LanesRead, Recovery.SeenAt;
    ghost var spans := RewrittenSpans(c);
    TablesInOrder();
    var rec := new Recovery(flash, shown);
    ghost var stale, list := rec.Recover(c.s.v, c.j, spans);
    pmap, epoch := rec.pmap, rec.epochIncomplete;
    PulledBack(c, epoch);
    NotFresh(c.s.v, stale, 1);
    OnePageOn(c, stale, spans, list, pmap);
  }

  lemma RewrittenSpans(c: Crash) returns (spans: seq<nat>)
    requires Rewritten(c)
    ensures SpansAre(c.s.v, spans) && |spans| == |c.s.reqs| && Image(c.flash, c.s.v, c.j) && c.j.pages != [] && |c.s.v.lanes| == NUM_BANKS
  {
    hide Inv, Image, SpansAre;
    CrashParts(c);
    spans := SpansOf(c);
    if c.j.pages == [] {
      NothingLogged(c);
      SafeWritesComplete(c.s, c.s.v.commit + 1);
    }
  }

  lemma NothingLogged(c: Crash)
    requires CrashSafe(c) && c.j.pages == []
    ensures forall e: nat :: !Complete(c.s.v, e)
  {
    forall e: nat ensures !Complete(c.s.v, e) {
      LaneCountZero(c.s.v.lanes, e);
      DepCountZero(c.s.v.deps, e);
    }
  }

  lemma NotFresh(v: View, stale: Mapping, lpn: nat)
    requires |v.lanes| == NUM_BANKS
    ensures R.Untouched(v, stale.cut, lpn) ==>
              NoneFresh(v, stale, lpn) && forall m: map<nat, Loc> :: !OwnVersion(m, v.Items(lpn), stale.cut, lpn)
  {
  }

  /** What is counted over page 1 moves it on by one page. */
  lemma OnePageOn(c: Crash, stale: Mapping, spans: seq<nat>, list: seq<Dep>, pmap: map<nat, Loc>)
    requires Rewritten(c) && |c.s.v.lanes| == NUM_BANKS && LeftBehind(stale, c.s.v, spans, list)
    requires R.Untouched(c.s.v, stale.cut, 1) ==> Unmoved(pmap, stale.pmap, 1)
    ensures forall n: nat :: n <= |c.s.reqs| ==> !PageRight(c.flash.data, pmap, 1, c.s.reqs, n)
  {
    hide CrashSafe, Inv, Image, LocOf, PpnOf, LeftBehind, Uncopied, Complete, R.Untouched, Collected;
    CrashParts(c);
    var v := c.s.v;
    var last: nat := v.commit + RECOVERY_ENTRIES;
    SafeWritesComplete(c.s, last);
    SpansAgree(c.s, last);
    FoundAll(c.s, last);
    CollectedAt(v, 1, 1);
    CommittedWordIs(v, 1);
    ListFitting(v, stale, spans, list);
    NoVersion(c, stale.cut, 1);
  }

  lemma FoundAll(s: State, e: nat)
    requires Inv(s) && e < |s.reqs| && Complete(s.v, e)
    ensures Found(s.v, e) == s.reqs[e].Span()
  {
    SomeSpan(s, e, Found(s.v, e));
  }

  lemma PulledBack(c: Crash, cut: nat)
    requires Rewritten(c) && CutTaken(c.s.v, cut)
    ensures cut == c.s.v.commit + 1 < c.s.floor
  {
    hide CrashSafe, Inv, Image, Seen, Complete, Uncopied, PpnOf, LocOf;
    CrashParts(c);
    ImageFormed(c);
    var v := c.s.v;
    var last: nat := v.commit + RECOVERY_ENTRIES;
    forall e: nat | v.commit < e <= last ensures Complete(v, e) {
      SafeWritesComplete(c.s, e);
    }
    CompleteSeenIff(v, last);
    CommittedWordIs(v, 1);
    forall e: nat | v.commit < e < last ensures Seen(v, e) {
      SeenBelow(v, e);
    }
    var e0: nat :| Located(v, e0) && GreatestCut(v.deps, e0, cut);
    assert Located(v, last);
    LocatedUnique(v, e0, last);
    ChainPulls(v.deps, v.commit + 1, RECOVERY_ENTRIES, cut);
  }

  lemma SeenBelow(v: View, e: nat)
    requires v.commit < e < v.commit + RECOVERY_ENTRIES && Complete(v, e)
    ensures Seen(v, e)
  {
  }

  /** Every cut above the first of these requests is crossed. */
  lemma ChainPulls(deps: seq<Dep>, first: nat, n: nat, cut: nat)
    requires n > 0 && Replacing(deps, first, n) && forall i :: 0 <= i < |deps| ==> first <= deps[i].src
    requires GreatestCut(deps, first + n - 1, cut)
    ensures cut == first
  {
    hide Replacing;
    DependencyCut.CutAboveCommit(deps, first + n - 1, cut, first - 1);
    if cut > first {
      Crossed(deps, first, n, cut);
    }
  }

  lemma Crossed(deps: seq<Dep>, first: nat, n: nat, cut: nat)
    requires Replacing(deps, first, n) && first < cut <= first + n - 1
    ensures !Uncrossed(deps, cut)
  {
    assert ReplacedNext(deps, cut - 1);
  }

  // ---- Such a device exists ----

  /** n requests for page 0 after a checkpoint; the dependencies are logged whenever they fill a page. */
  ghost predicate Rewriting(o: Device, d: Device, n: nat) {
    && d.Valid() && Sized(d.ks, |d.mapents|, d.s.v.commit) && d.ks == o.ks && |d.ks| == NUM_BANKS
    && d.s.Clock() && |d.s.reqs| == d.s.g == o.s.g + n && d.s.floor <= d.s.g
    && OnlyDirty(d.s, 0)
    && (n > 0 ==> d.s.Dirty(0) && d.s.cache[0].epoch == d.s.g - 1 && d.s.cache[0].span == 1)
    && d.s.v == o.s.v.(deps := d.s.v.deps) && Replacing(d.s.v.deps + d.s.deps, o.s.g, n) && |d.s.v.deps + d.s.deps| <= n
    && (forall e: nat :: o.s.g <= e < d.s.g ==> d.s.reqs[e].Span() == 1 && !d.s.reqs[e].Touches(1))
    && |d.j.pages| >= |o.j.pages|
    && (|d.j.pages| - |o.j.pages|) * NUM_DEPENTS_PER_PAGE + |d.s.deps| <= n
  }

  /** The log has room for the dependencies of n requests after o, before the firmware would take a checkpoint. */
  ghost predicate LogRoomFor(o: Device, n: nat) {
    |o.j.pages| + n / NUM_DEPENTS_PER_PAGE + 1 <= LS.LOG_SAFE && o.s.g + n <= MAX_REQS
  }

  lemma {:induction false} Rewrite(o: Device, n: nat) returns (d: Device)
    requires AfterCheckpoint(o) && LogRoomFor(o, n)
    ensures Rewriting(o, d, n)
  {
    hide Device.Valid, Sized, Inv;
    if n == 0 {
      d := o;
    } else {
      var c := Rewrite(o, n - 1);
      d := RewriteOnce(o, c, n - 1);
    }
  }

  lemma LogFits(pages: nat, first: nat, deps: nat, n: nat)
    requires first <= pages && (pages - first) * NUM_DEPENTS_PER_PAGE + deps <= n
    requires first + n / NUM_DEPENTS_PER_PAGE + 1 <= LS.LOG_SAFE
    ensures pages + 1 < LOG_CAP
  {
    LS.LogMargin();
  }

  /** The buffered dependencies are logged if they fill a page. */
  lemma MakeRoom(o: Device, d: Device, n: nat) returns (c: Device)
    requires Rewriting(o, d, n) && LogRoomFor(o, n)
    ensures Rewriting(o, c, n)
    ensures c.s.v.deps + c.s.deps == d.s.v.deps + d.s.deps
  {
    hide Device.Valid, Sized, Inv, CrashSafe, Replacing, LOG_CAP, Write.Span, Write.Touches;
    c := d;
    if |d.s.deps| >= NUM_DEPENTS_PER_PAGE {
      LogFits(|d.j.pages|, |o.j.pages|, |d.s.deps|, n);
      c := LogDepsOnly(d);
      assert c.s.v.deps + c.s.deps == d.s.v.deps + d.s.deps;
      SameDirty(d.s, c.s);
    }
  }

  lemma SameDirty(s: State, t: State)
    requires t.cache == s.cache
    ensures OnlyDirty(s, 0) ==> OnlyDirty(t, 0)
    ensures s.Dirty(0) <==> t.Dirty(0)
  {
    assert forall l: nat :: t.Dirty(l) ==> s.Dirty(l);
  }

  lemma RewriteOnce(o: Device, d: Device, n: nat) returns (e: Device)
    requires Rewriting(o, d, n) && LogRoomFor(o, n + 1)
    ensures Rewriting(o, e, n + 1)
  {
    hide Device.Valid, Sized, Inv, Agrees, Replacing, OnlyDirty;
    DivMonotone(n, n + 1, NUM_DEPENTS_PER_PAGE);
    var c := MakeRoom(o, d, n);
    var r, buf := WriteTo(0, c.s.reqs);
    e := OnePage(c, r, buf);
    OnlyRewritten(c.s, e.s);
    ReplacingNext(c.s.v.deps + c.s.deps, e.s.v.deps + e.s.deps, o.s.g, n);
  }

  lemma OnlyRewritten(s: State, t: State)
    requires OnlyDirty(s, 0) && 0 in t.cache && t.cache == s.cache[0 := t.cache[0]] && t.cache[0].dirty
    ensures OnlyDirty(t, 0) && t.Dirty(0)
  {
    assert forall l: nat :: t.Dirty(l) && l != 0 ==> s.Dirty(l);
  }

  lemma ReplacingNext(deps: seq<Dep>, more: seq<Dep>, first: nat, n: nat)
    requires Replacing(deps, first, n)
    requires n > 0 ==> more == deps + [Dep(first + n - 1, first + n, 1)]
    requires n == 0 ==> deps <= more
    ensures Replacing(more, first, n + 1)
  {
    forall e: nat | first <= e < first + n ensures ReplacedNext(more, e) {
      if e < first + n - 1 {
        assert ReplacedNext(deps, e);
      } else {
        assert more[|deps|] == Dep(e, e + 1, 1);
      }
    }
  }

  /** Format, write page 1, flush, checkpoint; write page 0 as many times as there are entries, flush. The log has
      room for it with the shipped sizes: 1532 pages of dependencies, and LOG_SAFE is 2048. */
  lemma CounterInput(blocks: seq<seq<nat>>) returns (c: Crash)
    requires Rings(blocks) && 1 < NUM_LPAGES
    requires RECOVERY_ENTRIES / NUM_DEPENTS_PER_PAGE + 4 <= LS.LOG_SAFE && RECOVERY_ENTRIES < MAX_REQS
    ensures Rewritten(c) && c.s.v.commit == 0
  {
    hide Device.Valid, Sized, Inv, CrashSafe, Replacing, Uncopied, PpnOf, LocOf, LOG_CAP, Rewritten, AfterCheckpoint, OnlyDirty;
    hide JustWritten, Write.Span, Write.Touches;
    var o := Checkpointed(blocks, 1);
    CheckpointParts(o);
    var d := Rewrite(o, RECOVERY_ENTRIES);
    var e := RewriteFlushed(o, d, RECOVERY_ENTRIES);
    c := Crash(e.flash, e.s, e.j);
    NextErased(e, o.ks);
    RewrittenIs(o, e);
  }

  lemma CheckpointParts(o: Device)
    requires AfterCheckpoint(o)
    ensures o.s.g == |o.s.reqs| && o.s.v.deps == [] && o.s.v.commit == o.s.g - 1 && |o.ks| == NUM_BANKS && |o.j.pages| + 1 < LOG_CAP
    ensures forall b :: 0 <= b < NUM_BANKS ==> o.ks[b].fill + 2 <= LAST_PAGE
  {
  }

  lemma RewriteFlushed(o: Device, d: Device, n: nat) returns (e: Device)
    requires n > 0 && Rewriting(o, d, n) && LogRoomFor(o, n) && |o.ks| == NUM_BANKS && o.ks[0].fill < LAST_PAGE
    ensures e.Valid() && CrashSafe(Crash(e.flash, e.s, e.j)) && |e.ks| == NUM_BANKS && e.ks == o.ks[0 := e.ks[0]]
    ensures e.s.reqs == d.s.reqs && e.s.floor == |e.s.reqs| == o.s.g + n && |e.s.reqs| <= MAX_REQS
    ensures e.s.v == o.s.v.(lanes := e.s.v.lanes, deps := d.s.v.deps + d.s.deps)
    ensures forall l: nat :: Uncopied(o.s.v, l) ==> Uncopied(e.s.v, l)
  {
    hide Device.Valid, Sized, Inv, CrashSafe, Replacing, Uncopied, LOG_CAP;
    LogFits(|d.j.pages|, |o.j.pages|, |d.s.deps|, n);
    var x := LogDepsOnly(d);
    assert forall l: nat :: x.s.Dirty(l) ==> d.s.Dirty(l);
    SameUncopied(o.s.v, x.s.v);
    assert BankOf(0) == 0;
    e := FlushOne(x, 0);
    ValidIsSafe(e);
  }

  lemma RewrittenIs(o: Device, e: Device)
    requires CrashSafe(Crash(e.flash, e.s, e.j)) && e.s.floor == |e.s.reqs| == o.s.g + RECOVERY_ENTRIES <= MAX_REQS
    requires o.s.v.commit == o.s.g - 1 >= 0 && e.s.v.commit == o.s.v.commit && e.s.v.cmap == o.s.v.cmap
    requires Replacing(e.s.v.deps, o.s.g, RECOVERY_ENTRIES) && |e.s.v.deps| <= RECOVERY_ENTRIES
    requires forall k: nat :: o.s.g <= k < |e.s.reqs| ==> e.s.reqs[k].Span() == 1 && !e.s.reqs[k].Touches(1)
    requires 1 < NUM_LPAGES && PpnOf(o.s.v.cmap, 1) > 0 && Uncopied(e.s.v, 0) && Uncopied(e.s.v, 1)
    requires LocOf(1, PpnOf(o.s.v.cmap, 1) + 1) !in e.flash.data
    ensures Rewritten(Crash(e.flash, e.s, e.j))
  {
    hide CrashSafe, Replacing, PpnOf, LocOf, Uncopied;
  }

  /** Page 1 is the only one programmed in its bank. */
  lemma NextErased(d: Device, ks: seq<Bank>)
    requires d.Valid() && JustWritten(ks, d.s.v.cmap, 1) && |d.ks| == NUM_BANKS && d.ks == ks[0 := d.ks[0]]
    ensures LocOf(1, PpnOf(d.s.v.cmap, 1) + 1) !in d.flash.data
  {
    hide Device.Valid, LocOf, PpnOf;
    LastPage();
    OnePageNext(d.s.v.cmap, ks[1].Active());
    DeviceParts(d, 1);
    if Loc(1, ks[1].Active(), 1) in d.flash.data {
      FilledBelow(d, 1, 1);
    }
  }

  lemma OnePageNext(m: map<nat, Loc>, blk: nat)
    requires 1 in m && m[1] == Loc(1, blk, 0)
    ensures LocOf(1, PpnOf(m, 1) + 1) == Loc(1, blk, 1)
  {
    DivUnique(blk * PAGES_PER_VBLK + 1, PAGES_PER_VBLK, blk, 1);
  }

  lemma SameUncopied(v: View, w: View)
    requires v.lanes == w.lanes
    ensures forall l: nat :: Uncopied(v, l) ==> Uncopied(w, l)
  {
  }
}
