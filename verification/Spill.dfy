/** The counters that the table has no room for. They lie over the page map: what counting makes of the memory
    from there on, what is read back as complete, and which pages keep their entry. */
module Spill {
  import opened Geometry
  import opened Recoverable
  import opened Counting
  import opened Arith
  import opened Dram

  // ---- Counting ----

  /** One more page is counted in entry i. */
  function CountedAt(m: Memory, i: nat, span: nat): Memory {
    m.With(EntryAt(i), span).With(EntryAt(i) + 1, m.Word(EntryAt(i) + 1) + 1)
  }

  /** One more page of write e. A counter in the table is not in this part of the memory. */
  function AfterOne(m: Memory, commit: int, e: nat, span: nat): Memory {
    if 0 <= commit && commit + RECOVERY_ENTRIES <= e then CountedAt(m, e - commit, span) else m
  }

  function AfterItem(m: Memory, commit: int, it: Item): Memory {
    match it.page
    case Host(_, span, e, _) => AfterOne(m, commit, e, span)
    case Copy(lpn, _) => Memory(m.words, m.pmap[lpn := it.loc])
    case Summary(_, _) => m
  }

  function AfterItems(m: Memory, commit: int, items: seq<Item>): Memory {
    if items == [] then m
    else AfterItem(AfterItems(m, commit, items[..|items| - 1]), commit, items[|items| - 1])
  }

  function AfterLanes(m: Memory, commit: int, lanes: seq<Lane>): Memory {
    if lanes == [] then m
    else AfterItems(AfterLanes(m, commit, lanes[..|lanes| - 1]), commit, lanes[|lanes| - 1].items)
  }

  function AfterDeps(m: Memory, commit: int, deps: seq<Dep>): Memory {
    if deps == [] then m
    else
      var d := deps[|deps| - 1];
      AfterOne(AfterDeps(m, commit, deps[..|deps| - 1]), commit, d.src, d.span)
  }

  /** The first b lanes and i items of the next one are counted. */
  function AfterPart(v: View, b: nat, i: nat): Memory
    requires b <= |v.lanes| && (b < |v.lanes| ==> i <= |v.lanes[b].items|)
  {
    var m := AfterLanes(Committed(v), v.commit, v.lanes[..b]);
    if b < |v.lanes| then AfterItems(m, v.commit, v.lanes[b].items[..i]) else m
  }

  function Committed(v: View): Memory {
    Memory(map[], v.cmap)
  }

  /** What counting the whole image leaves from the page map on. */
  function Collected(v: View): Memory {
    AfterDeps(AfterLanes(Committed(v), v.commit, v.lanes), v.commit, v.deps)
  }

  lemma AfterPartStep(v: View, b: nat, i: nat)
    requires b < |v.lanes| && i < |v.lanes[b].items|
    ensures AfterPart(v, b, i + 1) == AfterItem(AfterPart(v, b, i), v.commit, v.lanes[b].items[i])
  {
    var items := v.lanes[b].items;
    assert items[..i + 1][..i] == items[..i];
  }

  lemma AfterPartNextLane(v: View, b: nat)
    requires b < |v.lanes|
    ensures AfterPart(v, b + 1, 0) == AfterPart(v, b, |v.lanes[b].items|)
  {
    assert v.lanes[..b + 1][..b] == v.lanes[..b];
    assert v.lanes[b].items[..|v.lanes[b].items|] == v.lanes[b].items;
    if b + 1 < |v.lanes| {
      assert v.lanes[b + 1].items[..0] == [];
    }
  }

  lemma AfterPartNone(v: View)
    ensures AfterPart(v, 0, 0) == Committed(v)
  {
    assert v.lanes[..0] == [];
    if |v.lanes| > 0 {
      assert v.lanes[0].items[..0] == [];
    }
  }

  lemma AfterPartAll(v: View)
    ensures Collected(v) == AfterDeps(AfterPart(v, |v.lanes|, 0), v.commit, v.deps)
  {
    assert v.lanes[..|v.lanes|] == v.lanes;
  }

  lemma AfterDepsNext(m: Memory, commit: int, deps: seq<Dep>, d: Dep)
    ensures AfterDeps(m, commit, deps + [d]) == AfterOne(AfterDeps(m, commit, deps), commit, d.src, d.span)
  {
    assert (deps + [d])[..|deps|] == deps;
  }

  // ---- Pages that no counter lies over ----

  ghost predicate Unmoved(pmap: map<nat, Loc>, before: map<nat, Loc>, lpn: nat) {
    (lpn in pmap <==> lpn in before) && (lpn in pmap ==> pmap[lpn] == before[lpn])
  }

  ghost predicate StoredAs(pmap: map<nat, Loc>, lpn: nat, ppn: nat) {
    if ppn == 0 then lpn !in pmap else lpn in pmap && pmap[lpn] == LocOf(lpn, ppn)
  }

  /** The entry that lies over page lpn in the page map. */
  function EntryOver(lpn: nat): nat {
    RECOVERY_ENTRIES + lpn / 2
  }

  /** The page is mapped to a copy that garbage collection made, or else as it was at the commit. */
  ghost predicate CopiesMapped(pmap: map<nat, Loc>, v: View, lpn: nat)
    requires |v.lanes| == NUM_BANKS
  {
    CopiedTo(pmap, v.cmap, v.Items(lpn), lpn)
  }

  ghost predicate CopiedTo(pmap: map<nat, Loc>, before: map<nat, Loc>, items: seq<Item>, lpn: nat) {
    if exists k :: 0 <= k < |items| && CopyOf(items[k], lpn) then
      lpn in pmap && exists k :: 0 <= k < |items| && CopyOf(items[k], lpn) && items[k].loc == pmap[lpn]
    else
      Unmoved(pmap, before, lpn)
  }

  /** No page is counted in the entry that lies over page lpn. */
  ghost predicate Uncounted(v: View, lpn: nat) {
    lpn < NUM_LPAGES && v.commit >= 0 ==> Found(v, v.commit + EntryOver(lpn)) == 0
  }

  /** Garbage collection did not copy page lpn. */
  ghost predicate Uncopied(v: View, lpn: nat) {
    forall b, i :: 0 <= b < |v.lanes| && 0 <= i < |v.lanes[b].items| ==> !CopyOf(v.lanes[b].items[i], lpn)
  }

  lemma CountedElsewhere(m: Memory, i: nat, span: nat, lpn: nat)
    requires i >= RECOVERY_ENTRIES && (lpn >= NUM_LPAGES || i != EntryOver(lpn))
    ensures Unmoved(CountedAt(m, i, span).pmap, m.pmap, lpn)
  {
    hide LocOf, PpnOf, FtlBuf;
  }

  lemma {:induction false} ItemsElsewhere(m: Memory, commit: int, items: seq<Item>, lpn: nat)
    requires lpn < NUM_LPAGES && commit >= 0 ==> forall k :: 0 <= k < |items| ==> !IsHost(items[k], commit + EntryOver(lpn))
    ensures CopiedTo(AfterItems(m, commit, items).pmap, m.pmap, items, lpn)
  {
    hide CountedAt;
    if items != [] {
      var n := |items| - 1;
      var was, it := items[..n], items[n];
      ItemsElsewhere(m, commit, was, lpn);
      var before := AfterItems(m, commit, was);
      if it.page.Host? && 0 <= commit && commit + RECOVERY_ENTRIES <= it.page.epoch {
        CountedElsewhere(before, it.page.epoch - commit, it.page.span, lpn);
      }
      assert CopyOf(it, lpn) ==> CopyOf(items[n], lpn);
      assert forall k :: 0 <= k < n ==> items[k] == was[k];
    }
  }

  lemma LaneElsewhere(v: View, b: nat, lpn: nat)
    requires v.WellFormed() && Uncounted(v, lpn) && b < NUM_BANKS
    ensures var items := v.lanes[b].items;
      && (lpn < NUM_LPAGES && v.commit >= 0 ==> forall k :: 0 <= k < |items| ==> !IsHost(items[k], v.commit + EntryOver(lpn)))
      && (b != BankOf(lpn) ==> forall k :: 0 <= k < |items| ==> !CopyOf(items[k], lpn))
  {
    var items := v.lanes[b].items;
    forall k | 0 <= k < |items| ensures lpn < NUM_LPAGES && v.commit >= 0 ==> !IsHost(items[k], v.commit + EntryOver(lpn)) {
      if items[k].page.Host? {
        LaneCountPositive(v.lanes, b, k);
      }
    }
    forall k | 0 <= k < |items| ensures CopyOf(items[k], lpn) ==> b == BankOf(lpn) {
      assert v.ItemOK(b, items[k]);
    }
  }

  lemma {:induction false} LanesElsewhere(v: View, n: nat, lpn: nat)
    requires v.WellFormed() && Uncounted(v, lpn) && n <= NUM_BANKS
    ensures var m := AfterLanes(Committed(v), v.commit, v.lanes[..n]);
      if BankOf(lpn) < n then CopiedTo(m.pmap, v.cmap, v.Items(lpn), lpn) else Unmoved(m.pmap, v.cmap, lpn)
  {
    hide View.WellFormed, Uncounted, AfterItems, Found;
    if n > 0 {
      var b := n - 1;
      FormedLanes(v);
      LanesElsewhere(v, b, lpn);
      assert v.lanes[..n][..b] == v.lanes[..b];
      LaneElsewhere(v, b, lpn);
      ItemsElsewhere(AfterLanes(Committed(v), v.commit, v.lanes[..b]), v.commit, v.lanes[b].items, lpn);
    }
  }

  lemma FormedLanes(v: View)
    requires v.WellFormed()
    ensures |v.lanes| == NUM_BANKS
  {
  }

  lemma {:induction false} DepsElsewhere(m: Memory, commit: int, deps: seq<Dep>, lpn: nat)
    requires lpn < NUM_LPAGES && commit >= 0 ==> DepCount(deps, commit + EntryOver(lpn)) == 0
    ensures Unmoved(AfterDeps(m, commit, deps).pmap, m.pmap, lpn)
  {
    hide CountedAt;
    if deps != [] {
      var n := |deps| - 1;
      DepsElsewhere(m, commit, deps[..n], lpn);
      if 0 <= commit && commit + RECOVERY_ENTRIES <= deps[n].src {
        CountedElsewhere(AfterDeps(m, commit, deps[..n]), deps[n].src - commit, deps[n].span, lpn);
      }
    }
  }

  /** A page that no counter lies over is mapped to its copy, or as it was at the commit. */
  lemma UncountedMapped(v: View, lpn: nat)
    requires v.WellFormed() && Uncounted(v, lpn)
    ensures CopiesMapped(Collected(v).pmap, v, lpn)
  {
    hide AfterItems, AfterDeps;
    assert v.lanes[..NUM_BANKS] == v.lanes;
    LanesElsewhere(v, NUM_BANKS, lpn);
    DepsElsewhere(AfterLanes(Committed(v), v.commit, v.lanes), v.commit, v.deps, lpn);
  }

  // ---- Pages that a counter lies over ----

  /** Place l from the page map on, when n pages were counted in the entry that lies over it: an even place holds
      the span, an odd one n more than before. */
  ghost predicate Shifted(was: Memory, now: Memory, l: nat, n: nat, span: nat) {
    var w := if l % 2 == 0 then span else was.Word(PAGE_MAP_AT + l) + n;
    && now.Word(PAGE_MAP_AT + l) == (if n == 0 then was.Word(PAGE_MAP_AT + l) else w)
    && (l < NUM_LPAGES ==> if n == 0 then Unmoved(now.pmap, was.pmap, l) else StoredAs(now.pmap, l, w))
  }

  lemma WithWord(m: Memory, a: nat, x: nat, b: nat)
    ensures m.With(a, x).Word(b) == if a == b then x else m.Word(b)
    ensures InPageMap(a) ==> StoredAs(m.With(a, x).pmap, a - PAGE_MAP_AT, x)
    ensures b >= PAGE_MAP_AT && a != b ==> Unmoved(m.With(a, x).pmap, m.pmap, b - PAGE_MAP_AT)
  {
    hide FtlBuf;
    DivMod(x, PAGES_PER_VBLK);
  }

  lemma ShiftedNext(was: Memory, now: Memory, l: nat, n: nat, span: nat)
    requires Shifted(was, now, l, n, span)
    ensures Shifted(was, CountedAt(now, EntryOver(l), span), l, n + 1, span)
  {
    hide WithPpn, PpnOf, FtlBuf, StoredAs, Unmoved;
    var a := EntryAt(EntryOver(l));
    var x := now.With(a, span);
    WithWord(now, a, span, PAGE_MAP_AT + l);
    WithWord(now, a, span, a + 1);
    WithWord(x, a + 1, now.Word(a + 1) + 1, PAGE_MAP_AT + l);
    if l % 2 == 0 {
      SameStored(CountedAt(now, EntryOver(l), span).pmap, x.pmap, l, span);
    }
  }

  lemma SameStored(m: map<nat, Loc>, n: map<nat, Loc>, l: nat, w: nat)
    requires Unmoved(m, n, l)
    ensures StoredAs(m, l, w) <==> StoredAs(n, l, w)
  {
  }

  lemma ShiftedSame(was: Memory, now: Memory, next: Memory, l: nat, n: nat, span: nat)
    requires Shifted(was, now, l, n, span)
    requires next.Word(PAGE_MAP_AT + l) == now.Word(PAGE_MAP_AT + l) && (l < NUM_LPAGES ==> Unmoved(next.pmap, now.pmap, l))
    ensures Shifted(was, next, l, n, span)
  {
  }

  lemma ShiftedOther(was: Memory, now: Memory, l: nat, n: nat, span: nat, i: nat, other: nat)
    requires Shifted(was, now, l, n, span) && i >= RECOVERY_ENTRIES && i != EntryOver(l)
    ensures Shifted(was, CountedAt(now, i, other), l, n, span)
  {
    hide WithPpn, PpnOf, FtlBuf, StoredAs, Shifted;
    var x := now.With(EntryAt(i), other);
    WithWord(now, EntryAt(i), other, PAGE_MAP_AT + l);
    WithWord(x, EntryAt(i) + 1, now.Word(EntryAt(i) + 1) + 1, PAGE_MAP_AT + l);
    ShiftedSame(was, now, CountedAt(now, i, other), l, n, span);
  }

  lemma ShiftedOne(was: Memory, now: Memory, commit: nat, l: nat, n: nat, span: nat, e: nat, other: nat)
    requires Shifted(was, now, l, n, span) && (e == commit + EntryOver(l) ==> other == span)
    ensures Shifted(was, AfterOne(now, commit, e, other), l, if e == commit + EntryOver(l) then n + 1 else n, span)
  {
    hide CountedAt, Shifted;
    if e == commit + EntryOver(l) {
      ShiftedNext(was, now, l, n, span);
    } else if commit + RECOVERY_ENTRIES <= e {
      ShiftedOther(was, now, l, n, span, e - commit, other);
    }
  }

  lemma {:induction false} ShiftedItems(was: Memory, now: Memory, commit: nat, items: seq<Item>, l: nat, n: nat, span: nat)
    requires Shifted(was, now, l, n, span)
    requires forall k :: 0 <= k < |items| ==>
        !CopyOf(items[k], l) && (IsHost(items[k], commit + EntryOver(l)) ==> items[k].page.span == span)
    ensures Shifted(was, AfterItems(now, commit, items), l, n + HostCount(items, commit + EntryOver(l)), span)
  {
    hide AfterOne, Shifted;
    if items != [] {
      var last := |items| - 1;
      ShiftedItems(was, now, commit, items[..last], l, n, span);
      var m, it := AfterItems(now, commit, items[..last]), items[last];
      var n1 := n + HostCount(items[..last], commit + EntryOver(l));
      match it.page {
        case Host(_, s, e, _) => ShiftedOne(was, m, commit, l, n1, span, e, s);
        case Copy(_, _) => ShiftedSame(was, m, AfterItem(m, commit, it), l, n1, span);
        case Summary(_, _) =>
      }
    }
  }

  lemma {:induction false} ShiftedLanes(was: Memory, commit: nat, lanes: seq<Lane>, l: nat, span: nat)
    requires forall b, k :: 0 <= b < |lanes| && 0 <= k < |lanes[b].items| ==>
        && !CopyOf(lanes[b].items[k], l)
        && (IsHost(lanes[b].items[k], commit + EntryOver(l)) ==> lanes[b].items[k].page.span == span)
    ensures Shifted(was, AfterLanes(was, commit, lanes), l, LaneCount(lanes, commit + EntryOver(l)), span)
  {
    if lanes != [] {
      hide Shifted, AfterItems;
      var last := |lanes| - 1;
      ShiftedLanes(was, commit, lanes[..last], l, span);
      ShiftedItems(was, AfterLanes(was, commit, lanes[..last]), commit, lanes[last].items, l,
                   LaneCount(lanes[..last], commit + EntryOver(l)), span);
    }
  }

  lemma {:induction false} ShiftedDeps(was: Memory, now: Memory, commit: nat, deps: seq<Dep>, l: nat, n: nat, span: nat)
    requires Shifted(was, now, l, n, span)
    requires forall k :: 0 <= k < |deps| && deps[k].src == commit + EntryOver(l) ==> deps[k].span == span
    ensures Shifted(was, AfterDeps(now, commit, deps), l, n + DepCount(deps, commit + EntryOver(l)), span)
  {
    hide AfterOne, Shifted;
    if deps != [] {
      var last := |deps| - 1;
      ShiftedDeps(was, now, commit, deps[..last], l, n, span);
      ShiftedOne(was, AfterDeps(now, commit, deps[..last]), commit, l, n + DepCount(deps[..last], commit + EntryOver(l)), span,
                 deps[last].src, deps[last].span);
    }
  }

  /** A page that was not copied: its entry is as at the commit, or what was counted lies over it. */
  lemma CollectedAt(v: View, l: nat, span: nat)
    requires v.commit >= 0 && Uncopied(v, l) && SpanIs(v, v.commit + EntryOver(l), span)
    ensures Shifted(Committed(v), Collected(v), l, Found(v, v.commit + EntryOver(l)), span)
  {
    hide Shifted, AfterLanes, AfterDeps;
    ShiftedLanes(Committed(v), v.commit, v.lanes, l, span);
    ShiftedDeps(Committed(v), AfterLanes(Committed(v), v.commit, v.lanes), v.commit, v.deps, l,
                LaneCount(v.lanes, v.commit + EntryOver(l)), span);
  }

  // ---- Which writes are taken for complete ----

  /** The two words of an entry are equal and not 0: find_first_incomplete_write takes its write for complete. */
  predicate Balanced(m: Memory, i: nat) {
    m.Word(EntryAt(i)) != 0 && m.Word(EntryAt(i)) == m.Word(EntryAt(i) + 1)
  }

  /** Some page of write e or of a later one was found. */
  ghost predicate Reaching(v: View, e: nat) {
    exists k: nat :: e <= k && Found(v, k) > 0
  }

  /** Write e is taken for complete when the image is recovered: if it is, or, for want of a counter, if the page
      map and what was counted into it give that impression. */
  ghost predicate Seen(v: View, e: nat) {
    if e < v.commit + RECOVERY_ENTRIES then Complete(v, e)
    else Reaching(v, e) && Balanced(Collected(v), e - v.commit)
  }

  ghost predicate SeenUpTo(v: View, e: int) {
    forall k: nat :: v.commit < k < e ==> Seen(v, k)
  }

  /** Where the writes taken for complete end. Before the first checkpoint it wraps to 0. */
  ghost predicate Located(v: View, e0: nat) {
    if v.commit < 0 then e0 == 0 else v.commit < e0 && SeenUpTo(v, e0) && !Seen(v, e0)
  }

  lemma SeenNone(v: View)
    ensures SeenUpTo(v, v.commit + 1)
  {
  }

  lemma SeenNext(v: View, e: nat)
    requires SeenUpTo(v, e) && Seen(v, e)
    ensures SeenUpTo(v, e + 1)
  {
  }

  lemma LocatedAt(v: View, e0: nat)
    ensures Located(v, e0) <==> if v.commit < 0 then e0 == 0 else v.commit < e0 && SeenUpTo(v, e0) && !Seen(v, e0)
  {
  }

  /** The recovery point of any image. */
  ghost predicate CutTaken(v: View, cut: nat) {
    exists e0: nat :: Located(v, e0) && GreatestCut(v.deps, e0, cut)
  }

  /** What place l held at the commit. */
  function CommittedWord(v: View, l: nat): nat {
    Committed(v).Word(PAGE_MAP_AT + l)
  }

  lemma CommittedWordIs(v: View, l: nat)
    ensures CommittedWord(v, l) == if l < NUM_LPAGES then PpnOf(v.cmap, l) else 0
  {
  }

  /** The first of the two pages that the counter of write e lies over. */
  function PairOf(v: View, e: nat): nat
    requires e >= v.commit + RECOVERY_ENTRIES
  {
    2 * (e - v.commit - RECOVERY_ENTRIES)
  }

  ghost predicate PairUncopied(v: View, e: nat)
    requires e >= v.commit + RECOVERY_ENTRIES
  {
    Uncopied(v, PairOf(v, e)) && Uncopied(v, PairOf(v, e) + 1)
  }

  /** A write without a counter, if the two pages in question were not copied. What their places held at the commit
      decides: with nothing found of the write they must be equal, and otherwise the second of them is
      added to what was found. */
  lemma SeenIff(v: View, e: nat, span: nat)
    requires v.commit >= 0 && e >= v.commit + RECOVERY_ENTRIES && SpanIs(v, e, span)
    requires PairUncopied(v, e)
    ensures var l := PairOf(v, e);
      Seen(v, e) <==>
        && Reaching(v, e)
        && if Found(v, e) == 0 then CommittedWord(v, l) == CommittedWord(v, l + 1) != 0
           else CommittedWord(v, l + 1) + Found(v, e) == span
  {
    hide Collected, Reaching, Complete, FtlBuf, PpnOf;
    var l := PairOf(v, e);
    assert EntryOver(l) == EntryOver(l + 1) == e - v.commit;
    CollectedAt(v, l, span);
    CollectedAt(v, l + 1, span);
    assert EntryAt(e - v.commit) == PAGE_MAP_AT + l;
  }

  /** A complete write without a counter is seen exactly if the place of its count was empty at the commit. */
  lemma CompleteSeenIff(v: View, e: nat)
    requires v.commit >= 0 && e >= v.commit + RECOVERY_ENTRIES && Complete(v, e)
    requires PairUncopied(v, e)
    ensures Seen(v, e) <==> CommittedWord(v, PairOf(v, e) + 1) == 0
  {
    hide Seen, CommittedWord, Collected;
    SeenIff(v, e, Found(v, e));
    assert Reaching(v, e);
  }

  lemma LocatedUnique(v: View, a: nat, b: nat)
    requires Located(v, a) && Located(v, b)
    ensures a == b
  {
  }
}
