/** What a crash leaves on flash, as recovery sees it, and what recovery promises to compute from it. */
module Recoverable {
  import opened Geometry
  import opened Requests

  datatype Loc = Loc(bank: nat, blk: nat, pg: nat)

  /** A programmed page of a data block. Host and Copy pages differ in the spare bytes: a page moved
      by garbage collection carries the tag 0xFFFFFFFE in place of an epoch. */
  datatype DataPage =
    | Host(lpn: nat, span: nat, epoch: nat, content: seq<nat>)
    | Copy(lpn: nat, content: seq<nat>)
    | Summary(lpns: seq<nat>, next: nat)

  /** Write dst overwrote, in the cache, a dirty page of write src, which spans span pages. */
  datatype Dep = Dep(src: nat, dst: nat, span: nat)

  datatype Item = Item(loc: Loc, page: DataPage)

  /** One bank since the last commit: the chain of blocks from the page that was active at the commit,
      and the pages programmed there, in order. */
  datatype Lane = Lane(blks: seq<nat>, start: nat, items: seq<Item>)

  /** The logical content of a crashed device. commit is the epoch in the last tag page, -1 for the
      tag that formatting writes; cmap is the page map at that tag; deps are the dependencies logged
      after it. */
  datatype View = View(commit: int, cmap: map<nat, Loc>, lanes: seq<Lane>, deps: seq<Dep>) {
    ghost predicate WellFormed() {
      && commit >= -1
      && |lanes| == NUM_BANKS
      && (forall b, i :: 0 <= b < NUM_BANKS && 0 <= i < |lanes[b].items| ==> ItemOK(b, lanes[b].items[i]))
      && (forall i :: 0 <= i < |deps| ==> commit < deps[i].src < deps[i].dst)
    }

    ghost predicate ItemOK(b: nat, it: Item) {
      && !it.page.Summary?
      && BankOf(it.page.lpn) == b == it.loc.bank
      && (it.page.Host? ==> commit < it.page.epoch)
    }

    function Items(lpn: nat): seq<Item>
      requires |lanes| == NUM_BANKS
    {
      lanes[BankOf(lpn)].items
    }
  }

  // ---- Counting the pages of a write request ----

  function HostCount(items: seq<Item>, e: nat): nat {
    if items == [] then 0
    else HostCount(items[..|items| - 1], e) + if IsHost(items[|items| - 1], e) then 1 else 0
  }

  predicate IsHost(it: Item, e: nat) {
    it.page.Host? && it.page.epoch == e
  }

  function DepCount(deps: seq<Dep>, e: nat): nat {
    if deps == [] then 0
    else DepCount(deps[..|deps| - 1], e) + if deps[|deps| - 1].src == e then 1 else 0
  }

  function LaneCount(lanes: seq<Lane>, e: nat): nat {
    if lanes == [] then 0
    else LaneCount(lanes[..|lanes| - 1], e) + HostCount(lanes[|lanes| - 1].items, e)
  }

  /** Pages of write e that recovery can account for: on flash, or overwritten while in the cache. */
  function Found(v: View, e: nat): nat {
    LaneCount(v.lanes, e) + DepCount(v.deps, e)
  }

  ghost predicate SpanIs(v: View, e: nat, span: nat) {
    && (forall b, i :: 0 <= b < |v.lanes| && 0 <= i < |v.lanes[b].items| && IsHost(v.lanes[b].items[i], e)
          ==> v.lanes[b].items[i].page.span == span)
    && (forall i :: 0 <= i < |v.deps| && v.deps[i].src == e ==> v.deps[i].span == span)
  }

  /** Every page of write e is accounted for. */
  ghost predicate Complete(v: View, e: nat) {
    Found(v, e) > 0 && SpanIs(v, e, Found(v, e))
  }

  ghost predicate FirstIncomplete(v: View, e: nat) {
    && v.commit < e
    && (forall k: nat :: v.commit < k < e ==> Complete(v, k))
    && !Complete(v, e)
  }

  // ---- Cuts that no dependency crosses ----

  ghost predicate Uncrossed(deps: seq<Dep>, cut: nat) {
    forall i :: 0 <= i < |deps| ==> !(deps[i].src < cut <= deps[i].dst)
  }

  /** cut is the greatest cut not above limit that no dependency crosses. */
  ghost predicate GreatestCut(deps: seq<Dep>, limit: nat, cut: nat) {
    && cut <= limit
    && Uncrossed(deps, cut)
    && (forall c: nat :: cut < c <= limit ==> !Uncrossed(deps, c))
  }

  // ---- The page map that recovery rebuilds ----

  predicate HostBelow(it: Item, lpn: nat, cut: nat) {
    it.page.Host? && it.page.lpn == lpn && it.page.epoch < cut
  }

  predicate CopyOf(it: Item, lpn: nat) {
    it.page.Copy? && it.page.lpn == lpn
  }

  /** Page lpn is mapped to its newest programmed version below the cut, failing that to a copy made
      by garbage collection, failing that to where it was at the commit. */
  ghost predicate Remapped(v: View, m: map<nat, Loc>, cut: nat, lpn: nat)
    requires |v.lanes| == NUM_BANKS
  {
    var items := v.Items(lpn);
    if exists i :: 0 <= i < |items| && HostBelow(items[i], lpn, cut) then
      && lpn in m
      && exists i :: 0 <= i < |items| && HostBelow(items[i], lpn, cut) && items[i].loc == m[lpn]
           && forall j :: 0 <= j < |items| && HostBelow(items[j], lpn, cut) ==> items[j].page.epoch <= items[i].page.epoch
    else if exists i :: 0 <= i < |items| && CopyOf(items[i], lpn) then
      lpn in m && exists i :: 0 <= i < |items| && CopyOf(items[i], lpn) && items[i].loc == m[lpn]
    else
      (lpn in m <==> lpn in v.cmap) && (lpn in m ==> m[lpn] == v.cmap[lpn])
  }

  /** The recovery point that v determines. A device on which no checkpoint was taken since it was formatted
      has 0xFFFFFFFF as its committed epoch: nothing is newer than that, and the cut one above it wraps to 0. */
  ghost predicate CutIs(v: View, cut: nat) {
    if v.commit == -1 then cut == 0
    else exists e: nat :: FirstIncomplete(v, e) && GreatestCut(v.deps, e, cut)
  }

  /** m and cut are what recovery must produce from v. */
  ghost predicate Recovered(v: View, m: map<nat, Loc>, cut: nat)
    requires |v.lanes| == NUM_BANKS
  {
    CutIs(v, cut) && forall lpn: nat :: Remapped(v, m, cut, lpn)
  }

  /** The recovered device holds exactly what the first cut requests wrote. */
  ghost predicate HoldsPrefix(data: map<Loc, DataPage>, m: map<nat, Loc>, reqs: seq<Request>, cut: nat) {
    cut <= |reqs| && forall lpn: nat :: PageRight(data, m, lpn, reqs, cut)
  }

  /** Page lpn is mapped if and only if one of the first n requests touched it, and holds what they left. */
  ghost predicate PageRight(data: map<Loc, DataPage>, m: map<nat, Loc>, lpn: nat, reqs: seq<Request>, n: nat)
    requires n <= |reqs|
  {
    && (lpn in m <==> TouchedBefore(reqs, n, lpn))
    && (lpn in m ==> PageHolds(data, m[lpn], lpn, reqs, n))
  }

  ghost predicate PageHolds(data: map<Loc, DataPage>, loc: Loc, lpn: nat, reqs: seq<Request>, n: nat)
    requires n <= |reqs|
  {
    && loc in data && !data[loc].Summary?
    && data[loc].lpn == lpn
    && Agrees(data[loc].content, lpn, reqs, n)
  }
}
