/** Counting pages over the lanes and over dependency lists. */
module Counting {
  import opened Recoverable

  lemma {:induction false} HostCountZero(items: seq<Item>, e: nat)
    requires forall i :: 0 <= i < |items| ==> !IsHost(items[i], e)
    ensures HostCount(items, e) == 0
  {
    if items != [] {
      HostCountZero(items[..|items| - 1], e);
    }
  }

  lemma {:induction false} LaneCountZero(lanes: seq<Lane>, e: nat)
    requires forall b, i :: 0 <= b < |lanes| && 0 <= i < |lanes[b].items| ==> !IsHost(lanes[b].items[i], e)
    ensures LaneCount(lanes, e) == 0
  {
    if lanes != [] {
      LaneCountZero(lanes[..|lanes| - 1], e);
      HostCountZero(lanes[|lanes| - 1].items, e);
    }
  }

  lemma {:induction false} DepCountZero(deps: seq<Dep>, e: nat)
    requires forall i :: 0 <= i < |deps| ==> deps[i].src != e
    ensures DepCount(deps, e) == 0
  {
    if deps != [] {
      DepCountZero(deps[..|deps| - 1], e);
    }
  }

  lemma {:induction false} DepCountPositive(deps: seq<Dep>, i: nat)
    requires i < |deps|
    ensures DepCount(deps, deps[i].src) > 0
  {
    if i < |deps| - 1 {
      DepCountPositive(deps[..|deps| - 1], i);
    }
  }

  lemma {:induction false} HostCountPositive(items: seq<Item>, i: nat)
    requires i < |items| && items[i].page.Host?
    ensures HostCount(items, items[i].page.epoch) > 0
  {
    if i < |items| - 1 {
      HostCountPositive(items[..|items| - 1], i);
    }
  }

  lemma {:induction false} LaneCountPositive(lanes: seq<Lane>, b: nat, i: nat)
    requires b < |lanes| && i < |lanes[b].items| && lanes[b].items[i].page.Host?
    ensures LaneCount(lanes, lanes[b].items[i].page.epoch) > 0
  {
    if b < |lanes| - 1 {
      LaneCountPositive(lanes[..|lanes| - 1], b, i);
    } else {
      HostCountPositive(lanes[b].items, i);
    }
  }

  lemma {:induction false} DepCountConcat(a: seq<Dep>, b: seq<Dep>, e: nat)
    ensures DepCount(a + b, e) == DepCount(a, e) + DepCount(b, e)
  {
    if b == [] {
      assert a + b == a;
    } else {
      assert (a + b)[..|a + b| - 1] == a + b[..|b| - 1];
      DepCountConcat(a, b[..|b| - 1], e);
    }
  }

  /** Programming a page into one lane changes the counts by that page. */
  lemma {:induction false} LaneCountAppend(lanes: seq<Lane>, b: nat, lane: Lane, it: Item, e: nat)
    requires b < |lanes|
    requires lane.items == lanes[b].items + [it]
    ensures LaneCount(lanes[b := lane], e) == LaneCount(lanes, e) + if IsHost(it, e) then 1 else 0
  {
    var k := |lanes| - 1;
    if b == k {
      assert lane.items[..|lane.items| - 1] == lanes[b].items;
      assert lanes[b := lane][..k] == lanes[..k];
    } else {
      assert lanes[b := lane][..k] == lanes[..k][b := lane];
      LaneCountAppend(lanes[..k], b, lane, it, e);
    }
  }

  /** Counts depend on the items of the lanes only. */
  lemma {:induction false} LaneCountSame(lanes: seq<Lane>, other: seq<Lane>, e: nat)
    requires |lanes| == |other| && forall b :: 0 <= b < |lanes| ==> lanes[b].items == other[b].items
    ensures LaneCount(lanes, e) == LaneCount(other, e)
  {
    if lanes != [] {
      LaneCountSame(lanes[..|lanes| - 1], other[..|lanes| - 1], e);
    }
  }
}
