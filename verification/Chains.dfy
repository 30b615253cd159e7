/** Chains of data blocks: how programming a page, linking a block and erasing another block change what
    a walk of the chain reads. */
module Chains {
  import opened Geometry
  import opened Recoverable
  import opened Media

  function Last(blks: seq<nat>): nat
    requires |blks| > 0
  {
    blks[|blks| - 1]
  }

  ghost predicate LastIsNew(blks: seq<nat>)
    requires |blks| > 0
  {
    forall i :: 0 <= i < |blks| - 1 ==> blks[i] != Last(blks)
  }

  /** A walk depends only on the blocks of the chain. */
  lemma {:induction false} WalksFrame(data: map<Loc, DataPage>, other: map<Loc, DataPage>, b: nat, blks: seq<nat>,
        pg: nat, items: seq<Item>)
    requires pg <= LAST_PAGE
    requires Walks(data, b, blks, pg, items)
    requires forall blk, p: nat :: blk in blks && p <= LAST_PAGE ==>
               var l := Loc(b, blk, p); (l in data <==> l in other) && (l in data ==> data[l] == other[l])
    ensures Walks(other, b, blks, pg, items)
    decreases |blks|, LAST_PAGE - pg
  {
    assert blks[0] in blks;
    var l := Loc(b, blks[0], LAST_PAGE);
    if pg < LAST_PAGE && Loc(b, blks[0], pg) in data {
      WalksFrame(data, other, b, blks, pg + 1, items[1..]);
    } else if l in data {
      assert forall blk :: blk in blks[1..] ==> blk in blks;
      WalksFrame(data, other, b, blks[1..], 0, items);
    }
  }

  /** Every page the walk visits is in a block of the chain, and is on flash as visited. */
  lemma {:induction false} WalksLocs(data: map<Loc, DataPage>, b: nat, blks: seq<nat>, pg: nat, items: seq<Item>, i: nat)
    requires pg <= LAST_PAGE && i < |items|
    requires Walks(data, b, blks, pg, items)
    ensures items[i].loc.bank == b && items[i].loc.blk in blks && items[i].loc.pg < LAST_PAGE
    ensures items[i].loc in data && data[items[i].loc] == items[i].page
    decreases |blks|, LAST_PAGE - pg
  {
    if pg < LAST_PAGE && Loc(b, blks[0], pg) in data {
      if i > 0 {
        WalksLocs(data, b, blks, pg + 1, items[1..], i - 1);
      }
    } else {
      WalksLocs(data, b, blks[1..], 0, items, i);
    }
  }

  /** The pages of the last block up to fill are programmed, and no others. */
  ghost predicate FilledTo(data: map<Loc, DataPage>, b: nat, blk: nat, fill: nat) {
    forall p: nat :: p <= LAST_PAGE ==> (Loc(b, blk, p) in data <==> p < fill)
  }

  /** Programming the next page of the active block appends it to the walk. */
  lemma {:induction false} WalksAppend(data: map<Loc, DataPage>, b: nat, blks: seq<nat>, pg: nat, items: seq<Item>,
        fill: nat, page: DataPage)
    requires pg <= LAST_PAGE && fill < LAST_PAGE
    requires Walks(data, b, blks, pg, items)
    requires FilledTo(data, b, Last(blks), fill)
    requires |blks| == 1 ==> pg <= fill
    requires LastIsNew(blks)
    ensures var l := Loc(b, Last(blks), fill); Walks(data[l := page], b, blks, pg, items + [Item(l, page)])
    decreases |blks|, LAST_PAGE - pg
  {
    var l := Loc(b, Last(blks), fill);
    var more := items + [Item(l, page)];
    if pg < LAST_PAGE && Loc(b, blks[0], pg) in data {
      assert more[1..] == items[1..] + [Item(l, page)];
      WalksAppend(data, b, blks, pg + 1, items[1..], fill, page);
    } else if Loc(b, blks[0], LAST_PAGE) in data {
      assert blks[0] != Last(blks);
      WalksAppend(data, b, blks[1..], 0, items, fill, page);
    } else {
      assert pg == fill;
      WalksAtEnd(data[l := page], b, blks[0], fill + 1);
      assert more[1..] == [];
    }
  }

  lemma WalksAtEnd(data: map<Loc, DataPage>, b: nat, blk: nat, fill: nat)
    requires fill <= LAST_PAGE && FilledTo(data, b, blk, fill)
    ensures Walks(data, b, [blk], fill, [])
  {
    if fill < LAST_PAGE {
      assert Loc(b, blk, fill) !in data;
    }
    assert Loc(b, blk, LAST_PAGE) !in data;
  }

  /** Programming the summary page of a full block extends the chain by an empty block. */
  lemma {:induction false} WalksLink(data: map<Loc, DataPage>, b: nat, blks: seq<nat>, pg: nat, items: seq<Item>,
        lpns: seq<nat>, next: nat)
    requires pg <= LAST_PAGE
    requires Walks(data, b, blks, pg, items)
    requires FilledTo(data, b, Last(blks), LAST_PAGE)
    requires FilledTo(data, b, next, 0)
    requires LastIsNew(blks) && next !in blks
    ensures Walks(data[Loc(b, Last(blks), LAST_PAGE) := Summary(lpns, next)], b, blks + [next], pg, items)
    decreases |blks|, LAST_PAGE - pg
  {
    var d := data[Loc(b, Last(blks), LAST_PAGE) := Summary(lpns, next)];
    if pg < LAST_PAGE && Loc(b, blks[0], pg) in data {
      WalksLink(data, b, blks, pg + 1, items[1..], lpns, next);
    } else if Loc(b, blks[0], LAST_PAGE) in data {
      assert blks[0] != Last(blks);
      assert (blks + [next])[1..] == blks[1..] + [next];
      WalksLink(data, b, blks[1..], 0, items, lpns, next);
    } else {
      assert pg == LAST_PAGE;
      assert (blks + [next])[1..] == [next];
      assert forall p: nat :: p <= LAST_PAGE ==> Loc(b, next, p) !in d;
      WalksAtEnd(d, b, next, 0);
    }
  }
}
