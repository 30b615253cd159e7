/** Valid page counts of blocks against the page map. */
module ValidCounts {
  import opened Geometry
  import opened Recoverable
  import opened FlashSteps

  /** The logical pages that are mapped into a block. */
  function MappedTo(pmap: map<nat, Loc>, b: nat, blk: nat): set<nat> {
    set l | l in pmap && InBlock(pmap[l], b, blk)
  }

  function CountOf(vcount: map<(nat, nat), nat>, b: nat, blk: nat): nat {
    if (b, blk) in vcount then vcount[(b, blk)] else 0
  }

  /** Every block's count is the number of pages mapped into it. */
  ghost predicate Exact(vcount: map<(nat, nat), nat>, pmap: map<nat, Loc>) {
    forall b: nat, blk: nat :: CountOf(vcount, b, blk) == |MappedTo(pmap, b, blk)|
  }

  /** Exact but for the pages that are no longer counted in block blk of bank b. */
  ghost predicate ExactBut(vcount: map<(nat, nat), nat>, pmap: map<nat, Loc>, b: nat, blk: nat) {
    forall c: nat, x: nat :: (c, x) != (b, blk) ==> CountOf(vcount, c, x) == |MappedTo(pmap, c, x)|
  }

  /** Exact but for page lpn, which is counted nowhere. */
  ghost predicate ExactWithout(vcount: map<(nat, nat), nat>, pmap: map<nat, Loc>, lpn: nat) {
    forall b: nat, blk: nat :: CountOf(vcount, b, blk) == |MappedTo(pmap, b, blk) - {lpn}|
  }

  lemma ExactAt(vcount: map<(nat, nat), nat>, pmap: map<nat, Loc>, b: nat, blk: nat)
    requires Exact(vcount, pmap)
    ensures CountOf(vcount, b, blk) == |MappedTo(pmap, b, blk)|
    ensures ExactBut(vcount, pmap, b, blk)
  {
  }

  function Counted(vcount: map<(nat, nat), nat>, b: nat, blk: nat, n: nat): map<(nat, nat), nat> {
    vcount[(b, blk) := n]
  }

  lemma MappedToMove(pmap: map<nat, Loc>, lpn: nat, loc: Loc, b: nat, blk: nat)
    ensures MappedTo(pmap[lpn := loc], b, blk) ==
            if InBlock(loc, b, blk) then MappedTo(pmap, b, blk) + {lpn} else MappedTo(pmap, b, blk) - {lpn}
  {
  }

  // ---- dequeue: the old block's count goes down, the new block's goes up ----

  lemma DownOne(vcount: map<(nat, nat), nat>, pmap: map<nat, Loc>, lpn: nat)
    requires Exact(vcount, pmap) && lpn in pmap
    ensures CountOf(vcount, pmap[lpn].bank, pmap[lpn].blk) > 0
    ensures ExactWithout(Counted(vcount, pmap[lpn].bank, pmap[lpn].blk, CountOf(vcount, pmap[lpn].bank, pmap[lpn].blk) - 1), pmap, lpn)
  {
    assert lpn in MappedTo(pmap, pmap[lpn].bank, pmap[lpn].blk);
    forall b: nat, blk: nat | (b, blk) != (pmap[lpn].bank, pmap[lpn].blk) ensures MappedTo(pmap, b, blk) - {lpn} == MappedTo(pmap, b, blk) {
      assert lpn !in MappedTo(pmap, b, blk);
    }
  }

  lemma UpOne(down: map<(nat, nat), nat>, pmap: map<nat, Loc>, lpn: nat, loc: Loc)
    requires ExactWithout(down, pmap, lpn)
    ensures Exact(Counted(down, loc.bank, loc.blk, CountOf(down, loc.bank, loc.blk) + 1), pmap[lpn := loc])
  {
    var up := Counted(down, loc.bank, loc.blk, CountOf(down, loc.bank, loc.blk) + 1);
    forall b: nat, blk: nat ensures CountOf(up, b, blk) == |MappedTo(pmap[lpn := loc], b, blk)| {
      MappedToMove(pmap, lpn, loc, b, blk);
      WithOne(MappedTo(pmap, b, blk), lpn);
    }
  }

  lemma WithOne(s: set<nat>, x: nat)
    ensures |s + {x}| == |s - {x}| + 1
  {
    assert s + {x} == (s - {x}) + {x};
  }

  lemma CountedAt(down: map<(nat, nat), nat>, pmap: map<nat, Loc>, lpn: nat, loc: Loc)
    requires ExactWithout(down, pmap, lpn)
    ensures CountOf(down, loc.bank, loc.blk) == |MappedTo(pmap, loc.bank, loc.blk) - {lpn}|
  {
  }

  lemma DownNone(vcount: map<(nat, nat), nat>, pmap: map<nat, Loc>, lpn: nat)
    requires Exact(vcount, pmap) && lpn !in pmap
    ensures ExactWithout(vcount, pmap, lpn)
  {
    forall b: nat, blk: nat ensures MappedTo(pmap, b, blk) - {lpn} == MappedTo(pmap, b, blk) {
      assert lpn !in MappedTo(pmap, b, blk);
    }
  }

  /** A valid page leaves the victim: only the count of the block it moves to changes. */
  lemma MoveExact(vcount: map<(nat, nat), nat>, pmap: map<nat, Loc>, lpn: nat, loc: Loc, b: nat, blk: nat)
    requires ExactBut(vcount, pmap, b, blk)
    requires lpn in pmap && InBlock(pmap[lpn], b, blk) && !InBlock(loc, b, blk)
    ensures ExactBut(Counted(vcount, loc.bank, loc.blk, CountOf(vcount, loc.bank, loc.blk) + 1), pmap[lpn := loc], b, blk)
    ensures |MappedTo(pmap[lpn := loc], b, blk)| == |MappedTo(pmap, b, blk)| - 1
  {
    var up := Counted(vcount, loc.bank, loc.blk, CountOf(vcount, loc.bank, loc.blk) + 1);
    forall c: nat, x: nat | (c, x) != (b, blk) ensures CountOf(up, c, x) == |MappedTo(pmap[lpn := loc], c, x)| {
      MappedToMove(pmap, lpn, loc, c, x);
      assert lpn !in MappedTo(pmap, c, x);
    }
    MappedToMove(pmap, lpn, loc, b, blk);
    assert lpn in MappedTo(pmap, b, blk);
  }

  /** The count of the block that takes the copy, and what MoveExact says of it. */
  lemma MovedCount(vcount: map<(nat, nat), nat>, pmap: map<nat, Loc>, lpn: nat, to: Loc, b: nat, blk: nat)
    requires ExactBut(vcount, pmap, b, blk)
    requires lpn in pmap && InBlock(pmap[lpn], b, blk) && to.bank == b && to.blk != blk
    ensures CountOf(vcount, b, to.blk) == |MappedTo(pmap, b, to.blk) - {lpn}|
    ensures ExactBut(Counted(vcount, b, to.blk, CountOf(vcount, b, to.blk) + 1), pmap[lpn := to], b, blk)
    ensures |MappedTo(pmap[lpn := to], b, blk)| == |MappedTo(pmap, b, blk)| - 1
  {
    MoveExact(vcount, pmap, lpn, to, b, blk);
    assert lpn !in MappedTo(pmap, b, to.blk);
    assert MappedTo(pmap, b, to.blk) - {lpn} == MappedTo(pmap, b, to.blk);
  }

  /** Setting the victim's count to zero when nothing is mapped into it any more. */
  lemma ClearExact(vcount: map<(nat, nat), nat>, pmap: map<nat, Loc>, b: nat, blk: nat)
    requires ExactBut(vcount, pmap, b, blk) && MappedTo(pmap, b, blk) == {}
    ensures Exact(Counted(vcount, b, blk, 0), pmap)
  {
  }

  function Below(n: nat): set<nat> {
    if n == 0 then {} else Below(n - 1) + {n - 1}
  }

  lemma {:induction false} BelowSize(n: nat)
    ensures |Below(n)| == n && forall p: nat :: p in Below(n) <==> p < n
  {
    if n > 0 {
      BelowSize(n - 1);
    }
  }

  lemma {:induction false} InjectionSize(s: set<nat>, f: map<nat, nat>, t: set<nat>)
    requires forall x :: x in s ==> x in f && f[x] in t
    requires forall x, y :: x in s && y in s && f[x] == f[y] ==> x == y
    ensures |s| <= |t|
  {
    if s != {} {
      var x :| x in s;
      InjectionSize(s - {x}, f, t - {f[x]});
    }
  }

  /** A block holds at most as many valid pages as it has programmed ones. */
  lemma CountAtMost(data: map<Loc, DataPage>, pmap: map<nat, Loc>, b: nat, blk: nat, fill: nat)
    requires forall l :: l in pmap ==> pmap[l] in data && !data[pmap[l]].Summary? && data[pmap[l]].lpn == l
    requires forall l :: l in pmap && InBlock(pmap[l], b, blk) ==> pmap[l].pg < fill
    ensures |MappedTo(pmap, b, blk)| <= fill
  {
    var s := MappedTo(pmap, b, blk);
    var f := map l | l in s :: pmap[l].pg;
    forall x, y | x in s && y in s && f[x] == f[y] ensures x == y {
      assert pmap[x] == Loc(b, blk, f[x]) == pmap[y];
    }
    BelowSize(fill);
    InjectionSize(s, f, Below(fill));
  }

  function SumCounts(vcount: map<(nat, nat), nat>, b: nat, blks: seq<nat>): nat {
    if blks == [] then 0 else SumCounts(vcount, b, blks[..|blks| - 1]) + CountOf(vcount, b, blks[|blks| - 1])
  }

  function MappedToAny(pmap: map<nat, Loc>, b: nat, blks: seq<nat>): set<nat> {
    set l | l in pmap && pmap[l].bank == b && pmap[l].blk in blks
  }

  lemma OneMore(pmap: map<nat, Loc>, b: nat, blks: seq<nat>)
    requires |blks| > 0 && blks[|blks| - 1] !in blks[..|blks| - 1]
    ensures var k := |blks| - 1;
      |MappedToAny(pmap, b, blks)| == |MappedToAny(pmap, b, blks[..k])| + |MappedTo(pmap, b, blks[k])|
  {
    var k := |blks| - 1;
    assert blks == blks[..k] + [blks[k]];
    var rest, last := MappedToAny(pmap, b, blks[..k]), MappedTo(pmap, b, blks[k]);
    assert MappedToAny(pmap, b, blks) == rest + last && rest !! last;
  }

  /** The counts of the blocks of a bank add up to the pages mapped into them. */
  lemma {:induction false} CountsAddUp(vcount: map<(nat, nat), nat>, pmap: map<nat, Loc>, b: nat, blks: seq<nat>)
    requires Exact(vcount, pmap) && forall i, j :: 0 <= i < j < |blks| ==> blks[i] != blks[j]
    ensures SumCounts(vcount, b, blks) == |MappedToAny(pmap, b, blks)|
  {
    if blks == [] {
      assert MappedToAny(pmap, b, blks) == {};
    } else {
      var k := |blks| - 1;
      CountsAddUp(vcount, pmap, b, blks[..k]);
      assert blks[k] !in blks[..k];
      OneMore(pmap, b, blks);
    }
  }
}
