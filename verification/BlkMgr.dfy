/** blkmgr.c: the block rings, the pending victims, the valid counts and the garbage collection
    thresholds. Only region 1 is modelled: the firmware never writes to region 0. */
module BlkMgr {
  import opened Geometry
  import opened Ring
  import opened ValidCounts
  import opened Sums

  function Shortage(r: Ring): nat {
    if r.free < GC_THRESHOLD then GC_THRESHOLD - r.free else 0
  }

  class BlkMgr {
    var rings: seq<Ring>
    /** vt_blk: a collected block that is still to be erased, 0 if there is none. */
    var vt: seq<nat>
    var vcount: map<(nat, nat), nat>
    /** The blocks of each bank, as found at first. */
    ghost const blocks: seq<seq<nat>>

    /** Every ring is a permutation of the blocks it was made of. */
    ghost predicate Valid()
      reads this
    {
      && |rings| == |vt| == |blocks| == NUM_BANKS
      && forall b :: 0 <= b < NUM_BANKS ==> rings[b].Valid() && multiset(rings[b].blks) == multiset(blocks[b])
    }

    /** Each bank's good data blocks form its ring, and the first of them is opened. */
    constructor (blocks: seq<seq<nat>>)
      requires |blocks| == NUM_BANKS
      requires forall b :: 0 <= b < NUM_BANKS ==> |blocks[b]| > GC_THRESHOLD && Distinct(blocks[b])
      requires forall b, i :: 0 <= b < NUM_BANKS && 0 <= i < |blocks[b]| ==> blocks[b][i] > 0
      ensures Valid() && vcount == map[] && this.blocks == blocks
      ensures forall b :: 0 <= b < NUM_BANKS ==> vt[b] == 0 && rings[b].blks == blocks[b]
      ensures forall b :: 0 <= b < NUM_BANKS ==>
                rings[b].Used() == [] && rings[b].Chain() == [blocks[b][0]] && rings[b].Free() == blocks[b][1..]
    {
      rings := seq<Ring>(NUM_BANKS, b requires 0 <= b < NUM_BANKS => Ring(blocks[b], 0, 1, 0, |blocks[b]| - 1));
      vt := seq<nat>(NUM_BANKS, b => 0);
      vcount := map[];
      this.blocks := blocks;
    }

    method GetAndIncActiveBlk(bank: nat) returns (blk: nat)
      requires Valid() && bank < NUM_BANKS && rings[bank].free > 0
      modifies this`rings
      ensures Valid() && |rings| == |old(rings)|
      ensures forall b :: 0 <= b < NUM_BANKS && b != bank ==> rings[b] == old(rings)[b]
      ensures rings[bank].Used() == old(rings)[bank].Used()
      ensures rings[bank].Chain() == old(rings)[bank].Chain() + [blk]
      ensures old(rings)[bank].Free() == [blk] + rings[bank].Free()
    {
      var r := rings[bank];
      OpenedArcs(r);
      blk := r.blks[r.head];
      rings := rings[bank := Opened(r)];
    }

    /** push_rsv for every bank: all blocks but the active one may be collected from now on. */
    method PushRsv()
      requires Valid()
      modifies this`rings
      ensures Valid() && |rings| == |old(rings)| == NUM_BANKS
      ensures forall b :: 0 <= b < NUM_BANKS ==> PushedTo(old(rings)[b], rings[b])
    {
      var bank := 0;
      ghost var was := rings;
      while bank < NUM_BANKS
        invariant 0 <= bank <= NUM_BANKS && Valid()
        invariant forall b :: bank <= b < NUM_BANKS ==> rings[b] == was[b]
        invariant forall b :: 0 <= b < bank ==> PushedTo(was[b], rings[b])
      {
        PushedArcs(rings[bank]);
        rings := rings[bank := Pushed(rings[bank])];
        bank := bank + 1;
      }
    }

    method IncVcount(bank: nat, blk: nat)
      requires CountOf(vcount, bank, blk) + 1 < PAGES_PER_VBLK  // asserted by the source
      modifies this`vcount
      ensures vcount == Counted(old(vcount), bank, blk, CountOf(old(vcount), bank, blk) + 1)
    {
      vcount := vcount[(bank, blk) := CountOf(vcount, bank, blk) + 1];
    }

    method DecVcount(bank: nat, blk: nat)
      requires CountOf(vcount, bank, blk) != 0  // asserted by the source
      modifies this`vcount
      ensures vcount == Counted(old(vcount), bank, blk, CountOf(old(vcount), bank, blk) - 1)
    {
      vcount := vcount[(bank, blk) := CountOf(vcount, bank, blk) - 1];
    }

    /** set_vcount */
    method SetVcount(bank: nat, blk: nat, n: nat)
      requires n <= PAGES_PER_VBLK  // asserted by the source
      modifies this`vcount
      ensures vcount == Counted(old(vcount), bank, blk, n)
    {
      vcount := vcount[(bank, blk) := n];
    }

    /** The blocks that each of the first n banks is short of. */
    function Shortages(n: nat): (s: seq<nat>)
      reads this
      requires n <= |rings|
    {
      var rs := rings;
      seq<nat>(n, b requires 0 <= b < n <= |rs| => Shortage(rs[b]))
    }

    /** blkmgr_reach_batch_gc_threshold: the banks together are short of more blocks than the threshold. While
        they are not, no bank is short of that many; and if they are, some bank is short. */
    method ReachBatchGcThreshold() returns (reached: bool)
      requires Valid()
      ensures reached <==> Total(Shortages(NUM_BANKS)) > BATCH_GC_THRESHOLD
      ensures !reached ==> forall b :: 0 <= b < NUM_BANKS ==> rings[b].free >= GC_THRESHOLD - BATCH_GC_THRESHOLD
      ensures reached ==> exists b :: 0 <= b < NUM_BANKS && rings[b].free < GC_THRESHOLD
    {
      var n: nat := 0;
      var bank: nat := 0;
      while bank < NUM_BANKS
        invariant bank <= NUM_BANKS && n == Total(Shortages(bank))
        invariant n > 0 ==> exists b :: 0 <= b < NUM_BANKS && rings[b].free < GC_THRESHOLD
      {
        n := n + Shortage(rings[bank]);
        bank := bank + 1;
        assert Shortages(bank)[..bank - 1] == Shortages(bank - 1);
      }
      reached := n > BATCH_GC_THRESHOLD;
      forall b: nat | b < NUM_BANKS && !reached ensures rings[b].free >= GC_THRESHOLD - BATCH_GC_THRESHOLD {
        TotalAtLeast(Shortages(NUM_BANKS), b);
      }
    }

    predicate ReachGcThreshold(bank: nat)
      reads this
      requires bank < |rings|
    {
      rings[bank].free < GC_THRESHOLD
    }

    lemma ThresholdMeans(bank: nat)
      requires bank < |rings|
      ensures ReachGcThreshold(bank) <==> rings[bank].free < GC_THRESHOLD
    {
    }

    /** get_victim_blk: the victim is the first to have the fewest valid pages of the blocks closed before the last commit,
        and is now the one at the tail. */
    method GetVictimBlk(bank: nat) returns (blk: nat, ghost k: nat)
      requires Valid() && bank < NUM_BANKS && rings[bank].tail != rings[bank].rsv
      modifies this`rings
      ensures Valid() && |rings| == |old(rings)|
      ensures forall b :: 0 <= b < NUM_BANKS && b != bank ==> rings[b] == old(rings)[b]
      ensures var o := old(rings)[bank];
        && k < |o.Used()| && blk == o.Used()[k]
        && (forall i :: 0 <= i < |o.Used()| ==> CountOf(vcount, bank, blk) <= CountOf(vcount, bank, o.Used()[i]))
        && (forall i :: 0 <= i < k ==> CountOf(vcount, bank, blk) < CountOf(vcount, bank, o.Used()[i]))
        && rings[bank].Used() == o.Used()[0 := blk][k := o.Used()[0]]
        && rings[bank].Chain() == o.Chain() && rings[bank].Free() == o.Free()
    {
      var counts := vcount;
      var r;
      r, blk, k := GetVictim(rings[bank], x => CountOf(counts, bank, x));
      rings := rings[bank := r];
    }

    /** vt_blk is forgotten once it is erased. */
    method ClearVt(bank: nat)
      requires Valid() && bank < NUM_BANKS
      modifies this`vt
      ensures Valid() && vt == old(vt)[bank := 0]
    {
      vt := vt[bank := 0];
    }

    /** The end of garbage_collection: the victim at the tail joins the free blocks, to be erased later. */
    method RetireVictim(bank: nat, blk: nat)
      requires Valid() && bank < NUM_BANKS && |rings[bank].Used()| > 0 && rings[bank].Used()[0] == blk
      modifies this`rings, this`vt, this`vcount
      ensures Valid() && vt == old(vt)[bank := blk] && vcount == Counted(old(vcount), bank, blk, 0)
      ensures |rings| == |old(rings)|
      ensures forall b :: 0 <= b < NUM_BANKS && b != bank ==> rings[b] == old(rings)[b]
      ensures rings[bank].Used() == old(rings)[bank].Used()[1..]
      ensures rings[bank].Chain() == old(rings)[bank].Chain()
      ensures rings[bank].Free() == old(rings)[bank].Free() + [blk]
    {
      RetiredArcs(rings[bank]);
      vt := vt[bank := blk];
      vcount := vcount[(bank, blk) := 0];
      rings := rings[bank := Retired(rings[bank])];
    }
  }
}
