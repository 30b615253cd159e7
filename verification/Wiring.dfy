/** The firmware's volatile lists - the block rings, the pending victims, the active pages and the lists for
    the summary pages - against the blocks of the device. */
module Wiring {
  import opened Geometry
  import opened Recoverable
  import opened Media
  import opened Banks
  import opened Room
  import R = Ring

  /** The lists of the block manager are those of the device. */
  ghost predicate Mirror(k: Bank, r: R.Ring, vt: nat, lpns: seq<nat>) {
    && r.Valid() && k.used == r.Used() && k.chain == r.Chain() && k.free == r.Free()
    && k.vt == vt && k.lpns == lpns
  }

  ghost predicate Mirrors(ks: seq<Bank>, rings: seq<R.Ring>, vt: seq<nat>, lpns: seq<seq<nat>>) {
    && |ks| == |rings| == |vt| == |lpns| == NUM_BANKS
    && forall b :: 0 <= b < NUM_BANKS ==> Mirror(ks[b], rings[b], vt[b], lpns[b])
  }

  lemma MirrorAt(ks: seq<Bank>, rings: seq<R.Ring>, vt: seq<nat>, lpns: seq<seq<nat>>, b: nat)
    requires Mirrors(ks, rings, vt, lpns) && b < NUM_BANKS
    ensures |ks| == |rings| == |vt| == |lpns| == NUM_BANKS
    ensures rings[b].Valid() && ks[b].used == rings[b].Used() && ks[b].chain == rings[b].Chain() && ks[b].free == rings[b].Free()
    ensures rings[b].free == |ks[b].free| && ks[b].vt == vt[b] && ks[b].lpns == lpns[b]
  {
    assert Mirror(ks[b], rings[b], vt[b], lpns[b]);
  }

  lemma MirrorsUpdate(ks: seq<Bank>, rings: seq<R.Ring>, vt: seq<nat>, lpns: seq<seq<nat>>, b: nat, k: Bank,
        rs: seq<R.Ring>, vs: seq<nat>, ls: seq<seq<nat>>)
    requires Mirrors(ks, rings, vt, lpns) && b < NUM_BANKS == |rs| == |vs| == |ls|
    requires rs[b].Valid() && k.used == rs[b].Used() && k.chain == rs[b].Chain() && k.free == rs[b].Free()
    requires k.vt == vs[b] && k.lpns == ls[b]
    requires forall c :: 0 <= c < NUM_BANKS && c != b ==> rs[c] == rings[c] && vs[c] == vt[c] && ls[c] == lpns[c]
    ensures Mirrors(ks[b := k], rs, vs, ls)
  {
    var qs := ks[b := k];
    forall c | 0 <= c < NUM_BANKS ensures Mirror(qs[c], rs[c], vs[c], ls[c]) {
      assert c != b ==> Mirror(ks[c], rings[c], vt[c], lpns[c]);
    }
  }

  /** The next page of each bank is the one after those programmed in its active block. */
  ghost predicate AlignedWith(active: seq<Pos>, ks: seq<Bank>) {
    |active| == |ks| == NUM_BANKS && forall b :: 0 <= b < NUM_BANKS ==> ActiveAt(active[b], ks[b])
  }

  ghost predicate ActiveAt(p: Pos, k: Bank) {
    |k.chain| > 0 && p == Pos(k.Active(), k.fill)
  }

  /** All banks but b are aligned, and b's next page but one is. */
  ghost predicate Ahead(active: seq<Pos>, ks: seq<Bank>, b: nat) {
    && |active| == |ks| == NUM_BANKS && b < NUM_BANKS
    && |ks[b].chain| > 0 && active[b] == Pos(ks[b].Active(), ks[b].fill + 1)
    && forall c :: 0 <= c < NUM_BANKS && c != b ==> ActiveAt(active[c], ks[c])
  }

  lemma AlignedAt(active: seq<Pos>, ks: seq<Bank>, b: nat)
    requires AlignedWith(active, ks) && b < NUM_BANKS
    ensures |active| == |ks| == NUM_BANKS && |ks[b].chain| > 0
    ensures active[b].blk == ks[b].chain[|ks[b].chain| - 1] && active[b].pg == ks[b].fill
  {
    assert ActiveAt(active[b], ks[b]);
  }

  lemma KeepAligned(active: seq<Pos>, ks: seq<Bank>, b: nat, q: Bank)
    requires AlignedWith(active, ks) && b < NUM_BANKS == |ks| && q.chain == ks[b].chain && q.fill == ks[b].fill
    ensures AlignedWith(active, ks[b := q])
  {
    var qs := ks[b := q];
    forall c | 0 <= c < NUM_BANKS ensures ActiveAt(active[c], qs[c]) {
      assert ActiveAt(active[c], ks[c]);
    }
  }

  lemma FillAhead(active: seq<Pos>, ks: seq<Bank>, b: nat, q: Bank)
    requires Ahead(active, ks, b) && b < NUM_BANKS && q.chain == ks[b].chain && q.fill == ks[b].fill + 1
    ensures AlignedWith(active, ks[b := q])
  {
    var qs := ks[b := q];
    forall c | 0 <= c < NUM_BANKS ensures ActiveAt(active[c], qs[c]) {
      assert c != b ==> ActiveAt(active[c], ks[c]);
    }
  }

  ghost predicate PushedAll(ks: seq<Bank>, qs: seq<Bank>) {
    |ks| == |qs| == NUM_BANKS && forall b :: 0 <= b < NUM_BANKS ==> PushedOne(ks[b], qs[b])
  }

  ghost predicate PushedOne(k: Bank, q: Bank) {
    |k.chain| > 0 && q == Pushed(k) && Writable(q) == Writable(k)
  }

  lemma AlignedPushed(active: seq<Pos>, ks: seq<Bank>, qs: seq<Bank>)
    requires AlignedWith(active, ks) && PushedAll(ks, qs)
    ensures AlignedWith(active, qs)
  {
    forall b | 0 <= b < NUM_BANKS ensures ActiveAt(active[b], qs[b]) {
      assert ActiveAt(active[b], ks[b]) && PushedOne(ks[b], qs[b]);
    }
  }

  lemma MirrorsPushed(ks: seq<Bank>, qs: seq<Bank>, rings: seq<R.Ring>, rs: seq<R.Ring>, vt: seq<nat>, lpns: seq<seq<nat>>)
    requires Mirrors(ks, rings, vt, lpns) && PushedAll(ks, qs)
    requires |rs| == NUM_BANKS && forall b :: 0 <= b < NUM_BANKS ==> R.PushedTo(rings[b], rs[b])
    ensures Mirrors(qs, rs, vt, lpns)
  {
    forall b | 0 <= b < NUM_BANKS ensures Mirror(qs[b], rs[b], vt[b], lpns[b]) {
      assert Mirror(ks[b], rings[b], vt[b], lpns[b]) && PushedOne(ks[b], qs[b]) && R.PushedTo(rings[b], rs[b]);
    }
  }

  ghost predicate SameWritables(ks: seq<Bank>, qs: seq<Bank>) {
    |ks| == |qs| == NUM_BANKS && forall b :: 0 <= b < NUM_BANKS ==> Writable(qs[b]) == Writable(ks[b])
  }

  lemma PushedWritables(ks: seq<Bank>, qs: seq<Bank>)
    requires PushedAll(ks, qs)
    ensures SameWritables(ks, qs)
  {
    forall b | 0 <= b < NUM_BANKS ensures Writable(qs[b]) == Writable(ks[b]) {
      assert PushedOne(ks[b], qs[b]);
    }
  }

  lemma SameWritablesTrans(a: seq<Bank>, b: seq<Bank>, c: seq<Bank>)
    requires SameWritables(a, b) && SameWritables(b, c)
    ensures SameWritables(a, c)
  {
  }

  lemma FreeMirrored(ks: seq<Bank>, rings: seq<R.Ring>, vt: seq<nat>, lpns: seq<seq<nat>>)
    requires Mirrors(ks, rings, vt, lpns)
    ensures |ks| == |rings| == NUM_BANKS && forall b :: 0 <= b < NUM_BANKS ==> |ks[b].free| == rings[b].free
  {
    forall b | 0 <= b < NUM_BANKS ensures |ks[b].free| == rings[b].free {
      MirrorAt(ks, rings, vt, lpns, b);
    }
  }
}
