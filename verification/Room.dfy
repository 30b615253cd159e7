/** Space: the pages a bank can still take, and how far its chain may grow between two commits. */
module Room {
  import opened Geometry
  import opened Banks
  import opened Sums
  import Arith

  /** The buffer of mapping entries holds this many; the source asserts that it never overflows. */
  const MAX_MAPENTS: nat := 2 * NUM_BANKS * NUM_MAPENTS_PER_PAGE

  /** With rings of this size, a bank short of free blocks has blocks to collect. */
  const MIN_RING: nat := GC_THRESHOLD + 2 + MAX_MAPENTS / LAST_PAGE

  /** Pages that can be programmed before the bank runs out of blocks. */
  function Writable(k: Bank): int {
    |k.free| * LAST_PAGE + LAST_PAGE - k.fill
  }

  /** Pages of the chain up to the active one. */
  function Depth(k: Bank): int {
    (|k.chain| - 1) * LAST_PAGE + k.fill
  }

  /** n mapping entries were buffered since the commit: the chain is no longer than they explain. */
  ghost predicate SizedBank(k: Bank, n: nat, commit: int) {
    && |k.used| + |k.chain| + |k.free| >= MIN_RING
    && (forall i :: 0 <= i < |k.used| ==> k.used[i] > 0)
    && (forall i :: 0 <= i < |k.chain| ==> k.chain[i] > 0)
    && Depth(k) <= n + LAST_PAGE
    && (commit == -1 ==> k.used == [])
  }

  ghost predicate Sized(ks: seq<Bank>, n: nat, commit: int) {
    |ks| == NUM_BANKS && forall b :: 0 <= b < NUM_BANKS ==> SizedBank(ks[b], n, commit)
  }

  lemma SizedUpdate(ks: seq<Bank>, b: nat, q: Bank, n: nat, m: nat, commit: int)
    requires Sized(ks, n, commit) && b < NUM_BANKS && n <= m && SizedBank(q, m, commit)
    ensures Sized(ks[b := q], m, commit)
  {
    var qs := ks[b := q];
    forall c | 0 <= c < NUM_BANKS ensures SizedBank(qs[c], m, commit) {
      assert SizedBank(ks[c], n, commit);
    }
  }

  lemma FilledSized(ks: seq<Bank>, b: nat, lpn: nat, n: nat, commit: int)
    requires Sized(ks, n, commit) && b < NUM_BANKS && ks[b].fill < |ks[b].lpns|
    ensures Writable(Filled(ks[b], lpn)) == Writable(ks[b]) - 1
    ensures Sized(ks[b := Filled(ks[b], lpn)], n + 1, commit)
  {
    assert SizedBank(ks[b], n, commit);
    SizedUpdate(ks, b, Filled(ks[b], lpn), n, n + 1, commit);
  }

  lemma LinkedSized(ks: seq<Bank>, b: nat, n: nat, commit: int)
    requires Sized(ks, n, commit) && b < NUM_BANKS
    requires var k := ks[b]; k.fill == LAST_PAGE && |k.free| > 0 && k.free[0] > 0 && |k.chain| > 0
    ensures Writable(Linked(ks[b])) == Writable(ks[b])
    ensures Sized(ks[b := Linked(ks[b])], n, commit)
  {
    var k := ks[b];
    assert (|k.chain| - 1) * LAST_PAGE + LAST_PAGE == |k.chain| * LAST_PAGE;
    assert (|k.free| - 1) * LAST_PAGE + LAST_PAGE == |k.free| * LAST_PAGE;
    assert SizedBank(k, n, commit);
    SizedUpdate(ks, b, Linked(k), n, n, commit);
  }

  lemma SwappedSized(ks: seq<Bank>, b: nat, i: nat, n: nat, commit: int)
    requires Sized(ks, n, commit) && b < NUM_BANKS && i < |ks[b].used|
    ensures Writable(Swapped(ks[b], i)) == Writable(ks[b])
    ensures Sized(ks[b := Swapped(ks[b], i)], n, commit)
  {
    assert SizedBank(ks[b], n, commit);
    SizedUpdate(ks, b, Swapped(ks[b], i), n, n, commit);
  }

  lemma ErasedSized(ks: seq<Bank>, b: nat, n: nat, commit: int)
    requires Sized(ks, n, commit) && b < NUM_BANKS
    ensures Sized(ks[b := ks[b].(vt := 0)], n, commit)
  {
    assert SizedBank(ks[b], n, commit);
    SizedUpdate(ks, b, ks[b].(vt := 0), n, n, commit);
  }

  /** Collecting a block gives back its pages but the one for the summary. */
  lemma RetiredSized(ks: seq<Bank>, b: nat, n: nat, commit: int)
    requires Sized(ks, n, commit) && b < NUM_BANKS && |ks[b].used| > 0
    ensures Writable(Retire(ks[b])) == Writable(ks[b]) + LAST_PAGE
    ensures Sized(ks[b := Retire(ks[b])], n, commit)
  {
    var k := ks[b];
    assert (|k.free| + 1) * LAST_PAGE == |k.free| * LAST_PAGE + LAST_PAGE;
    assert SizedBank(k, n, commit);
    SizedUpdate(ks, b, Retire(k), n, n, commit);
  }

  lemma PushedSized(k: Bank, n: nat, commit: int, later: nat)
    requires SizedBank(k, n, commit) && |k.chain| > 0 && k.fill <= LAST_PAGE
    ensures Writable(Pushed(k)) == Writable(k)
    ensures SizedBank(Pushed(k), 0, later)
  {
    assert 0 * LAST_PAGE == 0;
  }

  /** get_victim_blk never finds tail at rsv: a bank short of free blocks has blocks to collect. */
  lemma HasVictim(k: Bank, n: nat, commit: int)
    requires SizedBank(k, n, commit) && n <= MAX_MAPENTS && |k.free| < GC_THRESHOLD && |k.chain| > 0
    ensures |k.used| > 0
  {
    if |k.chain| >= 2 {
      var c: nat := |k.chain| - 2;
      assert (|k.chain| - 1) * LAST_PAGE == c * LAST_PAGE + LAST_PAGE;
      Arith.DivMonotone(c * LAST_PAGE, MAX_MAPENTS, LAST_PAGE);
      Arith.DivUnique(c * LAST_PAGE, LAST_PAGE, c, 0);
    }
  }

  /** Enough room for the next block to be opened. */
  lemma RoomToLink(k: Bank)
    requires Writable(k) >= 2 * LAST_PAGE && k.fill == LAST_PAGE
    ensures |k.free| >= 2
  {
    if |k.free| <= 1 {
      Arith.MulMonotone(|k.free|, 1, LAST_PAGE);
    }
  }

  /** Every bank can take p pages on top of its dirty ones, and the mapping entries of all that is buffered
      and dirty do not exceed q. */
  ghost predicate HasRoom(ks: seq<Bank>, n: nat, dirty: seq<nat>, p: int, q: int) {
    && |ks| == |dirty| == NUM_BANKS
    && (forall b :: 0 <= b < NUM_BANKS ==> Writable(ks[b]) >= dirty[b] + p)
    && n + Total(dirty) <= q
  }

  /** A step on one bank that uses as many pages as it cleans. */
  lemma RoomKept(ks: seq<Bank>, n: nat, dirty: seq<nat>, p: int, q: int, b: nat, k: Bank, m: nat, d: nat)
    requires HasRoom(ks, n, dirty, p, q) && b < NUM_BANKS
    requires d <= dirty[b] && Writable(k) - d >= Writable(ks[b]) - dirty[b] && m - n == dirty[b] - d
    ensures HasRoom(ks[b := k], m, dirty[b := d], p, q)
  {
    TotalUpdate(dirty, b, d);
    var qs, ds := ks[b := k], dirty[b := d];
    forall c | 0 <= c < NUM_BANKS ensures Writable(qs[c]) >= ds[c] + p {
      assert Writable(ks[c]) >= dirty[c] + p;
    }
  }

  lemma RoomTotal(ks: seq<Bank>, n: nat, dirty: seq<nat>, p: int, q: int)
    requires HasRoom(ks, n, dirty, p, q)
    ensures |ks| == |dirty| == NUM_BANKS && n <= q
  {
  }

  lemma RoomAt(ks: seq<Bank>, n: nat, dirty: seq<nat>, p: int, q: int, b: nat)
    requires HasRoom(ks, n, dirty, p, q) && b < NUM_BANKS
    ensures |ks| == |dirty| == NUM_BANKS && Writable(ks[b]) >= dirty[b] + p && n + dirty[b] <= q
  {
    TotalAtLeast(dirty, b);
  }
}
