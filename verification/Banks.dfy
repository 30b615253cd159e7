/** What the data blocks of one bank hold, and that every firmware step keeps it so. */
module Banks {
  import opened Geometry
  import opened Recoverable
  import opened Media
  import opened Chains
  import opened Ring

  /** The blocks of a bank: used ones closed before the last commit, the chain since then whose last block
      is being filled, and free ones; vt, if not 0, is a collected block still to be erased. lpns is the
      list of the active block's pages that its summary page will hold. */
  datatype Bank = Bank(used: seq<nat>, chain: seq<nat>, free: seq<nat>, vt: nat, fill: nat, lpns: seq<nat>) {
    function Active(): nat
      requires |chain| > 0
    {
      chain[|chain| - 1]
    }
  }

  function NoLpns(): seq<nat> {
    seq<nat>(LAST_PAGE, i => 0)
  }

  /** A block whose summary page is programmed: all its pages are, and the summary names them. */
  ghost predicate Closed(data: map<Loc, DataPage>, b: nat, blk: nat) {
    && Loc(b, blk, LAST_PAGE) in data
    && data[Loc(b, blk, LAST_PAGE)].Summary?
    && |data[Loc(b, blk, LAST_PAGE)].lpns| == LAST_PAGE
    && forall p: nat :: p < LAST_PAGE ==> Holds(data, Loc(b, blk, p), data[Loc(b, blk, LAST_PAGE)].lpns[p])
  }

  ghost predicate Holds(data: map<Loc, DataPage>, l: Loc, lpn: nat) {
    l in data && !data[l].Summary? && data[l].lpn == lpn && BankOf(lpn) == l.bank
  }

  ghost predicate Blank(data: map<Loc, DataPage>, b: nat, blk: nat) {
    forall p: nat :: p <= LAST_PAGE ==> Loc(b, blk, p) !in data
  }

  ghost predicate Blocks(k: Bank) {
    && |k.chain| > 0
    && Distinct(k.used + k.chain + k.free)
    && (forall i :: 0 <= i < |k.free| ==> k.free[i] > 0)
    && (k.vt != 0 ==> |k.free| > 0 && k.free[|k.free| - 1] == k.vt)
  }

  ghost predicate ActiveOK(data: map<Loc, DataPage>, b: nat, blk: nat, fill: nat, lpns: seq<nat>) {
    && fill <= LAST_PAGE && |lpns| == LAST_PAGE
    && FilledTo(data, b, blk, fill)
    && forall p: nat :: p < fill ==> Holds(data, Loc(b, blk, p), lpns[p])
  }

  ghost predicate AllClosed(data: map<Loc, DataPage>, b: nat, blks: seq<nat>) {
    forall i :: 0 <= i < |blks| ==> Closed(data, b, blks[i])
  }

  ghost predicate FreeBlank(data: map<Loc, DataPage>, b: nat, k: Bank) {
    forall i :: 0 <= i < |k.free| && k.free[i] != k.vt ==> Blank(data, b, k.free[i])
  }

  ghost predicate BankOK(data: map<Loc, DataPage>, b: nat, k: Bank, lane: Lane) {
    && Blocks(k)
    && lane.blks == k.chain
    && LaneReads(data, b, lane)
    && (|k.chain| == 1 ==> lane.start <= k.fill)
    && ActiveOK(data, b, k.Active(), k.fill, k.lpns)
    && AllClosed(data, b, k.used)
    && AllClosed(data, b, k.chain[..|k.chain| - 1])
    && FreeBlank(data, b, k)
  }

  /** Bank b looks the same in both. */
  ghost predicate SameBank(data: map<Loc, DataPage>, other: map<Loc, DataPage>, b: nat) {
    && (forall l: Loc :: l.bank == b ==> (l in data <==> l in other))
    && (forall l: Loc :: l.bank == b && l in data ==> data[l] == other[l])
  }

  lemma BankFrame(data: map<Loc, DataPage>, other: map<Loc, DataPage>, b: nat, k: Bank, lane: Lane)
    requires SameBank(data, other, b) && BankOK(data, b, k, lane)
    ensures BankOK(other, b, k, lane)
  {
    WalksFrame(data, other, b, lane.blks, lane.start, lane.items);
    ClosedFrame(data, other, b, k.used);
    ClosedFrame(data, other, b, k.chain[..|k.chain| - 1]);
  }

  lemma ClosedFrame(data: map<Loc, DataPage>, other: map<Loc, DataPage>, b: nat, blks: seq<nat>)
    requires forall i, p: nat :: 0 <= i < |blks| && p <= LAST_PAGE && Loc(b, blks[i], p) in data ==>
               Loc(b, blks[i], p) in other && other[Loc(b, blks[i], p)] == data[Loc(b, blks[i], p)]
    requires AllClosed(data, b, blks)
    ensures AllClosed(other, b, blks)
  {
    forall i | 0 <= i < |blks| ensures Closed(other, b, blks[i]) {
      assert Closed(data, b, blks[i]);
      assert forall p: nat :: p < LAST_PAGE ==> Holds(data, Loc(b, blks[i], p), data[Loc(b, blks[i], LAST_PAGE)].lpns[p]);
    }
  }

  // ---- A page is programmed in the active block ----

  function Filled(k: Bank, lpn: nat): Bank
    requires k.fill < |k.lpns|
  {
    k.(fill := k.fill + 1, lpns := k.lpns[k.fill := lpn])
  }

  lemma DistinctParts(k: Bank)
    requires Blocks(k)
    ensures forall i :: 0 <= i < |k.used| ==> k.used[i] != k.Active()
    ensures forall i :: 0 <= i < |k.chain| - 1 ==> k.chain[i] != k.Active()
    ensures forall i :: 0 <= i < |k.free| ==> k.free[i] != k.Active()
    ensures forall i, j :: 0 <= i < |k.used| && 0 <= j < |k.free| ==> k.used[i] != k.free[j]
    ensures forall i, j :: 0 <= i < |k.chain| && 0 <= j < |k.free| ==> k.chain[i] != k.free[j]
    ensures forall i, j :: 0 <= i < |k.used| && 0 <= j < |k.chain| ==> k.used[i] != k.chain[j]
    ensures forall i, j :: 0 <= i < j < |k.free| ==> k.free[i] != k.free[j]
    ensures forall i, j :: 0 <= i < j < |k.used| ==> k.used[i] != k.used[j]
  {
    var s := k.used + k.chain + k.free;
    var u, c := |k.used|, |k.chain|;
    assert forall i :: 0 <= i < u ==> s[i] == k.used[i];
    assert forall i :: 0 <= i < c ==> s[u + i] == k.chain[i];
    assert forall i :: 0 <= i < |k.free| ==> s[u + c + i] == k.free[i];
  }

  lemma FillBank(data: map<Loc, DataPage>, b: nat, k: Bank, lane: Lane, page: DataPage)
    requires BankOK(data, b, k, lane) && k.fill < LAST_PAGE && !page.Summary? && BankOf(page.lpn) == b
    ensures var l := Loc(b, k.Active(), k.fill);
      && l !in data
      && BankOK(data[l := page], b, Filled(k, page.lpn), lane.(items := lane.items + [Item(l, page)]))
  {
    var l := Loc(b, k.Active(), k.fill);
    var d := data[l := page];
    var q := Filled(k, page.lpn);
    DistinctParts(k);
    assert LastIsNew(lane.blks);
    WalksAppend(data, b, lane.blks, lane.start, lane.items, k.fill, page);
    ClosedFrame(data, d, b, k.used);
    ClosedFrame(data, d, b, k.chain[..|k.chain| - 1]);
    assert ActiveOK(d, b, k.Active(), k.fill + 1, q.lpns);
    assert FreeBlank(d, b, q);
  }

  // ---- The active block is full: it is closed and the next free block opened ----

  function Linked(k: Bank): Bank
    requires |k.free| > 0
  {
    k.(chain := k.chain + [k.free[0]], free := k.free[1..], fill := 0, lpns := NoLpns())
  }

  lemma LinkedBlocks(k: Bank)
    requires Blocks(k) && |k.free| >= 2
    ensures Blocks(Linked(k)) && k.free[0] != k.vt
  {
    var q := Linked(k);
    DistinctParts(k);
    assert q.used + q.chain + q.free == k.used + k.chain + k.free;
  }

  lemma LinkBank(data: map<Loc, DataPage>, b: nat, k: Bank, lane: Lane)
    requires BankOK(data, b, k, lane) && k.fill == LAST_PAGE && |k.free| >= 2
    ensures var l := Loc(b, k.Active(), LAST_PAGE);
      && l !in data && Loc(b, k.Active(), LAST_PAGE - 1) in data
      && BankOK(data[l := Summary(k.lpns, k.free[0])], b, Linked(k), lane.(blks := lane.blks + [k.free[0]]))
  {
    var l := Loc(b, k.Active(), LAST_PAGE);
    var d := data[l := Summary(k.lpns, k.free[0])];
    var q := Linked(k);
    DistinctParts(k);
    LinkedBlocks(k);
    assert Blank(data, b, k.free[0]);
    assert FilledTo(data, b, k.free[0], 0);
    WalksLink(data, b, lane.blks, lane.start, lane.items, k.lpns, k.free[0]);
    ClosedFrame(data, d, b, k.used);
    ClosedFrame(data, d, b, k.chain[..|k.chain| - 1]);
    assert q.chain[..|q.chain| - 1] == k.chain;
    assert Closed(d, b, k.Active());
    assert AllClosed(d, b, k.chain) by {
      forall i | 0 <= i < |k.chain| ensures Closed(d, b, k.chain[i]) {
        if i < |k.chain| - 1 {
          assert k.chain[..|k.chain| - 1][i] == k.chain[i];
        }
      }
    }
    assert FreeBlank(d, b, q);
    assert FilledTo(d, b, k.free[0], 0);
  }

  // ---- The collected block is erased ----

  lemma EraseBank(data: map<Loc, DataPage>, other: map<Loc, DataPage>, b: nat, k: Bank, lane: Lane)
    requires BankOK(data, b, k, lane) && k.vt != 0
    requires forall l: Loc :: l in other <==> l in data && !(l.bank == b && l.blk == k.vt)
    requires forall l: Loc :: l in other ==> other[l] == data[l]
    ensures BankOK(other, b, k.(vt := 0), lane)
  {
    DistinctParts(k);
    assert forall i :: 0 <= i < |k.chain| ==> k.chain[i] != k.vt;
    WalksFrame(data, other, b, lane.blks, lane.start, lane.items);
    ClosedFrame(data, other, b, k.used);
    ClosedFrame(data, other, b, k.chain[..|k.chain| - 1]);
    assert ActiveOK(other, b, k.Active(), k.fill, k.lpns);
    assert FreeBlank(other, b, k.(vt := 0));
  }

  // ---- Garbage collection retires its victim ----

  function Retire(k: Bank): Bank
    requires |k.used| > 0
  {
    k.(used := k.used[1..], free := k.free + [k.used[0]], vt := k.used[0])
  }

  lemma RetireBank(data: map<Loc, DataPage>, b: nat, k: Bank, lane: Lane)
    requires BankOK(data, b, k, lane) && k.vt == 0 && |k.used| > 0 && k.used[0] > 0
    ensures BankOK(data, b, Retire(k), lane)
  {
    var q := Retire(k);
    var s, t := k.used + k.chain + k.free, q.used + q.chain + q.free;
    forall x, y | 0 <= x < y < |t| ensures t[x] != t[y] {
      assert t[x] == s[x + 1] && t[y] == s[if y == |t| - 1 then 0 else y + 1];
    }
    forall j | 0 <= j < |q.free| && q.free[j] != q.vt ensures Blank(data, b, q.free[j]) {
      assert q.free[j] == k.free[j];
    }
  }

  // ---- get_victim_blk swaps the victim to the tail ----

  function Swapped(k: Bank, i: nat): Bank
    requires i < |k.used|
  {
    k.(used := k.used[0 := k.used[i]][i := k.used[0]])
  }

  lemma SwapBank(data: map<Loc, DataPage>, b: nat, k: Bank, lane: Lane, i: nat)
    requires BankOK(data, b, k, lane) && i < |k.used|
    ensures BankOK(data, b, Swapped(k, i), lane)
  {
    var q := Swapped(k, i);
    var s, t := k.used + k.chain + k.free, q.used + q.chain + q.free;
    forall x, y | 0 <= x < y < |t| ensures t[x] != t[y] {
      var px := if x == 0 then i else if x == i then 0 else x;
      var py := if y == 0 then i else if y == i then 0 else y;
      assert t[x] == s[px] && t[y] == s[py];
    }
    forall n | 0 <= n < |q.used| ensures Closed(data, b, q.used[n]) {
      assert q.used[n] == k.used[if n == 0 then i else if n == i then 0 else n];
    }
  }

  // ---- A commit ----

  function Pushed(k: Bank): Bank
    requires |k.chain| > 0
  {
    k.(used := k.used + k.chain[..|k.chain| - 1], chain := [k.Active()])
  }

  lemma PushBank(data: map<Loc, DataPage>, b: nat, k: Bank, lane: Lane)
    requires BankOK(data, b, k, lane)
    ensures BankOK(data, b, Pushed(k), Lane([k.Active()], k.fill, []))
  {
    var q := Pushed(k);
    assert q.used + q.chain + q.free == k.used + k.chain + k.free;
    WalksAtEnd(data, b, k.Active(), k.fill);
    forall i | 0 <= i < |q.used| ensures Closed(data, b, q.used[i]) {
      if i < |k.used| {
        assert q.used[i] == k.used[i];
      } else {
        assert q.used[i] == k.chain[..|k.chain| - 1][i - |k.used|];
      }
    }
    assert q.chain[..0] == [];
  }

  /** The pages since the commit are in the blocks of the chain. */
  lemma ItemInChain(data: map<Loc, DataPage>, b: nat, k: Bank, lane: Lane, i: nat)
    requires BankOK(data, b, k, lane) && i < |lane.items|
    ensures lane.items[i].loc.bank == b && lane.items[i].loc.blk in k.chain
  {
    WalksLocs(data, b, lane.blks, lane.start, lane.items, i);
  }
}
