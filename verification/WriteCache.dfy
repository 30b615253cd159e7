/** cache.c: per bank, the buffers, their recency order and the number of dirty ones. */
module WriteCache {
  import opened Geometry
  import opened Requests
  import OrderState

  /** A buffer: its entry, the epoch stored beside it, and its contents. */
  datatype Buffer = Buffer(dirty: bool, span: nat, lpn: Option<nat>, epoch: nat, buf: seq<nat>) {
    function ToEntry(): OrderState.Entry {
      OrderState.Entry(dirty, span, epoch, buf)
    }
  }

  const NC: nat := NUM_CACHE_BUFFERS_PER_BANK

  function DirtyCount(ents: seq<Buffer>): nat {
    if ents == [] then 0 else DirtyCount(ents[..|ents| - 1]) + if ents[|ents| - 1].dirty then 1 else 0
  }

  lemma {:induction false} DirtyCountUpdate(ents: seq<Buffer>, i: nat, x: Buffer)
    requires i < |ents|
    ensures DirtyCount(ents[i := x]) == DirtyCount(ents) + (if x.dirty then 1 else 0) - (if ents[i].dirty then 1 else 0)
  {
    var k := |ents| - 1;
    if i == k {
      assert ents[i := x][..k] == ents[..k];
    } else {
      assert ents[i := x][..k] == ents[..k][i := x];
      DirtyCountUpdate(ents[..k], i, x);
    }
  }

  lemma {:induction false} DirtyCountBounds(ents: seq<Buffer>)
    ensures DirtyCount(ents) <= |ents|
    ensures DirtyCount(ents) == 0 <==> forall i :: 0 <= i < |ents| ==> !ents[i].dirty
    ensures DirtyCount(ents) == |ents| <==> forall i :: 0 <= i < |ents| ==> ents[i].dirty
  {
    if ents != [] {
      DirtyCountBounds(ents[..|ents| - 1]);
    }
  }

  /** lru is a permutation of the buffer numbers. */
  ghost predicate Permutation(lru: seq<nat>) {
    && |lru| == NC
    && (forall i :: 0 <= i < NC ==> lru[i] < NC)
    && (forall i, j :: 0 <= i < j < NC ==> lru[i] != lru[j])
    && (forall x: nat :: x < NC ==> x in lru)
  }

  /** Buffer id is the last one in the recency order whose dirty flag is as given. */
  ghost predicate LeastRecent(ents: seq<Buffer>, lru: seq<nat>, id: nat, dirty: bool) {
    exists i :: 0 <= i < |lru| && lru[i] == id && id < |ents| && ents[id].dirty == dirty
                && forall j :: i < j < |lru| && lru[j] < |ents| ==> ents[lru[j]].dirty != dirty
  }

  /** Moving the element at k to the front. */
  function ToFront(lru: seq<nat>, k: nat): seq<nat>
    requires k < |lru|
  {
    [lru[k]] + lru[..k] + lru[k + 1..]
  }

  /** Buffer id is now the most recently used one; the others keep their order. */
  ghost predicate MovedToFront(was: seq<nat>, now: seq<nat>, id: nat) {
    exists k :: 0 <= k < |was| && was[k] == id && now == ToFront(was, k)
  }

  lemma ToFrontPermutes(lru: seq<nat>, k: nat)
    requires Permutation(lru) && k < NC
    ensures Permutation(ToFront(lru, k))
  {
    var t := ToFront(lru, k);
    assert forall i :: 0 <= i < NC ==> t[i] == if i == 0 then lru[k] else if i <= k then lru[i - 1] else lru[i];
    forall x: nat | x < NC ensures x in t {
      assert x in lru;
      var i :| 0 <= i < NC && lru[i] == x;
      if i < k {
        assert t[i + 1] == x;
      } else if i == k {
        assert t[0] == x;
      } else {
        assert t[i] == x;
      }
    }
  }

  ghost predicate BankCacheOK(b: nat, ents: seq<Buffer>, lru: seq<nat>, n: nat, view: map<nat, OrderState.Entry>) {
    && |ents| == NC && Permutation(lru) && n == DirtyCount(ents)
    && (forall i :: 0 <= i < NC ==> BufferOK(b, ents[i], view))
    && (forall i, j :: 0 <= i < j < NC && ents[i].lpn.Some? ==> ents[i].lpn != ents[j].lpn)
    && (forall lpn: nat :: lpn in view && BankOf(lpn) == b ==> exists i :: 0 <= i < NC && ents[i].lpn == Some(lpn))
  }

  ghost predicate BufferOK(b: nat, x: Buffer, view: map<nat, OrderState.Entry>) {
    && |x.buf| == SECTORS_PER_PAGE
    && (x.lpn == None ==> !x.dirty)
    && (x.lpn.Some? ==> BankOf(x.lpn.value) == b && x.lpn.value in view && view[x.lpn.value] == x.ToEntry())
  }

  /** Buffers were written back, and nothing else. */
  ghost predicate Cleaned(was: seq<seq<Buffer>>, now: seq<seq<Buffer>>) {
    && |was| == |now| == NUM_BANKS
    && forall b :: 0 <= b < NUM_BANKS ==> CleanedBank(was[b], now[b])
  }

  ghost predicate CleanedBank(was: seq<Buffer>, now: seq<Buffer>) {
    |was| == |now| == NC && forall i :: 0 <= i < NC ==> now[i] == was[i] || now[i] == was[i].(dirty := false)
  }

  lemma CleanedOne(ents: seq<seq<Buffer>>, bank: nat, id: nat)
    requires |ents| == NUM_BANKS && (forall b :: 0 <= b < NUM_BANKS ==> |ents[b]| == NC) && bank < NUM_BANKS && id < NC
    ensures Cleaned(ents, ents[bank := ents[bank][id := ents[bank][id].(dirty := false)]])
  {
    var now := ents[bank := ents[bank][id := ents[bank][id].(dirty := false)]];
    forall b | 0 <= b < NUM_BANKS ensures CleanedBank(ents[b], now[b]) {
    }
  }

  lemma CleanedNone(ents: seq<seq<Buffer>>)
    requires |ents| == NUM_BANKS && forall b :: 0 <= b < NUM_BANKS ==> |ents[b]| == NC
    ensures Cleaned(ents, ents)
  {
  }

  lemma CleanedAt(was: seq<seq<Buffer>>, now: seq<seq<Buffer>>, bank: nat, i: nat)
    requires Cleaned(was, now) && bank < NUM_BANKS && i < NC
    ensures |was| == |now| == NUM_BANKS && |was[bank]| == |now[bank]| == NC
    ensures now[bank][i].dirty ==> was[bank][i].dirty
    ensures now[bank][i].lpn == was[bank][i].lpn && now[bank][i].buf == was[bank][i].buf
  {
    assert CleanedBank(was[bank], now[bank]);
  }

  /** Of each bank at least as many buffers are dirty as before, or half of them. */
  ghost predicate HalfKept(was: seq<nat>, now: seq<nat>) {
    |was| == |now| == NUM_BANKS && forall b :: 0 <= b < NUM_BANKS ==> now[b] >= was[b] || now[b] >= NC / 2
  }

  lemma HalfKeptSame(was: seq<nat>)
    requires |was| == NUM_BANKS
    ensures HalfKept(was, was)
  {
  }

  lemma HalfKeptTrans(was: seq<nat>, mid: seq<nat>, now: seq<nat>)
    requires HalfKept(was, mid) && HalfKept(mid, now)
    ensures HalfKept(was, now)
  {
  }

  /** A turn of the pool writes back one page of a bank with more than half of its buffers dirty. */
  lemma HalfKeptTurn(was: seq<nat>, b: nat, now: seq<nat>)
    requires b < NUM_BANKS == |was| && now == if was[b] > NC / 2 then was[b := was[b] - 1] else was
    ensures HalfKept(was, now)
  {
  }

  class WriteCache {
    var ents: seq<seq<Buffer>>
    var lru: seq<seq<nat>>
    var nDirty: seq<nat>
    /** The cached pages. */
    ghost var view: map<nat, OrderState.Entry>

    ghost predicate Valid()
      reads this
    {
      && |ents| == |lru| == |nDirty| == NUM_BANKS
      && forall b :: 0 <= b < NUM_BANKS ==> BankCacheOK(b, ents[b], lru[b], nDirty[b], view)
    }

    constructor (blank: seq<nat>)
      requires |blank| == SECTORS_PER_PAGE
      ensures Valid() && view == map[]
      ensures forall b :: 0 <= b < NUM_BANKS ==> nDirty[b] == 0
    {
      var none := seq<Buffer>(NC, i => Buffer(false, 0, None, 0, blank));
      var order := seq<nat>(NC, i requires 0 <= i < NC => i);
      ents := seq<seq<Buffer>>(NUM_BANKS, b => none);
      lru := seq<seq<nat>>(NUM_BANKS, b => order);
      nDirty := seq<nat>(NUM_BANKS, b => 0);
      view := map[];
      DirtyCountBounds(none);
      forall x: nat | x < NC ensures x in order {
        assert order[x] == x;
      }
      new;
      forall b: nat | b < NUM_BANKS ensures BankCacheOK(b, ents[b], lru[b], nDirty[b], view) {
        assert forall i :: 0 <= i < NC ==> BufferOK(b, ents[b][i], view);
      }
    }

    /** exist_in_cache */
    method ExistInCache(bank: nat, lpn: nat) returns (id: Option<nat>)
      requires Valid() && bank == BankOf(lpn)
      ensures id.None? <==> lpn !in view
      ensures id.Some? ==> id.value < NC && ents[bank][id.value].lpn == Some(lpn)
    {
      assert BankCacheOK(bank, ents[bank], lru[bank], nDirty[bank], view);
      var i := 0;
      while i < NC
        invariant 0 <= i <= NC
        invariant forall k :: 0 <= k < i ==> ents[bank][k].lpn != Some(lpn)
      {
        if ents[bank][i].lpn == Some(lpn) {
          assert BufferOK(bank, ents[bank][i], view);
          return Some(i);
        }
        i := i + 1;
      }
      return None;
    }

    lemma BufferAt(bank: nat, id: nat)
      requires Valid() && bank < NUM_BANKS && id < NC
      ensures |ents| == |lru| == |nDirty| == NUM_BANKS && |ents[bank]| == NC && |ents[bank][id].buf| == SECTORS_PER_PAGE
      ensures ents[bank][id].lpn.None? ==> !ents[bank][id].dirty
      ensures ents[bank][id].lpn.Some? ==>
                var x := ents[bank][id]; var lpn := x.lpn.value;
                BankOf(lpn) == bank && lpn in view && view[lpn] == OrderState.Entry(x.dirty, x.span, x.epoch, x.buf)
    {
      assert BankCacheOK(bank, ents[bank], lru[bank], nDirty[bank], view);
      assert BufferOK(bank, ents[bank][id], view);
    }

    lemma Lengths()
      requires Valid()
      ensures NC >= 1 && |ents| == |lru| == |nDirty| == NUM_BANKS && forall b :: 0 <= b < NUM_BANKS ==> |ents[b]| == NC
    {
      forall b | 0 <= b < NUM_BANKS ensures |ents[b]| == NC {
        assert BankCacheOK(b, ents[b], lru[b], nDirty[b], view);
      }
    }

    /** A bank that is not full of dirty pages has a clean buffer. */
    lemma FindClean(bank: nat) returns (x: Option<nat>)
      requires Valid() && bank < NUM_BANKS
      ensures |ents| == |nDirty| == NUM_BANKS && |ents[bank]| == NC
      ensures x.None? ==> nDirty[bank] == NC
      ensures x.Some? ==> x.value < NC && !ents[bank][x.value].dirty
    {
      assert BankCacheOK(bank, ents[bank], lru[bank], nDirty[bank], view);
      DirtyCountBounds(ents[bank]);
      if i: nat :| i < NC && !ents[bank][i].dirty {
        x := Some(i);
      } else {
        x := None;
      }
    }

    lemma CleanWhenZero()
      requires Valid() && forall b :: 0 <= b < NUM_BANKS ==> nDirty[b] == 0
      ensures forall lpn: nat :: lpn in view ==> !view[lpn].dirty
    {
      forall lpn: nat | lpn in view ensures !view[lpn].dirty {
        var b := BankOf(lpn);
        assert BankCacheOK(b, ents[b], lru[b], nDirty[b], view);
        DirtyCountBounds(ents[b]);
        var i :| 0 <= i < NC && ents[b][i].lpn == Some(lpn);
        assert BufferOK(b, ents[b][i], view);
      }
    }

    lemma CleanBank(bank: nat)
      requires Valid() && bank < NUM_BANKS && nDirty[bank] == 0
      ensures |ents| == NUM_BANKS && |ents[bank]| == NC && forall i :: 0 <= i < NC ==> !ents[bank][i].dirty
    {
      assert BankCacheOK(bank, ents[bank], lru[bank], nDirty[bank], view);
      DirtyCountBounds(ents[bank]);
    }

    lemma DirtyBound()
      requires Valid()
      ensures |nDirty| == NUM_BANKS && forall b :: 0 <= b < NUM_BANKS ==> nDirty[b] <= NC
    {
      forall b | 0 <= b < NUM_BANKS ensures nDirty[b] <= NC {
        assert BankCacheOK(b, ents[b], lru[b], nDirty[b], view);
        DirtyCountBounds(ents[b]);
      }
    }

    /** The choice that dequeue makes: the least recently used dirty buffer, None if there is none. */
    method OldestDirty(bank: nat) returns (id: Option<nat>)
      requires Valid() && bank < NUM_BANKS
      ensures id.None? <==> nDirty[bank] == 0
      ensures id.None? ==> forall lpn: nat :: lpn in view && BankOf(lpn) == bank ==> !view[lpn].dirty
      ensures |ents| == |lru| == NUM_BANKS && |ents[bank]| == NC
      ensures id.Some? ==> id.value < NC && ents[bank][id.value].dirty && ents[bank][id.value].lpn.Some?
      ensures id.Some? ==> LeastRecent(ents[bank], lru[bank], id.value, true)
    {
      assert BankCacheOK(bank, ents[bank], lru[bank], nDirty[bank], view);
      DirtyCountBounds(ents[bank]);
      id := OldestWith(bank, true);
      if id.Some? {
        assert BufferOK(bank, ents[bank][id.value], view);
      } else {
        forall lpn: nat | lpn in view && BankOf(lpn) == bank ensures !view[lpn].dirty {
          var i :| 0 <= i < NC && ents[bank][i].lpn == Some(lpn);
          assert BufferOK(bank, ents[bank][i], view);
        }
      }
    }

    method OldestWith(bank: nat, dirty: bool) returns (id: Option<nat>)
      requires Valid() && bank < NUM_BANKS
      ensures |ents| == |lru| == NUM_BANKS && |ents[bank]| == NC
      ensures id.None? ==> forall i :: 0 <= i < NC ==> ents[bank][i].dirty != dirty
      ensures id.Some? ==> id.value < NC && ents[bank][id.value].dirty == dirty
      ensures id.Some? ==> LeastRecent(ents[bank], lru[bank], id.value, dirty)
    {
      assert BankCacheOK(bank, ents[bank], lru[bank], nDirty[bank], view);
      id := None;
      ghost var at := 0;
      var i := 0;
      while i < NC
        invariant 0 <= i <= NC
        invariant id.None? ==> forall j :: 0 <= j < i ==> ents[bank][lru[bank][j]].dirty != dirty
        invariant id.Some? ==> 0 <= at < i && lru[bank][at] == id.value && ents[bank][id.value].dirty == dirty
        invariant id.Some? ==> forall j :: at < j < i ==> ents[bank][lru[bank][j]].dirty != dirty
      {
        if ents[bank][lru[bank][i]].dirty == dirty {
          id := Some(lru[bank][i]);
          at := i;
        }
        i := i + 1;
      }
      if id.None? {
        forall k: nat | k < NC ensures ents[bank][k].dirty != dirty {
          assert k in lru[bank];
        }
      }
    }

    /** What dequeue does to the buffer it writes back. */
    method MarkClean(bank: nat, id: nat)
      requires Valid() && bank < NUM_BANKS && id < NC && ents[bank][id].dirty
      modifies this
      ensures Valid() && lru == old(lru)
      ensures ents == old(ents)[bank := old(ents)[bank][id := old(ents)[bank][id].(dirty := false)]]
      ensures Cleaned(old(ents), ents)
      ensures old(nDirty)[bank] > 0 && nDirty == old(nDirty)[bank := old(nDirty)[bank] - 1]
      ensures old(ents)[bank][id].lpn.Some?
      ensures var lpn := old(ents)[bank][id].lpn.value; lpn in old(view) && view == old(view)[lpn := old(view)[lpn].(dirty := false)]
    {
      hide BankCacheOK, BufferOK, Cleaned, CleanedBank, DirtyCount, BankOf;
      BufferAt(bank, id);
      Lengths();
      CleanedOne(ents, bank, id);
      var x := ents[bank][id].(dirty := false);
      Replace(bank, id, x);
      nDirty := nDirty[bank := nDirty[bank] - 1];
    }

    /** Buffer id, which holds no other page or a clean one, takes x. */
    method Replace(bank: nat, id: nat, x: Buffer)
      requires Valid() && bank < NUM_BANKS && id < NC && x.lpn.Some? && BankOf(x.lpn.value) == bank
      requires |x.buf| == SECTORS_PER_PAGE
      requires x.lpn.value in view ==> ents[bank][id].lpn == x.lpn
      modifies this`ents, this`view
      ensures ents == old(ents)[bank := old(ents)[bank][id := x]]
      ensures view == ViewAfter(old(view), old(ents)[bank][id], x)
      ensures forall b :: 0 <= b < NUM_BANKS ==> BankCacheOK(b, ents[b], lru[b], DirtyCount(ents[b]), view)
      ensures DirtyCount(ents[bank]) + (if old(ents)[bank][id].dirty then 1 else 0) == old(nDirty[bank]) + (if x.dirty then 1 else 0)
      ensures forall b :: 0 <= b < NUM_BANKS && b != bank ==> DirtyCount(ents[b]) == old(nDirty[b])
    {
      ghost var was, old_view := ents[bank], view;
      assert BankCacheOK(bank, was, lru[bank], nDirty[bank], view);
      assert BufferOK(bank, was[id], view);
      DirtyCountUpdate(was, id, x);
      ents := ents[bank := ents[bank][id := x]];
      view := ViewAfter(view, was[id], x);
      forall b: nat | b < NUM_BANKS ensures BankCacheOK(b, ents[b], lru[b], DirtyCount(ents[b]), view) {
        assert BankCacheOK(b, old(ents)[b], lru[b], nDirty[b], old_view);
        if b == bank {
          ReplaceBank(b, was, lru[b], nDirty[b], old_view, id, x);
        } else {
          OtherBank(b, ents[b], lru[b], nDirty[b], old_view, view, bank);
        }
      }
    }

    /** enqueue: the sectors [left, right) of the request go into buffer id, over base; the buffer becomes
        dirty, and the most recently used one. */
    method Enqueue(bank: nat, lpn: nat, id: nat, base: seq<nat>, r: Request, left: nat, right: nat, epoch: nat, span: nat)
      requires Valid() && bank == BankOf(lpn) && id < NC
      requires |base| == SECTORS_PER_PAGE && left <= right <= SECTORS_PER_PAGE
      requires forall s: nat :: left <= s < right ==> r.Covers(SectorOf(lpn, s))
      requires lpn in view ==> ents[bank][id].lpn == Some(lpn)
      modifies this
      ensures Valid()
      ensures view == ViewAfter(old(view), old(ents)[bank][id], Buffer(true, span, Some(lpn), epoch, Overlay(base, r, lpn, left, right)))
      ensures bank < |old(nDirty)| == |lru| == |old(lru)| == NUM_BANKS
      ensures nDirty == if old(ents)[bank][id].dirty then old(nDirty) else old(nDirty)[bank := old(nDirty)[bank] + 1]
      ensures lru == old(lru)[bank := lru[bank]] && MovedToFront(old(lru)[bank], lru[bank], id)
    {
      assert BankCacheOK(bank, ents[bank], lru[bank], nDirty[bank], view);
      var wasDirty := ents[bank][id].dirty;
      Replace(bank, id, Buffer(true, span, Some(lpn), epoch, Overlay(base, r, lpn, left, right)));
      if !wasDirty {
        nDirty := nDirty[bank := nDirty[bank] + 1];
      }
      MoveToFront(bank, id);
    }

    method MoveToFront(bank: nat, id: nat)
      requires Valid() && bank < NUM_BANKS && id < NC
      modifies this`lru
      ensures Valid() && |lru| == |old(lru)| == NUM_BANKS
      ensures lru == old(lru)[bank := lru[bank]] && MovedToFront(old(lru)[bank], lru[bank], id)
    {
      assert BankCacheOK(bank, ents[bank], lru[bank], nDirty[bank], view);
      ghost var was := lru[bank];
      assert id in was;
      var k := 0;
      while lru[bank][k] != id
        invariant 0 <= k < NC && id !in was[..k]
        decreases NC - k
      {
        k := k + 1;
      }
      var order := lru[bank];
      var i := k;
      while i > 0
        invariant 0 <= i <= k && |order| == NC
        invariant forall j :: 0 <= j <= i ==> order[j] == was[j]
        invariant forall j :: i < j <= k ==> order[j] == was[j - 1]
        invariant forall j :: k < j < NC ==> order[j] == was[j]
      {
        order := order[i := order[i - 1]];
        i := i - 1;
      }
      order := order[0 := id];
      lru := lru[bank := order];
      assert order == ToFront(was, k);
      ToFrontPermutes(was, k);
    }
  }

  function ViewAfter(view: map<nat, OrderState.Entry>, was: Buffer, x: Buffer): map<nat, OrderState.Entry>
    requires x.lpn.Some?
  {
    (match was.lpn case None => view case Some(l) => view - {l})[x.lpn.value := x.ToEntry()]
  }

  lemma ReplaceBank(b: nat, ents: seq<Buffer>, lru: seq<nat>, n: nat, view: map<nat, OrderState.Entry>, id: nat, x: Buffer)
    requires BankCacheOK(b, ents, lru, n, view) && id < NC && x.lpn.Some? && BankOf(x.lpn.value) == b
    requires |x.buf| == SECTORS_PER_PAGE
    requires x.lpn.value in view ==> ents[id].lpn == x.lpn
    ensures BankCacheOK(b, ents[id := x], lru, DirtyCount(ents[id := x]), ViewAfter(view, ents[id], x))
  {
    var t, w := ents[id := x], ViewAfter(view, ents[id], x);
    forall i | 0 <= i < NC ensures BufferOK(b, t[i], w) {
      assert BufferOK(b, ents[i], view);
      if i < id {
        assert ents[i].lpn.Some? ==> ents[i].lpn != ents[id].lpn;
      }
      if i > id && ents[id].lpn.Some? {
        assert ents[id].lpn != ents[i].lpn;
      }
    }
    forall i, j | 0 <= i < j < NC && t[i].lpn.Some? ensures t[i].lpn != t[j].lpn {
      assert BufferOK(b, ents[i], view) && BufferOK(b, ents[j], view);
    }
    forall lpn: nat | lpn in w && BankOf(lpn) == b ensures exists i :: 0 <= i < NC && t[i].lpn == Some(lpn) {
      if lpn == x.lpn.value {
        assert t[id].lpn == Some(lpn);
      } else {
        var i :| 0 <= i < NC && ents[i].lpn == Some(lpn);
        assert t[i].lpn == Some(lpn);
      }
    }
  }

  lemma OtherBank(b: nat, ents: seq<Buffer>, lru: seq<nat>, n: nat, view: map<nat, OrderState.Entry>,
        w: map<nat, OrderState.Entry>, bank: nat)
    requires BankCacheOK(b, ents, lru, n, view) && b != bank
    requires forall l: nat :: BankOf(l) != bank ==> (l in view <==> l in w) && (l in view ==> view[l] == w[l])
    ensures BankCacheOK(b, ents, lru, n, w)
  {
    forall i | 0 <= i < NC ensures BufferOK(b, ents[i], w) {
      assert BufferOK(b, ents[i], view);
    }
  }
}
