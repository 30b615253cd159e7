/** The ring of data blocks of one bank: [tail, rsv) may be collected, [rsv, head) were opened since the
    last commit, [head, tail) are free. */
module Ring {
  import opened Arith

  datatype Ring = Ring(blks: seq<nat>, rsv: nat, head: nat, tail: nat, free: nat) {
    function Size(): nat {
      |blks|
    }

    ghost predicate Valid() {
      && rsv < Size() && head < Size() && tail < Size()
      && Dist(tail, rsv) + free < Size()
      && Dist(rsv, head) == (if NumOpened() == Size() then 0 else NumOpened())
      && Distinct(blks)
      && (forall i :: 0 <= i < |blks| ==> blks[i] > 0)
    }

    /** Steps from one index to another, going up around the ring. */
    function Dist(a: nat, b: nat): nat
      requires a < Size() && b < Size()
    {
      if b >= a then b - a else b + Size() - a
    }

    /** The number of blocks opened since the last commit. If these are all the blocks, head is at rsv. */
    function NumOpened(): int
      requires tail < Size() && rsv < Size()
    {
      Size() - Dist(tail, rsv) - free
    }

    function At(i: nat): nat
      requires i < 2 * Size()
    {
      if i < Size() then blks[i] else blks[i - Size()]
    }

    /** n blocks of the ring, from index a on. */
    function Arc(a: nat, n: nat): (s: seq<nat>)
      requires a < Size() && n <= Size()
      ensures |s| == n && forall i :: 0 <= i < n ==> s[i] == At(a + i)
    {
      seq<nat>(n, i requires 0 <= i < n => At(a + i))
    }

    /** Blocks that garbage collection may take: closed before the last commit. */
    function Used(): seq<nat>
      requires Valid()
    {
      Arc(tail, Dist(tail, rsv))
    }

    /** The block that was active at the last commit, and those opened since. */
    function Chain(): seq<nat>
      requires Valid()
    {
      Arc(rsv, NumOpened())
    }

    function Free(): seq<nat>
      requires Valid()
    {
      Arc(head, free)
    }
  }

  ghost predicate Distinct(s: seq<nat>) {
    forall i, j :: 0 <= i < j < |s| ==> s[i] != s[j]
  }

  lemma ModWrap(x: nat, size: nat)
    requires 0 < size && x < 2 * size
    ensures x % size == if x < size then x else x - size
  {
    if x < size {
      DivUnique(x, size, 0, x);
    } else {
      DivUnique(x, size, 1, x - size);
    }
  }

  /** The three arcs together are the whole ring, so they are pairwise disjoint. */
  lemma ArcsDistinct(r: Ring)
    requires r.Valid()
    ensures Distinct(r.Used() + r.Chain() + r.Free())
  {
    var s := r.Used() + r.Chain() + r.Free();
    forall i | 0 <= i < |s| ensures s[i] == r.At(r.tail + i) {
      var u, c := |r.Used()|, |r.Chain()|;
      if i >= u + c {
        assert s[i] == r.Free()[i - u - c];
      } else if i >= u {
        assert s[i] == r.Chain()[i - u];
      }
    }
  }

  /** The three arcs hold exactly the blocks of the ring. */
  lemma ArcsPermute(r: Ring)
    requires r.Valid()
    ensures multiset(r.Used() + r.Chain() + r.Free()) == multiset(r.blks)
  {
    var s := r.Used() + r.Chain() + r.Free();
    var n := r.Size() - r.tail;
    forall i | 0 <= i < |s| ensures s[i] == r.At(r.tail + i) {
      var u, c := |r.Used()|, |r.Chain()|;
      if i >= u + c {
        assert s[i] == r.Free()[i - u - c];
      } else if i >= u {
        assert s[i] == r.Chain()[i - u];
      }
    }
    assert s == r.blks[r.tail..] + r.blks[..r.tail];
    assert r.blks == r.blks[..r.tail] + r.blks[r.tail..];
  }

  /** The free blocks lead from head to tail. */
  lemma HeadPlusFree(r: Ring)
    requires r.Valid()
    ensures (r.head + r.free) % r.Size() == r.tail
  {
    ModWrap(r.head + r.free, r.Size());
  }

  lemma SwapPermutes(s: seq<nat>, i: nat, j: nat)
    requires i < |s| && j < |s|
    ensures multiset(s[i := s[j]][j := s[i]]) == multiset(s)
  {
  }

  // ---- get_and_inc_active_blk ----

  function Opened(r: Ring): Ring
    requires r.Valid() && r.free > 0
  {
    r.(head := (r.head + 1) % r.Size(), free := r.free - 1)
  }

  lemma OpenedArcs(r: Ring)
    requires r.Valid() && r.free > 0
    ensures var q := Opened(r);
      && q.Valid() && q.Used() == r.Used()
      && q.Chain() == r.Chain() + [r.blks[r.head]]
      && r.Free() == [r.blks[r.head]] + q.Free()
  {
    hide Distinct;
    ModWrap(r.head + 1, r.Size());
  }

  // ---- push_rsv ----

  function Pushed(r: Ring): Ring
    requires r.Valid()
  {
    r.(rsv := (r.head + r.Size() - 1) % r.Size())
  }

  /** Everything but the active block may be collected from now on. */
  ghost predicate PushedTo(r: Ring, q: Ring) {
    && r.Valid() && q.Valid() && |r.Chain()| >= 1
    && q.Free() == r.Free()
    && q.Chain() == [r.Chain()[|r.Chain()| - 1]]
    && q.Used() == r.Used() + r.Chain()[..|r.Chain()| - 1]
  }

  lemma PushedArcs(r: Ring)
    requires r.Valid()
    ensures PushedTo(r, Pushed(r))
  {
    hide Distinct, Ring.At, Ring.Arc;
    ModWrap(r.head + r.Size() - 1, r.Size());
    var q := Pushed(r);
    PushedParts(r, q);
  }

  lemma PushedParts(r: Ring, q: Ring)
    requires r.Valid() && q.Valid() && q == r.(rsv := if r.head == 0 then r.Size() - 1 else r.head - 1)
    requires r.NumOpened() >= 1 && q.NumOpened() == 1
    ensures PushedTo(r, q)
  {
    hide Distinct;
    var u, c := |r.Used()|, |r.Chain()|;
    assert |q.Used()| == u + c - 1;
    forall i | 0 <= i < u + c - 1 ensures q.Used()[i] == (r.Used() + r.Chain()[..c - 1])[i] {
    }
  }

  // ---- The end of garbage_collection ----

  function Retired(r: Ring): Ring
    requires r.Valid()
  {
    r.(tail := (r.tail + 1) % r.Size(), free := r.free + 1)
  }

  lemma RetiredArcs(r: Ring)
    requires r.Valid() && |r.Used()| > 0
    ensures var q := Retired(r);
      && q.Valid() && q.Chain() == r.Chain()
      && q.Used() == r.Used()[1..]
      && q.Free() == r.Free() + [r.Used()[0]]
  {
    hide Distinct;
    ModWrap(r.tail + 1, r.Size());
  }

  // ---- get_victim_blk ----

  function Swapped(r: Ring, idx: nat): Ring
    requires r.tail < r.Size() && idx < r.Size()
  {
    r.(blks := r.blks[r.tail := r.blks[idx]][idx := r.blks[r.tail]])
  }

  lemma SwappedValid(r: Ring, idx: nat)
    requires r.Valid() && idx < r.Size()
    ensures Swapped(r, idx).Valid()
  {
    var b, q := r.blks, Swapped(r, idx).blks;
    forall i, j | 0 <= i < j < |q| ensures q[i] != q[j] {
      assert q[i] == b[if i == r.tail then idx else if i == idx then r.tail else i];
      assert q[j] == b[if j == r.tail then idx else if j == idx then r.tail else j];
    }
  }

  /** Swapping the victim to the tail permutes the blocks that may be collected, and nothing else. */
  lemma SwappedArcs(r: Ring, k: nat, idx: nat)
    requires r.Valid() && k < |r.Used()| && idx < r.Size()
    requires idx == if r.tail + k < r.Size() then r.tail + k else r.tail + k - r.Size()
    ensures var q := Swapped(r, idx);
      && q.Valid() && q.Chain() == r.Chain() && q.Free() == r.Free()
      && q.Used() == r.Used()[0 := r.Used()[k]][k := r.Used()[0]]
      && multiset(q.blks) == multiset(r.blks)
  {
    hide Distinct;
    SwappedValid(r, idx);
    SwapPermutes(r.blks, r.tail, idx);
  }

  /** The scan of get_victim_blk: the first block of [tail, rsv) with the fewest valid pages. */
  method FindLeast(r: Ring, vcount: nat -> nat) returns (idx: nat, ghost k: nat)
    requires r.Valid() && r.tail != r.rsv
    ensures k < |r.Used()| && idx < r.Size() && r.blks[idx] == r.Used()[k]
    ensures idx == if r.tail + k < r.Size() then r.tail + k else r.tail + k - r.Size()
    ensures forall i :: 0 <= i < |r.Used()| ==> vcount(r.Used()[k]) <= vcount(r.Used()[i])
    ensures forall i :: 0 <= i < k ==> vcount(r.Used()[k]) < vcount(r.Used()[i])
  {
    hide Distinct;
    var size := r.Size();
    idx := r.tail;
    var least := vcount(r.blks[idx]);
    ModWrap(r.tail + 1, size);
    var i := (idx + 1) % size;
    k := 0;
    ghost var n := 1;
    while i != r.rsv
      invariant 1 <= n <= |r.Used()| && k < n
      invariant i == if r.tail + n < size then r.tail + n else r.tail + n - size
      invariant idx == if r.tail + k < size then r.tail + k else r.tail + k - size
      invariant i == r.rsv <==> n == |r.Used()|
      invariant least == vcount(r.Used()[k])
      invariant forall m :: 0 <= m < n ==> least <= vcount(r.Used()[m])
      invariant forall m :: 0 <= m < k ==> least < vcount(r.Used()[m])
      decreases |r.Used()| - n
    {
      var blk := r.blks[i];
      assert blk == r.Used()[n];
      if vcount(blk) < least {
        least := vcount(blk);
        idx := i;
        k := n;
      }
      ModWrap(i + 1, size);
      i := (i + 1) % size;
      n := n + 1;
    }
  }

  /** get_victim_blk: the first block of [tail, rsv) with the fewest valid pages, moved to the tail. The source asks
      of its callers that tail and rsv differ. */
  method GetVictim(r: Ring, vcount: nat -> nat) returns (q: Ring, vt: nat, ghost k: nat)
    requires r.Valid() && r.tail != r.rsv
    ensures k < |r.Used()| && vt == r.Used()[k]
    ensures forall i :: 0 <= i < |r.Used()| ==> vcount(vt) <= vcount(r.Used()[i])
    ensures forall i :: 0 <= i < k ==> vcount(vt) < vcount(r.Used()[i])
    ensures q.Valid() && q.Chain() == r.Chain() && q.Free() == r.Free()
    ensures q.Used() == r.Used()[0 := vt][k := r.Used()[0]]
    ensures multiset(q.blks) == multiset(r.blks)
  {
    hide Swapped, Distinct;
    var idx;
    idx, k := FindLeast(r, vcount);
    vt := r.blks[idx];
    SwappedArcs(r, k, idx);
    q := Swapped(r, idx);
  }
}
