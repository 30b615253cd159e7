/** What the host asked for, and the disk that a prefix of its write requests produces. This is the
    specification that recovery is measured against. */
module Requests {
  import opened Geometry
  import opened Arith

  /** A write of |data| consecutive sectors starting at sector lba. */
  datatype Write = Write(lba: nat, data: seq<nat>) {
    predicate Covers(sector: nat) {
      lba <= sector < lba + |data|
    }

    function At(sector: nat): nat
      requires Covers(sector)
    {
      data[sector - lba]
    }

    function First(): nat {
      lba / SECTORS_PER_PAGE
    }

    function Last(): nat
      requires |data| > 0
    {
      (lba + |data| - 1) / SECTORS_PER_PAGE
    }

    /** Number of logical pages the request spans (g_pg_span). */
    function Span(): (n: nat)
      requires |data| > 0
      ensures n >= 1
    {
      DivMonotone(lba, lba + |data| - 1, SECTORS_PER_PAGE);
      Last() - First() + 1
    }

    predicate Touches(lpn: nat)
      requires |data| > 0
    {
      First() <= lpn <= Last()
    }
  }

  /** A write the firmware is given: the host interface refuses those that leave the device, and an
      empty one returns at once without taking an epoch. */
  type Request = r: Write | 0 < |r.data| <= MAX_SECTORS && r.Last() < NUM_LPAGES witness Write(0, [0])

  datatype Option<+T> = None | Some(value: T)

  /** The sector after the first n requests; None if none of them wrote it. */
  function Lookup(reqs: seq<Request>, n: nat, sector: nat): Option<nat>
    requires n <= |reqs|
  {
    if n == 0 then None
    else if reqs[n - 1].Covers(sector) then Some(reqs[n - 1].At(sector))
    else Lookup(reqs, n - 1, sector)
  }

  ghost predicate TouchedBefore(reqs: seq<Request>, n: nat, lpn: nat)
    requires n <= |reqs|
  {
    exists e :: 0 <= e < n && reqs[e].Touches(lpn)
  }

  function SectorOf(lpn: nat, s: nat): nat {
    lpn * SECTORS_PER_PAGE + s
  }

  /** content holds page lpn as the first n requests left it. Sectors that none of them wrote are
      unconstrained: the firmware does not clear the buffer of a page written for the first time. */
  ghost predicate Agrees(content: seq<nat>, lpn: nat, reqs: seq<Request>, n: nat)
    requires n <= |reqs|
  {
    && |content| == SECTORS_PER_PAGE
    && forall s: nat | s < SECTORS_PER_PAGE ::
         var want := Lookup(reqs, n, SectorOf(lpn, s));
         want.Some? ==> content[s] == want.value
  }

  lemma SectorDiv(lpn: nat, s: nat)
    requires s < SECTORS_PER_PAGE
    ensures SectorOf(lpn, s) / SECTORS_PER_PAGE == lpn
    ensures SectorOf(lpn, s) % SECTORS_PER_PAGE == s
  {
    DivUnique(SectorOf(lpn, s), SECTORS_PER_PAGE, lpn, s);
  }

  lemma CoversTouches(r: Request, lpn: nat, s: nat)
    requires s < SECTORS_PER_PAGE && r.Covers(SectorOf(lpn, s))
    ensures r.Touches(lpn)
  {
    SectorDiv(lpn, s);
    DivMonotone(r.lba, SectorOf(lpn, s), SECTORS_PER_PAGE);
    DivMonotone(SectorOf(lpn, s), r.lba + |r.data| - 1, SECTORS_PER_PAGE);
  }

  /** Requests that do not touch a page leave what a copy of it must hold unchanged. */
  lemma {:induction false} AgreesAcross(content: seq<nat>, lpn: nat, reqs: seq<Request>, n: nat, k: nat)
    requires n <= k <= |reqs|
    requires Agrees(content, lpn, reqs, n)
    requires forall e :: n <= e < k ==> !reqs[e].Touches(lpn)
    ensures Agrees(content, lpn, reqs, k)
  {
    if n < k {
      AgreesAcross(content, lpn, reqs, n, k - 1);
      forall s: nat | s < SECTORS_PER_PAGE
        ensures Lookup(reqs, k, SectorOf(lpn, s)) == Lookup(reqs, k - 1, SectorOf(lpn, s))
      {
        if reqs[k - 1].Covers(SectorOf(lpn, s)) {
          CoversTouches(reqs[k - 1], lpn, s);
        }
      }
    }
  }

  lemma {:induction false} LookupPrefix(reqs: seq<Request>, more: seq<Request>, n: nat, sector: nat)
    requires n <= |reqs| && reqs <= more
    ensures Lookup(reqs, n, sector) == Lookup(more, n, sector)
  {
    if n > 0 {
      LookupPrefix(reqs, more, n - 1, sector);
    }
  }

  /** Later requests do not change what an earlier prefix of the history means. */
  lemma AgreesPrefix(content: seq<nat>, lpn: nat, reqs: seq<Request>, more: seq<Request>, n: nat)
    requires n <= |reqs| && reqs <= more
    ensures Agrees(content, lpn, reqs, n) <==> Agrees(content, lpn, more, n)
  {
    forall s: nat | s < SECTORS_PER_PAGE
      ensures Lookup(reqs, n, SectorOf(lpn, s)) == Lookup(more, n, SectorOf(lpn, s))
    {
      LookupPrefix(reqs, more, n, SectorOf(lpn, s));
    }
  }

  /** The sectors [left, right) of the page are those of the request, the others those of base. */
  function Overlay(base: seq<nat>, r: Request, lpn: nat, left: nat, right: nat): (c: seq<nat>)
    requires |base| == SECTORS_PER_PAGE && left <= right <= SECTORS_PER_PAGE
    requires forall s: nat :: left <= s < right ==> r.Covers(SectorOf(lpn, s))
    ensures |c| == SECTORS_PER_PAGE
    ensures forall s: nat :: left <= s < right ==> c[s] == r.At(SectorOf(lpn, s))
    ensures forall s: nat :: s < left || right <= s < SECTORS_PER_PAGE ==> c[s] == base[s]
  {
    seq(SECTORS_PER_PAGE, (s: nat) requires s < SECTORS_PER_PAGE =>
      if left <= s < right then r.At(SectorOf(lpn, s)) else base[s])
  }

  /** Copying the sectors that request n wrote into a page over an up-to-date copy of the rest
      gives an up-to-date copy. base need only be right outside [left, right). */
  lemma OverlayAgrees(base: seq<nat>, lpn: nat, reqs: seq<Request>, n: nat, left: nat, right: nat)
    requires n < |reqs|
    requires |base| == SECTORS_PER_PAGE && left <= right <= SECTORS_PER_PAGE
    requires forall s: nat :: s < SECTORS_PER_PAGE ==> (left <= s < right <==> reqs[n].Covers(SectorOf(lpn, s)))
    requires forall s: nat | s < SECTORS_PER_PAGE && !(left <= s < right) ::
               var want := Lookup(reqs, n, SectorOf(lpn, s));
               want.Some? ==> base[s] == want.value
    ensures Agrees(Overlay(base, reqs[n], lpn, left, right), lpn, reqs, n + 1)
  {
  }

  // ---- How ftl_write and ftl_read go through the pages of a command ----

  /** remain sectors of the command of n sectors at lba are left; the next of them is sector base of page lpn. */
  ghost predicate Cursor(lba: nat, n: nat, lpn: nat, base: nat, remain: nat) {
    && 0 < remain <= n && base < SECTORS_PER_PAGE
    && SectorOf(lpn, base) + remain == lba + n
    && (base == 0 || remain == n)
  }

  /** Sectors of the page that belong to the command, counted from base. */
  function Part(base: nat, remain: nat): (cnt: nat)
    requires base < SECTORS_PER_PAGE
    ensures base + cnt <= SECTORS_PER_PAGE && cnt <= remain
    ensures remain > 0 ==> cnt > 0
  {
    if base + remain < SECTORS_PER_PAGE then remain else SECTORS_PER_PAGE - base
  }

  lemma FirstCursor(lba: nat, n: nat)
    requires n > 0
    ensures Cursor(lba, n, lba / SECTORS_PER_PAGE, lba % SECTORS_PER_PAGE, n)
  {
    DivMod(lba, SECTORS_PER_PAGE);
  }

  /** After the part of this page comes the next page, from its first sector on. */
  lemma NextCursor(lba: nat, n: nat, lpn: nat, base: nat, remain: nat)
    requires Cursor(lba, n, lpn, base, remain)
    ensures var cnt := Part(base, remain);
      if remain == cnt then lpn == (lba + n - 1) / SECTORS_PER_PAGE else Cursor(lba, n, lpn + 1, 0, remain - cnt)
  {
    var cnt := Part(base, remain);
    if remain == cnt {
      SectorDiv(lpn, base + cnt - 1);
    } else {
      assert (lpn + 1) * SECTORS_PER_PAGE == lpn * SECTORS_PER_PAGE + SECTORS_PER_PAGE;
    }
  }

  lemma CursorInside(lba: nat, n: nat, lpn: nat, base: nat, remain: nat)
    requires Cursor(lba, n, lpn, base, remain)
    ensures lpn <= (lba + n - 1) / SECTORS_PER_PAGE
  {
    SectorDiv(lpn, base);
    DivMonotone(SectorOf(lpn, base), lba + n - 1, SECTORS_PER_PAGE);
  }

  /** The part is exactly what the request covers of the page. */
  lemma PartCovered(r: Write, lpn: nat, base: nat, remain: nat, s: nat)
    requires Cursor(r.lba, |r.data|, lpn, base, remain) && s < SECTORS_PER_PAGE
    ensures base <= s < base + Part(base, remain) <==> r.Covers(SectorOf(lpn, s))
  {
  }

  /** No request spans more pages than this. */
  const MAX_SPAN := 4098

  lemma SpanBound(r: Request)
    ensures r.Span() <= MAX_SPAN
  {
    var a, b := r.First(), r.Last();
    DivMod(r.lba, SECTORS_PER_PAGE);
    DivMod(r.lba + |r.data| - 1, SECTORS_PER_PAGE);
    if b - a + 1 > MAX_SPAN {
      MulMonotone(a + MAX_SPAN, b, SECTORS_PER_PAGE);
    }
  }

  /** A buffer with count sectors of a flash page read into it. */
  function CopyIn(buf: seq<nat>, page: seq<nat>, from: nat, count: nat): (c: seq<nat>)
    requires |buf| == |page| == SECTORS_PER_PAGE
    ensures |c| == SECTORS_PER_PAGE
    ensures forall s: nat :: s < SECTORS_PER_PAGE ==> c[s] == if from <= s < from + count then page[s] else buf[s]
  {
    seq<nat>(SECTORS_PER_PAGE, (s: nat) requires s < SECTORS_PER_PAGE => if from <= s < from + count then page[s] else buf[s])
  }

  /** buf is right, as far as the first n requests tell, outside the sectors [left, right). */
  ghost predicate RightOutside(buf: seq<nat>, lpn: nat, reqs: seq<Request>, n: nat, left: nat, right: nat)
    requires n <= |reqs|
  {
    && |buf| == SECTORS_PER_PAGE
    && forall s: nat | s < SECTORS_PER_PAGE && !(left <= s < right) ::
         var want := Lookup(reqs, n, SectorOf(lpn, s));
         want.Some? ==> buf[s] == want.value
  }

  /** Putting the request's part into such a buffer gives the page as it is after the request. */
  lemma EnqueuedContent(base: seq<nat>, lpn: nat, reqs: seq<Request>, n: nat, first: nat, remain: nat)
    requires n < |reqs| && Cursor(reqs[n].lba, |reqs[n].data|, lpn, first, remain)
    requires RightOutside(base, lpn, reqs, n, first, first + Part(first, remain))
    ensures forall s: nat :: first <= s < first + Part(first, remain) ==> reqs[n].Covers(SectorOf(lpn, s))
    ensures Agrees(Overlay(base, reqs[n], lpn, first, first + Part(first, remain)), lpn, reqs, n + 1)
  {
    forall s: nat | s < SECTORS_PER_PAGE ensures first <= s < first + Part(first, remain) <==> reqs[n].Covers(SectorOf(lpn, s)) {
      PartCovered(reqs[n], lpn, first, remain, s);
    }
    OverlayAgrees(base, lpn, reqs, n, first, first + Part(first, remain));
  }

  lemma {:induction false} NeverWritten(reqs: seq<Request>, n: nat, lpn: nat, s: nat)
    requires n <= |reqs| && s < SECTORS_PER_PAGE && forall e :: 0 <= e < n ==> !reqs[e].Touches(lpn)
    ensures Lookup(reqs, n, SectorOf(lpn, s)) == None
  {
    if n > 0 {
      if reqs[n - 1].Covers(SectorOf(lpn, s)) {
        CoversTouches(reqs[n - 1], lpn, s);
      }
      NeverWritten(reqs, n - 1, lpn, s);
    }
  }
}
