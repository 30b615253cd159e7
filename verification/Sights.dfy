/** What recovery finds at the epoch of a page whose word flash pages are read over, and what it makes of it. */
module Sights {
  import opened Geometry
  import opened Requests
  import opened Recoverable
  import opened Media
  import opened Dram

  /** A flash page, programmed or erased; or a page of the active block of region 0, which is always erased. */
  datatype Source = OfData(loc: Loc) | OfLog(at: LogLoc) | OfRegion0(bank: nat, pg: nat)

  /** A page is read into FTL_BUF, or a version of a logical page is looked at. */
  datatype Event = Read(bank: nat, src: Source, n: nat) | Look(it: Item)

  /** The word at the epoch of a page, and where the page was mapped to, if it was. */
  datatype Sight = Sight(word: nat, at: Option<Loc>)

  function After(shown: (Source, nat) -> nat, s: Sight, e: Event, a: nat, cut: nat): Sight {
    match e
    case Read(bank, src, n) =>
      if FtlBuf(bank) <= a < FtlBuf(bank) + n then s.(word := shown(src, a - FtlBuf(bank))) else s
    case Look(it) =>
      if HostBelow(it, a, cut) && it.page.epoch > s.word then Sight(it.page.epoch, Some(it.loc)) else s
  }

  function AfterAll(shown: (Source, nat) -> nat, s: Sight, ev: seq<Event>, a: nat, cut: nat): Sight {
    if ev == [] then s else After(shown, AfterAll(shown, s, ev[..|ev| - 1], a, cut), ev[|ev| - 1], a, cut)
  }

  lemma {:induction false} AfterConcat(shown: (Source, nat) -> nat, s: Sight, ev: seq<Event>, more: seq<Event>, a: nat, cut: nat)
    ensures AfterAll(shown, s, ev + more, a, cut) == AfterAll(shown, AfterAll(shown, s, ev, a, cut), more, a, cut)
  {
    if more == [] {
      assert ev + more == ev;
    } else {
      assert (ev + more)[..|ev + more| - 1] == ev + more[..|more| - 1];
      AfterConcat(shown, s, ev, more[..|more| - 1], a, cut);
    }
  }

  /** n words of the page were read into FTL_BUF(bank). */
  ghost predicate PageOver(shown: (Source, nat) -> nat, src: Source, bank: nat, n: nat, w: map<nat, nat>, x: map<nat, nat>) {
    forall a: nat :: WordIn(x, a) == if FtlBuf(bank) <= a < FtlBuf(bank) + n then shown(src, a - FtlBuf(bank)) else WordIn(w, a)
  }

  // ---- The events of a walk ----

  /** One page of a block is read, and looked at if it is programmed. */
  function PageEvents(data: map<Loc, DataPage>, loc: Loc): seq<Event> {
    [Read(loc.bank, OfData(loc), SECTOR_WORDS)] + if loc in data then [Look(Item(loc, data[loc]))] else []
  }

  /** From page pg of the first block on. */
  ghost function LaneEvents(data: map<Loc, DataPage>, b: nat, blks: seq<nat>, pg: nat, items: seq<Item>): seq<Event>
    requires pg <= LAST_PAGE && Walks(data, b, blks, pg, items)
    decreases |blks|, LAST_PAGE - pg, 1
  {
    if pg < LAST_PAGE && Loc(b, blks[0], pg) in data then
      PageEvents(data, Loc(b, blks[0], pg)) + LaneEvents(data, b, blks, pg + 1, items[1..])
    else
      (if pg < LAST_PAGE then PageEvents(data, Loc(b, blks[0], pg)) else []) + BlockEnd(data, b, blks, pg, items)
  }

  /** The summary page, and the blocks after it. */
  ghost function BlockEnd(data: map<Loc, DataPage>, b: nat, blks: seq<nat>, pg: nat, items: seq<Item>): seq<Event>
    requires pg <= LAST_PAGE && Walks(data, b, blks, pg, items) && !(pg < LAST_PAGE && Loc(b, blks[0], pg) in data)
    decreases |blks|, LAST_PAGE - pg, 0
  {
    [Read(b, OfData(Loc(b, blks[0], LAST_PAGE)), SUMMARY_WORDS)]
    + if Loc(b, blks[0], LAST_PAGE) in data then LaneEvents(data, b, blks[1..], 0, items) else []
  }

  ghost predicate LanesRead(data: map<Loc, DataPage>, lanes: seq<Lane>) {
    |lanes| == NUM_BANKS && forall b :: 0 <= b < NUM_BANKS ==> LaneReads(data, b, lanes[b])
  }

  /** Region 0: its first page is erased, and so is the summary page, which leads nowhere. */
  function Region0(b: nat): seq<Event> {
    [Read(b, OfRegion0(b, 0), SECTOR_WORDS), Read(b, OfRegion0(b, LAST_PAGE), SUMMARY_WORDS)]
  }

  ghost function LaneWalk(data: map<Loc, DataPage>, lanes: seq<Lane>, b: nat): seq<Event>
    requires LanesRead(data, lanes) && b < NUM_BANKS
  {
    assert LaneReads(data, b, lanes[b]);
    Region0(b) + LaneEvents(data, b, lanes[b].blks, lanes[b].start, lanes[b].items)
  }

  /** The walks of the first n banks. */
  ghost function Events(data: map<Loc, DataPage>, lanes: seq<Lane>, n: nat): seq<Event>
    requires LanesRead(data, lanes) && n <= NUM_BANKS
  {
    if n == 0 then [] else Events(data, lanes, n - 1) + LaneWalk(data, lanes, n - 1)
  }

  // ---- What a walk leaves in FTL_BUF, and of the pages whose epochs are there ----

  /** The words of FTL_BUF after the events; and, if pages are mapped, where their pages are. */
  ghost predicate Traced(shown: (Source, nat) -> nat, ev: seq<Event>, cut: nat, maps: bool, w: map<nat, nat>, p: map<nat, Loc>,
      x: map<nat, nat>, q: map<nat, Loc>)
  {
    forall a: nat :: InFtlBuf(a) ==> TracedAt(shown, ev, cut, maps, w, p, x, q, a)
  }

  ghost predicate TracedAt(shown: (Source, nat) -> nat, ev: seq<Event>, cut: nat, maps: bool, w: map<nat, nat>, p: map<nat, Loc>,
      x: map<nat, nat>, q: map<nat, Loc>, a: nat)
  {
    var s := AfterAll(shown, Sight(WordIn(w, a), None), ev, a, cut);
    && WordIn(x, a) == s.word
    && (maps ==> MappedAs(q, p, s.at, a))
  }

  ghost predicate MappedAs(q: map<nat, Loc>, p: map<nat, Loc>, at: Option<Loc>, a: nat) {
    match at
    case None => (a in q <==> a in p) && (a in q ==> q[a] == p[a])
    case Some(loc) => a in q && q[a] == loc
  }

  lemma TracedNone(shown: (Source, nat) -> nat, cut: nat, maps: bool, w: map<nat, nat>, p: map<nat, Loc>)
    ensures Traced(shown, [], cut, maps, w, p, w, p)
  {
  }

  lemma {:induction false} AfterFrom(shown: (Source, nat) -> nat, x: nat, at: Option<Loc>, ev: seq<Event>, a: nat, cut: nat)
    ensures var s, t := AfterAll(shown, Sight(x, at), ev, a, cut), AfterAll(shown, Sight(x, None), ev, a, cut);
      s.word == t.word && s.at == if t.at.Some? then t.at else at
  {
    if ev != [] {
      AfterFrom(shown, x, at, ev[..|ev| - 1], a, cut);
    }
  }

  lemma TracedOn(shown: (Source, nat) -> nat, ev: seq<Event>, more: seq<Event>, cut: nat, maps: bool, w: map<nat, nat>, p: map<nat, Loc>,
      x: map<nat, nat>, q: map<nat, Loc>, y: map<nat, nat>, r: map<nat, Loc>)
    requires Traced(shown, ev, cut, maps, w, p, x, q) && Traced(shown, more, cut, maps, x, q, y, r)
    ensures Traced(shown, ev + more, cut, maps, w, p, y, r)
  {
    forall a: nat | InFtlBuf(a) ensures TracedAt(shown, ev + more, cut, maps, w, p, y, r, a) {
      assert TracedAt(shown, ev, cut, maps, w, p, x, q, a) && TracedAt(shown, more, cut, maps, x, q, y, r, a);
      AfterConcat(shown, Sight(WordIn(w, a), None), ev, more, a, cut);
      var s := AfterAll(shown, Sight(WordIn(w, a), None), ev, a, cut);
      AfterFrom(shown, s.word, s.at, more, a, cut);
    }
  }

  /** One page is read. */
  lemma TracedRead(shown: (Source, nat) -> nat, bank: nat, src: Source, n: nat, cut: nat, maps: bool, w: map<nat, nat>, p: map<nat, Loc>,
      x: map<nat, nat>)
    requires PageOver(shown, src, bank, n, w, x)
    ensures Traced(shown, [Read(bank, src, n)], cut, maps, w, p, x, p)
  {
    hide FtlBuf;
    var ev := [Read(bank, src, n)];
    assert ev[..0] == [];
    forall a: nat | InFtlBuf(a) ensures TracedAt(shown, ev, cut, maps, w, p, x, p, a) {
      assert AfterAll(shown, Sight(WordIn(w, a), None), ev, a, cut) == After(shown, Sight(WordIn(w, a), None), ev[0], a, cut);
    }
  }

  /** One page is looked at: it is mapped if it is below the cut and newer than the word found. */
  lemma TracedLook(shown: (Source, nat) -> nat, it: Item, cut: nat, w: map<nat, nat>, p: map<nat, Loc>, x: map<nat, nat>, q: map<nat, Loc>)
    requires !it.page.Summary?
    requires var lpn := it.page.lpn;
      if it.page.Host? && it.page.epoch < cut && it.page.epoch > WordIn(w, lpn) then x == w[lpn := it.page.epoch] && q == p[lpn := it.loc]
      else x == w && q == p
    ensures Traced(shown, [Look(it)], cut, true, w, p, x, q)
  {
    hide FtlBuf;
    var ev := [Look(it)];
    assert ev[..0] == [];
    forall a: nat | InFtlBuf(a) ensures TracedAt(shown, ev, cut, true, w, p, x, q, a) {
      assert AfterAll(shown, Sight(WordIn(w, a), None), ev, a, cut) == After(shown, Sight(WordIn(w, a), None), ev[0], a, cut);
    }
  }

  /** While pages are counted, nothing is below the cut 0, and FTL_BUF stays as it is. */
  lemma TracedCount(shown: (Source, nat) -> nat, it: Item, w: map<nat, nat>, p: map<nat, Loc>, x: map<nat, nat>, q: map<nat, Loc>)
    requires SteadyIn(x) == SteadyIn(w)
    ensures Traced(shown, [Look(it)], 0, false, w, p, x, q)
  {
    hide FtlBuf;
    var ev := [Look(it)];
    assert ev[..0] == [];
    forall a: nat | InFtlBuf(a) ensures TracedAt(shown, ev, 0, false, w, p, x, q, a) {
      assert a in SteadyIn(x) <==> a in SteadyIn(w);
      assert AfterAll(shown, Sight(WordIn(w, a), None), ev, a, 0) == After(shown, Sight(WordIn(w, a), None), ev[0], a, 0);
    }
  }

  // ---- Where the page of a word is mapped to in the end ----

  predicate Apart(e: Event, a: nat) {
    e.Read? ==> !(FtlBuf(e.bank) <= a < FtlBuf(e.bank) + e.n)
  }

  predicate Quiet(e: Event, a: nat) {
    e.Look? ==> !(e.it.page.Host? && e.it.page.lpn == a)
  }

  lemma {:induction false} AfterQuiet(shown: (Source, nat) -> nat, s: Sight, ev: seq<Event>, a: nat, cut: nat)
    requires forall i :: 0 <= i < |ev| ==> Quiet(ev[i], a)
    ensures AfterAll(shown, s, ev, a, cut).at == s.at
    ensures (forall i :: 0 <= i < |ev| ==> Apart(ev[i], a)) ==> AfterAll(shown, s, ev, a, cut) == s
  {
    if ev != [] {
      AfterQuiet(shown, s, ev[..|ev| - 1], a, cut);
      assert Quiet(ev[|ev| - 1], a);
    }
  }

  /** A walk is its first page, if that is programmed, or else what is read up to the next block; and the rest. */
  lemma LaneSplit(data: map<Loc, DataPage>, b: nat, blks: seq<nat>, pg: nat, items: seq<Item>) returns (first: seq<Event>, rest: seq<Event>)
    requires pg <= LAST_PAGE && Walks(data, b, blks, pg, items)
    ensures LaneEvents(data, b, blks, pg, items) == first + rest
    ensures if pg < LAST_PAGE && Loc(b, blks[0], pg) in data then
              && first == [Read(b, OfData(Loc(b, blks[0], pg)), SECTOR_WORDS), Look(items[0])]
              && rest == LaneEvents(data, b, blks, pg + 1, items[1..])
            else
              && first == (if pg < LAST_PAGE then [Read(b, OfData(Loc(b, blks[0], pg)), SECTOR_WORDS)] else [])
                 + [Read(b, OfData(Loc(b, blks[0], LAST_PAGE)), SUMMARY_WORDS)]
              && rest == if Loc(b, blks[0], LAST_PAGE) in data then LaneEvents(data, b, blks[1..], 0, items) else []
  {
    if pg < LAST_PAGE && Loc(b, blks[0], pg) in data {
      first := PageEvents(data, Loc(b, blks[0], pg));
      rest := LaneEvents(data, b, blks, pg + 1, items[1..]);
    } else {
      first := (if pg < LAST_PAGE then [Read(b, OfData(Loc(b, blks[0], pg)), SECTOR_WORDS)] else []) + [Read(b, OfData(Loc(b, blks[0], LAST_PAGE)), SUMMARY_WORDS)];
      rest := if Loc(b, blks[0], LAST_PAGE) in data then LaneEvents(data, b, blks[1..], 0, items) else [];
    }
  }

  /** A walk looks at the pages of its bank, and reads into the buffer of its bank. */
  lemma {:induction false} LaneOnly(data: map<Loc, DataPage>, b: nat, blks: seq<nat>, pg: nat, items: seq<Item>, a: nat)
    requires pg <= LAST_PAGE && Walks(data, b, blks, pg, items) && b < NUM_BANKS && InFtlBuf(a)
    ensures forall i :: 0 <= i < |LaneEvents(data, b, blks, pg, items)| ==>
              var e := LaneEvents(data, b, blks, pg, items)[i];
              (e.Look? ==> e.it in items) && (OwnerOf(a) != b || Far(a) ==> Apart(e, a))
    decreases |blks|, LAST_PAGE - pg
  {
    hide FtlBuf, OwnerOf, OffsetOf;
    var first, rest := LaneSplit(data, b, blks, pg, items);
    FtlBufInside(b);
    if FtlBuf(b) <= a < FtlBuf(b) + BUF_WORDS {
      BufferPlace(b, a);
    }
    if pg < LAST_PAGE && Loc(b, blks[0], pg) in data {
      LaneOnly(data, b, blks, pg + 1, items[1..], a);
    } else if Loc(b, blks[0], LAST_PAGE) in data {
      LaneOnly(data, b, blks[1..], 0, items, a);
    }
  }

  /** It ends with the read of an erased summary page. */
  lemma {:induction false} LaneEnd(data: map<Loc, DataPage>, b: nat, blks: seq<nat>, pg: nat, items: seq<Item>)
    requires pg <= LAST_PAGE && Walks(data, b, blks, pg, items)
    ensures var ev, loc := LaneEvents(data, b, blks, pg, items), Loc(b, blks[|blks| - 1], LAST_PAGE);
      |ev| > 0 && ev[|ev| - 1] == Read(b, OfData(loc), SUMMARY_WORDS) && loc !in data
    decreases |blks|, LAST_PAGE - pg
  {
    var first, rest := LaneSplit(data, b, blks, pg, items);
    if pg < LAST_PAGE && Loc(b, blks[0], pg) in data {
      LaneEnd(data, b, blks, pg + 1, items[1..]);
    } else if Loc(b, blks[0], LAST_PAGE) in data {
      LaneEnd(data, b, blks[1..], 0, items);
    }
  }

  /** A version of page a below the cut, newer than what its own flash page shows at the word. */
  predicate OutShown(shown: (Source, nat) -> nat, it: Item, a: nat, cut: nat) {
    InFtlBuf(a) && HostBelow(it, a, cut) && it.page.epoch > shown(OfData(it.loc), OffsetOf(a))
  }

  /** The last version that does so, or from if there is none. */
  ghost predicate LastToOutShow(shown: (Source, nat) -> nat, items: seq<Item>, a: nat, cut: nat, from: Option<Loc>, at: Option<Loc>) {
    || (at == from && forall i :: 0 <= i < |items| ==> !OutShown(shown, items[i], a, cut))
    || exists k :: 0 <= k < |items| && OutShown(shown, items[k], a, cut) && at == Some(items[k].loc)
         && forall i :: k < i < |items| ==> !OutShown(shown, items[i], a, cut)
  }

  predicate Gives(it: Item, a: nat, cut: nat, s: Sight, t: Sight) {
    HostBelow(it, a, cut) && it.page.epoch == t.word > s.word && t.at == Some(it.loc)
  }

  /** The newest version below the cut, if it is newer than the word. */
  ghost predicate NewestOver(items: seq<Item>, a: nat, cut: nat, s: Sight, t: Sight) {
    && (t == s || exists k :: 0 <= k < |items| && Gives(items[k], a, cut, s, t))
    && forall i :: 0 <= i < |items| && HostBelow(items[i], a, cut) ==> items[i].page.epoch <= t.word
  }

  lemma Region0Only(b: nat, a: nat)
    requires b < NUM_BANKS && InFtlBuf(a)
    ensures var ev := Region0(b); forall i :: 0 <= i < |ev| ==> Quiet(ev[i], a) && (OwnerOf(a) != b || Far(a) ==> Apart(ev[i], a))
  {
    hide FtlBuf, OwnerOf, OffsetOf;
    FtlBufInside(b);
    if FtlBuf(b) <= a < FtlBuf(b) + BUF_WORDS {
      BufferPlace(b, a);
    }
  }

  lemma {:induction false} OwnLane(shown: (Source, nat) -> nat, data: map<Loc, DataPage>, b: nat, blks: seq<nat>, pg: nat, items: seq<Item>,
      a: nat, cut: nat, s: Sight)
    requires pg <= LAST_PAGE && Walks(data, b, blks, pg, items) && b < NUM_BANKS
    requires InFtlBuf(a) && OwnerOf(a) == b && OffsetOf(a) < SECTOR_WORDS
    ensures LastToOutShow(shown, items, a, cut, s.at, AfterAll(shown, s, LaneEvents(data, b, blks, pg, items), a, cut).at)
    decreases |blks|, LAST_PAGE - pg
  {
    hide FtlBuf, OwnerOf, OffsetOf;
    var first, rest := LaneSplit(data, b, blks, pg, items);
    AfterConcat(shown, s, first, rest, a, cut);
    var t := AfterAll(shown, s, first, a, cut);
    PlaceInBuffer(a);
    if pg < LAST_PAGE && Loc(b, blks[0], pg) in data {
      AfterTwo(shown, s, first, a, cut);
      OwnLane(shown, data, b, blks, pg + 1, items[1..], a, cut, t);
      LastOnward(shown, items, a, cut, s.at, t.at, AfterAll(shown, t, rest, a, cut).at);
    } else {
      AfterQuiet(shown, s, first, a, cut);
      if Loc(b, blks[0], LAST_PAGE) in data {
        OwnLane(shown, data, b, blks[1..], 0, items, a, cut, t);
      }
    }
  }

  lemma AfterTwo(shown: (Source, nat) -> nat, s: Sight, ev: seq<Event>, a: nat, cut: nat)
    requires |ev| == 2
    ensures AfterAll(shown, s, ev, a, cut) == After(shown, After(shown, s, ev[0], a, cut), ev[1], a, cut)
  {
    assert ev[..1][..0] == [] && ev[..1][0] == ev[0];
    assert AfterAll(shown, s, ev[..1], a, cut) == After(shown, s, ev[0], a, cut);
  }

  lemma LastOnward(shown: (Source, nat) -> nat, items: seq<Item>, a: nat, cut: nat, from: Option<Loc>, next: Option<Loc>, at: Option<Loc>)
    requires |items| > 0 && LastToOutShow(shown, items[1..], a, cut, next, at)
    requires next == if OutShown(shown, items[0], a, cut) then Some(items[0].loc) else from
    ensures LastToOutShow(shown, items, a, cut, from, at)
  {
    var rest := items[1..];
    assert forall i :: 0 < i < |items| ==> items[i] == rest[i - 1];
    if exists k :: 0 <= k < |rest| && OutShown(shown, rest[k], a, cut) && at == Some(rest[k].loc)
         && forall i :: k < i < |rest| ==> !OutShown(shown, rest[i], a, cut) {
      var k :| 0 <= k < |rest| && OutShown(shown, rest[k], a, cut) && at == Some(rest[k].loc)
         && forall i :: k < i < |rest| ==> !OutShown(shown, rest[i], a, cut);
      assert items[k + 1] == rest[k];
    }
  }

  lemma {:induction false} OtherLane(shown: (Source, nat) -> nat, data: map<Loc, DataPage>, b: nat, blks: seq<nat>, pg: nat, items: seq<Item>,
      a: nat, cut: nat, s: Sight)
    requires pg <= LAST_PAGE && Walks(data, b, blks, pg, items) && b < NUM_BANKS
    requires InFtlBuf(a) && (OwnerOf(a) != b || Far(a))
    ensures NewestOver(items, a, cut, s, AfterAll(shown, s, LaneEvents(data, b, blks, pg, items), a, cut))
    decreases |blks|, LAST_PAGE - pg
  {
    hide FtlBuf, OwnerOf, OffsetOf, Apart, Far, NewestOver, LaneEvents;
    var first, rest := LaneSplit(data, b, blks, pg, items);
    AfterConcat(shown, s, first, rest, a, cut);
    LaneOnly(data, b, blks, pg, items, a);
    var t := AfterAll(shown, s, first, a, cut);
    assert forall i :: 0 <= i < |first| ==> first[i] == (first + rest)[i];
    if pg < LAST_PAGE && Loc(b, blks[0], pg) in data {
      AfterTwo(shown, s, first, a, cut);
      OtherLane(shown, data, b, blks, pg + 1, items[1..], a, cut, t);
      ApartStill(shown, s, first[0], a, cut);
      NewestOnward(items, a, cut, s, t, AfterAll(shown, t, rest, a, cut));
    } else {
      AfterQuiet(shown, s, first, a, cut);
      if Loc(b, blks[0], LAST_PAGE) in data {
        OtherLane(shown, data, b, blks[1..], 0, items, a, cut, t);
      } else {
        NoneNewer(a, cut, s);
      }
    }
  }

  lemma NoneNewer(a: nat, cut: nat, s: Sight)
    ensures NewestOver([], a, cut, s, s)
  {
  }

  lemma ApartStill(shown: (Source, nat) -> nat, s: Sight, e: Event, a: nat, cut: nat)
    requires e.Read? && Apart(e, a)
    ensures After(shown, s, e, a, cut) == s
  {
  }

  lemma NewestOnward(items: seq<Item>, a: nat, cut: nat, s: Sight, t: Sight, u: Sight)
    requires |items| > 0 && NewestOver(items[1..], a, cut, t, u)
    requires t == if HostBelow(items[0], a, cut) && items[0].page.epoch > s.word then Sight(items[0].page.epoch, Some(items[0].loc)) else s
    ensures NewestOver(items, a, cut, s, u)
  {
    var rest := items[1..];
    assert forall i :: 0 < i < |items| ==> items[i] == rest[i - 1];
    if exists k :: 0 <= k < |rest| && Gives(rest[k], a, cut, t, u) {
      var k :| 0 <= k < |rest| && Gives(rest[k], a, cut, t, u);
      assert items[k + 1] == rest[k];
    }
  }

  // ---- All walks ----

  /** What the walk through the bank that the word's buffer belongs to leaves there: the word of an erased page. */
  function EndWord(shown: (Source, nat) -> nat, lanes: seq<Lane>, a: nat): nat
    requires InFtlBuf(a) && |lanes| == NUM_BANKS
  {
    var b := OwnerOf(a);
    if b < NUM_BANKS && |lanes[b].blks| > 0 then shown(OfData(Loc(b, lanes[b].blks[|lanes[b].blks| - 1], LAST_PAGE)), OffsetOf(a)) else 0
  }

  /** Walks through other banks than that of page a leave it where it is. */
  lemma LaneElsewhere(data: map<Loc, DataPage>, v: View, b: nat, a: nat)
    requires v.WellFormed() && LanesRead(data, v.lanes) && b < NUM_BANKS && b != BankOf(a) && InFtlBuf(a)
    ensures var ev := LaneWalk(data, v.lanes, b);
      forall i :: 0 <= i < |ev| ==> Quiet(ev[i], a) && (OwnerOf(a) != b || Far(a) ==> Apart(ev[i], a))
  {
    hide Far, OwnerOf, Apart, FtlBuf;
    assert LaneReads(data, b, v.lanes[b]);
    Region0Only(b, a);
    LaneOnly(data, b, v.lanes[b].blks, v.lanes[b].start, v.lanes[b].items, a);
    var ev := LaneWalk(data, v.lanes, b);
    forall i | 0 <= i < |ev| ensures Quiet(ev[i], a) {
      if ev[i].Look? {
        var k :| 0 <= k < |v.lanes[b].items| && v.lanes[b].items[k] == ev[i].it;
        assert v.ItemOK(b, v.lanes[b].items[k]);
      }
    }
  }

  lemma FarOffset(a: nat)
    requires InFtlBuf(a)
    ensures Far(a) ==> OffsetOf(a) >= SUMMARY_WORDS
  {
  }

  lemma {:induction false} WalksBefore(shown: (Source, nat) -> nat, data: map<Loc, DataPage>, v: View, n: nat, a: nat, cut: nat, s: Sight)
    requires v.WellFormed() && LanesRead(data, v.lanes) && InFtlBuf(a) && n <= BankOf(a)
    ensures var t := AfterAll(shown, s, Events(data, v.lanes, n), a, cut);
      && t.at == s.at
      && (OwnerOf(a) >= n || Far(a) ==> t == s)
      && (OwnerOf(a) < n && OffsetOf(a) < SUMMARY_WORDS ==> t.word == EndWord(shown, v.lanes, a))
  {
    hide FtlBuf, Far, LaneWalk, EndWord, After, OwnerOf, OffsetOf, Apart, Quiet, BankOf, LanesRead;
    FarOffset(a);
    if n > 0 {
      WalksBefore(shown, data, v, n - 1, a, cut, s);
      var ev, more := Events(data, v.lanes, n - 1), LaneWalk(data, v.lanes, n - 1);
      var t := AfterAll(shown, s, ev, a, cut);
      AfterConcat(shown, s, ev, more, a, cut);
      LaneElsewhere(data, v, n - 1, a);
      AfterQuiet(shown, t, more, a, cut);
      if OwnerOf(a) == n - 1 && OffsetOf(a) < SUMMARY_WORDS {
        LaneLeaves(shown, data, v.lanes, n - 1, a, cut, t);
      }
    }
  }

  lemma LaneLeaves(shown: (Source, nat) -> nat, data: map<Loc, DataPage>, lanes: seq<Lane>, b: nat, a: nat, cut: nat, s: Sight)
    requires LanesRead(data, lanes) && b < NUM_BANKS && InFtlBuf(a) && OwnerOf(a) == b && OffsetOf(a) < SUMMARY_WORDS
    ensures AfterAll(shown, s, LaneWalk(data, lanes, b), a, cut).word == EndWord(shown, lanes, a)
  {
    hide FtlBuf, OwnerOf, OffsetOf;
    assert LaneReads(data, b, lanes[b]);
    LaneEnd(data, b, lanes[b].blks, lanes[b].start, lanes[b].items);
    PlaceInBuffer(a);
  }

  lemma {:induction false} WalksAfter(shown: (Source, nat) -> nat, data: map<Loc, DataPage>, v: View, n: nat, a: nat, cut: nat, s: Sight)
    requires v.WellFormed() && LanesRead(data, v.lanes) && InFtlBuf(a) && BankOf(a) < n <= NUM_BANKS
    ensures AfterAll(shown, s, Events(data, v.lanes, n), a, cut).at == AfterAll(shown, s, Events(data, v.lanes, BankOf(a) + 1), a, cut).at
  {
    hide Apart, Quiet, BankOf, LanesRead, Far, OwnerOf, FtlBuf, LaneWalk, After;
    if n > BankOf(a) + 1 {
      WalksAfter(shown, data, v, n - 1, a, cut, s);
      var ev, more := Events(data, v.lanes, n - 1), LaneWalk(data, v.lanes, n - 1);
      AfterConcat(shown, s, ev, more, a, cut);
      LaneElsewhere(data, v, n - 1, a);
      AfterQuiet(shown, AfterAll(shown, s, ev, a, cut), more, a, cut);
    }
  }

  /** A page whose own bank is read over its epoch is mapped to its last version below the cut that is newer than what
      its own flash page shows there. */
  lemma OwnBuffer(shown: (Source, nat) -> nat, data: map<Loc, DataPage>, v: View, x: nat, a: nat, cut: nat)
    requires v.WellFormed() && LanesRead(data, v.lanes) && InFtlBuf(a) && BankOf(a) == OwnerOf(a) && OffsetOf(a) < SECTOR_WORDS
    ensures LastToOutShow(shown, v.Items(a), a, cut, None, AfterAll(shown, Sight(x, None), Events(data, v.lanes, NUM_BANKS), a, cut).at)
  {
    hide FtlBuf, OwnerOf, OffsetOf, BankOf, Events, LastToOutShow, Walks;
    var b, s := BankOf(a), Sight(x, None);
    WalksAfter(shown, data, v, NUM_BANKS, a, cut, s);
    WalksBefore(shown, data, v, b, a, cut, s);
    var m := LaneNext(shown, data, v.lanes, b, a, cut, s);
    OwnLane(shown, data, b, v.lanes[b].blks, v.lanes[b].start, v.Items(a), a, cut, m);
  }

  /** The walk through bank b, and what was found before it: the page is where it was. */
  lemma LaneNext(shown: (Source, nat) -> nat, data: map<Loc, DataPage>, lanes: seq<Lane>, b: nat, a: nat, cut: nat, s: Sight) returns (m: Sight)
    requires LanesRead(data, lanes) && b < NUM_BANKS && InFtlBuf(a)
    ensures LaneReads(data, b, lanes[b])
    ensures AfterAll(shown, s, Events(data, lanes, b + 1), a, cut)
      == AfterAll(shown, m, LaneEvents(data, b, lanes[b].blks, lanes[b].start, lanes[b].items), a, cut)
    ensures var t := AfterAll(shown, s, Events(data, lanes, b), a, cut); m.at == t.at && (OwnerOf(a) != b ==> m == t)
  {
    hide Far, OwnerOf, Apart, Quiet, FtlBuf, Region0;
    assert LaneReads(data, b, lanes[b]);
    var t := AfterAll(shown, s, Events(data, lanes, b), a, cut);
    m := AfterAll(shown, t, Region0(b), a, cut);
    AfterConcat(shown, s, Events(data, lanes, b), LaneWalk(data, lanes, b), a, cut);
    AfterConcat(shown, t, Region0(b), LaneEvents(data, b, lanes[b].blks, lanes[b].start, lanes[b].items), a, cut);
    Region0Only(b, a);
    AfterQuiet(shown, t, Region0(b), a, cut);
  }

  /** A page whose epoch lies in the buffer of another bank is mapped to its newest version below the cut, if that is
      newer than the word: the one found, or, if the other bank comes first, the one its walk leaves. */
  lemma OtherBuffer(shown: (Source, nat) -> nat, data: map<Loc, DataPage>, v: View, x: nat, a: nat, cut: nat) returns (t: Sight)
    requires v.WellFormed() && LanesRead(data, v.lanes) && InFtlBuf(a) && BankOf(a) != OwnerOf(a)
    requires OwnerOf(a) < BankOf(a) ==> OffsetOf(a) < SUMMARY_WORDS
    ensures t.at == AfterAll(shown, Sight(x, None), Events(data, v.lanes, NUM_BANKS), a, cut).at
    ensures NewestOver(v.Items(a), a, cut, Sight(if OwnerOf(a) < BankOf(a) then EndWord(shown, v.lanes, a) else x, None), t)
  {
    hide FtlBuf, OwnerOf, OffsetOf, BankOf, Events, NewestOver, EndWord, Walks;
    var b, s := BankOf(a), Sight(x, None);
    WalksAfter(shown, data, v, NUM_BANKS, a, cut, s);
    WalksBefore(shown, data, v, b, a, cut, s);
    var m := LaneNext(shown, data, v.lanes, b, a, cut, s);
    t := AfterAll(shown, m, LaneEvents(data, b, v.lanes[b].blks, v.lanes[b].start, v.lanes[b].items), a, cut);
    OtherLane(shown, data, b, v.lanes[b].blks, v.lanes[b].start, v.Items(a), a, cut, m);
  }

  /** Counting reads nothing over the words behind the near ones. */
  lemma {:induction false} FarUncounted(shown: (Source, nat) -> nat, data: map<Loc, DataPage>, v: View, n: nat, a: nat, s: Sight)
    requires v.WellFormed() && LanesRead(data, v.lanes) && Far(a) && n <= NUM_BANKS
    ensures AfterAll(shown, s, Events(data, v.lanes, n), a, 0) == s
  {
    hide Far, FtlBuf, LaneWalk, After, Apart, Quiet, BankOf, LanesRead, OwnerOf;
    if n > 0 {
      FarUncounted(shown, data, v, n - 1, a, s);
      var more := LaneWalk(data, v.lanes, n - 1);
      AfterConcat(shown, s, Events(data, v.lanes, n - 1), more, a, 0);
      FarLane(data, v.lanes, n - 1, a);
      AfterNothing(shown, s, more, a);
    }
  }

  lemma FarLane(data: map<Loc, DataPage>, lanes: seq<Lane>, b: nat, a: nat)
    requires LanesRead(data, lanes) && b < NUM_BANKS && Far(a)
    ensures var ev := LaneWalk(data, lanes, b); forall i :: 0 <= i < |ev| ==> Apart(ev[i], a)
  {
    hide OwnerOf, OffsetOf, Apart;
    assert LaneReads(data, b, lanes[b]);
    Region0Only(b, a);
    LaneOnly(data, b, lanes[b].blks, lanes[b].start, lanes[b].items, a);
  }

  lemma {:induction false} AfterNothing(shown: (Source, nat) -> nat, s: Sight, ev: seq<Event>, a: nat)
    requires forall i :: 0 <= i < |ev| ==> Apart(ev[i], a)
    ensures AfterAll(shown, s, ev, a, 0) == s
  {
    if ev != [] {
      AfterNothing(shown, s, ev[..|ev| - 1], a);
      assert Apart(ev[|ev| - 1], a);
    }
  }
}
