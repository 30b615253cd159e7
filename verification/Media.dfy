/** The flash device and the layouts the firmware uses on it: chains of data blocks, the log striped
    over the banks, and the two slots for the full page map. */
module Media {
  import opened Geometry
  import opened Requests
  import opened Recoverable

  datatype Pos = Pos(blk: nat, pg: nat)

  /** A page of the log. Pages are told apart by a magic number: 100, 200 and 300. */
  datatype LogPage =
    | Tag(epoch: nat, active: seq<Pos>)
    | MapEnts(ents: seq<(nat, Loc)>)
    | Deps(deps: seq<Dep>)

  /** blk counts the log blocks of the bank. */
  datatype LogLoc = LogLoc(bank: nat, blk: nat, pg: nat)

  /** A slot for the full page map: one block in each bank. commit is the epoch in the commit page,
      which is in bank 0 after the pages of the map. */
  datatype Slot = Slot(chunks: map<nat, map<nat, Loc>>, commit: Option<nat>)

  const EMPTY_SLOT := Slot(map[], None)

  datatype Flash = Flash(data: map<Loc, DataPage>, log: map<LogLoc, LogPage>, slots: seq<Slot>)

  // ---- Epochs as the firmware stores them ----

  const U32 := 0x1_0000_0000

  /** The 32-bit image of the epoch before g. */
  function Before(g: nat): nat {
    if g == 0 then U32 - 1 else g - 1
  }

  function Stored(commit: int): nat
    requires commit >= -1
  {
    if commit == -1 then U32 - 1 else commit
  }

  // ---- The striped log ----

  const LOG_CAP: nat := NUM_LOG_BLKS_PER_BANK * LAST_PAGE * NUM_BANKS

  /** The bank that the k-th page written to the log since it was last reset goes to. */
  function RoundRobin(k: nat): (b: nat)
    ensures b < NUM_BANKS
  {
    if k == 0 then 0 else if RoundRobin(k - 1) + 1 == NUM_BANKS then 0 else RoundRobin(k - 1) + 1
  }

  /** How many of the first k log pages are in bank b. */
  function Turns(k: nat, b: nat): nat {
    if k == 0 then 0 else Turns(k - 1, b) + if RoundRobin(k - 1) == b then 1 else 0
  }

  /** The n-th log page of a bank; the last page of a block is skipped. */
  function NthPage(n: nat): (p: Pos)
    ensures p.pg < LAST_PAGE
  {
    if n == 0 then Pos(0, 0)
    else
      var p := NthPage(n - 1);
      if p.pg + 1 == LAST_PAGE then Pos(p.blk + 1, 0) else Pos(p.blk, p.pg + 1)
  }

  function BankAddr(b: nat, n: nat): LogLoc {
    LogLoc(b, NthPage(n).blk, NthPage(n).pg)
  }

  /** Where the k-th page written to the log since it was last reset goes. */
  function LogAddr(k: nat): LogLoc {
    BankAddr(RoundRobin(k), Turns(k, RoundRobin(k)))
  }

  /** The log page at l can be programmed: it is erased, and the one before it in its block is not. */
  ghost predicate LogReady(log: map<LogLoc, LogPage>, l: LogLoc) {
    l !in log && (l.pg > 0 ==> LogLoc(l.bank, l.blk, l.pg - 1) in log)
  }

  /** The log reads back as pages: they are in place, and the one after them is not programmed. */
  ghost predicate LogReads(log: map<LogLoc, LogPage>, pages: seq<LogPage>) {
    && |pages| < LOG_CAP
    && (forall k :: 0 <= k < |pages| ==> LogAddr(k) in log && log[LogAddr(k)] == pages[k])
    && LogAddr(|pages|) !in log
  }

  // ---- The full page map ----

  predicate InChunk(i: nat, lpn: nat) {
    lpn / MAPS_PER_PAGE == i
  }

  function ChunkOf(m: map<nat, Loc>, i: nat): (c: map<nat, Loc>)
    ensures forall l :: l in c <==> l in m && InChunk(i, l)
    ensures forall l :: l in c ==> c[l] == m[l]
  {
    map l | l in m && InChunk(i, l) :: m[l]
  }

  /** Pages the persisted map takes. */
  const NUM_CHUNKS: nat := (NUM_LPAGES - 1) / MAPS_PER_PAGE + 1

  ghost predicate HoldsMap(slot: Slot, m: map<nat, Loc>) {
    && (forall l :: l in m ==> l < NUM_LPAGES)
    && forall i :: 0 <= i < NUM_CHUNKS ==> i in slot.chunks && slot.chunks[i] == ChunkOf(m, i)
  }

  /** What check_pgmap_commit reads: 0 when there is no commit page. */
  function SlotEpoch(slot: Slot): nat {
    if slot.commit.Some? then slot.commit.value else 0
  }

  function Chosen(slots: seq<Slot>): nat
    requires |slots| == 2
  {
    if SlotEpoch(slots[0]) > SlotEpoch(slots[1]) then 0 else 1
  }

  /** Restoring the page map from the slots gives m, and sets the epoch counter to epoch if there is a map. */
  ghost predicate MapReads(slots: seq<Slot>, m: map<nat, Loc>, epoch: Option<nat>) {
    && |slots| == 2
    && if SlotEpoch(slots[0]) == 0 && SlotEpoch(slots[1]) == 0 then m == map[] && epoch == None
       else epoch == Some(SlotEpoch(slots[Chosen(slots)])) && HoldsMap(slots[Chosen(slots)], m)
  }

  // ---- Chains of data blocks ----

  /** Reading bank b from page pg of the first block of blks, through the links in the summary pages,
      visits exactly items and ends in the last block of blks. */
  ghost predicate Walks(data: map<Loc, DataPage>, b: nat, blks: seq<nat>, pg: nat, items: seq<Item>)
    requires pg <= LAST_PAGE
    decreases |blks|, LAST_PAGE - pg
  {
    && |blks| > 0
    && if pg < LAST_PAGE && Loc(b, blks[0], pg) in data then
         && |items| > 0
         && items[0] == Item(Loc(b, blks[0], pg), data[Loc(b, blks[0], pg)])
         && Walks(data, b, blks, pg + 1, items[1..])
       else if Loc(b, blks[0], LAST_PAGE) in data then
         && data[Loc(b, blks[0], LAST_PAGE)].Summary?
         && |blks| > 1
         && data[Loc(b, blks[0], LAST_PAGE)].next == blks[1]
         && Walks(data, b, blks[1..], 0, items)
       else
         |blks| == 1 && items == []
  }

  ghost predicate LaneReads(data: map<Loc, DataPage>, b: nat, lane: Lane) {
    lane.start <= LAST_PAGE && Walks(data, b, lane.blks, lane.start, lane.items)
  }

  // ---- What the log means ----

  function Replay(m: map<nat, Loc>, ents: seq<(nat, Loc)>): map<nat, Loc> {
    if ents == [] then m
    else Replay(m, ents[..|ents| - 1])[ents[|ents| - 1].0 := ents[|ents| - 1].1]
  }

  function MapEntries(pages: seq<LogPage>): seq<(nat, Loc)> {
    if pages == [] then []
    else MapEntries(pages[..|pages| - 1]) + if pages[|pages| - 1].MapEnts? then pages[|pages| - 1].ents else []
  }

  function DepEntries(pages: seq<LogPage>): seq<Dep> {
    if pages == [] then []
    else DepEntries(pages[..|pages| - 1]) + if pages[|pages| - 1].Deps? then pages[|pages| - 1].deps else []
  }

  /** The content of the slots and of the log, with the position of the last tag page. */
  datatype Journal = Journal(base: map<nat, Loc>, epoch: Option<nat>, pages: seq<LogPage>, tag: nat, ndeps: nat)

  /** After the last tag page come ndeps dependency pages, then only mapping entry pages: those of a
      checkpoint whose tag was not reached. */
  ghost predicate Ordered(j: Journal) {
    && j.tag + 1 + j.ndeps <= |j.pages|
    && j.pages[j.tag].Tag?
    && (forall k :: 0 <= k < j.tag && j.pages[k].Tag? ==> j.pages[k].epoch != j.pages[j.tag].epoch)
    && (forall k :: j.tag < k <= j.tag + j.ndeps ==> j.pages[k].Deps?)
    && (forall k :: j.tag + j.ndeps < k < |j.pages| ==> j.pages[k].MapEnts?)
  }

  predicate StartsAt(lane: Lane, p: Pos) {
    |lane.blks| > 0 && p == Pos(lane.blks[0], lane.start)
  }

  ghost predicate Describes(j: Journal, v: View)
    requires v.commit >= -1 && |v.lanes| == NUM_BANKS
  {
    if j.pages == [] then
      // a full map was persisted and the log erased, but no tag page written yet
      && v.commit >= 0 && j.epoch == Some(v.commit)
      && v.cmap == j.base
      && (forall b :: 0 <= b < NUM_BANKS ==> v.lanes[b].items == [])
      && v.deps == []
    else
      && Ordered(j)
      && j.pages[j.tag].epoch == Stored(v.commit)
      && |j.pages[j.tag].active| == NUM_BANKS
      && (forall b :: 0 <= b < NUM_BANKS ==> StartsAt(v.lanes[b], j.pages[j.tag].active[b]))
      && v.cmap == Replay(j.base, MapEntries(j.pages[..j.tag]))
      && v.deps == DepEntries(j.pages[j.tag + 1..])
  }

  /** The flash device holds v: what a crash leaves, and what recovery works from. */
  ghost predicate Image(f: Flash, v: View, j: Journal) {
    && v.WellFormed()
    && LogReads(f.log, j.pages)
    && MapReads(f.slots, j.base, j.epoch)
    && (forall b :: 0 <= b < NUM_BANKS ==> LaneReads(f.data, b, v.lanes[b]))
    && Describes(j, v)
  }
}
