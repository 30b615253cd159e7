/** The part of DRAM that recovery works in (ftl.h), in words of 4 bytes from DRAM_BASE on. Recovery has no
    tables of its own: the newest epoch of each page lies over the read and write buffers and what follows
    them, the counters over the cache buffers, and the list of dependencies over the counters. */
module Dram {
  import opened Geometry
  import opened Recoverable
  import opened Arith

  // ---- The layout. The sizes are parameters; the comments give the shipped ones. ----

  /** Words of the read, write and copy buffers: 5951488. */
  const FTL_BUF_AT: nat

  const SECTOR_WORDS := 128
  const BUF_WORDS: nat := SECTORS_PER_PAGE * SECTOR_WORDS

  /** FTL_BUF(bank) */
  function FtlBuf(bank: nat): nat {
    if bank == 0 then FTL_BUF_AT else FtlBuf(bank - 1) + BUF_WORDS
  }

  const FTL_BUF_END: nat := FtlBuf(NUM_BANKS)

  /** HIL_BUF and TEMP_BUF: 8192. */
  const OTHER_BUF_WORDS: nat

  /** RECOVERY_ADDR, which is CACHE_BUF_ADDR: 6025216. */
  const RECOVERY_AT: nat := FTL_BUF_END + OTHER_BUF_WORDS

  /** Entries of two words that fit CACHE_BUF and HEAD_BUF, and DEP_BUF and CHKPT_BUF: 1081344 and 67584. */
  const CACHE_ENTRIES: Positive
  const CHKPT_ENTRIES: Positive

  const DEP_BUF_AT: nat := RECOVERY_AT + 2 * CACHE_ENTRIES

  /** Entries before the page map begins: 1148928. */
  const RECOVERY_ENTRIES: nat := CACHE_ENTRIES + CHKPT_ENTRIES
  const PAGE_MAP_AT: nat := RECOVERY_AT + 2 * RECOVERY_ENTRIES

  /** Words that are read of a summary page: 256. A buffer has at least 2048. */
  type SummarySize = n: nat | 1 <= n <= 2048 witness 256
  const SUMMARY_WORDS: SummarySize

  /** sanity_check, without which ftl_open stops: the epochs of all pages (7801404) end before DEP_BUF. */
  predicate SanityCheck() {
    NUM_LPAGES < DEP_BUF_AT
  }

  predicate InFtlBuf(a: nat) {
    FTL_BUF_AT <= a < FTL_BUF_END
  }

  /** Before the counters, and not where flash pages are read to: nothing but the epoch of page a uses word a. */
  predicate Clear(a: nat) {
    a < FTL_BUF_AT || FTL_BUF_END <= a < RECOVERY_AT
  }

  /** Of each buffer, the words that reads of data pages and of summary pages cover. Log pages cover all of it. */
  const NEAR_WORDS: nat := if SUMMARY_WORDS > SECTOR_WORDS then SUMMARY_WORDS else SECTOR_WORDS

  /** The buffer that a word of FTL_BUF is in, and its place there. */
  function OwnerOf(a: nat): nat
    requires InFtlBuf(a)
  {
    Quotient(a - FTL_BUF_AT, BUF_WORDS)
  }

  function OffsetOf(a: nat): nat
    requires InFtlBuf(a)
  {
    Remainder(a - FTL_BUF_AT, BUF_WORDS)
  }

  predicate Near(a: nat) {
    InFtlBuf(a) && OffsetOf(a) < NEAR_WORDS
  }

  predicate Far(a: nat) {
    InFtlBuf(a) && OffsetOf(a) >= NEAR_WORDS
  }

  lemma {:induction false} FtlBufsGrow(a: nat, b: nat)
    requires a <= b
    ensures FtlBuf(a) + (b - a) * BUF_WORDS == FtlBuf(b)
    decreases b
  {
    if a < b {
      FtlBufsGrow(a, b - 1);
      assert (b - a) * BUF_WORDS == (b - 1 - a) * BUF_WORDS + BUF_WORDS;
    } else {
      assert 0 * BUF_WORDS == 0;
    }
  }

  lemma FtlBufInside(bank: nat)
    requires bank < NUM_BANKS
    ensures FTL_BUF_AT <= FtlBuf(bank) && FtlBuf(bank) + BUF_WORDS <= FTL_BUF_END
    ensures SECTOR_WORDS <= BUF_WORDS && SUMMARY_WORDS <= BUF_WORDS && FTL_BUF_AT < FTL_BUF_END
    ensures bank > 0 ==> FtlBuf(bank) > FTL_BUF_AT
  {
    FtlBufsGrow(0, bank);
    FtlBufsGrow(bank + 1, NUM_BANKS);
    MulMonotone(0, bank, BUF_WORDS);
    MulMonotone(1, if bank > 0 then bank else 1, BUF_WORDS);
    MulMonotone(0, NUM_BANKS - (bank + 1), BUF_WORDS);
  }

  /** Owner and offset are what they are said to be. */
  lemma BufferPlace(bank: nat, a: nat)
    requires bank < NUM_BANKS && FtlBuf(bank) <= a < FtlBuf(bank) + BUF_WORDS
    ensures InFtlBuf(a) && OwnerOf(a) == bank && OffsetOf(a) == a - FtlBuf(bank)
  {
    FtlBufInside(bank);
    FtlBufsGrow(0, bank);
    DivUnique(a - FTL_BUF_AT, BUF_WORDS, bank, a - FtlBuf(bank));
  }

  lemma PlaceInBuffer(a: nat)
    requires InFtlBuf(a)
    ensures OwnerOf(a) < NUM_BANKS && a == FtlBuf(OwnerOf(a)) + OffsetOf(a) && OffsetOf(a) < BUF_WORDS
  {
    var q, r := OwnerOf(a), OffsetOf(a);
    DivMod(a - FTL_BUF_AT, BUF_WORDS);
    FtlBufsGrow(0, NUM_BANKS);
    if q >= NUM_BANKS {
      MulMonotone(NUM_BANKS, q, BUF_WORDS);
    }
    FtlBufsGrow(0, q);
  }

  // ---- The words ----

  /** Words that were never written are 0; those of the page map are shown as the map. */
  datatype Memory = Memory(words: map<nat, nat>, pmap: map<nat, Loc>) {
    function Word(a: nat): nat {
      if InPageMap(a) then PpnOf(pmap, a - PAGE_MAP_AT) else WordIn(words, a)
    }

    function With(a: nat, x: nat): Memory {
      if InPageMap(a) then Memory(words, WithPpn(pmap, a - PAGE_MAP_AT, x)) else Memory(words[a := x], pmap)
    }
  }

  predicate InPageMap(a: nat) {
    PAGE_MAP_AT <= a < PAGE_MAP_AT + NUM_LPAGES
  }

  function WordIn(words: map<nat, nat>, a: nat): nat {
    if a in words then words[a] else 0
  }

  /** A page number as it is stored; 0 for a page that is not mapped. */
  function PpnOf(pmap: map<nat, Loc>, lpn: nat): nat {
    if lpn in pmap then pmap[lpn].blk * PAGES_PER_VBLK + pmap[lpn].pg else 0
  }

  function WithPpn(pmap: map<nat, Loc>, lpn: nat, ppn: nat): map<nat, Loc> {
    if ppn == 0 then pmap - {lpn} else pmap[lpn := LocOf(lpn, ppn)]
  }

  function LocOf(lpn: nat, ppn: nat): Loc {
    Loc(BankOf(lpn), Quotient(ppn, PAGES_PER_VBLK), Remainder(ppn, PAGES_PER_VBLK))
  }

  /** An entry of the table at RECOVERY_ADDR: the span and the count of a write, or the two ends of a
      dependency. */
  datatype Counter = Counter(span: nat, cnt: nat)

  function EntryAt(i: nat): nat {
    RECOVERY_AT + 2 * i
  }

  function EntryIn(words: map<nat, nat>, i: nat): Counter {
    Counter(WordIn(words, EntryAt(i)), WordIn(words, EntryAt(i) + 1))
  }

  /** The table, up to the page map. */
  function TableIn(words: map<nat, nat>): (t: seq<Counter>)
    ensures |t| == RECOVERY_ENTRIES
  {
    seq<Counter>(RECOVERY_ENTRIES, i requires 0 <= i => EntryIn(words, i))
  }

  /** The words that hold epochs of pages and that data pages are not read over. */
  function EpochsIn(words: map<nat, nat>): map<nat, nat> {
    map a | a in words && a < PAGE_MAP_AT && !Near(a) :: words[a]
  }

  /** Those of them that nothing else uses. */
  function ClearIn(words: map<nat, nat>): map<nat, nat> {
    map a | a in words && Clear(a) :: words[a]
  }

  /** The words that counting leaves alone. */
  function SteadyIn(words: map<nat, nat>): map<nat, nat> {
    map a | a in words && (Clear(a) || InFtlBuf(a)) :: words[a]
  }

  lemma SteadyParts(w: map<nat, nat>, u: map<nat, nat>)
    requires SteadyIn(w) == SteadyIn(u)
    ensures ClearIn(w) == ClearIn(u) && forall a: nat :: InFtlBuf(a) ==> WordIn(w, a) == WordIn(u, a)
  {
    forall a: nat ensures a in ClearIn(w) <==> a in ClearIn(u)
      ensures a in ClearIn(w) ==> ClearIn(w)[a] == ClearIn(u)[a] {
      assert a in SteadyIn(w) <==> a in SteadyIn(u);
    }
    forall a: nat | InFtlBuf(a) ensures WordIn(w, a) == WordIn(u, a) {
      assert a in SteadyIn(w) <==> a in SteadyIn(u);
    }
  }

  /** The words from the page map on, but for those of the map itself. */
  function BeyondIn(words: map<nat, nat>): map<nat, nat> {
    map a | a in words && a >= PAGE_MAP_AT :: words[a]
  }

  lemma ClearBelow(a: nat)
    requires Clear(a)
    ensures a < PAGE_MAP_AT && !Near(a)
  {
    FtlBufInside(0);
  }

  /** Writing an entry of the table, below the page map. */
  lemma EntryWritten(words: map<nat, nat>, i: nat, x: nat, y: nat)
    requires i < RECOVERY_ENTRIES
    ensures var w := words[EntryAt(i) := x][EntryAt(i) + 1 := y];
      TableIn(w) == TableIn(words)[i := Counter(x, y)] && SteadyIn(w) == SteadyIn(words) && BeyondIn(w) == BeyondIn(words)
    ensures !InPageMap(EntryAt(i)) && !InPageMap(EntryAt(i) + 1)
  {
    FtlBufInside(0);
  }

  /** Writing a word of an entry beyond the table. */
  lemma EntryBeyond(words: map<nat, nat>, i: nat, x: nat)
    requires i >= RECOVERY_ENTRIES
    ensures TableIn(words[EntryAt(i) := x]) == TableIn(words) && TableIn(words[EntryAt(i) + 1 := x]) == TableIn(words)
    ensures SteadyIn(words[EntryAt(i) := x]) == SteadyIn(words) && SteadyIn(words[EntryAt(i) + 1 := x]) == SteadyIn(words)
    ensures BeyondIn(words[EntryAt(i) := x]) == BeyondIn(words)[EntryAt(i) := x]
    ensures BeyondIn(words[EntryAt(i) + 1 := x]) == BeyondIn(words)[EntryAt(i) + 1 := x]
  {
    FtlBufInside(0);
  }

  /** What a read into FTL_BUF leaves: n words of the page. */
  function ReadOver(words: map<nat, nat>, bank: nat, n: nat, page: nat -> nat): map<nat, nat> {
    words + map a: nat | FtlBuf(bank) <= a < FtlBuf(bank) + n :: PageWord(page, bank, a)
  }

  function PageWord(page: nat -> nat, bank: nat, a: nat): nat {
    if a >= FtlBuf(bank) then page(a - FtlBuf(bank)) else 0
  }

  lemma ReadOverKeeps(words: map<nat, nat>, bank: nat, n: nat, page: nat -> nat)
    requires bank < NUM_BANKS && n <= BUF_WORDS
    ensures var w := ReadOver(words, bank, n, page);
      && TableIn(w) == TableIn(words) && ClearIn(w) == ClearIn(words) && BeyondIn(w) == BeyondIn(words)
      && (forall a: nat :: WordIn(w, a) == if FtlBuf(bank) <= a < FtlBuf(bank) + n then page(a - FtlBuf(bank)) else WordIn(words, a))
  {
    hide FtlBuf, ReadOver;
    FtlBufInside(bank);
    ReadOverWords(words, bank, n, page);
  }

  lemma ReadOverWords(words: map<nat, nat>, bank: nat, n: nat, page: nat -> nat)
    ensures var w := ReadOver(words, bank, n, page);
      forall a: nat ::
        && (a in w <==> a in words || FtlBuf(bank) <= a < FtlBuf(bank) + n)
        && WordIn(w, a) == if FtlBuf(bank) <= a < FtlBuf(bank) + n then page(a - FtlBuf(bank)) else WordIn(words, a)
  {
    hide FtlBuf;
  }

  /** A data page or a summary page leaves the words behind it. */
  lemma ReadOverNear(words: map<nat, nat>, bank: nat, n: nat, page: nat -> nat)
    requires bank < NUM_BANKS && n <= NEAR_WORDS <= BUF_WORDS
    ensures EpochsIn(ReadOver(words, bank, n, page)) == EpochsIn(words)
  {
    hide Near, FtlBuf;
    FtlBufInside(bank);
    forall a: nat | FtlBuf(bank) <= a < FtlBuf(bank) + n ensures Near(a) {
      BufferPlace(bank, a);
      NearIs(a);
    }
  }

  lemma NearIs(a: nat)
    requires InFtlBuf(a)
    ensures Near(a) <==> OffsetOf(a) < NEAR_WORDS
    ensures Far(a) <==> OffsetOf(a) >= NEAR_WORDS
  {
  }

  /** Writing the epoch of a page. */
  lemma EpochWritten(words: map<nat, nat>, lpn: nat, x: nat)
    requires lpn < PAGE_MAP_AT
    ensures EpochsIn(words[lpn := x]) == if Near(lpn) then EpochsIn(words) else EpochsIn(words)[lpn := x]
  {
  }
}
