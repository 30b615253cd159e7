/** The flash device of the simulator. Programming a page, copying a page and erasing a block are atomic,
    and a crash may follow each of them: the device records what each of them leaves. */
module Nand {
  import opened Geometry
  import opened Requests
  import opened Recoverable
  import opened OrderState
  import opened FlashSteps
  import opened Media

  /** What a crash at one moment leaves on flash, with the firmware's state at that moment as evidence of
      what it means. */
  datatype Crash = Crash(flash: Flash, s: State, j: Journal)

  /** The flash content is an image of a state that satisfies the invariant. */
  ghost predicate CrashSafe(c: Crash) {
    && Inv(c.s)
    && c.s.data == c.flash.data
    && Image(c.flash, c.s.v, c.j)
  }

  class Nand {
    var data: map<Loc, DataPage>
    var log: map<LogLoc, LogPage>
    var slots: seq<Slot>
    /** One record for each operation so far. */
    ghost var crashes: seq<Crash>

    function Content(): Flash
      reads this
    {
      Flash(data, log, slots)
    }

    /** At every crash point so far, recovery would have found a state of the invariant. */
    ghost predicate Valid()
      reads this
    {
      |slots| == 2 && forall i :: 0 <= i < |crashes| ==> CrashSafe(crashes[i])
    }

    /** A formatted device: every block is erased. */
    constructor ()
      ensures Valid() && data == map[] && log == map[] && slots == [EMPTY_SLOT, EMPTY_SLOT] && crashes == []
    {
      data, log, slots, crashes := map[], map[], [EMPTY_SLOT, EMPTY_SLOT], [];
    }

    /** vst_write_page on a data block. The simulator stops if the page is not erased, or if the one
        before it in the block is. */
    method ProgramPage(l: Loc, page: DataPage, ghost s: State, ghost j: Journal)
      requires Valid()
      requires l !in data && (l.pg > 0 ==> Loc(l.bank, l.blk, l.pg - 1) in data)
      requires CrashSafe(Crash(Flash(data[l := page], log, slots), s, j))
      modifies this
      ensures Valid() && data == old(data)[l := page] && log == old(log) && slots == old(slots)
      ensures crashes == old(crashes) + [Crash(Flash(data, log, slots), s, j)]
    {
      data := data[l := page];
      crashes := crashes + [Crash(Flash(data, log, slots), s, j)];
    }

    /** vst_copyback_page: the new page has the same content and the spare bytes given. */
    method CopyBackPage(from: Loc, to: Loc, lpn: nat, ghost s: State, ghost j: Journal)
      requires Valid()
      requires from in data && !data[from].Summary? && to !in data
      requires CrashSafe(Crash(Flash(data[to := Copy(lpn, data[from].content)], log, slots), s, j))
      modifies this
      ensures Valid() && data == old(data)[to := Copy(lpn, old(data)[from].content)] && log == old(log) && slots == old(slots)
      ensures crashes == old(crashes) + [Crash(Flash(data, log, slots), s, j)]
    {
      data := data[to := Copy(lpn, data[from].content)];
      crashes := crashes + [Crash(Flash(data, log, slots), s, j)];
    }

    /** vst_erase_block on a data block. */
    method EraseBlock(b: nat, blk: nat, ghost s: State, ghost j: Journal)
      requires Valid()
      requires CrashSafe(Crash(Flash(Without(data, b, blk), log, slots), s, j))
      modifies this
      ensures Valid() && data == Without(old(data), b, blk) && log == old(log) && slots == old(slots)
      ensures crashes == old(crashes) + [Crash(Flash(data, log, slots), s, j)]
    {
      data := Without(data, b, blk);
      crashes := crashes + [Crash(Flash(data, log, slots), s, j)];
    }

    /** vst_write_page on a log block, under the same checks. */
    method ProgramLog(l: LogLoc, page: LogPage, ghost s: State, ghost j: Journal)
      requires Valid()
      requires LogReady(log, l)
      requires CrashSafe(Crash(Flash(data, log[l := page], slots), s, j))
      modifies this
      ensures Valid() && log == old(log)[l := page] && data == old(data) && slots == old(slots)
      ensures crashes == old(crashes) + [Crash(Flash(data, log, slots), s, j)]
    {
      log := log[l := page];
      crashes := crashes + [Crash(Flash(data, log, slots), s, j)];
    }

    /** vst_erase_block on a log block. */
    method EraseLogBlock(b: nat, blk: nat, ghost s: State, ghost j: Journal)
      requires Valid()
      requires CrashSafe(Crash(Flash(data, WithoutLog(log, b, blk), slots), s, j))
      modifies this
      ensures Valid() && log == WithoutLog(old(log), b, blk) && data == old(data) && slots == old(slots)
      ensures crashes == old(crashes) + [Crash(Flash(data, log, slots), s, j)]
    {
      log := WithoutLog(log, b, blk);
      crashes := crashes + [Crash(Flash(data, log, slots), s, j)];
    }

    /** vst_write_page on a map block: one page of the map, in the order of the block. */
    method ProgramChunk(slot: nat, i: nat, chunk: map<nat, Loc>, ghost s: State, ghost j: Journal)
      requires Valid() && slot < 2
      requires i !in slots[slot].chunks && slots[slot].commit == None
      requires i >= NUM_BANKS ==> i - NUM_BANKS in slots[slot].chunks
      requires CrashSafe(Crash(Flash(data, log, slots[slot := WithChunk(slots[slot], i, chunk)]), s, j))
      modifies this
      ensures Valid() && slots == old(slots)[slot := WithChunk(old(slots)[slot], i, chunk)] && data == old(data) && log == old(log)
      ensures crashes == old(crashes) + [Crash(Flash(data, log, slots), s, j)]
    {
      slots := slots[slot := WithChunk(slots[slot], i, chunk)];
      crashes := crashes + [Crash(Flash(data, log, slots), s, j)];
    }

    /** vst_write_page on a map block: the commit page, after the last page of the map in bank 0. */
    method ProgramMapCommit(slot: nat, epoch: nat, ghost s: State, ghost j: Journal)
      requires Valid() && slot < 2
      requires slots[slot].commit == None
      requires forall i :: 0 <= i < NUM_CHUNKS <= i + NUM_BANKS && RoundRobin(i) == 0 ==> i in slots[slot].chunks
      requires CrashSafe(Crash(Flash(data, log, slots[slot := slots[slot].(commit := Some(epoch))]), s, j))
      modifies this
      ensures Valid() && slots == old(slots)[slot := old(slots)[slot].(commit := Some(epoch))] && data == old(data) && log == old(log)
      ensures crashes == old(crashes) + [Crash(Flash(data, log, slots), s, j)]
    {
      slots := slots[slot := slots[slot].(commit := Some(epoch))];
      crashes := crashes + [Crash(Flash(data, log, slots), s, j)];
    }

    /** vst_erase_block on the map block of bank b. The commit page is in bank 0. */
    method EraseMapBlock(slot: nat, b: nat, ghost s: State, ghost j: Journal)
      requires Valid() && slot < 2
      requires CrashSafe(Crash(Flash(data, log, slots[slot := WithoutBank(slots[slot], b)]), s, j))
      modifies this
      ensures Valid() && slots == old(slots)[slot := WithoutBank(old(slots)[slot], b)] && data == old(data) && log == old(log)
      ensures crashes == old(crashes) + [Crash(Flash(data, log, slots), s, j)]
    {
      slots := slots[slot := WithoutBank(slots[slot], b)];
      crashes := crashes + [Crash(Flash(data, log, slots), s, j)];
    }

    /** The power may also fail when no operation is under way: the flash content is the same, but the
        firmware may have promised more since. */
    ghost method PowerCut(s: State, j: Journal)
      requires Valid() && CrashSafe(Crash(Flash(data, log, slots), s, j))
      modifies this`crashes
      ensures Valid() && crashes == old(crashes) + [Crash(Flash(data, log, slots), s, j)]
    {
      crashes := crashes + [Crash(Flash(data, log, slots), s, j)];
    }
  }

  function WithoutLog(log: map<LogLoc, LogPage>, b: nat, blk: nat): (r: map<LogLoc, LogPage>)
    ensures forall l :: l in r <==> l in log && !(l.bank == b && l.blk == blk)
    ensures forall l :: l in r ==> r[l] == log[l]
  {
    map l | l in log && !(l.bank == b && l.blk == blk) :: log[l]
  }

  function WithChunk(slot: Slot, i: nat, chunk: map<nat, Loc>): Slot {
    slot.(chunks := slot.chunks[i := chunk])
  }

  function WithoutBank(slot: Slot, b: nat): (r: Slot)
    ensures forall i :: i in r.chunks <==> i in slot.chunks && RoundRobin(i) != b
    ensures forall i :: i in r.chunks ==> r.chunks[i] == slot.chunks[i]
    ensures r.commit == if b == 0 then None else slot.commit
  {
    Slot(map i | i in slot.chunks && RoundRobin(i) != b :: slot.chunks[i], if b == 0 then None else slot.commit)
  }
}
