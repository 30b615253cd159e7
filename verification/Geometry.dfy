/** Sizes of the device. They are parameters: what is proved of the running firmware holds for all values that
    meet the bounds in their types, what is proved of recovery also needs the layout of Dram. The witnesses are
    the values of the shipped build. */
module Geometry {

  type BankCount = n: nat | 8 <= n witness 16
  const NUM_BANKS: BankCount

  type BlockSize = n: nat | 128 <= n witness 128
  const PAGES_PER_VBLK: BlockSize

  /** The last page of a data block is its summary page; the last page of a log block is never used. */
  const LAST_PAGE: nat := PAGES_PER_VBLK - 1

  lemma LastPage()
    ensures LAST_PAGE + 1 == PAGES_PER_VBLK && LAST_PAGE >= 127
  {
  }

  type PageSize = n: nat | 16 <= n witness 32
  const SECTORS_PER_PAGE: PageSize

  type Positive = n: nat | 1 <= n witness 1
  const NUM_LPAGES: Positive

  /** Entries of the page map that fit one page of the persisted map. */
  const MAPS_PER_PAGE: Positive

  type BufferCount = n: nat | 1 <= n <= 512 witness 32
  const NUM_CACHE_BUFFERS_PER_BANK: BufferCount

  type LogBlockCount = n: nat | 2 <= n witness 2
  const NUM_LOG_BLKS_PER_BANK: LogBlockCount

  const NUM_MAPENTS_PER_PAGE := 1800
  const NUM_DEPENTS_PER_PAGE := 750
  const GC_THRESHOLD := 120
  const BATCH_GC_THRESHOLD := 16

  lemma Thresholds()
    ensures 0 < BATCH_GC_THRESHOLD < GC_THRESHOLD
  {
  }

  /** The sector count field of a command has 16 bits, and 0 means 0x10000. */
  const MAX_SECTORS := 0x1_0000

  function BankOf(lpn: nat): (b: nat)
    ensures b < NUM_BANKS
  {
    lpn % NUM_BANKS
  }
}
