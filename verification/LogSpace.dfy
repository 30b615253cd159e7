/** Handing out the pages of the log: the log block counters of blkmgr.c and log_ppn of pgmap.c. */
module LogSpace {
  import opened Geometry
  import opened Arith
  import opened Media
  import opened Sums

  // ---- The striping in closed form ----

  lemma {:induction false} RoundRobinIsMod(k: nat)
    ensures RoundRobin(k) == k % NUM_BANKS
  {
    if k == 0 {
      DivUnique(0, NUM_BANKS, 0, 0);
    } else {
      RoundRobinIsMod(k - 1);
      DivStep(k - 1, NUM_BANKS);
    }
  }

  lemma {:induction false} TurnsIsDiv(k: nat, b: nat)
    requires b < NUM_BANKS
    ensures Turns(k, b) == k / NUM_BANKS + if b < k % NUM_BANKS then 1 else 0
  {
    if k == 0 {
      DivUnique(0, NUM_BANKS, 0, 0);
    } else {
      TurnsIsDiv(k - 1, b);
      RoundRobinIsMod(k - 1);
      DivStep(k - 1, NUM_BANKS);
    }
  }

  lemma {:induction false} NthPageIsDiv(n: nat)
    ensures NthPage(n) == Pos(n / LAST_PAGE, n % LAST_PAGE)
  {
    if n == 0 {
      DivUnique(0, LAST_PAGE, 0, 0);
    } else {
      NthPageIsDiv(n - 1);
      DivStep(n - 1, LAST_PAGE);
    }
  }

  /** The k-th page is in bank k mod NUM_BANKS, and each bank fills its blocks in order. */
  lemma LogAddrStriped(k: nat)
    ensures var n := Quotient(k, NUM_BANKS);
      LogAddr(k) == LogLoc(Remainder(k, NUM_BANKS), Quotient(n, LAST_PAGE), Remainder(n, LAST_PAGE))
  {
    RoundRobinIsMod(k);
    TurnsIsDiv(k, k % NUM_BANKS);
    NthPageIsDiv(k / NUM_BANKS);
  }

  lemma {:induction false} NthPageInjective(m: nat, n: nat)
    requires NthPage(m) == NthPage(n)
    ensures m == n
  {
    NthPageIsDiv(m);
    NthPageIsDiv(n);
    assert m == (m / LAST_PAGE) * LAST_PAGE + m % LAST_PAGE;
    assert n == (n / LAST_PAGE) * LAST_PAGE + n % LAST_PAGE;
  }

  lemma {:induction false} TurnsGrow(j: nat, k: nat, b: nat)
    requires j < k && RoundRobin(j) == b
    ensures Turns(j, b) < Turns(k, b)
  {
    if j < k - 1 {
      TurnsGrow(j, k - 1, b);
    }
  }

  /** No two pages of the log share an address. */
  lemma LogAddrInjective(j: nat, k: nat)
    requires LogAddr(j) == LogAddr(k)
    ensures j == k
  {
    NthPageInjective(Turns(j, RoundRobin(j)), Turns(k, RoundRobin(k)));
    if j < k {
      TurnsGrow(j, k, RoundRobin(j));
    } else if k < j {
      TurnsGrow(k, j, RoundRobin(k));
    }
  }

  lemma QuotientBelow(a: nat, d: nat, c: nat)
    requires d > 0 && a < c * d
    ensures a / d < c
  {
    DivMod(a, d);
    if a / d >= c {
      MulMonotone(c, a / d, d);
    }
  }

  lemma RoomInBank(k: nat)
    requires k < LOG_CAP
    ensures NthPage(Turns(k, RoundRobin(k))).blk < NUM_LOG_BLKS_PER_BANK
  {
    QuotientBelow(k, NUM_BANKS, NUM_LOG_BLKS_PER_BANK * LAST_PAGE);
    QuotientBelow(k / NUM_BANKS, LAST_PAGE, NUM_LOG_BLKS_PER_BANK);
    LogAddrStriped(k);
  }

  /** log_ppn and the number of blocks in use of a bank once n of its pages were handed out. */
  function CursorAt(n: nat): Pos {
    if n == 0 then Pos(0, 0) else Pos(NthPage(n - 1).blk, NthPage(n - 1).pg + 1)
  }

  function BlocksFor(n: nat): nat {
    CursorAt(n).blk + 1
  }

  /** While three log blocks are not taken yet, the log has fewer pages than this. */
  const LOG_SAFE: nat := ((NUM_LOG_BLKS_PER_BANK - 1) * LAST_PAGE + 1) * NUM_BANKS

  /** What one write request, with its garbage collection and its checkpoint, may add to the log fits. */
  lemma LogMargin()
    ensures LOG_SAFE + 2 * NUM_BANKS + 100 < LOG_CAP
  {
    var l, p, n := NUM_LOG_BLKS_PER_BANK as nat, LAST_PAGE, NUM_BANKS as nat;
    calc {
      l * p * n;
      ((l - 1) * p + p) * n;
      ((l - 1) * p + 1 + (p - 1)) * n;
      ((l - 1) * p + 1) * n + (p - 1) * n;
    }
    MulMonotone(126, p - 1, n);
  }

  lemma BlocksForIsDiv(n: nat)
    requires n > 0
    ensures BlocksFor(n) == (n - 1) / LAST_PAGE + 1
  {
    NthPageIsDiv(n - 1);
  }

  lemma ManyBlocks(k: nat, b: nat)
    requires k >= LOG_SAFE && b < NUM_BANKS
    ensures BlocksFor(Turns(k, b)) >= NUM_LOG_BLKS_PER_BANK
  {
    var full: nat := (NUM_LOG_BLKS_PER_BANK - 1) * LAST_PAGE;
    TurnsIsDiv(k, b);
    DivMonotone((full + 1) * NUM_BANKS, k, NUM_BANKS);
    DivUnique((full + 1) * NUM_BANKS, NUM_BANKS, full + 1, 0);
    BlocksForIsDiv(Turns(k, b));
    DivMonotone(full, Turns(k, b) - 1, LAST_PAGE);
    DivUnique(full, LAST_PAGE, NUM_LOG_BLKS_PER_BANK - 1, 0);
  }

  lemma OneBlock(k: nat, b: nat)
    requires k <= LAST_PAGE * NUM_BANKS && b < NUM_BANKS
    ensures BlocksFor(Turns(k, b)) == 1
  {
    TurnsIsDiv(k, b);
    DivMod(k, NUM_BANKS);
    DivMonotone(k, LAST_PAGE * NUM_BANKS, NUM_BANKS);
    DivUnique(LAST_PAGE * NUM_BANKS, NUM_BANKS, LAST_PAGE, 0);
    var n := Turns(k, b);
    if n > 0 {
      BlocksForIsDiv(n);
      DivUnique(n - 1, LAST_PAGE, 0, n - 1);
    }
  }

  /** The log blocks that no bank has taken yet, once k pages were written. */
  function BlocksLeft(k: nat): int {
    NUM_LOG_BLKS_PER_BANK * NUM_BANKS - Total(seq<nat>(NUM_BANKS, b requires 0 <= b < NUM_BANKS => BlocksFor(Turns(k, b))))
  }

  lemma FirstBlocksLeft(k: nat)
    requires k <= LAST_PAGE * NUM_BANKS
    ensures BlocksLeft(k) >= 3
  {
    var taken := seq<nat>(NUM_BANKS, b requires 0 <= b < NUM_BANKS => BlocksFor(Turns(k, b)));
    forall b | 0 <= b < NUM_BANKS ensures taken[b] == 1 {
      OneBlock(k, b);
    }
    TotalConst(taken, 1);
    MulMonotone(2, NUM_LOG_BLKS_PER_BANK, NUM_BANKS);
  }

  class LogSpace {
    /** log_ppn: the block and the page that follows the last one handed out. */
    var logPpn: seq<Pos>
    /** blk_log: the next block each bank would take, and log_blk_cnt: the blocks not yet taken. */
    var blkLog: seq<nat>
    var logBlkCnt: int
    /** How many pages each bank handed out since it was last reset. */
    ghost var given: seq<nat>

    ghost predicate Valid()
      reads this
    {
      && |logPpn| == |blkLog| == |given| == NUM_BANKS
      && forall b :: 0 <= b < NUM_BANKS ==> logPpn[b] == CursorAt(given[b]) && blkLog[b] == BlocksFor(given[b])
    }

    /** The pages handed out are the first k of the striped log. */
    ghost predicate Striped(k: nat)
      reads this
    {
      Valid() && forall b :: 0 <= b < NUM_BANKS ==> given[b] == Turns(k, b)
    }

    lemma StripedValid(k: nat)
      requires Striped(k)
      ensures Valid()
    {
    }

    /** The reclaim threshold is tested often enough: while it is not reached, the log has room. */
    lemma RoomLeft(k: nat)
      requires Striped(k) && logBlkCnt + Total(blkLog) == NUM_LOG_BLKS_PER_BANK * NUM_BANKS && logBlkCnt >= 3
      ensures k < LOG_SAFE
    {
      if k >= LOG_SAFE {
        forall b | 0 <= b < NUM_BANKS ensures blkLog[b] >= NUM_LOG_BLKS_PER_BANK {
          ManyBlocks(k, b);
        }
        TotalEach(blkLog, NUM_LOG_BLKS_PER_BANK);
      }
    }

    /** log_blk_cnt depends on the length of the log only. */
    lemma CountLeft(k: nat)
      requires Striped(k) && logBlkCnt + Total(blkLog) == NUM_LOG_BLKS_PER_BANK * NUM_BANKS
      ensures logBlkCnt == BlocksLeft(k)
    {
      assert blkLog == seq<nat>(NUM_BANKS, b requires 0 <= b < NUM_BANKS => BlocksFor(Turns(k, b)));
    }

    /** A log in its first blocks is far from the threshold. */
    lemma FarFromThreshold(k: nat)
      requires Striped(k) && logBlkCnt + Total(blkLog) == NUM_LOG_BLKS_PER_BANK * NUM_BANKS
      requires k <= LAST_PAGE * NUM_BANKS
      ensures logBlkCnt >= 3
    {
      CountLeft(k);
      FirstBlocksLeft(k);
    }

    /** Every bank starts over at its first log block. */
    constructor ()
      ensures Valid() && Striped(0)
      ensures logBlkCnt == NUM_LOG_BLKS_PER_BANK * NUM_BANKS - Total(blkLog)
    {
      logPpn := seq(NUM_BANKS, i => Pos(0, 0));
      blkLog := seq(NUM_BANKS, i => 1);
      logBlkCnt := NUM_LOG_BLKS_PER_BANK * NUM_BANKS - NUM_BANKS;
      given := seq(NUM_BANKS, i => 0);
      new;
      TotalConst(blkLog, 1);
    }

    /** get_log_blk: the next log block of the bank. */
    method GetLogBlk(bank: nat) returns (blk: nat)
      requires bank < NUM_BANKS && |blkLog| == NUM_BANKS
      requires blkLog[bank] < NUM_LOG_BLKS_PER_BANK  // else the firmware stops: "Running out of log blocks"
      modifies this`blkLog, this`logBlkCnt
      ensures blk == old(blkLog[bank])
      ensures blkLog == old(blkLog)[bank := blk + 1]
      ensures logBlkCnt == old(logBlkCnt) - 1
    {
      blk := blkLog[bank];
      logBlkCnt := logBlkCnt - 1;
      blkLog := blkLog[bank := blk + 1];
    }

    /** get_log_ppn: the next page of the bank's log; the last page of a block is skipped. */
    method GetLogPpn(bank: nat) returns (loc: LogLoc)
      requires Valid() && bank < NUM_BANKS
      requires NthPage(given[bank]).blk < NUM_LOG_BLKS_PER_BANK
      modifies this
      ensures Valid()
      ensures given == old(given)[bank := old(given)[bank] + 1]
      ensures loc == BankAddr(bank, old(given)[bank])
      ensures logBlkCnt + Total(blkLog) == old(logBlkCnt + Total(blkLog))
    {
      ghost var n := given[bank];
      ghost var before := blkLog;
      var ppn := logPpn[bank];
      if ppn.pg == LAST_PAGE {
        TotalUpdate(before, bank, before[bank] + 1);
        var blk := GetLogBlk(bank);
        ppn := Pos(blk, 0);
      }
      logPpn := logPpn[bank := Pos(ppn.blk, ppn.pg + 1)];
      loc := LogLoc(bank, ppn.blk, ppn.pg);
      given := given[bank := n + 1];
    }

    /** The k-th page handed out is where the striped log puts it, and the log goes on in the next bank. */
    method Next(ghost k: nat, bank: nat) returns (loc: LogLoc)
      requires Striped(k) && bank == RoundRobin(k) && k < LOG_CAP
      modifies this
      ensures Striped(k + 1) && loc == LogAddr(k)
      ensures Wrap(bank, NUM_BANKS) == RoundRobin(k + 1)
      ensures logBlkCnt + Total(blkLog) == old(logBlkCnt + Total(blkLog))
    {
      RoomInBank(k);
      loc := GetLogPpn(bank);
    }

    /** revert_log_ppn for every bank. */
    method Revert()
      requires Valid()
      modifies this
      ensures Striped(0)
      ensures logBlkCnt == old(logBlkCnt) - NUM_BANKS
      ensures Total(blkLog) == NUM_BANKS
    {
      var bank := 0;
      while bank < NUM_BANKS
        invariant bank <= NUM_BANKS && Valid()
        invariant forall b :: 0 <= b < bank ==> given[b] == 0
        invariant logBlkCnt == old(logBlkCnt) - bank
      {
        blkLog := blkLog[bank := 0];
        var blk := GetLogBlk(bank);
        logPpn := logPpn[bank := Pos(blk, 0)];
        given := given[bank := 0];
        bank := bank + 1;
      }
      TotalConst(blkLog, 1);
    }

    /** blkmgr_reclaim_log's effect on the counter. */
    method ResetCount()
      requires Valid()
      modifies this`logBlkCnt
      ensures Valid() && logBlkCnt == NUM_LOG_BLKS_PER_BANK * NUM_BANKS
    {
      logBlkCnt := NUM_LOG_BLKS_PER_BANK * NUM_BANKS;
    }
  }
}
