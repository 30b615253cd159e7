/** A formatted device: every block erased, one block of each bank open, and a first tag page whose epoch is
    the 32-bit image of -1. */
module Format {
  import opened Geometry
  import opened Requests
  import opened Recoverable
  import opened Counting
  import opened OrderState
  import opened Media
  import opened Journals
  import opened Banks
  import opened Ring
  import opened Room
  import opened FtlState
  import opened DeviceSteps
  import opened LogSteps
  import opened Chains
  import opened Nand
  import Arith

  /** The good data blocks of each bank. */
  ghost predicate Rings(blocks: seq<seq<nat>>) {
    |blocks| == NUM_BANKS && forall b :: 0 <= b < NUM_BANKS ==> RingOK(blocks[b])
  }

  ghost predicate RingOK(blks: seq<nat>) {
    |blks| >= MIN_RING && Distinct(blks) && forall i :: 0 <= i < |blks| ==> blks[i] > 0
  }

  function FreshBank(blks: seq<nat>): Bank
    requires |blks| > 0
  {
    Bank([], [blks[0]], blks[1..], 0, 0, NoLpns())
  }

  function FreshBanks(blocks: seq<seq<nat>>): seq<Bank>
    requires forall b :: 0 <= b < |blocks| ==> |blocks[b]| > 0
  {
    seq<Bank>(|blocks|, b requires 0 <= b < |blocks| => FreshBank(blocks[b]))
  }

  function FreshState(lanes: seq<Lane>): State {
    State(map[], [], 0, 0, map[], [], map[], View(-1, map[], lanes, []), 0)
  }

  function FreshLog(tag: LogPage): map<LogLoc, LogPage> {
    map[LogAddr(0) := tag]
  }

  function Formatted(blocks: seq<seq<nat>>): Device
    requires forall b :: 0 <= b < |blocks| ==> |blocks[b]| > 0
  {
    var ks := FreshBanks(blocks);
    var tag := Tag(U32 - 1, ActivePages(ks));
    Device(Flash(map[], FreshLog(tag), [EMPTY_SLOT, EMPTY_SLOT]), ks, FreshState(PushedLanes(ks)),
           Journal(map[], None, [tag], 0, 0), [], 1)
  }

  lemma FreshBankOK(b: nat, blks: seq<nat>)
    requires RingOK(blks)
    ensures BankOK(map[], b, FreshBank(blks), Lane([blks[0]], 0, []))
    ensures SizedBank(FreshBank(blks), 0, -1)
    ensures Writable(FreshBank(blks)) >= GC_THRESHOLD * LAST_PAGE
  {
    var k := FreshBank(blks);
    assert k.used + k.chain + k.free == blks;
    assert k.chain[..0] == [];
    Arith.MulMonotone(GC_THRESHOLD, |k.free|, LAST_PAGE);
    assert 0 * LAST_PAGE == 0;
  }

  lemma FreshStateInv(lanes: seq<Lane>)
    requires |lanes| == NUM_BANKS && forall b :: 0 <= b < NUM_BANKS ==> lanes[b].items == []
    ensures Inv(FreshState(lanes))
  {
    var s := FreshState(lanes);
    forall e: nat | s.v.commit < e ensures Accounted(s, e) {
      LaneCountZero(lanes, e);
      assert s.DirtyPages(e) == {};
    }
  }

  lemma FreshLogHolds(tag: LogPage)
    ensures LogHolds(FreshLog(tag), [tag])
  {
    assert LogHolds(map[], []);
    LogAppend(map[], [], tag);
    assert [] + [tag] == [tag];
  }

  /** The formatted device is consistent: the invariant holds before the first request. */
  lemma FormattedValid(blocks: seq<seq<nat>>)
    requires Rings(blocks)
    ensures forall b :: 0 <= b < |blocks| ==> |blocks[b]| > 0
    ensures var d := Formatted(blocks);
      && d.Valid() && CrashSafe(d.Now())
      && Sized(d.ks, 0, -1)
  {
    assert forall b :: 0 <= b < |blocks| ==> RingOK(blocks[b]);
    var d := Formatted(blocks);
    forall b | 0 <= b < NUM_BANKS
      ensures BankOK(map[], b, d.ks[b], d.s.v.lanes[b]) && SizedBank(d.ks[b], 0, -1)
    {
      FreshBankOK(b, blocks[b]);
    }
    FreshStateInv(d.s.v.lanes);
    FreshLogHolds(d.j.pages[0]);
    LogCapPositive();
    assert d.j.pages[..0] == [] && d.j.pages[1..] == [];
    ValidIsSafe(d);
  }
}
