/** Whole runs: any sequence of host commands, a crash after any of its flash operations, and recovery. */
module Run {
  import opened Geometry
  import opened Requests
  import opened Recoverable
  import opened OrderState
  import opened Counting
  import opened PrefixTheorem
  import opened Media
  import opened N = Nand
  import opened FtlState
  import opened DeviceSteps
  import opened Format
  import opened R = Recovery
  import opened Dram
  import opened Spill
  import opened Sights
  import opened Collection
  import opened Service
  import F = Ftl

  // ---- The tables of recovery ----

  /** The counters of all requests since the commit end before the page map. */
  ghost predicate CountersFit(c: Crash) {
    c.s.v.commit >= 0 ==> |c.s.reqs| <= c.s.v.commit + RECOVERY_ENTRIES
  }

  /** Every request below the floor that has no counter in the table is taken for complete all the same. */
  ghost predicate FlushedSeen(c: Crash) {
    forall e: nat :: c.s.v.commit + RECOVERY_ENTRIES <= e < c.s.floor ==> Seen(c.s.v, e)
  }

  /** No incomplete request is taken for complete before recovery has found one that is not. */
  ghost predicate NoneMistaken(c: Crash) {
    forall e: nat :: c.s.v.commit < e && SeenUpTo(c.s.v, e + 1) ==> Complete(c.s.v, e)
  }

  ghost predicate EpochRight(c: Crash) {
    c.s.v.commit >= 0 ==> FlushedSeen(c) && NoneMistaken(c)
  }

  /** An incomplete request has its counter in the table. */
  ghost predicate EpochFound(c: Crash) {
    exists e: nat :: c.s.v.commit < e < c.s.v.commit + RECOVERY_ENTRIES && !Complete(c.s.v, e)
  }

  lemma NotReaching(s: State, e: nat)
    requires Inv(s) && e >= |s.reqs|
    ensures !Reaching(s.v, e)
  {
    hide Inv, Found;
    if k: nat :| e <= k && Found(s.v, k) > 0 {
      FoundIsPast(s, k);
    }
  }

  /** Three cases in which the epoch is right: all counters fit, an incomplete request has one, or everything
      received was flushed and all of it is seen. */
  lemma EpochRightIf(c: Crash)
    requires CrashSafe(c)
    requires CountersFit(c) || EpochFound(c) || (c.s.floor == |c.s.reqs| && FlushedSeen(c))
    ensures EpochRight(c)
  {
    hide Inv, Image, Complete, Balanced, Collected, Reaching;
    CrashParts(c);
    var s := c.s;
    if s.v.commit >= 0 {
      forall e: nat | s.v.commit < e ensures e < s.floor ==> Complete(s.v, e)
        ensures e >= |s.reqs| && e >= s.v.commit + RECOVERY_ENTRIES ==> !Seen(s.v, e) {
        if e < s.floor {
          SafeWritesComplete(s, e);
        }
        if e >= |s.reqs| {
          NotReaching(s, e);
        }
      }
      FloorBelow(s);
      forall e: nat | s.v.commit < e && SeenUpTo(s.v, e + 1) ensures Complete(s.v, e) {
        assert Seen(s.v, e);
        if e1: nat :| s.v.commit < e1 < s.v.commit + RECOVERY_ENTRIES && !Complete(s.v, e1) {
          assert !Seen(s.v, e1);
        }
      }
    }
  }

  lemma FloorBelow(s: State)
    requires Inv(s)
    ensures s.v.commit < s.floor <= |s.reqs|
  {
  }

  /** Flush durability, exactly, for the recovery point of any image. */
  lemma FlushedIff(c: Crash, cut: nat)
    requires CrashSafe(c) && CutTaken(c.s.v, cut)
    ensures c.s.floor <= cut <==> if c.s.v.commit < 0 then c.s.floor == 0 else FlushedSeen(c)
  {
    hide Inv, Image, Complete, Balanced, Collected, Reaching;
    CrashParts(c);
    var s := c.s;
    var e0: nat :| Located(s.v, e0) && GreatestCut(s.v.deps, e0, cut);
    FloorUncrossed(s);
    FloorBelow(s);
    if s.v.commit >= 0 && e0 < s.floor {
      SafeWritesComplete(s, e0);
    }
  }

  lemma SoundFrom(c: Crash, cut: nat)
    requires CrashSafe(c) && CutTaken(c.s.v, cut) && EpochRight(c)
    ensures SoundCut(c.s, cut)
  {
    hide Inv, Image, Complete, Seen, FlushedSeen;
    CrashParts(c);
    FlushedIff(c, cut);
    var e0: nat :| Located(c.s.v, e0) && GreatestCut(c.s.v.deps, e0, cut);
    if c.s.v.commit >= 0 {
      forall e: nat | c.s.v.commit < e < cut ensures Complete(c.s.v, e) {
        assert SeenUpTo(c.s.v, e + 1);
      }
    }
  }

  /** If garbage collection did not copy the pages in question, the condition is about the map at the commit only: the
      second page of each pair was not mapped. */
  lemma FlushedSeenIff(c: Crash)
    requires CrashSafe(c) && c.s.v.commit >= 0
    requires forall e: nat :: c.s.v.commit + RECOVERY_ENTRIES <= e < c.s.floor ==> PairUncopied(c.s.v, e)
    ensures FlushedSeen(c) <==> forall e: nat :: c.s.v.commit + RECOVERY_ENTRIES <= e < c.s.floor ==>
        CommittedWord(c.s.v, PairOf(c.s.v, e) + 1) == 0
  {
    hide Inv, Image, Seen, CommittedWord, PairUncopied;
    CrashParts(c);
    forall e: nat | c.s.v.commit + RECOVERY_ENTRIES <= e < c.s.floor
      ensures Seen(c.s.v, e) <==> CommittedWord(c.s.v, PairOf(c.s.v, e) + 1) == 0
    {
      SafeWritesComplete(c.s, e);
      CompleteSeenIff(c.s.v, e);
    }
  }

  /** Counters that fit lie over no page. */
  lemma FittingUncounted(c: Crash, lpn: nat)
    requires CrashSafe(c) && CountersFit(c)
    ensures Uncounted(c.s.v, lpn)
  {
    hide Inv, Image, Found;
    CrashParts(c);
    if lpn < NUM_LPAGES && c.s.v.commit >= 0 && Found(c.s.v, c.s.v.commit + EntryOver(lpn)) > 0 {
      FoundIsPast(c.s, c.s.v.commit + EntryOver(lpn));
    }
  }

  /** The list of the dependencies logged since the commit ends before the page map. */
  ghost predicate ListFits(c: Crash) {
    |c.s.v.deps| <= RECOVERY_ENTRIES
  }

  /** No request since the commit touched the page. */
  ghost predicate Untouched(c: Crash, lpn: nat) {
    forall e: nat :: c.s.v.commit < e < |c.s.reqs| ==> !c.s.reqs[e].Touches(lpn)
  }

  /** The epoch of the page has its word to itself, or is not needed: the page was not written since the
      commit, or there is no commit but that of format. */
  ghost predicate EpochClear(c: Crash, lpn: nat) {
    c.s.v.commit == -1 || Clear(lpn) || Untouched(c, lpn)
  }

  ghost predicate EpochsClear(c: Crash) {
    forall lpn: nat :: EpochClear(c, lpn)
  }

  /** If the epochs of all pages end before FTL_BUF, it always has. */
  lemma SmallDiskClear(c: Crash)
    requires NUM_LPAGES <= FTL_BUF_AT
    ensures EpochsClear(c)
  {
    forall lpn: nat ensures EpochClear(c, lpn) {
      if lpn >= FTL_BUF_AT {
        forall e: nat | c.s.v.commit < e < |c.s.reqs| ensures !c.s.reqs[e].Touches(lpn) {
          assert c.s.reqs[e].Last() < NUM_LPAGES;
        }
      }
    }
  }

  /** ftl_open on a device that crashed: the page map and the number of requests that recovery settles on. The
      number is the one that the image determines, and includes everything flushed if and only if every flushed
      request without a counter is seen; before the first checkpoint, if and only if nothing had been flushed. If
      no incomplete request is mistaken either, and the list fits, every page is as exactly these requests
      left it, unless a counter lies over its entry in the page map, or its epoch shares its word with
      other data and the page was written since the commit. */
  method RecoverFrom(flash: Flash, shown: (Source, nat) -> nat, ghost c: Crash) returns (pmap: map<nat, Loc>, epoch: nat)
    requires CrashSafe(c) && c.flash == flash && |c.s.reqs| <= MAX_REQS
    requires SanityCheck()
    ensures epoch <= |c.s.reqs| && CutTaken(c.s.v, epoch)
    ensures c.s.floor <= epoch <==> if c.s.v.commit < 0 then c.s.floor == 0 else FlushedSeen(c)
    ensures EpochRight(c) && ListFits(c) ==> forall lpn: nat :: EpochClear(c, lpn) && Uncounted(c.s.v, lpn) ==>
              PageRight(flash.data, pmap, lpn, c.s.reqs, epoch)
    ensures CountersFit(c) && ListFits(c) && EpochsClear(c) ==> HoldsPrefix(flash.data, pmap, c.s.reqs, epoch)
  {
    hide CrashSafe, Inv, Image, PageRight, LeftBehind, Remapped, Reached, EpochRight, CutTaken, Uncounted, FlushedSeen, SoundCut;
    hide MappedAs, LanesRead, Recovery.SeenAt;
    ghost var spans := SpansOf(c);
    CrashParts(c);
    TablesInOrder();
    var rec := new Recovery(flash, shown);
    ghost var stale, list := rec.Recover(c.s.v, c.j, spans);
    pmap, epoch := rec.pmap, rec.epochIncomplete;
    CutReceived(c, spans, epoch);
    FlushedIff(c, epoch);
    if EpochRight(c) {
      SoundFrom(c, epoch);
      forall lpn: nat | ListFits(c) && EpochClear(c, lpn) && Uncounted(c.s.v, lpn)
        ensures PageRight(flash.data, pmap, lpn, c.s.reqs, epoch)
      {
        if c.j.pages != [] {
          NoVersion(c, epoch, lpn);
          SoundZero(c, epoch);
          AllReached(c.s.v, stale, spans, list, lpn);
          SameIfUnmoved(c.s.v, pmap, stale.pmap, epoch, lpn);
        }
        RecoveredPage(c.s, pmap, epoch, lpn);
      }
    }
    if CountersFit(c) {
      EpochRightIf(c);
      forall lpn: nat ensures Uncounted(c.s.v, lpn) {
        FittingUncounted(c, lpn);
      }
    }
  }

  lemma SoundZero(c: Crash, cut: nat)
    requires CrashSafe(c) && SoundCut(c.s, cut)
    ensures c.s.v.commit == -1 ==> cut == 0
  {
  }

  lemma CutReceived(c: Crash, spans: seq<nat>, cut: nat)
    requires CrashSafe(c) && SpansAre(c.s.v, spans) && |spans| == |c.s.reqs| && CutTaken(c.s.v, cut)
    ensures cut <= |c.s.reqs|
  {
    hide Inv, Image, Seen, SpansAre;
    CrashParts(c);
    ImageFormed(c);
    NotComplete(c.s.v, spans);
    CommitReceived(c.s.v, spans);
    var e0: nat :| Located(c.s.v, e0) && GreatestCut(c.s.v.deps, e0, cut);
  }

  lemma CommitReceived(v: View, spans: seq<nat>)
    requires SpansAre(v, spans)
    ensures v.commit < |spans|
  {
  }

  lemma ImageFormed(c: Crash)
    requires CrashSafe(c)
    ensures c.s.v.WellFormed()
  {
  }

  lemma TablesInOrder()
    requires SanityCheck()
    ensures NUM_LPAGES <= PAGE_MAP_AT
  {
  }

  lemma SameIfUnmoved(v: View, m: map<nat, Loc>, n: map<nat, Loc>, cut: nat, lpn: nat)
    requires |v.lanes| == NUM_BANKS
    ensures Unmoved(m, n, lpn) ==> (Remapped(v, m, cut, lpn) <==> Remapped(v, n, cut, lpn))
  {
  }

  lemma NoVersion(c: Crash, cut: nat, lpn: nat)
    requires CrashSafe(c) && |c.s.v.lanes| == NUM_BANKS
    ensures cut == 0 ==> R.Untouched(c.s.v, cut, lpn)
    ensures Untouched(c, lpn) ==> R.Untouched(c.s.v, cut, lpn)
  {
    var items := c.s.v.Items(lpn);
    forall i | Untouched(c, lpn) && 0 <= i < |items| ensures !HostBelow(items[i], lpn, cut) {
      assert ItemGood(c.s, items[i]);
      assert c.s.v.ItemOK(BankOf(lpn), items[i]);
    }
  }

  lemma CrashParts(c: Crash)
    requires CrashSafe(c)
    ensures Inv(c.s) && Image(c.flash, c.s.v, c.j) && c.s.data == c.flash.data && |c.s.v.lanes| == NUM_BANKS
  {
  }

  lemma SpansOf(c: Crash) returns (spans: seq<nat>)
    requires CrashSafe(c) && |c.s.reqs| <= MAX_REQS
    ensures SpansAre(c.s.v, spans) && |spans| == |c.s.reqs|
  {
    var s := c.s;
    spans := seq<nat>(|s.reqs|, i requires 0 <= i < |s.reqs| => s.reqs[i].Span());
    forall b, i | 0 <= b < |s.v.lanes| && 0 <= i < |s.v.lanes[b].items| ensures ItemSpanIs(s.v.lanes[b].items[i], spans) {
      assert ItemGood(s, s.v.lanes[b].items[i]);
    }
    forall i | 0 <= i < |s.v.deps| ensures DepSpanIs(s.v.deps[i], spans) {
      assert DepOK(s, s.v.deps[i]);
    }
  }

  // ---- Sector by sector: what the crash test of the simulator compares ----

  /** Every sector that the first cut requests wrote reads as the last of them left it; pages that none of
      them touched are not mapped. */
  lemma RecoveredSector(data: map<Loc, DataPage>, m: map<nat, Loc>, reqs: seq<Request>, cut: nat, sector: nat)
    requires HoldsPrefix(data, m, reqs, cut)
    ensures var lpn, want := sector / SECTORS_PER_PAGE, Lookup(reqs, cut, sector);
      && (lpn in m <==> TouchedBefore(reqs, cut, lpn))
      && (want.Some? ==>
            && lpn in m && m[lpn] in data && !data[m[lpn]].Summary?
            && |data[m[lpn]].content| == SECTORS_PER_PAGE
            && data[m[lpn]].content[sector % SECTORS_PER_PAGE] == want.value)
  {
    var lpn: nat, s: nat := sector / SECTORS_PER_PAGE, sector % SECTORS_PER_PAGE;
    Arith.DivMod(sector, SECTORS_PER_PAGE);
    assert SectorOf(lpn, s) == sector;
    assert PageRight(data, m, lpn, reqs, cut);
    if Lookup(reqs, cut, sector).Some? {
      WrittenTouches(reqs, cut, lpn, s);
      assert PageHolds(data, m[lpn], lpn, reqs, cut);
    }
  }

  /** What holds of the first requests holds of them in a longer history. */
  lemma HoldsInLonger(data: map<Loc, DataPage>, m: map<nat, Loc>, reqs: seq<Request>, more: seq<Request>, cut: nat)
    requires HoldsPrefix(data, m, reqs, cut) && reqs <= more
    ensures HoldsPrefix(data, m, more, cut)
  {
    forall lpn: nat ensures PageRight(data, m, lpn, more, cut) {
      assert PageRight(data, m, lpn, reqs, cut);
      assert TouchedBefore(reqs, cut, lpn) <==> TouchedBefore(more, cut, lpn) by {
        assert forall e :: 0 <= e < cut ==> reqs[e] == more[e];
      }
      if lpn in m {
        assert PageHolds(data, m[lpn], lpn, reqs, cut);
        AgreesPrefix(data[m[lpn]].content, lpn, reqs, more, cut);
      }
    }
  }

  // ---- Runs ----

  datatype Command =
    | WriteCmd(request: Request)
    | ReadCmd(lba: nat, sectors: nat)
    | FlushCmd
    | IdleCmd
    | TimerCmd

  function Writes(cmds: seq<Command>): (reqs: seq<Request>) {
    if cmds == [] then []
    else Writes(cmds[..|cmds| - 1]) + if cmds[|cmds| - 1].WriteCmd? then [cmds[|cmds| - 1].request] else []
  }

  lemma {:induction false} WritesGrow(cmds: seq<Command>, i: nat)
    requires i <= |cmds|
    ensures Writes(cmds[..i]) <= Writes(cmds)
    decreases |cmds| - i
  {
    if i == |cmds| {
      assert cmds[..i] == cmds;
    } else {
      var next := cmds[..i + 1];
      assert next[..i] == cmds[..i];
      WritesGrow(cmds, i + 1);
    }
  }

  lemma WritesOne(cmds: seq<Command>, i: nat)
    requires i < |cmds|
    ensures Writes(cmds[..i + 1]) == Writes(cmds[..i]) + if cmds[i].WriteCmd? then [cmds[i].request] else []
  {
    assert cmds[..i + 1][..i] == cmds[..i];
  }

  lemma WritesNone(cmds: seq<Command>)
    ensures Writes(cmds[..0]) == []
  {
  }

  /** A flush that had returned by crash record at, when reqs requests had been received. */
  datatype FlushMark = FlushMark(at: nat, reqs: nat)

  /** What a read returned when received requests had been received. */
  datatype Reply = Reply(lba: nat, data: seq<nat>, received: nat)

  /** One mark for each flush, at the record taken when it returned. */
  function Marks(cmds: seq<Command>, ends: seq<nat>): (marks: seq<FlushMark>)
    requires |ends| == |cmds|
  {
    if cmds == [] then []
    else
      var n := |cmds| - 1;
      Marks(cmds[..n], ends[..n]) + if cmds[n].FlushCmd? then [FlushMark(ends[n], |Writes(cmds[..n])|)] else []
  }

  /** One reply for each read, with as many sectors as it asked for. */
  ghost predicate Answered(cmds: seq<Command>, replies: seq<Reply>) {
    if cmds == [] then replies == []
    else
      var n, k := |cmds| - 1, |replies| - 1;
      if cmds[n].ReadCmd? then
        && k >= 0 && Answers(replies[k], cmds[n].lba, cmds[n].sectors, |Writes(cmds[..n])|)
        && Answered(cmds[..n], replies[..k])
      else
        Answered(cmds[..n], replies)
  }

  predicate Answers(x: Reply, lba: nat, sectors: nat, received: nat) {
    x.lba == lba && |x.data| == sectors && x.received == received
  }

  /** ends[i] is the record of a power cut after command i. */
  ghost predicate Ends(ends: seq<nat>, crashes: seq<Crash>, cmds: seq<Command>) {
    && |ends| <= |cmds|
    && (forall i :: 0 <= i < |ends| ==> ends[i] < |crashes| && crashes[ends[i]].s.reqs == Writes(cmds[..i + 1]))
    && (forall i, j :: 0 <= i < j < |ends| ==> ends[i] < ends[j])
  }

  lemma EndsNext(ends: seq<nat>, crashes: seq<Crash>, cmds: seq<Command>, more: seq<Crash>, c: Crash)
    requires Ends(ends, crashes, cmds) && |ends| < |cmds| && c.s.reqs == Writes(cmds[..|ends| + 1])
    requires crashes <= more && |crashes| < |more| && more[|more| - 1] == c
    ensures Ends(ends + [|more| - 1], more, cmds)
  {
    var later := ends + [|more| - 1];
    forall i | 0 <= i < |later| ensures later[i] < |more| && more[later[i]].s.reqs == Writes(cmds[..i + 1]) {
      if i < |ends| {
        assert more[ends[i]] == crashes[ends[i]];
      }
    }
  }

  lemma EndsCarry(ends: seq<nat>, crashes: seq<Crash>, cmds: seq<Command>, more: seq<Crash>)
    requires Ends(ends, crashes, cmds) && crashes <= more
    ensures Ends(ends, more, cmds)
  {
    forall i | 0 <= i < |ends| ensures ends[i] < |more| && more[ends[i]].s.reqs == Writes(cmds[..i + 1]) {
      assert more[ends[i]] == crashes[ends[i]];
    }
  }

  /** Every crash leaves a device that had received a prefix of the requests and is safe to recover; every
      crash after a flush has the flushed requests below its floor; every read returned what the requests
      before it wrote. */
  ghost predicate RunOK(crashes: seq<Crash>, flushes: seq<FlushMark>, replies: seq<Reply>, reqs: seq<Request>) {
    && (forall i :: 0 <= i < |crashes| ==> CrashSafe(crashes[i]) && crashes[i].s.reqs <= reqs)
    && (forall f :: 0 <= f < |flushes| ==> Lasting(crashes, flushes[f]))
    && (forall k :: 0 <= k < |replies| ==> ReplyOK(replies[k], reqs))
  }

  /** The record taken when the flush returned is there, and from it on the flushed requests are safe. */
  ghost predicate Lasting(crashes: seq<Crash>, f: FlushMark) {
    f.at < |crashes| && forall i :: f.at <= i < |crashes| ==> f.reqs <= crashes[i].s.floor
  }

  ghost predicate ReplyOK(x: Reply, reqs: seq<Request>) {
    x.received <= |reqs| && ReadsBack(x.data, reqs[..x.received], x.lba)
  }

  /** The run so far, and that what follows will keep to the promise of its flushes. */
  ghost predicate Sofar(crashes: seq<Crash>, s: State, flushes: seq<FlushMark>, replies: seq<Reply>) {
    && RunOK(crashes, flushes, replies, s.reqs)
    && forall f :: 0 <= f < |flushes| ==> flushes[f].reqs <= s.floor
  }

  lemma RunOn(a: seq<Crash>, s: State, flushes: seq<FlushMark>, replies: seq<Reply>, b: seq<Crash>, t: State)
    requires Sofar(a, s, flushes, replies) && Grown(a, s, b, t)
    requires forall i :: 0 <= i < |b| ==> CrashSafe(b[i])
    ensures Sofar(b, t, flushes, replies)
  {
    forall i | 0 <= i < |b| ensures b[i].s.reqs <= t.reqs {
      if i < |a| {
        assert b[i] == a[i];
      } else {
        assert Later(b[i].s, t);
      }
    }
    forall f | 0 <= f < |flushes| ensures Lasting(b, flushes[f]) && flushes[f].reqs <= t.floor {
      assert Lasting(a, flushes[f]);
      forall i | flushes[f].at <= i < |b| ensures flushes[f].reqs <= b[i].s.floor {
        if i < |a| {
          assert b[i] == a[i];
        } else {
          assert Later(s, b[i].s);
        }
      }
    }
    forall k | 0 <= k < |replies| ensures ReplyOK(replies[k], t.reqs) {
      assert ReplyOK(replies[k], s.reqs);
      assert s.reqs[..replies[k].received] == t.reqs[..replies[k].received];
    }
  }

  lemma RunEnds(crashes: seq<Crash>, s: State, flushes: seq<FlushMark>, replies: seq<Reply>, reqs: seq<Request>)
    requires Sofar(crashes, s, flushes, replies) && s.reqs <= reqs
    ensures RunOK(crashes, flushes, replies, reqs)
  {
    forall k | 0 <= k < |replies| ensures ReplyOK(replies[k], reqs) {
      assert ReplyOK(replies[k], s.reqs);
      assert s.reqs[..replies[k].received] == reqs[..replies[k].received];
    }
  }

  /** A flush has returned: its mark is the record of a power cut at this moment. */
  lemma RunFlushed(crashes: seq<Crash>, s: State, flushes: seq<FlushMark>, replies: seq<Reply>)
    requires Sofar(crashes, s, flushes, replies) && s.floor == |s.reqs|
    requires |crashes| > 0 && crashes[|crashes| - 1].s == s
    ensures Sofar(crashes, s, flushes + [FlushMark(|crashes| - 1, |s.reqs|)], replies)
  {
    hide CrashSafe, ReplyOK;
  }

  lemma RunRead(crashes: seq<Crash>, s: State, flushes: seq<FlushMark>, replies: seq<Reply>, lba: nat, data: seq<nat>)
    requires Sofar(crashes, s, flushes, replies) && ReadsBack(data, s.reqs, lba)
    ensures Sofar(crashes, s, flushes, replies + [Reply(lba, data, |s.reqs|)])
  {
    assert s.reqs[..|s.reqs|] == s.reqs;
  }

  lemma RunBegins(c: Crash, s: State)
    requires CrashSafe(c) && c.s == s
    ensures Sofar([c], s, [], [])
  {
  }

  lemma AllCrashesSafe(nand: N.Nand)
    requires nand.Valid()
    ensures forall i :: 0 <= i < |nand.crashes| ==> CrashSafe(nand.crashes[i])
  {
  }

  // ---- The timer ----

  /** The flag of the timer after a command that finished. */
  function FlagAfter(flag: bool, cmd: Command): bool {
    cmd.TimerCmd? || (flag && !cmd.WriteCmd? && !cmd.FlushCmd?)
  }

  /** The timer went off, and no write or flush was finished since. */
  function Ticking(cmds: seq<Command>, n: nat): bool
    requires n <= |cmds|
  {
    n > 0 && FlagAfter(Ticking(cmds, n - 1), cmds[n - 1])
  }

  /** The record before command w. */
  function StartOf(ends: seq<nat>, w: nat): nat
    requires w <= |ends|
  {
    if w == 0 then 0 else ends[w - 1]
  }

  /** A write that finishes after the timer went off has made everything received safe, unless dependencies filled a
      log page in it: logging that clears the flag. */
  ghost predicate TickKept(crashes: seq<Crash>, from: nat, to: nat) {
    && from < to < |crashes|
    && (crashes[to].s.floor == |crashes[to].s.reqs| || exists k :: from < k <= to && FilledAfter(crashes[from].j, crashes[k].j))
  }

  ghost predicate TicksKept(cmds: seq<Command>, ends: seq<nat>, crashes: seq<Crash>) {
    && |ends| <= |cmds|
    && forall w: nat :: w < |ends| && cmds[w].WriteCmd? && Ticking(cmds, w) ==> TickKept(crashes, StartOf(ends, w), ends[w])
  }

  lemma TicksNext(cmds: seq<Command>, ends: seq<nat>, crashes: seq<Crash>, more: seq<Crash>, end: nat)
    requires TicksKept(cmds, ends, crashes) && |ends| < |cmds| && crashes <= more
    requires cmds[|ends|].WriteCmd? && Ticking(cmds, |ends|) ==> TickKept(more, StartOf(ends, |ends|), end)
    ensures TicksKept(cmds, ends + [end], more)
  {
    var later := ends + [end];
    forall w: nat | w < |later| && cmds[w].WriteCmd? && Ticking(cmds, w) ensures TickKept(more, StartOf(later, w), later[w]) {
      if w < |ends| {
        assert StartOf(later, w) == StartOf(ends, w);
        TickCarry(crashes, more, StartOf(ends, w), ends[w]);
      } else {
        assert StartOf(later, w) == StartOf(ends, w);
      }
    }
  }

  lemma TickCarry(crashes: seq<Crash>, more: seq<Crash>, from: nat, to: nat)
    requires TickKept(crashes, from, to) && crashes <= more
    ensures TickKept(more, from, to)
  {
    assert more[to] == crashes[to] && more[from] == crashes[from];
    if k :| from < k <= to && FilledAfter(crashes[from].j, crashes[k].j) {
      assert more[k] == crashes[k];
    }
  }

  lemma TicksCarry(cmds: seq<Command>, ends: seq<nat>, crashes: seq<Crash>, more: seq<Crash>)
    requires TicksKept(cmds, ends, crashes) && crashes <= more
    ensures TicksKept(cmds, ends, more)
  {
    forall w: nat | w < |ends| && cmds[w].WriteCmd? && Ticking(cmds, w) ensures TickKept(more, StartOf(ends, w), ends[w]) {
      TickCarry(crashes, more, StartOf(ends, w), ends[w]);
    }
  }

  lemma TickIs(crashes: seq<Crash>, more: seq<Crash>, c: Crash, last: Crash)
    requires |crashes| > 0 && crashes[|crashes| - 1] == c && crashes <= more && |more| > |crashes| && more[|more| - 1] == last
    requires last.s.floor == |last.s.reqs| || FilledSince(c.j, crashes, more)
    ensures TickKept(more, |crashes| - 1, |more| - 1)
  {
    if i :| |crashes| <= i < |more| && FilledAfter(c.j, more[i].j) {
      assert more[|crashes| - 1] == c;
    }
  }

  /** Garbage collection stopped the firmware in a write that found the banks short of free blocks. */
  ghost predicate Halted(o: Device, cmd: Command, loaded: Device, d: Device, vcount: map<(nat, nat), nat>) {
    && cmd.WriteCmd? && LoopEnd(o, cmd.request, loaded) && BatchShort(loaded.ks)
    && Stuck(d.ks, |d.mapents|, vcount) && d.s.floor == |d.s.reqs|
  }

  lemma HaltedParts(o: Device, cmd: Command, loaded: Device, d: Device, vcount: map<(nat, nat), nat>)
    requires Halted(o, cmd, loaded, d, vcount)
    ensures cmd.WriteCmd?
  {
  }

  /** What the first n commands left: their flush marks and their replies. */
  ghost predicate Followed(cmds: seq<Command>, n: nat, ends: seq<nat>, flushes: seq<FlushMark>, replies: seq<Reply>) {
    && n == |ends| <= |cmds|
    && flushes == Marks(cmds[..n], ends) && Answered(cmds[..n], replies)
  }

  lemma FollowedNone(cmds: seq<Command>, crashes: seq<Crash>)
    ensures Followed(cmds, 0, [], [], []) && Ends([], crashes, cmds)
  {
  }

  /** One more command, by what it adds. */
  lemma FollowedNext(cmds: seq<Command>, n: nat, ends: seq<nat>, flushes: seq<FlushMark>, replies: seq<Reply>,
      end: nat, marks: seq<FlushMark>, said: seq<Reply>)
    requires Followed(cmds, n, ends, flushes, replies) && n < |cmds|
    requires marks == flushes + if cmds[n].FlushCmd? then [FlushMark(end, |Writes(cmds[..n])|)] else []
    requires Added(cmds[n], replies, said, |Writes(cmds[..n])|)
    ensures Followed(cmds, n + 1, ends + [end], marks, said)
  {
    var next, later := cmds[..n + 1], ends + [end];
    assert next[..n] == cmds[..n] && later[..n] == ends;
    if cmds[n].ReadCmd? {
      assert said[..|said| - 1] == replies;
    }
  }

  ghost predicate Added(cmd: Command, replies: seq<Reply>, said: seq<Reply>, received: nat) {
    if cmd.ReadCmd? then
      exists x :: said == replies + [x] && Answers(x, cmd.lba, cmd.sectors, received)
    else
      said == replies
  }

  lemma TicksNone(cmds: seq<Command>, crashes: seq<Crash>)
    ensures TicksKept(cmds, [], crashes) && !Ticking(cmds, 0) && StartOf([], 0) == 0
  {
  }

  lemma TickingNext(cmds: seq<Command>, n: nat)
    requires n < |cmds|
    ensures Ticking(cmds, n + 1) == FlagAfter(Ticking(cmds, n), cmds[n])
  {
  }

  lemma StartNext(ends: seq<nat>, end: nat)
    ensures StartOf(ends + [end], |ends| + 1) == end
  {
  }

  /** Any run of host commands on a formatted device. ran of them were begun, and the last of these is
      not finished only if an assertion of the source stopped the firmware in it. */
  method RunCommands(cmds: seq<Command>, blocks: seq<seq<nat>>, blank: seq<nat>)
    returns (ftl: F.Ftl, ok: bool, ran: nat, ghost ends: seq<nat>, ghost flushes: seq<FlushMark>, replies: seq<Reply>,
      ghost before: Device, ghost loaded: Device)
    requires Rings(blocks) && |blank| == SECTORS_PER_PAGE && |Writes(cmds)| <= MAX_REQS
    ensures RunOK(ftl.nand.crashes, flushes, replies, Writes(cmds))
    ensures ran <= |cmds| && ftl.d.s.reqs == Writes(cmds[..ran])
    ensures Ends(ends, ftl.nand.crashes, cmds) && Followed(cmds, |ends|, ends, flushes, replies)
    ensures TicksKept(cmds, ends, ftl.nand.crashes)
    ensures if ok then ran == |ends| == |cmds|
            else ran == |ends| + 1 <= |cmds| && before.s.reqs == Writes(cmds[..|ends|])
                 && Halted(before, cmds[|ends|], loaded, ftl.d, ftl.blk.vcount)
  {
    hide *;
    ftl := new F.Ftl(blocks, blank);
    ends, flushes, replies := [], [], [];
    ftl.OpenAll();
    ftl.Open();
    AllCrashesSafe(ftl.nand);
    RunBegins(ftl.nand.crashes[0], ftl.d.s);
    WritesNone(cmds);
    FollowedNone(cmds, ftl.nand.crashes);
    TicksNone(cmds, ftl.nand.crashes);
    ran, ok, before, loaded := 0, true, ftl.d, ftl.d;
    while ok && ran < |cmds|
      invariant ran <= |cmds| && fresh(ftl) && fresh(ftl.nand) && fresh(ftl.blk) && fresh(ftl.cache) && fresh(ftl.space)
      invariant ok ==> ftl.Valid() && Between(ftl.d, ftl.cache.nDirty) && ran == |ends|
      invariant !ok ==> ran == |ends| + 1 <= |cmds| && before.s.reqs == Writes(cmds[..|ends|])
                        && Halted(before, cmds[|ends|], loaded, ftl.d, ftl.blk.vcount)
      invariant TicksKept(cmds, ends, ftl.nand.crashes)
      invariant ok ==> ftl.requireFlushDepent == Ticking(cmds, ran) && |ftl.nand.crashes| == StartOf(ends, |ends|) + 1
                       && ftl.nand.crashes[|ftl.nand.crashes| - 1] == Crash(ftl.d.flash, ftl.d.s, ftl.d.j)
      invariant ftl.d.s.reqs == Writes(cmds[..ran])
      invariant Sofar(ftl.nand.crashes, ftl.d.s, flushes, replies)
      invariant Ends(ends, ftl.nand.crashes, cmds) && Followed(cmds, |ends|, ends, flushes, replies)
      decreases |cmds| - ran
    {
      WritesGrow(cmds, ran);
      WritesGrow(cmds, ran + 1);
      WritesOne(cmds, ran);
      ghost var was, marks := ftl.nand.crashes, flushes;
      var said := replies;
      before := ftl.d;
      ok, flushes, replies, loaded := Execute(ftl, cmds[ran], flushes, replies);
      TickingNext(cmds, ran);
      if ok {
        if cmds[ran].WriteCmd? && Ticking(cmds, ran) {
          TickIs(was, ftl.nand.crashes, Crash(before.flash, before.s, before.j), ftl.nand.crashes[|ftl.nand.crashes| - 1]);
        }
        TicksNext(cmds, ends, was, ftl.nand.crashes, |ftl.nand.crashes| - 1);
        StartNext(ends, |ftl.nand.crashes| - 1);
        EndsNext(ends, was, cmds, ftl.nand.crashes, ftl.nand.crashes[|ftl.nand.crashes| - 1]);
        FollowedNext(cmds, ran, ends, marks, said, |ftl.nand.crashes| - 1, flushes, replies);
        ends := ends + [|ftl.nand.crashes| - 1];
      } else {
        HaltedParts(before, cmds[ran], loaded, ftl.d, ftl.blk.vcount);
        NothingAdded(cmds[ran], said, replies, |Writes(cmds[..ran])|);
        assert marks + [] == marks;
        EndsCarry(ends, was, cmds, ftl.nand.crashes);
        TicksCarry(cmds, ends, was, ftl.nand.crashes);
      }
      ran := ran + 1;
    }
    WritesGrow(cmds, ran);
    RunEnds(ftl.nand.crashes, ftl.d.s, flushes, replies, Writes(cmds));
  }

  lemma NothingAdded(cmd: Command, replies: seq<Reply>, said: seq<Reply>, received: nat)
    requires Added(cmd, replies, said, received)
    ensures !cmd.ReadCmd? ==> said == replies
  {
  }

  /** One command. If it finishes, the last record is that of a power cut after it. */
  method Execute(ftl: F.Ftl, cmd: Command, ghost flushes: seq<FlushMark>, replies: seq<Reply>)
    returns (ok: bool, ghost marks: seq<FlushMark>, said: seq<Reply>, ghost loaded: Device)
    requires ftl.Valid() && Between(ftl.d, ftl.cache.nDirty)
    requires cmd.WriteCmd? ==> |ftl.d.s.reqs| < MAX_REQS
    requires Sofar(ftl.nand.crashes, ftl.d.s, flushes, replies)
    modifies ftl, ftl.nand, ftl.blk, ftl.cache, ftl.space
    ensures ftl.d.s.reqs == old(ftl.d.s.reqs) + if cmd.WriteCmd? then [cmd.request] else []
    ensures ok ==> ftl.Valid() && Between(ftl.d, ftl.cache.nDirty)
    ensures !ok ==> Halted(old(ftl.d), cmd, loaded, ftl.d, ftl.blk.vcount)
    ensures ok ==> ftl.requireFlushDepent == FlagAfter(old(ftl.requireFlushDepent), cmd)
    ensures ok && cmd.WriteCmd? ==>
              && LoopEnd(old(ftl.d), cmd.request, loaded)
              && Finishing(old(ftl.requireFlushDepent) && loaded.j.pages == old(ftl.d).j.pages, loaded, ftl.d)
    ensures ok && cmd.WriteCmd? && old(ftl.requireFlushDepent) ==>
              ftl.d.s.floor == |ftl.d.s.reqs| || FilledSince(old(ftl.d).j, old(ftl.nand.crashes), ftl.nand.crashes)
    ensures ok && cmd.FlushCmd? ==> Holding(old(ftl.nand.crashes), [], ftl.nand.crashes)
    ensures Sofar(ftl.nand.crashes, ftl.d.s, marks, said)
    ensures old(ftl.nand.crashes) <= ftl.nand.crashes
    ensures ok ==> |ftl.nand.crashes| > |old(ftl.nand.crashes)|
                   && ftl.nand.crashes[|ftl.nand.crashes| - 1] == Crash(ftl.d.flash, ftl.d.s, ftl.d.j)
    ensures marks == flushes + if cmd.FlushCmd? then [FlushMark(|ftl.nand.crashes| - 1, |old(ftl.d.s.reqs)|)] else []
    ensures Added(cmd, replies, said, |old(ftl.d.s.reqs)|)
  {
    hide *;
    ok, marks, said, loaded := true, flushes, replies, ftl.d;
    ghost var c, s := ftl.nand.crashes, ftl.d.s;
    ftl.OpenAll();
    ftl.Open();
    BetweenClock(ftl.d, ftl.cache.nDirty);
    GrownNone(c, s);
    AddedNone(cmd, replies, |s.reqs|);
    match cmd {
      case WriteCmd(r) =>
        ok, loaded := ftl.Write(r);
        if ok {
          LateFlush(s, old(ftl.d).j, old(ftl.requireFlushDepent), loaded, ftl.d);
        } else {
          HaltedIs(old(ftl.d), r, loaded, ftl.d, ftl.blk.vcount);
        }
      case ReadCmd(lba, n) =>
        var data := ftl.Read(lba, n);
        RunRead(c, s, flushes, replies, lba, data);
        AddedReply(cmd, replies, lba, data, |s.reqs|);
        said := replies + [Reply(lba, data, ftl.gEpoch)];
      case FlushCmd => ftl.Flush();
      case IdleCmd => ftl.Idle();
      case TimerCmd => ftl.ScheduleFlushDepent();
    }
    FlagIs(old(ftl.requireFlushDepent), cmd);
    if ok {
      ghost var c1 := ftl.nand.crashes;
      ftl.PowerCut();
      FilledStill(old(ftl.d).j, c, c1, ftl.nand.crashes);
      if cmd.FlushCmd? {
        HoldingOne(c1, Crash(ftl.d.flash, ftl.d.s, ftl.d.j));
        HoldingTrans(c, c1, ftl.nand.crashes, []);
      }
      GrownPrefix(c, s, c1, ftl.d.s);
      GrownTrans(c, s, c1, ftl.d.s, ftl.nand.crashes, ftl.d.s);
      ftl.OpenAll();
      ftl.Open();
    }
    AllCrashesSafe(ftl.nand);
    RunOn(c, s, flushes, said, ftl.nand.crashes, ftl.d.s);
    GrownPrefix(c, s, ftl.nand.crashes, ftl.d.s);
    if cmd.FlushCmd? {
      RunFlushed(ftl.nand.crashes, ftl.d.s, flushes, said);
      marks := flushes + [FlushMark(|ftl.nand.crashes| - 1, |s.reqs|)];
    }
  }

  lemma FlagIs(flag: bool, cmd: Command)
    ensures FlagAfter(flag, cmd) == (cmd.TimerCmd? || (flag && !cmd.WriteCmd? && !cmd.FlushCmd?))
  {
  }

  lemma HaltedIs(o: Device, r: Request, loaded: Device, d: Device, vcount: map<(nat, nat), nat>)
    requires LoopEnd(o, r, loaded) && BatchShort(loaded.ks) && Stuck(d.ks, |d.mapents|, vcount) && d.s.floor == |d.s.reqs|
    ensures Halted(o, WriteCmd(r), loaded, d, vcount)
  {
  }

  lemma LateFlush(s: State, j: Journal, flag: bool, loaded: Device, d: Device)
    requires Finishing(flag && loaded.j.pages == j.pages, loaded, d)
    ensures flag && loaded.j.pages == j.pages ==> d.s.floor == |d.s.reqs|
  {
  }

  lemma AddedNone(cmd: Command, replies: seq<Reply>, received: nat)
    ensures !cmd.ReadCmd? ==> Added(cmd, replies, replies, received)
  {
  }

  lemma AddedReply(cmd: Command, replies: seq<Reply>, lba: nat, data: seq<nat>, received: nat)
    requires cmd == ReadCmd(lba, |data|)
    ensures Added(cmd, replies, replies + [Reply(lba, data, received)], received)
  {
  }

  // ---- The crash test: any run, any crash ----

  /** Order preservation and flush durability. Crash any run of commands after any of its flash operations or
      between two commands, and recover. If the tables of recovery fit and are apart, the disk is what the
      first epoch write requests make it, sector by sector. They include everything below the floor, and so
      every request that an earlier flush had seen, if and only if a checkpoint was taken since format and every
      flushed request without a counter is seen, or nothing had been flushed before the first checkpoint. */
  method CrashTest(flash: Flash, shown: (Source, nat) -> nat, ghost crashes: seq<Crash>, ghost i: nat,
        ghost flushes: seq<FlushMark>,
      ghost replies: seq<Reply>, ghost reqs: seq<Request>)
    returns (pmap: map<nat, Loc>, epoch: nat)
    requires RunOK(crashes, flushes, replies, reqs) && |reqs| <= MAX_REQS
    requires i < |crashes| && flash == crashes[i].flash
    requires SanityCheck()
    ensures epoch <= |crashes[i].s.reqs|
    ensures CountersFit(crashes[i]) && ListFits(crashes[i]) && EpochsClear(crashes[i]) ==> HoldsPrefix(flash.data, pmap, reqs, epoch)
    ensures forall f :: 0 <= f < |flushes| && flushes[f].at <= i ==> flushes[f].reqs <= crashes[i].s.floor
    ensures crashes[i].s.floor <= epoch <==> if crashes[i].s.v.commit < 0 then crashes[i].s.floor == 0 else FlushedSeen(crashes[i])
  {
    hide CrashSafe, Inv, HoldsPrefix, ReadsBack, ListFits, EpochsClear, CountersFit, FlushedSeen;
    ghost var c := crashes[i];
    pmap, epoch := RecoverFrom(flash, shown, c);
    if CountersFit(c) && ListFits(c) && EpochsClear(c) {
      HoldsInLonger(flash.data, pmap, c.s.reqs, reqs, epoch);
    }
    forall f | 0 <= f < |flushes| && flushes[f].at <= i ensures flushes[f].reqs <= c.s.floor {
      assert Lasting(crashes, flushes[f]);
    }
  }

  // ---- Durability fails before the first checkpoint ----

  /** Format, one write, flush, power cut: the flush has returned, and recovery goes back to the empty disk.
      vst/src/vst.c:142 expects the write to be there. */
  method FlushedButLost(blocks: seq<seq<nat>>, blank: seq<nat>, r: Request, shown: (Source, nat) -> nat)
    returns (ftl: F.Ftl, pmap: map<nat, Loc>, epoch: nat)
    requires Rings(blocks) && |blank| == SECTORS_PER_PAGE && SanityCheck()
    ensures ftl.d.s.reqs == [r] && ftl.d.s.floor == 1
    ensures pmap == map[] && epoch == 0
  {
    hide *;
    ftl := new F.Ftl(blocks, blank);
    ftl.OpenAll();
    FreshCommit(ftl.d);
    FewRequests();
    ghost var loaded;
    var ok;
    ok, loaded := ftl.Write(r);
    ftl.Flush();
    ftl.OpenAll();
    ftl.Open();
    ValidIsSafe(ftl.d);
    var flash := Flash(ftl.nand.data, ftl.nand.log, ftl.nand.slots);
    NothingCounted(Crash(flash, ftl.d.s, ftl.d.j));
    pmap, epoch := RecoverFrom(flash, shown, Crash(flash, ftl.d.s, ftl.d.j));
    NothingHeld(flash.data, pmap, ftl.d.s.reqs);
  }

  lemma NothingCounted(c: Crash)
    requires CrashSafe(c) && c.s.v.commit == -1 && |c.s.reqs| == 1
    ensures CountersFit(c) && ListFits(c) && EpochsClear(c)
  {
    if c.s.v.deps != [] {
      LoggedNeedsTwo(c.s);
    }
  }

  lemma LoggedNeedsTwo(s: State)
    requires Inv(s) && s.v.deps != []
    ensures |s.reqs| >= 2
  {
    assert DepOK(s, s.v.deps[0]);
  }

  lemma FreshCommit(d: Device)
    requires d.Valid() && d.s.reqs == []
    ensures d.s.v.commit == -1
  {
  }

  lemma FewRequests()
    ensures 1 < MAX_REQS
  {
  }

  lemma NothingHeld(data: map<Loc, DataPage>, m: map<nat, Loc>, reqs: seq<Request>)
    ensures HoldsPrefix(data, m, reqs, 0) ==> m == map[]
  {
    if HoldsPrefix(data, m, reqs, 0) {
      forall lpn: nat ensures lpn !in m {
        assert PageRight(data, m, lpn, reqs, 0);
        assert !TouchedBefore(reqs, 0, lpn);
      }
    }
  }
}
