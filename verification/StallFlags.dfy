/** Re-entrancy: waiting for a busy bank runs pool_write_buf, which may dequeue, which may wait for a bank
    again. Whether banks are idle, caches half dirty and blocks full is arbitrary here. */
module StallFlags {
  import opened Geometry
  import opened Arith

  function Unstalled(stall: seq<bool>): nat {
    if stall == [] then 0 else Unstalled(stall[..|stall| - 1]) + if stall[|stall| - 1] then 0 else 1
  }

  lemma {:induction false} UnstalledUpdate(stall: seq<bool>, b: nat, flag: bool)
    requires b < |stall|
    ensures Unstalled(stall[b := flag]) == Unstalled(stall) + (if stall[b] then 1 else 0) - (if flag then 1 else 0)
  {
    var k := |stall| - 1;
    if b == k {
      assert stall[b := flag][..k] == stall[..k];
    } else {
      assert stall[b := flag][..k] == stall[..k][b := flag];
      UnstalledUpdate(stall[..k], b, flag);
    }
  }

  lemma {:induction false} AllUnstalled(stall: seq<bool>)
    requires forall b :: 0 <= b < |stall| ==> !stall[b]
    ensures Unstalled(stall) == |stall|
  {
    if stall != [] {
      AllUnstalled(stall[..|stall| - 1]);
    }
  }

  /** The page after page pg of the active block, or the second one of the next block: the summary page is
      the firmware's own. */
  function NextPage(pg: nat): nat {
    if pg == LAST_PAGE then 1 else pg + 1
  }

  /** The stack holds the stalled banks, each of them once. */
  ghost predicate StackOf(stack: seq<nat>, stall: seq<bool>) {
    && (forall i :: 0 <= i < |stack| ==> stack[i] < |stall| && stall[stack[i]])
    && (forall i, j :: 0 <= i < j < |stack| ==> stack[i] != stack[j])
    && (forall b: nat :: b < |stall| && stall[b] ==> b in stack)
    && |stack| + Unstalled(stall) == |stall|
  }

  lemma StackPush(stack: seq<nat>, stall: seq<bool>, b: nat)
    requires StackOf(stack, stall) && b < |stall| && !stall[b]
    ensures StackOf(stack + [b], stall[b := true]) && Unstalled(stall[b := true]) < Unstalled(stall)
  {
    UnstalledUpdate(stall, b, true);
    var more, flags := stack + [b], stall[b := true];
    forall c: nat | c < |flags| && flags[c] ensures c in more {
      if c == b {
        assert more[|stack|] == b;
      } else {
        var i :| 0 <= i < |stack| && stack[i] == c;
        assert more[i] == c;
      }
    }
  }

  /** What happened: a status register was read, a page was taken to be programmed, the pending victim was erased, a
      turn of the pool began at its bank, or ended. */
  datatype Event =
    | Status(bank: nat, idle: bool)
    | Program(bank: nat)
    | Erase(bank: nat, blk: nat)
    | Turn(bank: nat)
    | Done

  /** A victim is erased only when the status register has just shown its bank to be idle. */
  ghost predicate IdleFirst(trace: seq<Event>) {
    forall i :: 0 <= i < |trace| && trace[i].Erase? ==> i > 0 && trace[i - 1] == Status(trace[i].bank, true)
  }

  // ---- Turns of the pool ----

  /** The turns of the pool that began, those within others included. */
  function Turns(t: seq<Event>): nat {
    if t == [] then 0 else Turns(t[..|t| - 1]) + if t[|t| - 1].Turn? then 1 else 0
  }

  /** The pool's bank, n turns later. */
  function Advance(bank: nat, n: nat): (b: nat)
    requires bank < NUM_BANKS
    ensures b < NUM_BANKS
  {
    if n == 0 then bank else Wrap(Advance(bank, n - 1), NUM_BANKS)
  }

  lemma {:induction false} TurnsConcat(s: seq<Event>, t: seq<Event>)
    ensures Turns(s + t) == Turns(s) + Turns(t)
  {
    if t == [] {
      assert s + t == s;
    } else {
      assert (s + t)[..|s + t| - 1] == s + t[..|t| - 1];
      TurnsConcat(s, t[..|t| - 1]);
    }
  }

  lemma {:induction false} AdvanceTwice(bank: nat, n: nat, m: nat)
    requires bank < NUM_BANKS
    ensures Advance(Advance(bank, n), m) == Advance(bank, n + m)
  {
    if m > 0 {
      AdvanceTwice(bank, n, m - 1);
    }
  }

  /** The pool went on by one bank for every turn between a and b. */
  ghost predicate Paced(a: seq<Event>, bank: nat, b: seq<Event>, now: nat) {
    bank < NUM_BANKS && a <= b && now == Advance(bank, Turns(b[|a|..]))
  }

  lemma PacedNone(a: seq<Event>, bank: nat)
    requires bank < NUM_BANKS
    ensures Paced(a, bank, a, bank)
  {
    assert a[|a|..] == [];
  }

  lemma PacedTrans(a: seq<Event>, i: nat, b: seq<Event>, j: nat, c: seq<Event>, k: nat)
    requires Paced(a, i, b, j) && Paced(b, j, c, k)
    ensures Paced(a, i, c, k)
  {
    assert c[|a|..] == b[|a|..] + c[|b|..];
    TurnsConcat(b[|a|..], c[|b|..]);
    AdvanceTwice(i, Turns(b[|a|..]), Turns(c[|b|..]));
  }

  /** Events that begin no turn. */
  lemma PacedBy(a: seq<Event>, bank: nat, t: seq<Event>)
    requires bank < NUM_BANKS && forall i :: 0 <= i < |t| ==> !t[i].Turn?
    ensures Paced(a, bank, a + t, bank)
  {
    assert (a + t)[|a|..] == t;
    NoTurns(t);
  }

  lemma {:induction false} NoTurns(t: seq<Event>)
    requires forall i :: 0 <= i < |t| ==> !t[i].Turn?
    ensures Turns(t) == 0
  {
    if t != [] {
      NoTurns(t[..|t| - 1]);
    }
  }

  /** A whole turn of the pool: it reads the status of its bank first. */
  predicate OneTurn(t: seq<Event>, bank: nat) {
    && |t| >= 3 && t[0] == Turn(bank) && t[|t| - 1] == Done
    && t[1].Status? && t[1].bank == bank
  }

  /** n times, the bank was found busy and the pool had a turn. */
  ghost predicate Polled(t: seq<Event>, bank: nat, n: nat)
    decreases n, 1
  {
    if n == 0 then t == []
    else exists k, pool :: PolledOnce(t, bank, n, k, pool)
  }

  ghost predicate PolledOnce(t: seq<Event>, bank: nat, n: nat, k: nat, pool: nat)
    requires n > 0
    decreases n, 0
  {
    k < |t| && Polled(t[..k], bank, n - 1) && t[k] == Status(bank, false) && OneTurn(t[k + 1..], pool)
  }

  /** The wait for a bank: after n busy answers, each followed by a turn of the pool, the bank is idle. */
  ghost predicate Waited(t: seq<Event>, bank: nat, n: nat) {
    |t| > 0 && Polled(t[..|t| - 1], bank, n) && t[|t| - 1] == Status(bank, true)
  }

  lemma PolledNext(t: seq<Event>, bank: nat, n: nat, turn: seq<Event>, pool: nat)
    requires Polled(t, bank, n) && OneTurn(turn, pool)
    ensures Polled(t + [Status(bank, false)] + turn, bank, n + 1)
  {
    var u := t + [Status(bank, false)] + turn;
    assert u[..|t|] == t && u[|t| + 1..] == turn;
    assert PolledOnce(u, bank, n + 1, |t|, pool);
  }

  /** The active pages and the pending victims, and what happened so far. */
  datatype Work = Work(active: seq<nat>, vt: seq<nat>, trace: seq<Event>)

  ghost predicate ErasedSince(trace: seq<Event>, n: nat, b: nat, blk: nat) {
    exists i :: n <= i < |trace| && trace[i] == Erase(b, blk)
  }

  /** Between o and w no page of a stalled bank was programmed, and victims stayed pending or were erased. */
  ghost predicate Spared(stall: seq<bool>, o: Work, w: Work) {
    && |w.active| == |o.active| == |w.vt| == |o.vt| == |stall| && o.trace <= w.trace
    && (forall i :: |o.trace| <= i < |w.trace| && w.trace[i].Program? ==> w.trace[i].bank < |stall| && !stall[w.trace[i].bank])
    && (forall b :: 0 <= b < |stall| && stall[b] ==> w.active[b] == o.active[b])
    && (forall b :: 0 <= b < |stall| ==> w.vt[b] == o.vt[b] || (w.vt[b] == 0 && ErasedSince(w.trace, |o.trace|, b, o.vt[b])))
  }

  lemma SparedNone(stall: seq<bool>, o: Work)
    requires |o.active| == |o.vt| == |stall|
    ensures Spared(stall, o, o)
  {
  }

  lemma SparedTrans(stall: seq<bool>, a: Work, b: Work, c: Work)
    requires Spared(stall, a, b) && Spared(stall, b, c)
    ensures Spared(stall, a, c)
  {
    forall i | |a.trace| <= i < |c.trace| && c.trace[i].Program? ensures c.trace[i].bank < |stall| && !stall[c.trace[i].bank] {
      if i < |b.trace| {
        assert c.trace[i] == b.trace[i];
      }
    }
    forall k | 0 <= k < |stall| && c.vt[k] != a.vt[k] ensures c.vt[k] == 0 && ErasedSince(c.trace, |a.trace|, k, a.vt[k]) {
      if b.vt[k] != a.vt[k] {
        var i :| |a.trace| <= i < |b.trace| && b.trace[i] == Erase(k, a.vt[k]);
        assert c.trace[i] == Erase(k, a.vt[k]);
      }
    }
  }

  /** What spares the banks stalled by an inner call spares those stalled around it. */
  lemma SparedOutside(stall: seq<bool>, bank: nat, o: Work, w: Work)
    requires bank < |stall| && Spared(stall[bank := true], o, w)
    ensures Spared(stall, o, w)
  {
    var inner := stall[bank := true];
    forall i | |o.trace| <= i < |w.trace| && w.trace[i].Program? ensures w.trace[i].bank < |stall| && !stall[w.trace[i].bank] {
      assert !inner[w.trace[i].bank];
    }
    forall b | 0 <= b < |stall| && stall[b] ensures w.active[b] == o.active[b] {
      assert inner[b];
    }
    assert forall b :: 0 <= b < |inner| ==> w.vt[b] == o.vt[b] || (w.vt[b] == 0 && ErasedSince(w.trace, |o.trace|, b, o.vt[b]));
  }

  lemma PolledNone(bank: nat)
    ensures Polled([], bank, 0)
  {
  }

  lemma PacedGrows(a: seq<Event>, i: nat, b: seq<Event>, j: nat)
    requires Paced(a, i, b, j)
    ensures a <= b && j < NUM_BANKS
  {
  }

  /** The beginning of a turn programs and erases nothing. */
  lemma TurnBegins(stall: seq<bool>, o: Work, pool: nat)
    requires |o.active| == |o.vt| == |stall|
    ensures Spared(stall, o, o.(trace := o.trace + [Turn(pool)]))
    ensures IdleFirst(o.trace) ==> IdleFirst(o.trace + [Turn(pool)])
  {
  }

  lemma TurnEnds(stall: seq<bool>, o: Work, pool: nat, w: Work, now: nat)
    requires pool < NUM_BANKS && Spared(stall, o, w) && Paced(o.trace + [Turn(pool)], pool, w.trace, now)
    ensures now < NUM_BANKS && Spared(stall, o, w.(trace := w.trace + [Done]))
    ensures Paced(o.trace, pool, w.trace + [Done], Wrap(now, NUM_BANKS))
    ensures IdleFirst(w.trace) ==> IdleFirst(w.trace + [Done])
  {
    TurnPaced(o.trace, pool, w.trace, now);
    forall b | 0 <= b < |stall| && w.vt[b] != o.vt[b] ensures ErasedSince(w.trace + [Done], |o.trace|, b, o.vt[b]) {
      var i :| |o.trace| <= i < |w.trace| && w.trace[i] == Erase(b, o.vt[b]);
      assert (w.trace + [Done])[i] == Erase(b, o.vt[b]);
    }
  }

  lemma TurnPaced(a: seq<Event>, pool: nat, b: seq<Event>, now: nat)
    requires pool < NUM_BANKS && Paced(a + [Turn(pool)], pool, b, now)
    ensures now < NUM_BANKS && Paced(a, pool, b + [Done], Wrap(now, NUM_BANKS))
  {
    var inner := b[|a| + 1..];
    assert b[|a|] == (a + [Turn(pool)])[|a|];
    assert (b + [Done])[|a|..] == [Turn(pool)] + inner + [Done];
    TurnsConcat([Turn(pool)] + inner, [Done]);
    TurnsConcat([Turn(pool)], inner);
    TurnsOne(pool);
  }

  lemma TurnWhole(a: seq<Event>, pool: nat, b: seq<Event>)
    requires a + [Turn(pool)] <= b && |b| > |a| + 1 && b[|a| + 1].Status? && b[|a| + 1].bank == pool
    ensures a <= b + [Done] && OneTurn((b + [Done])[|a|..], pool)
  {
    assert b[|a|] == (a + [Turn(pool)])[|a|];
  }

  /** A page of an unstalled bank is taken. */
  lemma ProgramSpares(stall: seq<bool>, o: Work, bank: nat, pg: nat)
    requires |o.active| == |o.vt| == |stall| && bank < |stall| && !stall[bank]
    ensures Spared(stall, o, Work(o.active[bank := pg], o.vt, o.trace + [Program(bank)]))
    ensures IdleFirst(o.trace) ==> IdleFirst(o.trace + [Program(bank)])
  {
  }

  lemma WaitedEnds(a: seq<Event>, b: seq<Event>, bank: nat, n: nat)
    requires a <= b && Waited(b[|a|..], bank, n)
    ensures |b| > |a| && b[|b| - 1] == Status(bank, true)
  {
  }

  lemma TurnsOne(pool: nat)
    ensures Turns([Turn(pool)]) == 1 && Turns([Done]) == 0
  {
    assert [Turn(pool)][..0] == [] && [Done][..0] == [];
  }

  class Cache {
    var stall: seq<bool>
    /** The page that active_ppns holds for each bank, and vt_blk. */
    var active: seq<nat>
    var vt: seq<nat>
    var poolBank: nat
    /** The answers of the status registers and of the cache to come; when they run out, banks are idle and
        there is nothing to write back. */
    var answers: seq<bool>
    ghost var trace: seq<Event>
    /** The banks that calls in progress have stalled, outermost first. */
    ghost var stack: seq<nat>

    /** Every bank is on the stack at most once, and the stalled banks are those on the stack: calls nest no
        deeper than there are banks. */
    ghost predicate Valid()
      reads this
    {
      && |stall| == |active| == |vt| == NUM_BANKS && poolBank < NUM_BANKS
      && StackOf(stack, stall)
      && IdleFirst(trace)
    }

    ghost function W(): Work
      reads this
    {
      Work(active, vt, trace)
    }

    constructor (vt: seq<nat>, answers: seq<bool>)
      requires |vt| == NUM_BANKS
      ensures Valid() && stack == [] && this.vt == vt && this.answers == answers && poolBank == 0 && trace == []
      ensures forall b :: 0 <= b < NUM_BANKS ==> !stall[b]
    {
      stall := seq<bool>(NUM_BANKS, b => false);
      active := seq<nat>(NUM_BANKS, b => 0);
      this.vt := vt;
      poolBank := 0;
      this.answers := answers;
      trace, stack := [], [];
      new;
      AllUnstalled(stall);
    }

    /** The next answer. */
    method Ask(otherwise: bool) returns (answer: bool)
      modifies this`answers
      ensures answer == if old(answers) == [] then otherwise else old(answers)[0]
      ensures answers == if old(answers) == [] then [] else old(answers)[1..]
    {
      if answers == [] {
        return otherwise;
      }
      answer := answers[0];
      answers := answers[1..];
    }

    /** _BSP_FSM: is the bank idle? */
    method Idle(bank: nat) returns (idle: bool)
      requires Valid()
      modifies this`answers, this`trace
      ensures Valid() && trace == old(trace) + [Status(bank, idle)] && Spared(stall, old(W()), W())
      ensures Paced(old(trace), old(poolBank), trace, poolBank)
      ensures idle == if old(answers) == [] then true else old(answers)[0]
      ensures answers == if old(answers) == [] then [] else old(answers)[1..]
    {
      idle := Ask(true);
      PacedBy(trace, poolBank, [Status(bank, idle)]);
      trace := trace + [Status(bank, idle)];
    }

    /** wait_bank_free: on return the bank has just answered idle. n is the number of busy answers before that. */
    method WaitBankFree(bank: nat) returns (ghost n: nat)
      requires Valid() && bank < NUM_BANKS && stall[bank]
      modifies this
      ensures Valid() && stall == old(stall) && stack == old(stack) && |answers| <= |old(answers)|
      ensures Spared(stall, old(W()), W())
      ensures old(trace) <= trace && Waited(trace[|old(trace)|..], bank, n)
      ensures Paced(old(trace), old(poolBank), trace, poolBank)
      decreases |answers|, Unstalled(stall), 0
    {
      hide StackOf, IdleFirst, Spared, Paced, Polled, OneTurn;
      n := 0;
      ghost var t: seq<Event> := [];
      PolledNone(bank);
      var idle := Idle(bank);
      PacedGrows(old(trace), old(poolBank), trace, poolBank);
      assert trace == old(trace) + t + [Status(bank, idle)];
      while !idle
        invariant Valid() && stall == old(stall) && stack == old(stack)
        invariant |answers| <= |old(answers)| && (!idle ==> |answers| < |old(answers)|)
        invariant Spared(stall, old(W()), W())
        invariant trace == old(trace) + t + [Status(bank, idle)] && Polled(t, bank, n)
        invariant Paced(old(trace), old(poolBank), trace, poolBank)
        decreases |answers|, !idle
      {
        ghost var w, p := W(), poolBank;
        PoolWriteBuf();
        SparedTrans(stall, old(W()), w, W());
        PacedTrans(old(trace), old(poolBank), w.trace, p, trace, poolBank);
        PacedGrows(w.trace, p, trace, poolBank);
        ghost var turn := trace[|w.trace|..];
        PolledNext(t, bank, n, turn, p);
        t := t + [Status(bank, false)] + turn;
        assert trace == old(trace) + t;
        n := n + 1;
        w, p := W(), poolBank;
        idle := Idle(bank);
        SparedTrans(stall, old(W()), w, W());
        PacedTrans(old(trace), old(poolBank), w.trace, p, trace, poolBank);
      }
      assert trace[|old(trace)|..] == t + [Status(bank, true)];
      assert (t + [Status(bank, true)])[..|t|] == t;
    }

    /** pool_write_buf: one page of the pool's bank is written back if more than half of its buffers are
        dirty; otherwise its victim is erased, even if the bank is stalled. Then it is the next bank's turn; turns
        within this one have moved the pool on before. */
    method PoolWriteBuf()
      requires Valid()
      modifies this
      ensures Valid() && stall == old(stall) && stack == old(stack) && |answers| <= |old(answers)|
      ensures Spared(stall, old(W()), W())
      ensures old(trace) <= trace && OneTurn(trace[|old(trace)|..], old(poolBank))
      ensures Paced(old(trace), old(poolBank), trace, poolBank)
      ensures var b, asked := old(poolBank), old(answers);
        asked == [] || !asked[0] ==>
          && b < NUM_BANKS == |old(vt)| && active == old(active)
          && vt == (if |asked| < 2 || asked[1] then old(vt)[b := 0] else old(vt))
          && poolBank == Wrap(b, NUM_BANKS)
      decreases |answers|, Unstalled(stall), 3
    {
      hide StackOf, IdleFirst, Spared, Paced, OneTurn;
      ghost var first := poolBank;
      TurnBegins(stall, W(), first);
      trace := trace + [Turn(first)];
      ghost var w := W();
      var dirty := Ask(false);
      if dirty {
        var clean := Dequeue(poolBank);
      } else {
        EraseVtBlk(poolBank);
      }
      SparedTrans(stall, old(W()), w, W());
      PacedGrows(w.trace, first, trace, poolBank);
      TurnEnds(stall, old(W()), first, W(), poolBank);
      TurnWhole(old(trace), first, trace);
      poolBank := Wrap(poolBank, NUM_BANKS);
      trace := trace + [Done];
    }

    /** blkmgr_erase_vt_blk: the bank must be idle, but its stall flag is not looked at. */
    method EraseVtBlk(bank: nat)
      requires Valid() && bank < NUM_BANKS
      modifies this`vt, this`trace, this`answers
      ensures Valid() && |answers| <= |old(answers)| && Spared(stall, old(W()), W())
      ensures Paced(old(trace), old(poolBank), trace, poolBank) && poolBank == old(poolBank)
      ensures |trace| > |old(trace)| && trace[|old(trace)|] == Status(bank, old(answers) == [] || old(answers)[0])
      ensures vt == if old(answers) == [] || old(answers)[0] then old(vt)[bank := 0] else old(vt)
    {
      hide StackOf, Paced;
      var idle := Idle(bank);
      if !idle {
        return;
      }
      if vt[bank] != 0 {
        ghost var blk := vt[bank];
        PacedBy(trace, poolBank, [Erase(bank, blk)]);
        PacedTrans(old(trace), poolBank, trace, poolBank, trace + [Erase(bank, blk)], poolBank);
        trace := trace + [Erase(bank, blk)];
        vt := vt[bank := 0];
        assert trace[|trace| - 1] == Erase(bank, blk);
      } else {
        assert vt[bank := 0] == vt;
      }
    }

    /** dequeue: on a stalled or busy bank, or one with nothing dirty, it does nothing; else it takes the next
        page of the bank. Nothing that runs while it waits programs a page of that bank or of a bank stalled
        by the calls around it. */
    method Dequeue(bank: nat) returns (wrote: bool)
      requires Valid() && bank < NUM_BANKS
      modifies this
      ensures Valid() && stall == old(stall) && stack == old(stack) && |answers| <= |old(answers)| && poolBank < NUM_BANKS
      ensures Spared(stall, old(W()), W())
      ensures wrote <==> !stall[bank] && |old(answers)| >= 2 && old(answers)[0] && old(answers)[1]
      ensures if wrote then active[bank] == NextPage(old(active)[bank]) && trace != [] && trace[|trace| - 1] == Program(bank)
              else active == old(active) && vt == old(vt) && poolBank == old(poolBank)
                   && trace == old(trace) + [Status(bank, old(answers) == [] || old(answers)[0])]
      ensures Paced(old(trace), old(poolBank), trace, poolBank)
      ensures |trace| > |old(trace)| && trace[|old(trace)|] == Status(bank, old(answers) == [] || old(answers)[0])
      decreases |answers|, Unstalled(stall), 2
    {
      hide StackOf, IdleFirst, Spared, Paced;
      var idle := Idle(bank);
      if !idle || stall[bank] {
        return false;
      }
      ghost var w, p := W(), poolBank;
      var dirty := Ask(false);
      if !dirty {
        return false;
      }
      GetAndIncActivePpn(bank);
      SparedTrans(stall, old(W()), w, W());
      PacedTrans(old(trace), old(poolBank), w.trace, p, trace, poolBank);
      PacedGrows(w.trace, p, trace, poolBank);
      wrote := true;
    }

    /** get_and_inc_active_ppn: the active page is read before the wait and written after it. */
    method GetAndIncActivePpn(bank: nat)
      requires Valid() && bank < NUM_BANKS && !stall[bank]
      modifies this
      ensures Valid() && stall == old(stall) && stack == old(stack) && |answers| <= |old(answers)| && poolBank < NUM_BANKS
      ensures active[bank] == NextPage(old(active)[bank])
      ensures Spared(stall, old(W()), W())
      ensures Paced(old(trace), old(poolBank), trace, poolBank)
      ensures trace != [] && trace[|trace| - 1] == Program(bank)
      ensures old(active)[bank] == LAST_PAGE ==> |trace| >= 2 && trace[|trace| - 2] == Status(bank, true)
      decreases |answers|, Unstalled(stall), 1
    {
      hide StackOf, IdleFirst, Spared, Paced, Waited;
      PacedNone(trace, poolBank);
      SparedNone(stall, W());
      var pg := active[bank];
      if pg == LAST_PAGE {
        pg := 0;
        ghost var n := StallAndWait(bank);
        WaitedEnds(old(trace), trace, bank, n);
      }
      ghost var w := W();
      ProgramSpares(stall, w, bank, pg + 1);
      SparedTrans(stall, old(W()), w, Work(active[bank := pg + 1], vt, trace + [Program(bank)]));
      PacedBy(trace, poolBank, [Program(bank)]);
      PacedTrans(old(trace), old(poolBank), trace, poolBank, trace + [Program(bank)], poolBank);
      active := active[bank := pg + 1];
      trace := trace + [Program(bank)];
    }

    /** stall_cache, wait_bank_free and release_cache, as around the summary page and the pre-reads. */
    method StallAndWait(bank: nat) returns (ghost n: nat)
      requires Valid() && bank < NUM_BANKS && !stall[bank]
      modifies this
      ensures Valid() && stall == old(stall) && stack == old(stack) && |answers| <= |old(answers)|
      ensures active[bank] == old(active)[bank]
      ensures Spared(stall, old(W()), W())
      ensures old(trace) <= trace && Waited(trace[|old(trace)|..], bank, n)
      ensures Paced(old(trace), old(poolBank), trace, poolBank)
      decreases |answers|, Unstalled(stall), 0
    {
      hide StackOf, IdleFirst, Paced, Polled;
      StackPush(stack, stall, bank);
      ghost var before, frames := stall, stack;
      stall := stall[bank := true];
      stack := stack + [bank];
      n := WaitBankFree(bank);
      SparedOutside(before, bank, old(W()), W());
      stall := stall[bank := false];
      stack := frames;
      assert stall == before;
    }
  }

  /** The stall flag does not protect the victim: bank 0 is stalled and found busy by the call that waits for
      it, and is idle again when the pool comes to it. */
  method StalledVictimErased(vt: seq<nat>) returns (c: Cache)
    requires |vt| == NUM_BANKS && vt[0] != 0
    ensures c.Valid() && c.stack == [0] && |c.stall| == |c.vt| == NUM_BANKS && c.stall[0] && c.vt == vt[0 := 0]
    ensures ErasedSince(c.trace, 0, 0, vt[0])
  {
    c := new Cache(vt, [false, false, true]);
    StackPush([], c.stall, 0);
    c.stall := c.stall[0 := true];
    c.stack := [0];
    assert c.stack == [] + [0];
    var idle := c.Idle(0);
    assert !idle;
    ghost var w := c.W();
    c.PoolWriteBuf();
    ghost var i :| |w.trace| <= i < |c.trace| && c.trace[i] == Erase(0, vt[0]);
  }
}
