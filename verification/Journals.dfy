/** The log and the persisted page map: what appending to the log, persisting the map and erasing do to
    what recovery reads from them. */
module Journals {
  import opened Geometry
  import opened Requests
  import opened Recoverable
  import opened Media
  import LS = LogSpace

  // ---- Replaying mapping entries ----

  lemma {:induction false} ReplayConcat(m: map<nat, Loc>, a: seq<(nat, Loc)>, b: seq<(nat, Loc)>)
    ensures Replay(m, a + b) == Replay(Replay(m, a), b)
  {
    if b == [] {
      assert a + b == a;
    } else {
      assert (a + b)[..|a + b| - 1] == a + b[..|b| - 1];
      ReplayConcat(m, a, b[..|b| - 1]);
    }
  }

  lemma {:induction false} ReplayKeys(m: map<nat, Loc>, ents: seq<(nat, Loc)>)
    ensures forall l :: l in m ==> l in Replay(m, ents)
  {
    if ents != [] {
      ReplayKeys(m, ents[..|ents| - 1]);
    }
  }

  lemma {:induction false} ReplayFixed(m: map<nat, Loc>, ents: seq<(nat, Loc)>, l: nat)
    requires l in Replay(m, ents)
    ensures (l in m && Replay(m, ents)[l] == m[l]) || exists i :: 0 <= i < |ents| && ents[i].0 == l
  {
    if ents != [] {
      var k := |ents| - 1;
      if ents[k].0 != l {
        ReplayFixed(m, ents[..k], l);
        if exists i :: 0 <= i < |ents[..k]| && ents[..k][i].0 == l {
          var i :| 0 <= i < |ents[..k]| && ents[..k][i].0 == l;
          assert ents[i].0 == l;
        }
      } else {
        assert ents[k].0 == l;
      }
    }
  }

  lemma {:induction false} ReplayTwice(m: map<nat, Loc>, ents: seq<(nat, Loc)>, l: nat, i: nat)
    requires i < |ents| && ents[i].0 == l
    ensures forall other :: l in Replay(other, ents) && l in Replay(m, ents) && Replay(other, ents)[l] == Replay(m, ents)[l]
  {
    var k := |ents| - 1;
    if ents[k].0 != l {
      ReplayTwice(m, ents[..k], l, i);
    }
  }

  /** Replaying the old log over the newer map that it leads to changes nothing. */
  lemma ReplayIdempotent(m: map<nat, Loc>, ents: seq<(nat, Loc)>)
    ensures Replay(Replay(m, ents), ents) == Replay(m, ents)
  {
    var r := Replay(m, ents);
    ReplayKeys(r, ents);
    forall l | l in Replay(r, ents) ensures l in r && Replay(r, ents)[l] == r[l] {
      ReplayFixed(r, ents, l);
      if exists i :: 0 <= i < |ents| && ents[i].0 == l {
        var i: nat :| 0 <= i < |ents| && ents[i].0 == l;
        ReplayTwice(m, ents, l, i);
      }
    }
  }

  lemma {:induction false} MapEntriesConcat(a: seq<LogPage>, b: seq<LogPage>)
    ensures MapEntries(a + b) == MapEntries(a) + MapEntries(b)
  {
    if b == [] {
      assert a + b == a;
    } else {
      assert (a + b)[..|a + b| - 1] == a + b[..|b| - 1];
      MapEntriesConcat(a, b[..|b| - 1]);
    }
  }

  lemma {:induction false} DepEntriesConcat(a: seq<LogPage>, b: seq<LogPage>)
    ensures DepEntries(a + b) == DepEntries(a) + DepEntries(b)
  {
    if b == [] {
      assert a + b == a;
    } else {
      assert (a + b)[..|a + b| - 1] == a + b[..|b| - 1];
      DepEntriesConcat(a, b[..|b| - 1]);
    }
  }

  lemma DepEntriesOne(p: LogPage)
    ensures DepEntries([p]) == if p.Deps? then p.deps else []
    ensures MapEntries([p]) == if p.MapEnts? then p.ents else []
  {
    assert [p][..0] == [];
  }

  lemma {:induction false} NoMapEntries(pages: seq<LogPage>)
    requires forall k :: 0 <= k < |pages| ==> !pages[k].MapEnts?
    ensures MapEntries(pages) == []
  {
    if pages != [] {
      NoMapEntries(pages[..|pages| - 1]);
    }
  }

  lemma {:induction false} NoDepEntries(pages: seq<LogPage>)
    requires forall k :: 0 <= k < |pages| ==> !pages[k].Deps?
    ensures DepEntries(pages) == []
  {
    if pages != [] {
      NoDepEntries(pages[..|pages| - 1]);
    }
  }

  // ---- The log device ----

  /** The log holds exactly pages; everything after them is erased. */
  ghost predicate LogHolds(log: map<LogLoc, LogPage>, pages: seq<LogPage>) {
    && (forall k :: 0 <= k < |pages| ==> LogAddr(k) in log && log[LogAddr(k)] == pages[k])
    && (forall k: nat :: |pages| <= k ==> LogAddr(k) !in log)
  }

  /** The turns of a bank come one after the other. */
  lemma {:induction false} EarlierTurn(k: nat, b: nat, n: nat)
    requires n < Turns(k, b)
    ensures exists i :: 0 <= i < k && RoundRobin(i) == b && Turns(i, b) == n
  {
    if !(RoundRobin(k - 1) == b && Turns(k - 1, b) == n) {
      EarlierTurn(k - 1, b, n);
    }
  }

  /** The next page of the log is erased, and the one before it in its block is programmed. */
  lemma NextReady(log: map<LogLoc, LogPage>, pages: seq<LogPage>)
    requires LogHolds(log, pages)
    ensures LogReady(log, LogAddr(|pages|))
  {
    var b, n := RoundRobin(|pages|), Turns(|pages|, RoundRobin(|pages|));
    if NthPage(n).pg > 0 {
      EarlierTurn(|pages|, b, n - 1);
      var i :| 0 <= i < |pages| && RoundRobin(i) == b && Turns(i, b) == n - 1;
      assert LogAddr(i) in log;
    }
  }

  lemma LogAppend(log: map<LogLoc, LogPage>, pages: seq<LogPage>, p: LogPage)
    requires LogHolds(log, pages)
    ensures LogReady(log, LogAddr(|pages|))
    ensures LogHolds(log[LogAddr(|pages|) := p], pages + [p])
  {
    NextReady(log, pages);
    forall k: nat ensures LogAddr(k) == LogAddr(|pages|) ==> k == |pages| {
      if LogAddr(k) == LogAddr(|pages|) {
        LS.LogAddrInjective(k, |pages|);
      }
    }
  }

  // ---- Appending to the log ----

  /** The journal between operations: nothing but dependency pages follows the last tag. */
  ghost predicate Settled(j: Journal) {
    |j.pages| > 0 && Ordered(j) && j.tag + 1 + j.ndeps == |j.pages|
  }

  function AddDeps(j: Journal, deps: seq<Dep>): Journal {
    j.(pages := j.pages + [Deps(deps)], ndeps := j.ndeps + 1)
  }

  lemma AddDepsDescribes(j: Journal, v: View, deps: seq<Dep>)
    requires v.commit >= -1 && |v.lanes| == NUM_BANKS && Settled(j) && Describes(j, v)
    ensures Settled(AddDeps(j, deps)) && Describes(AddDeps(j, deps), v.(deps := v.deps + deps))
  {
    var k := AddDeps(j, deps);
    assert k.pages[..k.tag] == j.pages[..j.tag];
    assert k.pages[k.tag + 1..] == j.pages[j.tag + 1..] + [Deps(deps)];
    DepEntriesConcat(j.pages[j.tag + 1..], [Deps(deps)]);
    DepEntriesOne(Deps(deps));
  }

  function AddMapEnts(j: Journal, ents: seq<(nat, Loc)>): Journal {
    j.(pages := j.pages + [MapEnts(ents)])
  }

  lemma AddMapEntsDescribes(j: Journal, v: View, ents: seq<(nat, Loc)>)
    requires v.commit >= -1 && |v.lanes| == NUM_BANKS && |j.pages| > 0 && Ordered(j) && Describes(j, v)
    ensures Ordered(AddMapEnts(j, ents)) && Describes(AddMapEnts(j, ents), v)
  {
    hide Replay, MapEntries, DepEntries, StartsAt;
    var k := AddMapEnts(j, ents);
    assert k.pages[..k.tag] == j.pages[..j.tag];
    assert k.pages[k.tag + 1..] == j.pages[j.tag + 1..] + [MapEnts(ents)];
    DepEntriesConcat(j.pages[j.tag + 1..], [MapEnts(ents)]);
    DepEntriesOne(MapEnts(ents));
  }

  function AddTag(j: Journal, epoch: nat, active: seq<Pos>): Journal {
    Journal(j.base, j.epoch, j.pages + [Tag(epoch, active)], |j.pages|, 0)
  }

  /** The entries logged since the last tag. */
  function SinceTag(j: Journal): seq<(nat, Loc)>
    requires j.tag < |j.pages|
  {
    MapEntries(j.pages[j.tag + 1..])
  }

  ghost predicate TagsBelow(j: Journal, epoch: nat) {
    forall k :: 0 <= k < |j.pages| && j.pages[k].Tag? ==> j.pages[k].epoch != epoch
  }

  lemma EntriesAroundTag(pages: seq<LogPage>, tag: nat)
    requires tag < |pages| && pages[tag].Tag?
    ensures MapEntries(pages) == MapEntries(pages[..tag]) + MapEntries(pages[tag + 1..])
  {
    var front, rest := pages[..tag], pages[tag + 1..];
    var mid := [pages[tag]];
    assert pages == front + (mid + rest);
    calc {
      MapEntries(front + (mid + rest));
      { MapEntriesConcat(front, mid + rest); }
      MapEntries(front) + MapEntries(mid + rest);
      { MapEntriesConcat(mid, rest); }
      MapEntries(front) + (MapEntries(mid) + MapEntries(rest));
      { DepEntriesOne(pages[tag]); }
      MapEntries(front) + ([] + MapEntries(rest));
      { assert [] + MapEntries(rest) == MapEntries(rest); }
      MapEntries(front) + MapEntries(rest);
    }
  }

  /** A tag page makes what was logged before it the committed state. */
  lemma AddTagDescribes(j: Journal, v: View, epoch: nat, active: seq<Pos>, w: View)
    requires v.commit >= -1 && |v.lanes| == NUM_BANKS && |j.pages| > 0 && Ordered(j) && Describes(j, v)
    requires TagsBelow(j, epoch)
    requires w.commit >= 0 && epoch == w.commit && |w.lanes| == NUM_BANKS == |active| && w.deps == []
    requires forall b :: 0 <= b < NUM_BANKS ==> StartsAt(w.lanes[b], active[b])
    requires w.cmap == Replay(v.cmap, SinceTag(j))
    ensures Settled(AddTag(j, epoch, active)) && Describes(AddTag(j, epoch, active), w)
  {
    var k := AddTag(j, epoch, active);
    assert k.pages[..k.tag] == j.pages;
    assert k.pages[k.tag + 1..] == [];
    EntriesAroundTag(j.pages, j.tag);
    ReplayConcat(j.base, MapEntries(j.pages[..j.tag]), SinceTag(j));
  }

  /** Once the full map of a commit is persisted, the log that led to it still reads the same. */
  lemma NewBaseDescribes(j: Journal, v: View, epoch: Option<nat>)
    requires v.commit >= 0 && |v.lanes| == NUM_BANKS && |j.pages| > 0 && Describes(j, v)
    requires epoch == Some(v.commit)
    ensures Describes(j.(base := v.cmap, epoch := epoch), v)
  {
    ReplayIdempotent(j.base, MapEntries(j.pages[..j.tag]));
  }

  // ---- Replacing the persisted map ----

  /** slot cur is erased; the other one holds the map that recovery restores, or both are erased. */
  ghost predicate SlotsAt(slots: seq<Slot>, cur: nat, base: map<nat, Loc>, epoch: Option<nat>) {
    && |slots| == 2 && cur < 2
    && slots[cur] == EMPTY_SLOT
    && (epoch == None ==> slots[1 - cur] == EMPTY_SLOT && base == map[])
    && (epoch.Some? ==> epoch.value > 0 && slots[1 - cur].commit == epoch && HoldsMap(slots[1 - cur], base))
  }

  lemma SlotsRead(slots: seq<Slot>, cur: nat, base: map<nat, Loc>, epoch: Option<nat>)
    requires SlotsAt(slots, cur, base, epoch)
    ensures MapReads(slots, base, epoch)
  {
  }

  /** Until its commit page is programmed, a partly persisted map is ignored. */
  lemma PartialMapIgnored(slots: seq<Slot>, cur: nat, base: map<nat, Loc>, epoch: Option<nat>, part: map<nat, map<nat, Loc>>)
    requires SlotsAt(slots, cur, base, epoch)
    ensures MapReads(slots[cur := Slot(part, None)], base, epoch)
  {
  }

  /** From its commit page on, the new map is the one restored: its epoch is the greater one. Erasing the
      old slot does not change that. */
  lemma NewMapChosen(slots: seq<Slot>, cur: nat, base: map<nat, Loc>, old_epoch: Option<nat>, slot: Slot,
        m: map<nat, Loc>, e: nat, left: Slot)
    requires SlotsAt(slots, cur, base, old_epoch)
    requires e > 0 && (old_epoch.Some? ==> e > old_epoch.value)
    requires slot.commit == Some(e) && HoldsMap(slot, m)
    requires left == slots[1 - cur] || left.commit == None
    ensures MapReads(slots[cur := slot][1 - cur := left], m, Some(e))
  {
  }
}
