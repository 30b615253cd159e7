# Order-preserving flash translation layer

A model of the firmware in `ftl_optr/` (write cache, epoch and dependency log, checkpoints, garbage collection,
recovery) on the flash device of its simulator, and proofs about it.

## What is proved

1. **Order preservation.** Take any sequence of writes, reads, flushes, idle steps and timer events on a formatted
   device (`Run.RunCommands`), and crash it between any two flash operations: inside a flush, garbage collection, a
   checkpoint, the writing of the full page map or the reclaiming of the log. Recovery finds an epoch E, and the disk
   is exactly what the first E write requests made it (`Run.CrashTest`, `Run.RecoveredSector`), *provided that the
   tables of recovery fit and are apart* (next section). E itself is determined for every image (`Spill.CutTaken`).
2. **Flush durability, exactly.** Every flush raises the floor to the number of requests received, for every later
   crash, also one before the next flash operation. Recovery honours it, E >= floor, if and only if a checkpoint was
   taken since format and every request below the floor that has no counter in the table is taken for complete
   (`Run.FlushedSeen`), or none was taken and the floor is 0 (`Run.CrashTest`, `Run.FlushedIff`). Nothing else is
   assumed. Both parts of the condition can fail:
   - The tag page of format has epoch `0 - 1`, so until the first checkpoint recovery goes back to the empty disk;
     `Run.FlushedButLost` runs the firmware into it. `vst/src/vst.c:142` expects E >= floor in this case too.
   - After RECOVERY_ENTRIES requests since a checkpoint the counters lie over the page map. There a flushed request is
     seen exactly if the second of its two pages was not mapped at the commit, as long as garbage collection copied
     neither (`Run.FlushedSeenIff`). `Beyond.CounterInput` and `Beyond.CountersLose` are an input, within the shipped
     sizes, that loses everything flushed since the checkpoint, and a page written before it too.
3. **No-crash refinement.** Reads return the last value written to each sector, through merges, partial writes with
   pre-read, evictions and garbage collection (`Ftl.Ftl.Read`).
4. **The firmware's own assertions and limits.** Pages are programmed only when erased; valid counts are exact, so
   `n_valid == vcount` always holds; a bank short of free blocks always has a victim; the log never runs out of
   blocks and `record_tag` calls itself at most once; the loops of garbage collection, `flush_write_buf` and
   `get_clean_cache_buf` end. `Ftl.Ftl.Write` stops only if one of two assertions fails, which no contract
   rules out: more mapping entries than the buffer holds, and a victim without an invalid page. It comes to them
   only if the banks are short of more free blocks than the batch threshold.
5. **Order and timing of flushes.** A flush logs the dependencies before any page is written back, at every crash point
   (`Ftl.Ftl.PrefixFlush`). A write flushes exactly if garbage collection or a checkpoint is due or the timer went off
   (`Service.Finishing`). So the first write that finishes after a tick makes everything received safe, with one
   exception: if dependencies fill a log page in it, logging them clears the flag, and nothing need be flushed
   (`Run.TicksKept`). `Tick.TickLost` runs the firmware into it, with at least two buffers in each bank.
6. **Re-entrancy.** `wait_bank_free` returns only after an idle answer of its bank, and gives the pool one turn after
   every busy one. With bank status arbitrary, the calls nested in `wait_bank_free` program no page of a stalled bank
   and change no stall flag, and nest no deeper than there are banks (`StallFlags`). They may erase the pending victim
   of a stalled bank, if it has become idle: `blkmgr_erase_vt_blk` does not look at the flag
   (`StallFlags.StalledVictimErased`).

## The tables of recovery

Recovery has no memory of its own (`ftl_optr/ftl.h:87-130`, module `Dram`). The newest epoch of each page is a word at
DRAM_BASE; the counters of the epochs are at RECOVERY_ADDR, where the sorted list of dependencies replaces them; flash
pages are read into FTL_BUF in between. `sanity_check` only asks that the epochs end before DEP_BUF. Order preservation
is therefore proved under three conditions on the crash (`Run.RecoverFrom`):

- `CountersFit`: fewer than RECOVERY_ENTRIES requests since the last checkpoint. Beyond that, counters overwrite the page
  map, and completeness is read from there (module `Spill`). What the map then holds is determined, and so is E.
  `EpochRight` is what order preservation needs of it: every flushed request is seen, and no incomplete one is mistaken
  for a complete one. It holds too if an incomplete request has a counter, or if everything received was flushed and is
  seen (`Run.EpochRightIf`). With it, every page is right that nothing was counted over (`Spill.Uncounted`); of those
  that something was counted over, and that were not written or copied since, `Recovery.CountBeyondTable` says exactly
  which are right.
- `ListFits`: no more than RECOVERY_ENTRIES dependencies logged since then. Beyond that, epochs are taken for the places
  of pages; `Recovery.ListBeyondTable` says exactly which of the pages not written since get right anyway.
- `EpochsClear`: the epoch of every page written since then is a word before FTL_BUF, or between FTL_BUF and
  RECOVERY_ADDR. The epoch E does not depend on this, and each page that meets it is right even if others do not.

`EpochsClear` holds in all crashes if and only if NUM_LPAGES is at most the number of words before FTL_BUF
(`Overlap.ClearIff`). If the epochs reach RECOVERY_ADDR, a flushed write is lost for any data (`Overlap.OverlapInput`,
`Overlap.OverlapLoses`). If they reach FTL_BUF, one is lost for some data of the host (`Overlap.BufferInput`,
`Overlap.BufferLoses`): there memory is taken to hold what was read into it. In the simulator
`vst_memcpy` copies nothing out of a page tagged as host data (`vst/src/vram.c:128-136`), so `epoch_prev` keeps the value
it had before, and the outcome depends on that. Page by page, the exact condition is that of
`Recovery.Recovery.Recover`: the word that a page finds is determined by the flash pages read there before
(`Recovery.Recovery.FoundFar`, `Recovery.Recovery.NearRight`, `Sights.OwnBuffer`). The devices of these inputs are
reached from a formatted one by a write, a flush and a checkpoint (`Overlap.Checkpointed`).

With the constants in `vst/include` (16 banks, 4152 blocks, 32 sectors per page, 65075200 bytes of DRAM) NUM_LPAGES is
7801404, FTL_BUF begins at word 5951488, RECOVERY_ADDR is word 6025216, and RECOVERY_ENTRIES is 1148928. `sanity_check`
passes, as DEP_BUF begins at word 8187904. So the disk is recovered as long as only pages below 5951488 (and the 8192
from 6017024 on), and fewer than 1148928 requests, are written between a checkpoint and a crash, and not in general.

## How it is built

The proof has three layers.

- *What matters for recovery.* `OrderState` describes the firmware by the requests received, the cache, the page map,
  the dependencies, the chains of pages programmed since the commit, and the `floor` below which requests are safe.
  `OrderState.Inv` says that every page version is on flash, dirty, or replaced by a dependency (coverage), that pages
  and dependencies of every epoch add up (accounting), and that what the commit mapped is intact, copied or
  superseded (retention). `HostSteps` and `FlashSteps` show that every step keeps it, and `PrefixTheorem` that it
  makes recovery right. `Requests` is the specification: the disk that a prefix of the requests produces.
- *What is on flash.* `Media`, `Chains`, `Journals` and `LogSpace` are the layouts: chains of data blocks, the log
  striped over the banks, the two slots for the full map. `Recovery`, `Spill` and `DependencyCut` are the recovery code,
  on the memory of `Dram` and what `Sights` says of FTL_BUF, proved to compute what `Recoverable.Recovered` asks for
  wherever that memory lets it.
- *The firmware.* `Nand`, `BlkMgr`, `WriteCache`, `LogSpace` and `Ftl` are classes with the source's fields. Each
  operation of `Nand` takes, as ghost arguments, a state of the invariant that the flash content after it is an image
  of, and records it: so every crash point is covered by construction. `DeviceSteps`, `LogSteps`, `Banks`, `Ring`,
  `Room`, `ValidCounts`, `Effects`, `Collection`, `Checkpoints` and `Service` are the lemmas that provide it.

Method bodies in `Ftl` hide all definitions and work with the lemmas `Open` and `Close`; this keeps every proof small.

Sizes are parameters (`Geometry`, `Dram`): at least 8 banks, 128 pages per block, 16 sectors per page, 2 log blocks
per bank, and 1 to 512 cache buffers per bank. The ring of each bank has at least `Room.MIN_RING` blocks, which is
what makes sure that a bank short of free blocks has one to collect. A run has fewer than 2^32 - 2 write requests,
so no epoch is one of the two values that mark erased and copied pages. Within these bounds the results hold for all
sizes, those about recovery under the conditions above.

## Model

| member | source | states |
|---|---|---|
| Run.CrashTest | vst/src/vram.c:410-425 | After any run of commands and a crash after any of its flash operations or between two of its commands, recovery yields an epoch E no greater than the number of writes received. E covers the floor, below which is every write that a flush before the crash had seen, if and only if a checkpoint was taken and every flushed write without a counter in the table is taken for complete, or no checkpoint was taken and the floor is 0. If the tables of recovery fit and are apart, the disk is exactly what the first E writes made it |
| Run.RunCommands | sata/sata_main.c:81-118 | Every command of the list is executed in order, up to the end or to a write in which an assertion of the source stopped the firmware: then the banks were short of more free blocks than the batch threshold at the end of its loop, and garbage collection met one of its two assertions. The requests received are those of the writes executed; each flush has a mark and each read a reply with the sectors it asked for, in order; every crash image is recoverable, no crash after a flush has a floor below it, and every read returned what the writes before it wrote. The first write that finishes after the timer went off has made everything received safe, unless dependencies filled a log page in it |
| Run.Execute | sata/sata_main.c:81-118 | A write appends its request; a flush adds exactly its mark, at the record of a power cut right after it, with all requests received below the floor and no dependency unlogged in any record since; a read adds exactly its reply, of the length asked for; nothing else is added. The flag of the timer is set by its command, cleared by a write and a flush, and kept by the others. It fails only on a write in which an assertion of the source stopped the firmware, with the banks short beyond the batch threshold |
| Run.TicksNext | ftl_optr/log.c:152-160 | What the writes after a tick have made safe, command by command: it is not lost when more commands follow |
| Run.RecoverFrom | ftl_optr/ftl.c:455-462 | Recovery of any recorded crash ends, at the recovery point that the image determines. It covers the floor exactly under the condition above. If no incomplete write is mistaken for a complete one either, and the list of dependencies fits, every page is right that no counter lies over in the page map and whose epoch shares no word or is not needed; the disk is the prefix if all counters fit and that is so for every page written since the commit |
| Run.FlushedIff | ftl_optr/recovery.c:182-300 | Flush durability, exactly: the recovery point of the image covers the floor if and only if every write below the floor that has no counter in the table is taken for complete; before the first checkpoint, if and only if the floor is 0 |
| Run.FlushedSeenIff | ftl_optr/recovery.c:182-197 | If garbage collection copied none of the pages that these counters lie over, the condition is about the committed map only: the second page of each pair was not mapped |
| Run.EpochRightIf | ftl_optr/recovery.c:182-197 | All flushed writes are seen and no incomplete one is mistaken for a complete one, if all counters fit the table, or an incomplete write has one there, or everything received was flushed and is seen |
| Run.SoundFrom | ftl_optr/recovery.c:182-300 | Then the recovery point is one that gives a prefix: everything below it is complete, no dependency crosses it, and it is not below the floor |
| Run.SmallDiskClear | ftl_optr/ftl.h:125-130 | If the epochs of all pages end before FTL_BUF, none shares its word, in any crash |
| Overlap.ClearIff | ftl_optr/ftl.h:125-130 | No epoch shares its word in any crash that the invariant allows, if and only if the epochs of all pages end before FTL_BUF |
| Overlap.Checkpointed | ftl_optr/ftl.c:196-345 | Format, one write of any one page, flush and checkpoint lead to a consistent device with exactly that page mapped |
| Overlap.OverlapLoses | ftl_optr/recovery.c:453-459 | A flushed write that recovery loses: the epoch of its page lies over the first entry of the sorted dependency list, and that entry is at least as new |
| Overlap.OverlapInput | ftl_optr/ftl.h:89-130 | Such a device exists as soon as the epochs of the pages reach RECOVERY_ADDR: format, write page 0, flush, checkpoint; write the page at RECOVERY_ADDR for the first time, flush; write page 0 twice, flush |
| Overlap.BufferLoses | ftl_optr/recovery.c:429-459 | A flushed write that recovery loses: pages that read as ones are read over the epoch of its page, in memory that holds what was read into it |
| Overlap.BufferInput | ftl_optr/ftl.h:75-130 | Such a device exists as soon as the epochs of the pages reach FTL_BUF: format, write another page, flush, checkpoint; write the page at FTL_BUF for the first time, flush |
| Beyond.CountersLose | ftl_optr/recovery.c:182-197 | After a checkpoint with page 1 mapped, as many requests as there are entries, each replacing the one before it in the cache, and a flush: the count of the last lies over page 1, recovery goes back to the checkpoint, everything flushed since is lost, and page 1 is recovered from the wrong place |
| Beyond.CounterInput | ftl_optr/recovery.c:528-540 | Such a device exists: format, write page 1, flush, checkpoint; write page 0 as many times as there are entries, the dependencies logged a full page at a time, flush. The log has room for it below the length at which the firmware takes a checkpoint, if RECOVERY_ENTRIES / 750 + 4 pages are no more than that, as with the shipped sizes |
| Beyond.PulledBack | ftl_optr/recovery.c:199-300 | The recovery point of such an image is the checkpoint: every cut above it is crossed by a dependency |
| Overlap.OnePage | ftl_optr/ftl.c:196-345 | One request of one page, on the device: cached and dirty, with one dependency if it was dirty already |
| Run.RecoveredSector | vst/src/vram.c:410-425 | Sector by sector: a page is mapped exactly if one of the first E requests touched it, and every sector they wrote reads as the last of them left it |
| Run.HoldsInLonger | vst/src/vram.c:459-488 | Holding the first E requests of a history is the same as holding the first E of any longer one |
| Run.RunOn | vst/src/vst.c:142-151 | Crashes recorded later never fall below the floor of an earlier flush |
| Run.FlushedButLost | ftl_optr/log.c:207-227 | The input on which flush durability fails, run on the firmware: format, any one write, flush, power cut. Recovery goes back to the empty disk, because no checkpoint was taken and the tag of format has epoch 0 - 1 |
| Tick.TickLost | ftl_optr/log.c:129-150 | A write after a tick that makes nothing safe, run on the firmware: format, one page written 750 times, a tick, and the page once more. Its dependency fills a log page, which clears the flag; the floor stays 0 |
| Tick.RepeatedLoop | ftl_optr/ftl.c:299-318 | Of writes of one page on a formatted device exactly the one after 750 others fills a log page with dependencies; none of them brings garbage collection or a checkpoint |
| PrefixTheorem.RecoveryYieldsPrefix | ftl_optr/recovery.c:50-76 | From every state of the invariant, whatever map and cut the recovery specification allows hold exactly the effect of the first cut requests |
| PrefixTheorem.RecoveredPage | ftl_optr/recovery.c:50-76 | The same page by page, for every cut that is not below the floor, that no dependency crosses and below which everything is complete: a page that is mapped as specified is right, whatever becomes of the others |
| PrefixTheorem.CutIsSound | ftl_optr/recovery.c:182-300 | The cut that the image determines is such a cut |
| PrefixTheorem.CutBounds | ftl_optr/recovery.c:182-300 | The cut is at most the number of requests received; it is not below the floor after a checkpoint, and 0 before the first |
| PrefixTheorem.FlushedSurvivesIff | vst/src/vst.c:142-151 | The cut that the image determines covers the floor if and only if a checkpoint was taken since format or the floor is 0 |
| PrefixTheorem.CutAboveFloor | ftl_optr/recovery.c:199-300 | Pulling back over dependencies never goes below a flushed request |
| PrefixTheorem.IncompleteBounds | ftl_optr/recovery.c:182-197 | The first incomplete epoch is between the floor and the number of requests received |
| PrefixTheorem.CompleteMeansPersistent | ftl_optr/recovery.c:182-197 | An epoch whose counted pages equal its span has no page left in the cache and no dependency left in the buffer |
| PrefixTheorem.SafeWritesComplete | ftl_optr/cache.c:197-210 | Every epoch between the commit and the floor is counted complete |
| PrefixTheorem.VersionOnFlash | ftl_optr/recovery.c:421-480 | Below the cut, the version that the last request to touch a page wrote is on flash in the chain, though it may have been overwritten in the cache later |
| PrefixTheorem.RecentPage | ftl_optr/recovery.c:302-339 | A page written since the commit is recovered as the last request below the cut left it |
| PrefixTheorem.OldPage | ftl_optr/recovery.c:302-339 | A page not written between commit and cut is recovered as it was at the commit, from the committed place or from the copy garbage collection made |
| PrefixTheorem.FormattedPage | ftl_optr/log.c:207-227 | Before the first checkpoint every page is recovered as never written |
| Recovery.Recovery.Recover | ftl_optr/recovery.c:50-76 | For every image the cut is the greatest uncrossed one not above the first write that is not taken for complete, by its counter or, without one, by the two words of the page map its counter lies over. What is in memory when pages are mapped is determined too: the sorted dependencies over the counters, over the epochs of some pages and, beyond the table, over the page map as counting left it; in FTL_BUF, what the walks through log and lanes read there. A page is mapped as the image determines if and only if a version of it is newer than the word found at its epoch or its map entry is right anyway, also if its word is in FTL_BUF behind those that data and summary pages are read over. A page whose word is among those is left as it was or mapped to one of its own versions below the cut, namely to the one that the walk, read by read, determines |
| Recovery.Recovery.FoundInLog | ftl_optr/recovery.c:320-339 | The word found in FTL_BUF, if the last walk through the log came to that bank: the word of the last log page there up to the tag |
| Recovery.Recovery.FoundFar | ftl_optr/recovery.c:320-339 | Behind the words that data and summary pages cover, the word found is that of the last log page read into the bank by any of the four walks, or 0 |
| Recovery.Recovery.NearRight | ftl_optr/recovery.c:428-459 | A page whose word is read over in the buffer of another bank is right if and only if a version below the cut is newer than the word left there, or it was right anyway. The word is that of an erased page if the other bank comes first, and the one found otherwise |
| Sights.OwnBuffer | ftl_optr/recovery.c:428-459 | A page whose word is read over in the buffer of its own bank is mapped to its last version below the cut that is newer than what its own flash page shows at that word, or left as it was if there is none |
| Sights.OtherBuffer | ftl_optr/recovery.c:428-459 | The same for the buffer of another bank: mapped to its newest version below the cut, if that is newer than the word left there |
| Sights.LaneEnd | ftl_optr/recovery.c:465-478 | The walk through a bank ends with the read of an erased summary page |
| Sights.TracedOn | ftl_optr/recovery.c:421-480 | What two stretches of a walk make of FTL_BUF and of the pages whose words are there, they make one after the other |
| Recovery.CutTakenUnique | ftl_optr/recovery.c:182-300 | The image determines the recovery point |
| Recovery.ReachedIff | ftl_optr/recovery.c:453-459 | The if and only if, page by page; for the words that are read over, that the page is left as it was or is at one of its own versions |
| Recovery.AllReached | ftl_optr/recovery.c:302-339 | A page that no counter lies over in the page map, and whose epoch shares no word or of which no version is below the cut, is always right if the list fits |
| Recovery.ListBeyondTable | ftl_optr/recovery.c:542-548 | If the list does not fit, its end is taken for the places of pages: a page there that was not written or copied since the commit is right if and only if it happens to be at that place |
| Recovery.CountBeyondTable | ftl_optr/recovery.c:528-540 | Counters beyond the table: a page behind the list that was not written or copied since the commit keeps its place if nothing was counted over it. Otherwise an even page is taken to be at the place whose number is a span, and is right if and only if it was there; an odd one is moved on by the count, and is never right |
| Spill.UncountedMapped | ftl_optr/recovery.c:444-452 | A page that nothing was counted over is mapped to the copy garbage collection made, or else as at the commit |
| Spill.CollectedAt | ftl_optr/recovery.c:528-540 | What counting makes of a place of the page map, or behind it, if its page was not copied: an even one holds the span, an odd one as much more as pages were counted |
| Spill.SeenIff | ftl_optr/recovery.c:182-197 | When a write without a counter is taken for complete, from the committed map: if nothing of it was found, exactly if both places held the same number, not 0; otherwise exactly if its span is what was found plus what the second place held |
| Spill.CompleteSeenIff | ftl_optr/recovery.c:182-197 | So a complete one is seen exactly if the second place held 0 |
| Recovery.Recovery.StoreEntry | ftl_optr/recovery.c:542-548 | An entry of the table; from RECOVERY_ENTRIES on, two entries of the page map, or two words behind it |
| Recovery.Recovery.StoreList | ftl_optr/recovery.c:510-526 | The list replaces the first counters, and what is beyond the table lies over the page map |
| Recovery.Recovery.Load | ftl_optr/recovery.c:341-350 | Reading a flash page puts its words into FTL_BUF of the bank and changes nothing else: no counter, and no epoch of a page outside |
| Recovery.Recovery.ReadBlock | ftl_optr/recovery.c:428-463 | The pages of one block are read and visited in order up to the first erased one, and what FTL_BUF holds then is what these reads and visits determine |
| Dram.EntryWritten | ftl_optr/ftl.h:87-104 | Writing an entry changes that entry only, and no word that only an epoch uses |
| Dram.ReadOverKeeps | ftl_optr/ftl.h:75-76 | What is read into FTL_BUF stays inside it, and the words there are those of the page |
| Recovery.Recovery.RestoreMapTable | ftl_optr/pgmap.c:151-192 | The map restored is the one with the greater commit epoch; the epoch counter is set to it |
| Recovery.Recovery.FindLastCommit | ftl_optr/recovery.c:84-122 | Reading the striped log to its end finds the last tag page, or reports that there is none; FTL_BUF holds the last log page read into each bank |
| Recovery.Recovery.SkipToCommit | ftl_optr/recovery.c:124-155 | Reading the log again up to the last tag, the mapping entries on the way give the committed page map; FTL_BUF holds the last of these pages of each bank |
| Recovery.Recovery.PassLogPage | ftl_optr/recovery.c:341-401 | A log page is recognised by its magic number; only the tag of the committed epoch ends the walk |
| Recovery.Recovery.ProcessMapEnts | ftl_optr/recovery.c:403-419 | The entries of a page are replayed onto the map in order |
| Recovery.Recovery.AddRecoveryEnt | ftl_optr/recovery.c:528-540 | One more page of the epoch is counted, its span noted and the greatest epoch kept; no other counter and nothing of the page map changes. An epoch beyond the table instead overwrites two places of the page map with its span and with one more than what was there |
| Recovery.Recovery.Count | ftl_optr/recovery.c:444-452 | Visiting a page in mode 0 counts it, or maps it if garbage collection copied it |
| Recovery.Recovery.Remap | ftl_optr/recovery.c:453-459 | Visiting a page in mode 1 keeps, for every logical page that no data is read over, the newest version below the cut that is newer than the word found at its epoch. For the others it maps the page to this version exactly if that is below the cut and newer than the word there now |
| Recovery.Recovery.RetrievePageEntries | ftl_optr/recovery.c:421-480 | Following the links from the committed active page visits each page programmed since, once, in program order, and ends; every read and every visit on the way is accounted for in FTL_BUF |
| Recovery.Recovery.RetrieveRegion0 | ftl_optr/recovery.c:332-335 | The walk through region 0, which is always erased, reads two pages into FTL_BUF of the bank and visits none |
| Recovery.Recovery.ProcessDepents | ftl_optr/recovery.c:482-508 | Each dependency counts as one page of its source epoch |
| Recovery.Recovery.ReadDepPages | ftl_optr/recovery.c:163-179 | The dependency pages after the last tag are read in the order written, up to the first other page |
| Recovery.Recovery.CollectRecoveryEntries | ftl_optr/recovery.c:124-180 | After it, the counter of every epoch that has one is the pages on flash plus the logged dependencies, the greatest epoch found is known, and the page map is the committed one with the copies and the counters beyond the table written over it in the order of the walk. FTL_BUF holds what the log up to the tag, the lanes and the log after the tag left there |
| Recovery.Recovery.FindFirstIncompleteWrite | ftl_optr/recovery.c:182-197 | The result is the first epoch after the commit that is not seen: one with a counter is seen exactly if it is complete, one without exactly if some page of it or of a later one was found and the two words its counter lies over are equal and not 0. From a formatted device it wraps to 0 |
| Recovery.Recovery.PullEpochIncomplete | ftl_optr/recovery.c:199-300 | The greatest epoch not above the one found that no logged dependency crosses; the sorted list stays in the place of the counters |
| Recovery.Recovery.RemapPageEntries | ftl_optr/recovery.c:302-339 | Every logical page that no data is read over is mapped to its newest version below the cut among those newer than the word found at its epoch, or left as it was; the others are mapped as the walk, read by read, determines |
| DependencyCut.InsertionSort | ftl_optr/recovery.c:248-276 | The list is sorted by source in place, and is a permutation |
| DependencyCut.DescendingPass | ftl_optr/recovery.c:291-299 | On a sorted list one descending pass finds the greatest cut not above the limit that no dependency crosses |
| DependencyCut.PullBack | ftl_optr/recovery.c:248-299 | Sorting and one pass find that cut for a list in any order |
| DependencyCut.CutOfPermutation | ftl_optr/recovery.c:248-276 | The cut does not depend on the order of the list |
| DependencyCut.GreatestCutUnique | ftl_optr/recovery.c:291-299 | There is only one such cut |
| DependencyCut.CutAboveCommit | ftl_optr/recovery.c:499-504 | The cut stays above the committed epoch |
| HostSteps.BeginInv | ftl_optr/ftl.c:196-217 | Receiving a request keeps the order invariant |
| HostSteps.EnqueueInv | ftl_optr/cache.c:58-99 | Caching a page, with the dependency of a dirty page it overwrites, keeps the order invariant |
| HostSteps.EnqueueAccounting | ftl_optr/ftl.c:299-313 | Epoch accounting: pages on flash + logged and buffered dependencies + dirty buffers = pages enqueued, for every epoch since the commit |
| HostSteps.EvictInv | ftl_optr/cache.c:238-254 | Reusing a clean buffer keeps the order invariant |
| HostSteps.LogDepsInv | ftl_optr/log.c:129-150 | Moving the buffered dependencies to the log keeps the order invariant |
| HostSteps.FinishInv | ftl_optr/ftl.c:345-345 | Giving the request its epoch keeps the order invariant |
| HostSteps.RaiseFloorInv | ftl_optr/ftl.c:374-380 | After a flush every request received is below the floor, and the order invariant holds |
| HostSteps.CommitInv | ftl_optr/log.c:92-127 | Taking the current page map as committed keeps the order invariant when the device is flushed |
| FlashSteps.WriteBackInv | ftl_optr/cache.c:101-182 | Programming a dirty page keeps the order invariant |
| FlashSteps.WriteBackAccounted | ftl_optr/cache.c:158-174 | The page moves from the dirty buffers to flash in the accounting of its epoch |
| FlashSteps.CopyBackInv | ftl_optr/blkmgr.c:251-279 | Moving a page that is as it was at the commit keeps the order invariant |
| FlashSteps.LinkInv | ftl_optr/pgmap.c:90-112 | Programming a summary page keeps the order invariant |
| FlashSteps.EraseInv | ftl_optr/blkmgr.c:312-321 | Erasing a disposable block keeps the order invariant: every recoverable mapping still points at an intact page |
| FlashSteps.CollectedBlockDisposable | ftl_optr/ftl.c:320-344 | After a flush, whatever the commit mapped into an emptied old block was copied since or is superseded by a request every later crash recovers |
| Nand.Nand.ProgramPage | vst/src/vflash.c:56-84 | Atomic; needs an erased page whose predecessor is programmed, and a recoverable device afterwards; records the crash image |
| Nand.Nand.CopyBackPage | vst/src/vflash.c:86-114 | Atomic; the target must be erased; content is copied and the spare bytes replaced |
| Nand.Nand.EraseBlock | vst/src/vflash.c:116-133 | Atomic; removes exactly the pages of the block |
| Nand.Nand.ProgramLog | vst/src/vflash.c:56-84 | Atomic; the log page must be erased and its predecessor programmed |
| Nand.Nand.EraseLogBlock | vst/src/vflash.c:116-133 | Atomic; removes exactly the pages of the log block |
| Nand.Nand.ProgramChunk | ftl_optr/pgmap.c:194-222 | A page of the full map goes to an erased page of the slot, after the one before it in its block |
| Nand.Nand.ProgramMapCommit | ftl_optr/pgmap.c:238-245 | The commit page of the map goes to an erased page, after the last page of the map in bank 0 |
| Nand.Nand.EraseMapBlock | ftl_optr/blkmgr.c:86-90 | Erases the pages of the map that are in the bank, and the commit page with bank 0 |
| Nand.Nand.PowerCut | vst/src/vflash.c:79-83 | A power cut when no operation is under way leaves the same content, with the firmware as it is by then |
| LogSpace.LogAddrStriped | ftl_optr/pgmap.c:127-142 | The k-th log page is in bank k mod NUM_BANKS, and each bank fills its blocks in order, skipping their last page |
| LogSpace.LogAddrInjective | ftl_optr/pgmap.c:127-142 | No two log pages share an address |
| LogSpace.RoomInBank | ftl_optr/blkmgr.c:129-143 | Below the log capacity, no bank runs out of log blocks |
| Service.LogHasRoom | ftl_optr/log.c:58-63 | While a request is served, the log has room for the page of its dependencies |
| LogSpace.LogSpace.RoomLeft | ftl_optr/blkmgr.c:323-328 | While three log blocks are left, the log is below its safe length |
| LogSpace.LogSpace.FarFromThreshold | ftl_optr/log.c:115-126 | A log within its first blocks does not reach the reclaim threshold |
| LogSpace.LogSpace.CountLeft | ftl_optr/blkmgr.c:129-143 | The counter of free log blocks is a function of the number of log pages |
| LogSpace.LogSpace.GetLogBlk | ftl_optr/blkmgr.c:129-143 | Hands out the next log block of the bank and counts it |
| LogSpace.LogSpace.GetLogPpn | ftl_optr/pgmap.c:127-142 | Hands out the next log page of the bank, at its place in the bank |
| LogSpace.LogSpace.Next | ftl_optr/log.c:189-204 | The k-th page handed out round robin is the k-th of the striped log |
| LogSpace.LogSpace.Revert | ftl_optr/pgmap.c:144-149 | Every bank starts over: pages are handed out again from the first on |
| Chains.WalksAppend | ftl_optr/cache.c:171-175 | Programming the next page appends it to what a walk of the chain reads |
| Chains.WalksLink | ftl_optr/pgmap.c:100-112 | A summary page leads the walk into the next block |
| Chains.WalksLocs | ftl_optr/recovery.c:421-480 | Every page a walk visits is in a block of the chain, and on flash as visited |
| Chains.WalksFrame | ftl_optr/recovery.c:421-480 | A walk depends on the blocks of the chain only |
| Journals.ReplayIdempotent | ftl_optr/recovery.c:403-419 | Replaying the old log over the newer full map it led to changes nothing |
| Journals.LogAppend | ftl_optr/pgmap.c:127-142 | The next log address is erased, and programming it extends the log by exactly that page |
| Journals.NextReady | vst/src/vflash.c:68-70 | The page before the next log page in its block is programmed |
| Journals.AddDepsDescribes | ftl_optr/log.c:229-243 | A dependency page adds its dependencies to what recovery reads, and nothing else |
| Journals.AddMapEntsDescribes | ftl_optr/log.c:189-204 | Mapping entry pages mean nothing to recovery until a tag follows |
| Journals.AddTagDescribes | ftl_optr/log.c:207-227 | A tag page commits the map that the log up to it replays to |
| Journals.NewBaseDescribes | ftl_optr/pgmap.c:194-222 | A newer full map under the same log describes the same state |
| Journals.PartialMapIgnored | ftl_optr/pgmap.c:224-236 | A full map without its commit page is ignored |
| Journals.NewMapChosen | ftl_optr/pgmap.c:151-174 | With its commit page the new map is chosen, also while the old slot is being erased |
| DeviceSteps.LinkStepValid | ftl_optr/pgmap.c:90-112 | Closing a block leaves a consistent device that may crash |
| DeviceSteps.WriteBackStepValid | ftl_optr/cache.c:101-182 | Writing a page back leaves a consistent device that may crash |
| DeviceSteps.CopyStepValid | ftl_optr/blkmgr.c:251-279 | Copying a valid page leaves a consistent device that may crash |
| DeviceSteps.EraseStepValid | ftl_optr/blkmgr.c:312-321 | Erasing a pending victim leaves a consistent device that may crash |
| DeviceSteps.SwapStepValid | ftl_optr/blkmgr.c:586-593 | Moving the victim to the tail of the ring changes nothing that matters |
| DeviceSteps.RetireStepValid | ftl_optr/blkmgr.c:297-307 | The emptied victim joins the free blocks, to be erased at any later time |
| LogSteps.LogDepsStepValid | ftl_optr/log.c:129-150 | Logging dependencies leaves a consistent device that may crash |
| LogSteps.LogMapEntsStepOK | ftl_optr/log.c:67-90 | After each mapping entry page the device recovers to the old commit |
| LogSteps.TagStepValid | ftl_optr/log.c:92-127 | After the tag page the device recovers to the new commit |
| LogSteps.PartialMapSafe | ftl_optr/pgmap.c:194-222 | While the new map is being written, the old one and the log are what recovery uses |
| LogSteps.NewMapSafe | ftl_optr/pgmap.c:194-222 | From the commit page of the new map on, recovery gives the same state from the new map |
| LogSteps.ErasingLogSafe | ftl_optr/blkmgr.c:646-660 | From the erasure of the first log block on, recovery gives the same state from the map alone |
| LogSteps.FreshTagValid | ftl_optr/log.c:115-126 | The first tag of the emptied log leaves a consistent device |
| Checkpoints.ErasedAll | ftl_optr/blkmgr.c:646-660 | Erasing every log block empties the log |
| Checkpoints.TagOnly | ftl_optr/log.c:92-127 | What the tag page changes: the commit, the lanes, the blocks that may be collected and nothing else |
| Banks.FillBank | ftl_optr/cache.c:101-182 | Programming the next page keeps the bank: closed blocks full and named by their summaries, free blocks erased |
| Banks.LinkBank | ftl_optr/pgmap.c:90-112 | The block opened next is erased, and not the pending victim |
| Banks.EraseBank | ftl_optr/blkmgr.c:312-321 | An erased victim leaves the bank as it was |
| Banks.RetireBank | ftl_optr/blkmgr.c:297-307 | The victim becomes the last free block |
| Banks.PushBank | ftl_optr/blkmgr.c:169-178 | At a commit all blocks but the active one may be collected |
| Room.HasVictim | ftl_optr/blkmgr.c:537-555 | tail never equals rsv when garbage collection runs: a bank short of free blocks has blocks closed before the commit |
| Room.RetiredSized | ftl_optr/blkmgr.c:297-307 | Collecting a block gives a bank the pages of a block, but for the summary page |
| Format.FormattedValid | ftl_optr/ftl.c:501-511 | The formatted device is consistent and recoverable |
| Ring.GetVictim | ftl_optr/blkmgr.c:537-596 | The victim is the first block of [tail, rsv) with the fewest valid pages, is swapped to the tail, and the ring stays a permutation |
| Ring.OpenedArcs | ftl_optr/blkmgr.c:117-127 | Opening a block moves the first free block to the end of the chain, also if it is the last free one |
| Ring.PushedArcs | ftl_optr/blkmgr.c:169-178 | push_rsv moves all of the chain but the active block to the used ones |
| Ring.RetiredArcs | ftl_optr/blkmgr.c:297-307 | Advancing the tail moves the first used block to the end of the free ones |
| Ring.SwappedArcs | ftl_optr/blkmgr.c:586-593 | The swap permutes the used blocks only |
| Ring.ArcsDistinct | ftl_optr/blkmgr.c:28-35 | Used, chained and free blocks are pairwise disjoint |
| Ring.ArcsPermute | ftl_optr/blkmgr.c:28-35 | Together they are exactly the blocks of the ring |
| Ring.HeadPlusFree | ftl_optr/blkmgr.c:28-35 | (head + free) mod size = tail |
| BlkMgr.BlkMgr.constructor | ftl_optr/blkmgr.c:468-533 | Each bank starts with all its blocks free but the first |
| BlkMgr.BlkMgr.GetAndIncActiveBlk | ftl_optr/blkmgr.c:117-127 | Returns the first free block and changes no other bank |
| BlkMgr.BlkMgr.PushRsv | ftl_optr/blkmgr.c:169-178 | Every ring is pushed |
| BlkMgr.BlkMgr.IncVcount | ftl_optr/blkmgr.c:180-185 | Raises the count of the block, within its asserted bound |
| BlkMgr.BlkMgr.DecVcount | ftl_optr/blkmgr.c:187-192 | Lowers the count of the block, which is not 0 |
| BlkMgr.BlkMgr.ReachBatchGcThreshold | ftl_optr/blkmgr.c:194-208 | True exactly if the banks together are short of more blocks than the batch threshold; then some bank is short, and otherwise none of more than that |
| BlkMgr.BlkMgr.GetVictimBlk | ftl_optr/blkmgr.c:537-596 | The first block of minimal valid count among those that may be collected |
| BlkMgr.BlkMgr.RetireVictim | ftl_optr/blkmgr.c:289-307 | Count 0, pending, and last of the free blocks |
| ValidCounts.DownOne | ftl_optr/cache.c:125-135 | Giving up the old copy lowers the count of the block it is in, which is positive |
| ValidCounts.UpOne | ftl_optr/cache.c:148-155 | Mapping the new copy makes all counts exact again |
| ValidCounts.MoveExact | ftl_optr/blkmgr.c:255-265 | Moving a valid page keeps all counts but the victim's exact, and leaves one page less in the victim |
| ValidCounts.ClearExact | ftl_optr/blkmgr.c:299-300 | Clearing the emptied victim's count makes all counts exact |
| ValidCounts.CountAtMost | ftl_optr/blkmgr.c:180-185 | A block has no more valid pages than programmed ones |
| ValidCounts.CountsAddUp | ftl_optr/blkmgr.c:180-192 | The counts of the blocks of a bank sum to the pages mapped into them |
| WriteCache.WriteCache.constructor | ftl_optr/cache.c:34-47 | An empty cache: nothing dirty, recency order the identity |
| WriteCache.WriteCache.ExistInCache | ftl_optr/cache.c:212-218 | Finds the buffer of the page if and only if the page is cached |
| WriteCache.WriteCache.OldestDirty | ftl_optr/cache.c:109-123 | The least recently used dirty buffer; none if and only if the dirty count is 0 |
| WriteCache.WriteCache.OldestWith | ftl_optr/cache.c:248-253 | The last buffer in recency order with the given dirty flag |
| WriteCache.WriteCache.MarkClean | ftl_optr/cache.c:158-161 | One buffer becomes clean, the dirty count goes down, all else stays |
| WriteCache.WriteCache.Enqueue | ftl_optr/cache.c:58-99 | The sectors of the request are laid over the buffer, which becomes dirty and most recent; counts, other buffers and their order are kept |
| WriteCache.WriteCache.MoveToFront | ftl_optr/cache.c:85-91 | The buffer moves to the front and the others keep their order |
| WriteCache.ToFrontPermutes | ftl_optr/cache.c:85-91 | lru_list stays a permutation |
| WriteCache.DirtyCountBounds | ftl_optr/cache.c:49-56 | The dirty count is 0 exactly if no buffer is dirty, and full exactly if all are |
| WriteCache.ReplaceBank | ftl_optr/cache.c:58-81 | Cached pages stay distinct and in their banks when a buffer takes another page |
| Requests.NextCursor | ftl_optr/ftl.c:222-318 | The page after a part starts where the part ended; the last part is on the last page of the command |
| Requests.PartCovered | ftl_optr/ftl.c:227-230 | The part is exactly what the request covers of the page |
| Requests.EnqueuedContent | ftl_optr/ftl.c:312-313 | A buffer that is right outside the part, with the part laid over it, is the page after the request |
| Requests.AgreesAcross | vst/src/vram.c:459-488 | Requests that do not touch a page leave its content |
| Requests.SpanBound | ftl_optr/ftl.c:211-212 | No request spans more than 4098 pages, so the 16-bit span does not overflow |
| Service.PreReadRight | ftl_optr/ftl.c:250-290 | Left, right, centre and full writes: what is read around the part is right outside it |
| Service.OldContent | ftl_optr/ftl.c:246-313 | Before a request reaches a page, the cache or the mapped flash page holds its newest version |
| Service.EnqueueOnly | ftl_optr/cache.c:58-99 | What caching the next page changes: the entry, the count of pages enqueued and, over a dirty page, one dependency with that page's epoch and span |
| Service.ServingNext | ftl_optr/ftl.c:299-313 | Room for pages, mapping entries and log pages shrinks by no more than one page each turn |
| Service.CurrentContent | ftl_optr/ftl.c:149-187 | Between requests the cache or the mapped page holds the current content; a page has neither exactly if no request touched it |
| Service.ServedByGc | ftl_optr/ftl.c:320-344 | After a flush and garbage collection the room for the next request is back |
| Service.FinishingIs | ftl_optr/ftl.c:320-362 | The end of a write: everything is flushed exactly if the banks were short of more blocks than the batch threshold, a checkpoint was due or the flag of the timer was set, all as at the end of its loop; otherwise only the epoch goes on |
| Service.LoggingTrans | ftl_optr/log.c:129-150 | In the loop of a write only dependencies that fill a page are logged, nothing is made safe, and the flag of the timer is cleared exactly if some were |
| WriteCache.HalfKeptTurn | ftl_optr/cache.c:49-56 | A turn of the pool never lowers the dirty buffers of a bank below half of them |
| Collection.CopyOnly | ftl_optr/blkmgr.c:251-279 | What copying a page changes, and that the copy does not go into the victim |
| Collection.ValidPage | ftl_optr/blkmgr.c:251-256 | The comparison of the summary entry with the page map finds exactly the valid pages, though the page number does not name the bank |
| Collection.VictimThere | ftl_optr/blkmgr.c:237-239 | Garbage collection runs only after a commit, and has a block to collect |
| Collection.FreeNotLowered | ftl_optr/blkmgr.c:297-307 | A bank with more writable pages has no fewer free blocks |
| Collection.DeficitDown | ftl_optr/ftl.c:323-343 | Each collected block brings the loop of garbage collection closer to its end |
| Ftl.Ftl.constructor | ftl_optr/ftl.c:501-511 | A formatted device, consistent, with no request received and one crash image: that of its first tag |
| Ftl.Ftl.Write | ftl_optr/ftl.c:196-362 | The request is appended to the history and its pages are cached. Everything is flushed afterwards exactly if garbage collection or a checkpoint was due or the flag of the timer was set when the loop ended; otherwise nothing but the epoch changes, and no bank has been written back below half of its buffers. The flag is clear then: if it was set and no dependencies filled a log page in the loop, everything received is safe. The device is ready for the next request, unless the banks were short beyond the batch threshold and an assertion in garbage collection stopped it, which needs a full mapping buffer or a short bank whose blocks are full of valid pages. Every crash on the way is recoverable. The first request is never stopped and takes no checkpoint |
| Ftl.Ftl.LoadRequest | ftl_optr/ftl.c:196-318 | The loop of a write: what becomes of the flag of the timer, that only full dependency pages are logged, and, for one page on a device with nothing to do, exactly what changes |
| Ftl.Ftl.Read | ftl_optr/ftl.c:122-193 | Every sector some request wrote reads as the last of them wrote it; pages no request touched read as all ones |
| Ftl.Ftl.ReadPage | ftl_optr/ftl.c:131-187 | The same for the part on one page, from the cache, from flash, or all ones |
| Ftl.Ftl.Flush | ftl_optr/ftl.c:364-372 | When it returns, the floor is the number of requests received, no dependency is buffered and the flag of the timer is clear; and no record on the way has an unlogged dependency |
| Ftl.Ftl.Idle | sata/sata_main.c:113-116 | One turn of the pool: if more than half of the bank's buffers are dirty, its least recently used dirty page is written back; otherwise its pending victim is erased. The history stays |
| Ftl.Ftl.ScheduleFlushDepent | ftl_optr/log.c:157-160 | The timer only sets its flag |
| Ftl.Ftl.PowerCut | vst/src/vflash.c:79-83 | Between two commands the flash content is an image of the present state |
| Ftl.Ftl.PrefixFlush | ftl_optr/ftl.c:374-380 | Dependencies are logged before pages are written back: every record on the way has an empty buffer of dependencies. At the end no buffer is dirty and every request received is below the floor |
| Ftl.Ftl.ServeRequest | ftl_optr/ftl.c:214-318 | The loop puts each page of the request into the cache once, and ends with all of them |
| Ftl.Ftl.ServePage | ftl_optr/ftl.c:222-318 | One turn of it: a turn of the pool, then the page goes into the cache; dependencies are logged exactly when they fill a page |
| Ftl.Ftl.LoadPage | ftl_optr/ftl.c:246-313 | The page is put into its own buffer, or into one that was fetched for it |
| Ftl.Ftl.FetchPage | ftl_optr/ftl.c:246-297 | The least recently used clean buffer, with a page right outside the part |
| Ftl.Ftl.PreRead | ftl_optr/ftl.c:252-290 | For each kind of partial write, the buffer is right outside the part that the request brings |
| Ftl.Ftl.EnqueuePage | ftl_optr/ftl.c:299-313 | The page is dirty and most recently used. Over a dirty page one dependency, with that page's epoch and span, is recorded first; when they fill a page they are logged, which clears the flag of the timer |
| Ftl.Ftl.CollectIfNeeded | ftl_optr/ftl.c:320-344 | Garbage collection runs exactly if the batch threshold is reached, after a flush, until no bank is short; before the first checkpoint it does not. Below the threshold nothing changes. It fails only above, with a full mapping buffer or a short bank that has nothing to gain |
| Ftl.Ftl.CollectBanks | ftl_optr/ftl.c:323-343 | Ends, with no bank short of free blocks, or stopped by an assertion |
| Ftl.Ftl.CollectRound | ftl_optr/ftl.c:325-334 | Every bank that is short collects exactly one block, and no other bank changes |
| Ftl.Ftl.AllCollected | ftl_optr/ftl.c:335-342 | True exactly if no bank is short |
| Ftl.Ftl.FinishRequest | ftl_optr/ftl.c:345-353 | The request gets its epoch, and a checkpoint is taken exactly at the threshold |
| Ftl.Ftl.Checkpoint | ftl_optr/ftl.c:347-353 | Flush, mapping entries and tag: everything received is committed and the log is off its threshold |
| Ftl.Ftl.Dequeue | ftl_optr/cache.c:101-182 | The least recently used dirty page is written back, or there is none; room and requests are kept |
| Ftl.Ftl.WriteBackPage | ftl_optr/cache.c:109-174 | One dirty page becomes clean, is on flash and mapped there; counts stay exact |
| Ftl.Ftl.UncountOldPage | ftl_optr/cache.c:125-145 | The old copy is no longer counted |
| Ftl.Ftl.MapNewPage | ftl_optr/cache.c:148-155 | The page is mapped to its new place, counted there and logged in the buffer, within the asserted bounds |
| Ftl.Ftl.PoolWriteBuf | ftl_optr/cache.c:49-56 | One bank, in turn, writes its least recently used dirty page back if more than half of its buffers are dirty, or erases its pending victim |
| Ftl.Ftl.GetCleanCacheBuf | ftl_optr/cache.c:238-254 | Ends, and returns the least recently used clean buffer; only turns of the pool are taken, so no bank goes below half of its buffers |
| Ftl.Ftl.FlushWriteBuf | ftl_optr/cache.c:197-210 | Ends with no dirty buffer in any bank |
| Ftl.Ftl.EraseVtBlk | ftl_optr/blkmgr.c:312-321 | The pending victim, if any, is erased, and nothing else happens |
| Ftl.Ftl.GetAndIncActivePpn | ftl_optr/pgmap.c:82-119 | The next page of the bank, erased; a full block is closed and linked first |
| Ftl.Ftl.OpenNextBlk | ftl_optr/pgmap.c:90-112 | The summary page holds the list of the block's pages and the link to the block opened |
| Ftl.Ftl.GarbageCollection | ftl_optr/blkmgr.c:216-310 | One used block of the bank is pending now, the bank gains writable pages and loses no free block; valid counts stay exact, so n_valid = vcount; or an assertion stopped it |
| Ftl.Ftl.ChooseVictim | ftl_optr/blkmgr.c:237-249 | The first minimal block closed before the commit, and its summary page |
| Ftl.Ftl.MoveValidPages | ftl_optr/blkmgr.c:251-285 | Exactly the valid pages are moved, and none is left in the victim |
| Ftl.Ftl.MovePage | ftl_optr/blkmgr.c:251-285 | One page, if it is valid |
| Ftl.Ftl.RetireCollected | ftl_optr/blkmgr.c:297-307 | The victim is free and pending; counts are exact |
| Ftl.Ftl.RecordDepent | ftl_optr/log.c:129-150 | The buffered dependencies are on flash, in one log page; nothing if there are none. The flag of the timer is clear |
| Ftl.Ftl.RecordMapent | ftl_optr/log.c:67-90 | All buffered entries are logged, full pages first |
| Ftl.Ftl.RecordTag | ftl_optr/log.c:92-127 | Everything is committed and the log is off its threshold. With three log blocks left after the tag, only the tag is added, in one flash operation; with fewer, the full map is written, the log emptied, and it calls itself once |
| Ftl.Ftl.PersistTag | ftl_optr/log.c:207-227 | The tag holds the epoch before the current one, as a 32-bit number, and the active pages |
| Ftl.Ftl.PersistMapTable | ftl_optr/pgmap.c:194-222 | The whole map and its commit page are in the erased slot, and the other slot is erased |
| Ftl.Ftl.PersistChunks | ftl_optr/pgmap.c:194-216 | Every page of the map is written |
| Ftl.Ftl.EraseOldMap | ftl_optr/blkmgr.c:86-90 | The old slot is erased, bank by bank, and recovery gives the same state throughout |
| Ftl.Ftl.EraseAllLogBlks | ftl_optr/blkmgr.c:646-660 | The log is empty, and recovery gives the same state throughout |
| Ftl.Ftl.ReclaimLog | ftl_optr/blkmgr.c:330-336 | The log is empty and reverted; the committed state is the same |
| StallFlags.Cache.PoolWriteBuf | ftl_optr/cache.c:49-56 | It is the turn of the bank it finds, and the bank after it is next. Returns with the stall flags it found; no page of a stalled bank was programmed; a pending victim is kept, or it was erased right after its bank answered idle. With at most half of the buffers dirty it erases the victim of an idle bank, stalled or not |
| StallFlags.Cache.EraseVtBlk | ftl_optr/blkmgr.c:312-321 | The victim is erased exactly if the bank answers idle; the stall flag does not matter |
| StallFlags.StalledVictimErased | ftl_optr/cache.c:49-56 | The input on which a nested call erases a block of a stalled bank: the bank is busy when its call waits, and idle when the pool comes to it |
| StallFlags.SparedTrans | ftl_optr/cache.c:101-182 | What nested calls leave alone one after the other they leave alone together |
| StallFlags.Cache.Dequeue | ftl_optr/cache.c:101-182 | With any bank busy at any time: it takes exactly one page of its bank or none. It takes one exactly if the bank is not stalled, answers idle and has something dirty; no page of a stalled bank is programmed by anything that runs meanwhile, and victims are kept or erased right after their bank answered idle |
| StallFlags.Cache.GetAndIncActivePpn | ftl_optr/pgmap.c:82-119 | The active page read before the wait is still the active page after it; a full block is closed right after its bank answered idle |
| StallFlags.Cache.WaitBankFree | ftl_optr/board.c:227-231 | Ends with an idle answer of the bank, the only one; every busy answer before it was followed by one turn of the pool, so the pool has moved on by as many banks, counting those of nested waits. The nested calls program no page of a stalled bank and change no stall flag; victims are kept or erased right after their bank answered idle |
| StallFlags.PolledNext | ftl_optr/board.c:227-231 | A busy answer and a turn of the pool after it make one poll more |
| StallFlags.Cache.StallAndWait | ftl_optr/pgmap.c:104-110 | Only the call that set a stall flag clears it; each bank is stalled by at most one call, so calls nest no deeper than there are banks. The bank was idle when it returns |

## Left out

- Crashes during format, before the first tag page is programmed: with the format mark written but no tag, recovery would report one request that was never received.
- Running on after recovery: the source does not support it (`ftl_optr/ftl.c:46`), and neither log nor ring counters are rebuilt. In recovery the counter of free log blocks is lowered again by every `revert_log_ppn`; it is not read there, and is an integer here.
- Asynchronous flash commands, DMA, the waiting room and bank status: in `Ftl` every flash operation is atomic and every bank idle, as in the simulator's build. Bank status is arbitrary in `StallFlags` only.
- StallFlags.Cache.Dequeue: page contents, the map and the log are not part of that module; it models the stall flags, the pool, the active pages and the pending victims.
- Run.RecoverFrom: if RECOVERY_ENTRIES requests or more follow a checkpoint, pages that something was counted over are not part of its promise; where they were also written or copied since, what the map holds is what `Spill.Collected` computes, and `Recovery.Recovery.Recover` says when that is right. No bound on RECOVERY_ENTRIES is given under which `CountersFit` and `ListFits` hold in every run: a crash does not record how many dependencies a log page holds.
- Sights.OwnBuffer: words of FTL_BUF that summary pages are read over and data pages are not, in the buffer of the page's own bank, have no closed form of their own; `Recovery.Recovery.Recover` gives them by the sequence of reads. The same holds for words that data pages alone are read over, in the buffer of a bank that comes before, if summary pages are read in part only.
- DRAM is all zero when recovery begins, as the simulator leaves it (`vst/src/vram.c:345`); `init_recovery` clears the epochs once more. Counters do not wrap at 2^32. This includes the words behind the page map, where counters come to lie after RECOVERY_ENTRIES + NUM_LPAGES / 2 requests; the tables that the source keeps there are not part of this model.
- The tagging of DRAM pages in the simulator, which makes a 4-byte read of host data return nothing: memory holds what was read into it.
- Ftl.Ftl.Write: the write data is an argument; the SATA write buffers and their ring pointers are not modelled.
- Ftl.Ftl.Read: of a sector that no request wrote, on a page that some request touched, nothing is promised, because the source does not clear the buffer of a new page.
- Region 0 of the rings: `dequeue` and garbage collection only use region 1. Its active block stays erased, which is what recovery reads there.
- Trim (`ftl_trim`, `pgmap_trim`): disabled, and it does not maintain the valid counts or the log.
- `ftl_close`, `ftl_standby` and the warm-up `ftl_idle`.
- Bad blocks, the format mark, timers other than the flush request they schedule, interrupts, UART and statistics (`ftl_optr/stat.c`, block times).
- The value 0 for an unmapped page: a page that is not in the map here. Physical page numbers are a bank, a block and a page.
- A full map with commit epoch 0 is ignored by the restore code; the log cannot need reclaiming before the second request, so none is written.
- The check for a sorted dependency list in `ftl_optr/recovery.c:277-288` only stops the firmware; sorting is proved.
- Firmware that an assertion has stopped: its crashes so far are covered, nothing follows them.
