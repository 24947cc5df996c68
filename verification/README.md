# Free-set prototypes, the fan-in burst and the size sweep, verified

Three parts of the allocator's benchmark suite, modelled in Dafny and proved for all inputs.

**The five free-set structures** (`benches/ph3c_leaf_proto.rs`). One interface, five implementations:
intrusive lists in the block bodies, lists in a side table, B (64 leaves with counters and hints), B2 (a
three-level bitmap index) and B3 (1024 sub-leaves, a 16-word mask and a lazy cursor per class, word-at-a-time
batch operations). Each has a value model with its invariant, a class that updates the same data in
place and is proved equal to the value model step for step, laws about single operations, and a theorem that
every legal script is a run of one abstract machine: a free set per class. B2 and B3 run in lockstep, the two
list models are bisimilar, and all five issue the same slots.

**The fan-in burst** (`benches/heap_fanin_persistent.rs`, `run_cell`). A coordinator, an optional owner thread
and the producers step in any interleaving through a channel, two counting barriers, a stop flag and the slot
registry. The invariant of all steps gives the safety laws; a measure of work gives bounded runs, reachability
of the end and the unfairness of every infinite run.

**The size sweep** (`benches/medium_size_sweep.rs`). The generator, the in-place shuffle and one same-thread
cell against an allocator that answers as it likes.

## How it is organised

| files | content |
|---|---|
| `Words`, `Bitmaps`, `FreeSets` | 64-bit words as bounded naturals, slots of word sequences, smallest elements |
| `Scripts` | operations, scripts and runs over abstract free sets |
| `SubleafTable`, `SubleafLaws`, `SubleafRuns`, `SubleafDrain`, `SubleafCursor`, `LeafTable3` | B3: values, laws, runs, drains past stale links, cost of the cursor, in-place class |
| `FastTable`, `FastLaws`, `FastRuns`, `LeafTableFast` | B2 |
| `CountedTable`, `CountedLaws`, `CountedRuns`, `CountedOrder`, `LeafTable` | B; its rotating hints and their order of issue |
| `ListTable`, `ListLaws`, `ListRuns`, `NextTable` | the list in a side table |
| `IntrusiveTable`, `Intrusive` | the list in the block bodies |
| `Lockstep`, `Identity`, `FreshIdentity` | agreement between the models |
| `ClassTable`, `Tail`, `ProductionLayout` | the class table, the carve layout and the fragmentation tail |
| `Chunks`, `HeapSlots`, `FanIn`, `FanInInvariant`, `FanInMemory`, `FanInSteps`, `FanInLaws`, `FanInProgress`, `FanInOwner`, `FanInFairness` | the fan-in burst |
| `Xorshift`, `Shuffle`, `SweepCell` | the size sweep |

`dafny verify dfyconfig.toml` checks everything.

A script is legal for a leaf model when each retire goes into a leaf (B, B2) or sub-leaf (B3) that is empty or
bound to the same class, and for B and the list models when the slot is not already free. Two of these are
exactly what the code's own bookkeeping needs: the class fit in B3 (`SubleafLaws.RetireKeepsInvariantIff`), and
the slot not being free in B and the lists (`CountedLaws.RetireKeepsInvariantIff`, `RetireKeepsListsIff`). B and B2
survive a retire for the wrong class; it is the class that receives the slot that then differs from the one
asked for, and the class fit is exact for that (`RetireEffect` of both). Merges and primings are legal under
the conditions that `MergeKeepsInvariantIff` and `PrimeKeepsInvariantIff` show to be exact, for B the case of an
empty leaf. Two scripts match when their calls ask for as much, and hand back the same slots in whatever order
and shape.

## Where the code and its comments differ

- `pop` and `drain_into` of B3 guard against a linked sub-leaf that a drain emptied at a word boundary
  (`benches/ph3c_leaf_proto.rs:844-849`, 873-877). No sequence of retires, pops, drains, flushes, primings and
  non-empty merges reaches that case (`SubleafRuns.NextRefines` with `SubleafLaws.NoStaleLink`). A merge of an
  empty region into an empty sub-leaf does, and `SubleafLaws.EmptyMergePopsNoneIff` says exactly when `pop` then
  answers `None`; `EmptyMergeLosesAPop` is an input where the class does hold a slot. `drain_into` handles such
  links: `SubleafDrain.DrainRepairs` says what it issues and which of them it removes, `PopPastEffect` how often
  `pop` answers `None` on the way. The same merge in B2 makes `pop` compute word index 64 of a leaf
  (`FastLaws.EmptyMergeOverrunsIff`); in B it shows as `CountedLaws.EmptyMergeShowsIff` says.
- `first_subleaf` is said to skip each empty mask word once for good (739-741). `SubleafCursor.SkippedTwice` is an
  input where fifteen words are skipped twice, `SkippedEveryCycle` one for every number of times, and
  `SkippedOnceIff` says exactly when the claim holds of a word: it depends on how often a link arrives at or
  below the word while the cursor is above it. What holds always is the balance of skips and
  falls, word by word (`WordBalance`) and in all (`CursorCost`).
- B3's `drain_into` counts the offsets already in the buffer against `n`, the interface's default does not;
  `BufferedDrainAgreesIff` says exactly when that shows, `BufferedDrainFallsShort` is an input. `flush_run` of B3
  does not count spanning retires.
- B's merge sets the leaf's counter to the source popcount; `CountedLaws.MergeKeepsInvariantIff` is the exact
  condition for that to be right, `MergeMiscounts` an input where it is not.
- The slice count is said to fall short of the requested threads by exactly one
  (`benches/heap_fanin_persistent.rs:344-347`). It can fall short by more (`Chunks.Shortfalls`);
  `ShortfallIff` says exactly by how much.
- For an exited owner the slot is said to be free for the whole burst (165-175, 321-325). The dropped lease
  leaves the slot in the registry's reuse hint, so the first producer to claim takes it over before the burst
  starts: `FanInLaws.ExitedSlotFreeIff` and `ExitedSlotIsTakenInBurst`.
- A cell that is not granted all slots and blocks never comes to its end. A producer whose claim fails panics
  before the start barrier and leaves it closed for all others (371). A failed claim or a null pre-allocation of
  the coordinator panics the cell (308, 315), and so does one of the owner thread (230, 241), whose sender is then
  dropped so that `recv` fails (300-302). In the model the refused thread stops;
  `FanInProgress.EndsIffGranted` is the exact condition, `TooLittleNeverEnds` a start for every cell that is
  refused.

## Model

| member | source | states |
|---|---|---|
| `SubleafTable.PopEffect` | benches/ph3c_leaf_proto.rs:840-863 | B3 `pop` answers the minimum free slot of the class and removes only that slot; `None` exactly when the class has none; every other class and every binding is unchanged; the cursor ends on the answer's mask word |
| `SubleafTable.FirstSubleafEffect` | benches/ph3c_leaf_proto.rs:743-757 | the lazy cursor finds the lowest sub-leaf linked to the class, or reports none exactly when there is none |
| `SubleafTable.CommitsFuse` | benches/ph3c_leaf_proto.rs:770-783 | two commits to one word are one commit of both bit sets, in any state: what lets `flush_run` accumulate in a register |
| `SubleafTable.CommitWordKeepsInv` | benches/ph3c_leaf_proto.rs:770-783 | a commit into an empty or same-class sub-leaf keeps the three levels exact, and lowers the cursor only on a new link |
| `SubleafLaws.PopManyEffect` | benches/ph3c_leaf_proto.rs:256-263 | draining issues the `n` smallest free slots of the class in increasing order and removes exactly those |
| `SubleafLaws.Canonical` | benches/ph3c_leaf_proto.rs:697-711 | bindings and per-class free sets determine occupancy, headers and class masks |
| `SubleafLaws.RetireEffect` | benches/ph3c_leaf_proto.rs:821-838 | `retire` adds one slot to one class, binds the sub-leaf and lowers the cursor only on a new link |
| `SubleafLaws.RetireKeepsInvariantIff` | benches/ph3c_leaf_proto.rs:770-783 | a retire keeps the bookkeeping invariant if and only if its sub-leaf is empty or already bound to the class |
| `SubleafLaws.RetireManyEffect` | benches/ph3c_leaf_proto.rs:267-271 | retiring a list adds its elements to the class, whatever the order and the repeats |
| `SubleafLaws.DrainThenFlush` | benches/ph3c_leaf_proto.rs:985-995 | retiring what a drain issued restores B3 up to the cursor of the class and the span counter |
| `SubleafLaws.MergeEffect` | benches/ph3c_leaf_proto.rs:787-800 | a merge adds exactly the region's slots to the class the sub-leaf is bound to |
| `SubleafLaws.MergeKeepsInvariantIff` | benches/ph3c_leaf_proto.rs:787-800 | a merge keeps the invariant if and only if the union is non-empty |
| `SubleafLaws.MergeIsBulkRetire` | benches/ph3c_leaf_proto.rs:787-800 | a merge with a non-empty union ends in the state of retiring the region's slots one by one, in any order and with any repeats, span counter aside |
| `SubleafLaws.NoStaleLink` | benches/ph3c_leaf_proto.rs:844-849 | under the invariant a linked sub-leaf is never empty: the stale-link branches of `pop` and `drain_into` are never taken |
| `SubleafLaws.EmptyMergePopsNoneIff` | benches/ph3c_leaf_proto.rs:787-849 | after an empty merge into an empty sub-leaf the free set is as it was, and `pop` answers `None` if and only if that sub-leaf lies below all those the class has |
| `SubleafLaws.EmptyMergeLosesAPop` | benches/ph3c_leaf_proto.rs:787-849 | the input: slot 256 retired on a fresh table, an empty merge into sub-leaf 0; the class still has slot 256 and `pop` answers `None` |
| `SubleafLaws.PrimeKeepsInvariantIff` | benches/ph3c_leaf_proto.rs:718-720 | binding a sub-leaf ahead of a merge keeps the invariant if and only if the sub-leaf is empty or has that class already |
| `SubleafLaws.PrimeEffect` | benches/ph3c_leaf_proto.rs:718-720 | then no free set and no cursor changes |
| `SubleafLaws.BufferedDrainAgreesIff` | benches/ph3c_leaf_proto.rs:869-879 | counting the buffer against the budget issues the same as the interface's default if and only if the buffer was empty, nothing was asked for, or the class holds no more than the smaller budget |
| `SubleafLaws.BufferedDrainFallsShort` | benches/ph3c_leaf_proto.rs:869-879 | the input: one slot retired on a fresh table, one asked for with one in the buffer already; nothing is issued |
| `SubleafRuns.NextRefines` | benches/ph3c_leaf_proto.rs:718-933 | each operation of B3, priming and merge among them, keeps the invariant, issues the smallest slots, and is a step of the abstract free sets |
| `SubleafRuns.RunRefines` | benches/ph3c_leaf_proto.rs:1822-1866 | every legal run of B3, with primings and merges anywhere, keeps the invariant and is a run of the abstract free sets |
| `SubleafRuns.CanFlushBack` | benches/ph3c_leaf_proto.rs:1098-1106 | rounds of any classes and batches can be run from any table, each flushing back what it drained |
| `SubleafDrain.PopOutcome` | benches/ph3c_leaf_proto.rs:840-863 | on any well-formed table, links exact or not: one `pop` answers the smallest free slot among the sub-leaves linked to the class, or `None` when the lowest of them is empty, which it then unlinks |
| `SubleafDrain.PopPastEffect` | benches/ph3c_leaf_proto.rs:844-849 | popping on past `None` while a link is left: the answer is the smallest slot in reach, and exactly the stale links below it go, one for each `None` |
| `SubleafDrain.TakeManyEffect` | benches/ph3c_leaf_proto.rs:865-907 | so a drain of any well-formed table issues the `n` smallest slots in reach, in order; of the stale links exactly those above the last slot stay, none when the class runs out |
| `SubleafDrain.DrainRepairs` | benches/ph3c_leaf_proto.rs:865-907 | when links are exact but for empty sub-leaves: the drain issues the `n` smallest free slots of the class all the same, and touches no other class |
| `SubleafDrain.InvIff` | benches/ph3c_leaf_proto.rs:697-711 | the bookkeeping is exact if and only if the links suffice and none is stale |
| `SubleafDrain.EmptyMergeAddsStale` | benches/ph3c_leaf_proto.rs:787-800 | an empty merge into an empty sub-leaf adds that sub-leaf to the stale links of its class, and keeps links that suffice sufficient |
| `SubleafDrain.ManyArePops` | benches/ph3c_leaf_proto.rs:256-263 | under exact bookkeeping this is `n` pops in a row, stopping at the first `None` |
| `SubleafDrain.DrainWordIsPops` | benches/ph3c_leaf_proto.rs:880-895 | emptying a word up to a budget is popping its slots one at a time: same slots, same tables |
| `SubleafCursor.OperationCost` | benches/ph3c_leaf_proto.rs:726-765 | no operation, merges among them, lowers a cursor by more than 16 for each sub-leaf it links anew |
| `SubleafCursor.CursorBalance` | benches/ph3c_leaf_proto.rs:726-765 | over any run: final cursor + total lowering = initial cursor + mask words skipped |
| `SubleafCursor.CursorCost` | benches/ph3c_leaf_proto.rs:736-742 | from a fresh table the mask words that `first_subleaf` skips never exceed the total lowering by new links, hence 16 per new link |
| `SubleafCursor.WordBalance` | benches/ph3c_leaf_proto.rs:726-765 | word by word, over any run: skips of the word = times the cursor falls back past it, up to where it began and ends |
| `SubleafCursor.CursorCrosses` | benches/ph3c_leaf_proto.rs:726-765 | from the table before the call: a retire, flush or merge takes the cursor back past a word if and only if it links at or below the word and the cursor is above it; a pop or drain takes it up past the word if and only if the links at or below it run out; never more than once a call |
| `SubleafCursor.SkippedOnceIff` | benches/ph3c_leaf_proto.rs:739-741 | from a fresh table a word is skipped at most once if and only if, over the run, links arrive at or below it with the cursor above it at most twice, or once if the cursor ends above it |
| `SubleafCursor.SkippedEveryCycle` | benches/ph3c_leaf_proto.rs:739-741 | retire, pop and pop again, `k` times on one slot of a class with no other: every word from the slot's on is skipped `k` times |
| `SubleafCursor.SkippedTwice` | benches/ph3c_leaf_proto.rs:739-741 | the input: two such cycles on the first slot of sub-leaf 64 of a fresh table skip the words 1 to 15 twice |
| `LeafTable3.LeafTable3.constructor` | benches/ph3c_leaf_proto.rs:805-819 | a fresh table is the empty one, every cursor at 16 |
| `LeafTable3.LeafTable3.LinkSubleaf` | benches/ph3c_leaf_proto.rs:726-735 | in place: the specified link; it counts the mask bit if it is new, and the cursor falls by at most 16 for it |
| `LeafTable3.LeafTable3.FirstSubleaf` | benches/ph3c_leaf_proto.rs:743-757 | in place: the specified search; the cursor rises by exactly the mask words the loop skipped |
| `LeafTable3.LeafTable3.UnlinkSubleaf` | benches/ph3c_leaf_proto.rs:761-765 | in place: the specified unlink, cursor untouched |
| `LeafTable3.LeafTable3.CommitWord` | benches/ph3c_leaf_proto.rs:770-783 | in place: the specified commit |
| `LeafTable3.LeafTable3.SetSubleafClass` | benches/ph3c_leaf_proto.rs:718-720 | in place: the specified priming, which keeps the invariant if and only if the sub-leaf takes slots of the class, and then every free set |
| `LeafTable3.LeafTable3.OrMergeRegion` | benches/ph3c_leaf_proto.rs:787-800 | in place: the specified merge; answers the number of slots in the source region |
| `LeafTable3.LeafTable3.Retire` | benches/ph3c_leaf_proto.rs:821-838 | in place: the specified retire, span counter included |
| `LeafTable3.LeafTable3.Pop` | benches/ph3c_leaf_proto.rs:840-863 | in place: the specified pop |
| `LeafTable3.LeafTable3.DrainInto` | benches/ph3c_leaf_proto.rs:865-907 | word-at-a-time drain of any well-formed table, stale links included: same state and same offsets as popping, past stale links, one slot at a time for as many as are missing from the buffer; under exact bookkeeping the same as that many pops; the cursor rises by exactly the mask words skipped |
| `LeafTable3.LeafTable3.FlushRun` | benches/ph3c_leaf_proto.rs:909-933 | register-accumulated flush: same state as one `retire` per offset in order, for any list, except `span_retires` |
| `LeafTable3.LeafTable3.DrainSubleaf` | benches/ph3c_leaf_proto.rs:879-905 | the loop over one sub-leaf's words is a stretch of that drain, ending at the budget or with the sub-leaf empty |
| `LeafTable3.EmitWord` | benches/ph3c_leaf_proto.rs:884-889 | the innermost loop emits the word's lowest slots up to the budget and leaves the others |
| `LeafTable3.LeafTable3.FreeSlotsInLeaf` | benches/ph3c_leaf_proto.rs:935-944 | the popcount over a leaf's 64 words is the number of its free slots |
| `LeafTable3.LeafTable3.LeafFreeMask` | benches/ph3c_leaf_proto.rs:946-955 | the 16 sub-leaves' words side by side: bit `i` is slot `i` of the leaf |
| `LeafTable3.LeafTable3.LeafClass` | benches/ph3c_leaf_proto.rs:957-964 | the class of the leaf's first non-empty sub-leaf, `None` exactly when all are empty |
| `FastLaws.PopEffect` | benches/ph3c_leaf_proto.rs:647-667 | B2 `pop` answers the minimum free slot of the class and removes only that; `None` exactly when there is none |
| `FastLaws.RetireEffect` | benches/ph3c_leaf_proto.rs:626-645 | every `retire` keeps the three-level index exact; the slot joins the class asked for if and only if the leaf was empty or of that class |
| `FastLaws.PopManyEffect` | benches/ph3c_leaf_proto.rs:256-263 | draining B2 issues the `n` smallest free slots in order |
| `FastLaws.RetireManyEffect` | benches/ph3c_leaf_proto.rs:267-271 | flushing B2 adds the list's elements to the class |
| `FastLaws.Canonical` | benches/ph3c_leaf_proto.rs:578-583 | bindings and free sets determine B2 completely |
| `FastLaws.PrimeKeepsInvariantIff` | benches/ph3c_leaf_proto.rs:587-589 | binding a leaf keeps the index exact if and only if the leaf is empty or has that class already |
| `FastLaws.DrainThenFlush` | benches/ph3c_leaf_proto.rs:985-995 | flushing what a drain issued restores B2 exactly |
| `FastLaws.MergeKeepsInvariantIff` | benches/ph3c_leaf_proto.rs:594-607 | a merge keeps the index exact if and only if the union is non-empty |
| `FastLaws.EmptyMergeOverrunsIff` | benches/ph3c_leaf_proto.rs:594-656 | after an empty merge into an empty leaf `pop` computes word index 64, past the leaf, if and only if that leaf lies below all those the class has |
| `FastLaws.MergeIsBulkRetire` | benches/ph3c_leaf_proto.rs:594-607 | a merge with a non-empty union is one retire per region slot |
| `FastRuns.RunRefines` | benches/ph3c_leaf_proto.rs:587-667 | every legal run of B2, with primings and merges anywhere, keeps the invariant and is a run of the abstract free sets |
| `FastRuns.CanFlushBack` | benches/ph3c_leaf_proto.rs:1098-1106 | rounds of any classes and batches can be run from any table, each flushing back what it drained |
| `LeafTableFast.LeafTableFast.SetLeafClass` | benches/ph3c_leaf_proto.rs:587-589 | in place: the specified priming, which keeps the index if and only if the leaf takes slots of the class |
| `LeafTableFast.LeafTableFast.Retire` | benches/ph3c_leaf_proto.rs:626-645 | in place: the specified retire |
| `LeafTableFast.LeafTableFast.Pop` | benches/ph3c_leaf_proto.rs:647-667 | in place: the specified pop |
| `LeafTableFast.LeafTableFast.DrainInto` | benches/ph3c_leaf_proto.rs:256-263 | up to `n` pops appended to the buffer |
| `LeafTableFast.LeafTableFast.FlushRun` | benches/ph3c_leaf_proto.rs:267-271 | one retire per offset |
| `LeafTableFast.LeafTableFast.OrMergeRegion` | benches/ph3c_leaf_proto.rs:594-607 | in place: the specified merge; answers the source popcount |
| `LeafTableFast.LeafTableFast.FreeSlotsInLeaf` | benches/ph3c_leaf_proto.rs:669-672 | the popcount is the number of free slots of the leaf |
| `Lockstep.LockstepRun` | benches/ph3c_leaf_proto.rs:626-679 | on every script that keeps each 64 KiB leaf to one class at a time, B2 and B3 issue the same offsets in the same order and end with the same occupancy words |
| `Lockstep.MatchingRuns` | benches/ph3c_leaf_proto.rs:587-800 | so they do on matching scripts that merge a leaf in B2 where they merge a sub-leaf in B3 |
| `Lockstep.FreshLockstep` | benches/ph3c_leaf_proto.rs:1969-2022 | so they do from fresh tables |
| `Lockstep.SameOccupancy` | benches/ph3c_leaf_proto.rs:946-955 | tables with the same per-class free sets have the same 4096 occupancy words: B3's 16x4 words are B2's 64 |
| `Lockstep.LeafClassesAgree` | benches/ph3c_leaf_proto.rs:957-964 | B3's leaf class is the class in B2's header, and `None` exactly when the leaf is empty |
| `Lockstep.FitsFiner` | benches/ph3c_leaf_proto.rs:770-783 | a retire that suits the 64 KiB grain suits the 4 KiB grain |
| `CountedLaws.RetireKeepsInvariantIff` | benches/ph3c_leaf_proto.rs:508-523 | a retire keeps `free_count` equal to the popcount if and only if the slot was not free |
| `CountedLaws.RetireEffect` | benches/ph3c_leaf_proto.rs:508-523 | the slot becomes free; it belongs to the retiring class if and only if the leaf was empty or of that class |
| `CountedLaws.ScanFinds` | benches/ph3c_leaf_proto.rs:525-548 | a linked leaf has a positive count and the cyclic scan from the hint finds a word: the trailing `None` is unreachable |
| `CountedLaws.PopEffect` | benches/ph3c_leaf_proto.rs:525-548 | B `pop` takes one free slot of the class, `None` exactly when there is none; the counters stay exact |
| `CountedLaws.PopOrder` | benches/ph3c_leaf_proto.rs:525-548 | which slot: in the lowest leaf with any for the class, the first one met going round from the hint |
| `CountedLaws.PopManyEffect` | benches/ph3c_leaf_proto.rs:256-263 | draining B issues distinct free slots, `min(n, size)` of them, and removes exactly those |
| `CountedLaws.DrainThenFlush` | benches/ph3c_leaf_proto.rs:985-995 | flushing what a drain issued restores B up to its hints |
| `CountedLaws.MergeKeepsInvariantIff` | benches/ph3c_leaf_proto.rs:480-489 | B's merge keeps its counter right if and only if the leaf's own slots all lie in the region and the region is not empty |
| `CountedLaws.MergeMiscounts` | benches/ph3c_leaf_proto.rs:480-489 | the input: slot 0 retired on a fresh table, a region with only slot 1 merged; the counter is one short |
| `CountedLaws.EmptyMergeShowsIff` | benches/ph3c_leaf_proto.rs:480-548 | after an empty merge: into a leaf with slots, `pop` meets a zero counter if and only if no lower leaf has any for the class; into an empty leaf, `pop` answers `None` and keeps the link if and only if that leaf lies below all those the class has |
| `CountedLaws.PrimeKeepsInvariantIff` | benches/ph3c_leaf_proto.rs:474-476 | binding a leaf keeps the links exact if and only if the leaf is empty or has that class already |
| `CountedLaws.MergeIsBulkRetire` | benches/ph3c_leaf_proto.rs:480-489 | into an empty leaf B's merge is one retire per region slot |
| `CountedOrder.PopHint` | benches/ph3c_leaf_proto.rs:525-548 | a `pop` that answers `s` leaves the hint of its leaf at the word of `s`, and every other header alone |
| `CountedOrder.RunFollows` | benches/ph3c_leaf_proto.rs:474-548 | over any legal run, primings and merges among it, the hint of a leaf ends at the word of the slot last issued from it, or where it was if none was |
| `CountedOrder.DrainOrder` | benches/ph3c_leaf_proto.rs:256-263 | a drain issues the first slots of the class in the order that the hints before it make: lowest leaf first, and in a leaf going round from its hint |
| `CountedOrder.OrderDetermines` | benches/ph3c_leaf_proto.rs:525-548 | that order leaves no choice: two lists in order that hold the same slots are the same |
| `CountedOrder.ChurnRound` | benches/ph3c_leaf_proto.rs:985-995 | a churn round on slots 0 to 255 with the hint at word `h` issues them going round from slot `64 * h`, and leaves the hint one word back |
| `CountedOrder.ChurnIssues` | benches/ph3c_leaf_proto.rs:980-998 | the one-class churn from a fresh table, any number of rounds: the first begins with slot 0, the second with 192, the third with 128, the fourth with 64, and so on round |
| `CountedRuns.RunRefines` | benches/ph3c_leaf_proto.rs:474-548 | every legal run of B, with primings and merges into empty leaves, keeps the counters exact and is a run of the abstract free sets |
| `CountedRuns.CanFlushBack` | benches/ph3c_leaf_proto.rs:1098-1106 | rounds of any classes and batches can be run from any table, each flushing back what it drained |
| `LeafTable.LeafTable.SetLeafClass` | benches/ph3c_leaf_proto.rs:474-476 | in place: the specified priming, which keeps the links if and only if the leaf takes slots of the class |
| `LeafTable.LeafTable.Retire` | benches/ph3c_leaf_proto.rs:508-523 | in place: the specified retire |
| `LeafTable.LeafTable.Pop` | benches/ph3c_leaf_proto.rs:525-548 | in place: the cyclic scan computes the specified pop |
| `LeafTable.LeafTable.OrMergeRegion` | benches/ph3c_leaf_proto.rs:480-489 | in place: the specified merge |
| `LeafTable.LeafTable.DrainInto` | benches/ph3c_leaf_proto.rs:256-263 | up to `n` pops appended to the buffer |
| `LeafTable.LeafTable.FlushRun` | benches/ph3c_leaf_proto.rs:267-271 | one retire per offset |
| `ListTable.RetireKeepsListsIff` | benches/ph3c_leaf_proto.rs:406-417 | after a retire the links still form lists if and only if the slot was not free: a double retire makes a cycle or a fork |
| `ListTable.RetireEffect` | benches/ph3c_leaf_proto.rs:406-417 | `retire` pushes the slot on its class's list; the lists stay acyclic, disjoint and cover the bitmap |
| `ListTable.PopEffect` | benches/ph3c_leaf_proto.rs:419-427 | `pop` takes the top of the list; `None` exactly when the list is empty |
| `ListTable.StacksUnique` | benches/ph3c_leaf_proto.rs:366-376 | the lists are determined by the table |
| `ListLaws.DrainThenFlush` | benches/ph3c_leaf_proto.rs:985-995 | flushing what a drain issued puts the drained prefix back in reverse order and restores the bitmap |
| `ListRuns.NextIsLifo` | benches/ph3c_leaf_proto.rs:406-427 | retires and flushes push onto the class's list, pops and drains take its top in its order, and no other list changes: LIFO |
| `ListRuns.RunRefines` | benches/ph3c_leaf_proto.rs:406-427 | every legal run keeps acyclic disjoint lists that cover the bitmap, and is a run of the abstract free sets |
| `ListRuns.CanFlushBack` | benches/ph3c_leaf_proto.rs:1098-1106 | rounds of any classes and batches can be run from any table, each flushing back what it drained |
| `IntrusiveTable.StoreLoad` | benches/ph3c_leaf_proto.rs:322-336 | the four bytes at the block's start are those of the link, lowest first; they read back, and no other byte of the arena changes |
| `IntrusiveTable.LeRoundTrip` | benches/ph3c_leaf_proto.rs:322-336 | the least significant byte comes first, and the four bytes give the link back |
| `IntrusiveTable.EndOfList` | benches/ph3c_leaf_proto.rs:303-327 | a block retired onto an empty list ends it with four bytes 255 |
| `IntrusiveTable.Bisimilar` | benches/ph3c_leaf_proto.rs:286-427 | step for step, links in the block bodies and links in the side table do the same |
| `IntrusiveTable.BisimilarRuns` | benches/ph3c_leaf_proto.rs:286-427 | on every legal script both list models issue the same offsets in the same order and end with the same bitmap, heads and links |
| `Intrusive.Intrusive.Retire` | benches/ph3c_leaf_proto.rs:313-327 | in place: bitmap, bytes and head as specified |
| `Intrusive.Intrusive.Pop` | benches/ph3c_leaf_proto.rs:329-339 | in place: bitmap and head as specified |
| `Intrusive.Intrusive.DrainInto` | benches/ph3c_leaf_proto.rs:256-263 | up to `n` pops appended to the buffer |
| `Intrusive.Intrusive.FlushRun` | benches/ph3c_leaf_proto.rs:267-271 | one retire per offset |
| `NextTable.NextTable.Retire` | benches/ph3c_leaf_proto.rs:406-417 | in place: bitmap, link and head as specified |
| `NextTable.NextTable.Pop` | benches/ph3c_leaf_proto.rs:419-427 | in place: bitmap and head as specified |
| `NextTable.NextTable.DrainInto` | benches/ph3c_leaf_proto.rs:256-263 | up to `n` pops appended to the buffer |
| `NextTable.NextTable.FlushRun` | benches/ph3c_leaf_proto.rs:267-271 | one retire per offset |
| `Scripts.Conservation` | benches/ph3c_leaf_proto.rs:1329-1353 | over every run without a double retire: free at the end + issued = free at the start + handed back, with multiplicity |
| `Scripts.DrainedRunIssuesAll` | benches/ph3c_leaf_proto.rs:1329-1353 | a run that leaves a class empty has issued what was there and what was handed back, once each |
| `Scripts.FullDrainRunsAgree` | benches/ph3c_leaf_proto.rs:1329-1353 | two runs of matching scripts whose drains are all full agree round by round; each may hand back what it was itself given, in its own order |
| `Scripts.FlushBackRestores` | benches/ph3c_leaf_proto.rs:1101-1104 | draining any batch and flushing back what came out restores the free sets |
| `Scripts.RoundsRestore` | benches/ph3c_leaf_proto.rs:1098-1106 | so does any number of such rounds |
| `Scripts.RoundIssues` | benches/ph3c_leaf_proto.rs:985-995 | every such round issues from the free sets the first began with, and the whole class when it asks for enough |
| `Scripts.RunKeepsPartition` | benches/ph3c_leaf_proto.rs:239-272 | over any run that hands back only live slots, every slot is live or free in exactly one class |
| `Identity.ListRunIsClean` | benches/ph3c_leaf_proto.rs:1381-1461 | a legal run of a list model never retires a free slot |
| `Identity.BRunIsClean` | benches/ph3c_leaf_proto.rs:1381-1461 | a legal run of B never retires a free slot |
| `Identity.AllFiveIssueTheSame` | benches/ph3c_leaf_proto.rs:1329-1353 | on matching scripts, one for each geometry, that drain a class fully, all five issue exactly the slots handed back, each as often as it was retired |
| `Identity.AllFiveAgreeRoundByRound` | benches/ph3c_leaf_proto.rs:1381-1421 | when every drain is full, matching scripts make all five agree round by round and end with the same free sets: each flushes back its own order, and takes a region as a merge or slot by slot |
| `Identity.AgreeingWords` | benches/ph3c_leaf_proto.rs:1355-1379 | models with the same free sets have the same free words, leaf by leaf |
| `Identity.FlushBackIdentity` | benches/ph3c_leaf_proto.rs:1098-1119 | after any number of drain and flush-back rounds of any batch sizes all five have the free sets, and the free words, they began with |
| `Identity.FlushBackIssues` | benches/ph3c_leaf_proto.rs:985-995 | each such round issues as many slots in every model, and when the batch is large enough the same slots: all that the class had at the start |
| `FreshIdentity.MixedChurnIdentity` | benches/ph3c_leaf_proto.rs:1086-1122 | fresh models filled alike, then each run through any rounds with what it was itself given: all five end with the free words that the fill left |
| `FreshIdentity.RemoteMergeIdentity` | benches/ph3c_leaf_proto.rs:1129-1215 | any region of one sub-leaf, for any class: merged as a leaf, as a sub-leaf or taken slot by slot, a drain that asks for enough issues exactly its slots in all five |
| `ClassTable.BuildClassSizes` | benches/ph3c_leaf_proto.rs:156-188 | the merge loop fills the table without counting below zero if and only if the two runs share no value; then the table is their strictly increasing merge |
| `ClassTable.LastDecides` | benches/ph3c_leaf_proto.rs:180-184 | comparing with the last entry decides whether a value was emitted already |
| `ClassTable.LastSingleSubleafClass` | benches/ph3c_leaf_proto.rs:211-221 | in a sorted table the blocks that fit one sub-leaf are exactly those of the classes up to the answer |
| `ClassTable.ProductionRunsDisjoint` | benches/ph3c_leaf_proto.rs:156-160 | the production runs share no value and make 49 classes |
| `ClassTable.ProductionThreshold` | benches/ph3c_leaf_proto.rs:203-208 | in the production table class 25 is the 4096-byte class and classes 0 to 25 are exactly those of span one |
| `Tail.LayoutClasses` | benches/ph3c_leaf_proto.rs:1762-1780 | each class gets an aligned region of its own, as early as its alignment lets it be; `fits` is the final assertion, that the last region ends inside the segment |
| `ProductionLayout.ProductionFits` | benches/ph3c_leaf_proto.rs:1776-1779 | for the production table the assertion holds: the 49 regions fit the segment |
| `ProductionLayout.LayoutProduction` | benches/ph3c_leaf_proto.rs:1762-1780 | building and laying out the production table never fails, and yields a layout of the segment |
| `Tail.MeasuredIsAnalytic` | benches/ph3c_leaf_proto.rs:1783-1819 | with exactly the first slot of every block free, the measured tail is the analytic tail |
| `Tail.TailBound` | benches/ph3c_leaf_proto.rs:1811-1819 | the analytic tail is at most one sub-leaf per class, and equal to that if and only if every size is 16 modulo 4096 |
| `Tail.ChurnClasses` | benches/ph3c_leaf_proto.rs:1870-1879 | each pop of the churn answers the class's own first slot, the table ends empty, and every spanning retire is counted |
| `Tail.Measure` | benches/ph3c_leaf_proto.rs:1792-1807 | counting bit by bit computes the measured tail |
| `Tail.FragmentationTail` | benches/ph3c_leaf_proto.rs:1881-1908 | churn, retire, measure on a fresh table: the tail is the analytic one, at most one sub-leaf per class, and strictly less unless every size is 16 modulo 4096 |
| `ProductionLayout.ProductionTail` | benches/ph3c_leaf_proto.rs:1881-1908 | so for the production table: the measured tail is below 49 sub-leaves, strictly, and at most 5 percent of the segment |
| `Tail.BudgetSuffices` | benches/ph3c_leaf_proto.rs:1922-1924 | in a sorted table class `c` has more than `c` slots, so draining into the shared buffer never runs out of budget |
| `Tail.DrainAll` | benches/ph3c_leaf_proto.rs:1913-1938 | draining all classes into one growing buffer issues every first slot once and leaves nothing free |
| `Chunks.SlicesCover` | benches/heap_fanin_persistent.rs:340-357 | the slices are as many as the second ceiling division says, non-empty, and concatenate to the addresses |
| `Chunks.SliceIs` | benches/heap_fanin_persistent.rs:340 | slice `i` is the `i`-th stretch of the slice length; only the last may be shorter |
| `Chunks.SlicesDisjoint` | benches/heap_fanin_persistent.rs:340 | no address is in two slices or twice in one |
| `Chunks.AtMostRequested` | benches/heap_fanin_persistent.rs:197-198 | there are never more producers than requested threads |
| `Chunks.ChunkIsLeast` | benches/heap_fanin_persistent.rs:197 | the slice length is the least with which as many slices as requested threads cover the burst: the quotient, rounded up |
| `Chunks.ShortfallIff` | benches/heap_fanin_persistent.rs:341-362 | the slices fall short of the requested threads by at most `d` if and only if `d + 1` chunks of that quotient less would not cover the burst |
| `Chunks.AllThreadsUsedIff` | benches/heap_fanin_persistent.rs:341-362 | every requested thread gets a slice if and only if one such chunk less would not cover the burst |
| `Chunks.DivCeilIsQuotient` | benches/heap_fanin_persistent.rs:197-198 | the ceiling division is the rounded-up quotient |
| `Chunks.Shortfalls` | benches/heap_fanin_persistent.rs:341-362 | 1000 over 64 gives 63 slices, 256 over 64 all 64; 10 over 7 gives 5, two fewer than asked |
| `Chunks.BarrierSizesMatch` | benches/heap_fanin_persistent.rs:197-203 | the number both barriers are sized by is the number of slices that are spawned |
| `HeapSlots.ClaimIsExclusive` | src/registry/heap_registry/claim.rs:285-515 | a claim never returns a slot that a lease holds, and makes exactly that slot live |
| `HeapSlots.ClaimableIff` | src/registry/heap_registry/stack.rs:151-187 | a claim can succeed if and only if a slot is hinted, spilled or not yet minted; when none is, every slot up to the capacity is live, so a scan of the whole range would find none |
| `HeapSlots.MintsIffAllLive` | src/registry/heap_registry/stack.rs:151-187 | a claim mints a new slot if and only if all minted slots are live; otherwise it reuses one that is not |
| `HeapSlots.DropThenClaim` | src/registry/heap_registry/stack.rs:151-187 | the claim after a dropped lease returns the dropped slot |
| `FanInInvariant.CoordinatorKeepsRendezvous` | benches/heap_fanin_persistent.rs:412-417 | no coordinator step makes a barrier count anything but its arrivals, or passes a closed one |
| `FanInInvariant.OwnerKeepsRendezvous` | benches/heap_fanin_persistent.rs:227-299 | the same for the owner thread |
| `FanInInvariant.ProducerKeepsRendezvous` | benches/heap_fanin_persistent.rs:363-400 | the same for each producer |
| `FanInMemory.ProducerKeepsBlocks` | benches/heap_fanin_persistent.rs:380-389 | a producer's free leaves every other pending block live and distinct from the owner's own |
| `FanInSteps.NextKeepsInv` | benches/heap_fanin_persistent.rs:149-489 | every step of every thread keeps the whole invariant |
| `FanInSteps.RunKeepsInv` | benches/heap_fanin_persistent.rs:149-489 | so does every interleaving |
| `FanInSteps.StuckOnlyOnRefusal` | benches/heap_fanin_persistent.rs:193-426 | from every reachable state but the final one some thread can take a step that is not the owner's spinning, unless a claim finds no slot or a pre-allocation gets null |
| `FanInSteps.NeverStuck` | benches/heap_fanin_persistent.rs:193-426 | so it can in a cell that is granted a slot for each claim and a block for each free |
| `FanInLaws.OpensForAll` | benches/heap_fanin_persistent.rs:200-202 | the start barrier is open if and only if coordinator, owner thread and every producer have arrived |
| `FanInLaws.NoFreeBeforeStart` | benches/heap_fanin_persistent.rs:378-389 | no producer frees before the start barrier opens |
| `FanInLaws.FreedExactlyOnce` | benches/heap_fanin_persistent.rs:378-414 | when the coordinator is past the done barrier every pre-allocated address has been freed exactly once, and nothing else by producers |
| `FanInLaws.FreesHitLiveBlocks` | benches/heap_fanin_persistent.rs:278-292 | every free, by a producer or by the owner, hits a live block and releases only that |
| `FanInLaws.AllCollected` | benches/heap_fanin_persistent.rs:418-426 | the joins collect one latency per block of the burst; every thread has ended and the owner holds no block |
| `FanInLaws.LeaseSpansBurst` | benches/heap_fanin_persistent.rs:150-175 | active, slow, paused: the owner's lease holds its slot throughout the burst and no producer shares it |
| `FanInLaws.ExitedSlotFreeIff` | benches/heap_fanin_persistent.rs:320-326 | exited: the dropped slot is free if and only if no producer has claimed yet, and the first claimant takes it over |
| `FanInLaws.ExitedSlotIsTakenInBurst` | benches/heap_fanin_persistent.rs:165-175 | exited: so throughout the burst the owner's old slot is live, held by a producer |
| `FanInLaws.ReclaimReturnsOwnerSlot` | benches/heap_fanin_persistent.rs:428-447 | the claim after the burst can only return the owner's slot: the assertion there holds |
| `FanInOwner.LoopKeeps` | benches/heap_fanin_persistent.rs:258-286 | one round of the owner's loop adds the block the allocator gives to the batch, or with the 4096th frees the whole batch, and changes nothing else |
| `FanInOwner.LoopWithout` | benches/heap_fanin_persistent.rs:258-262 | a round in which the allocator gives nothing changes nothing |
| `FanInOwner.LoopEnds` | benches/heap_fanin_persistent.rs:287-298 | told to stop, the owner frees all that its batch holds, drops its lease and ends |
| `FanInOwner.ComesRound` | benches/heap_fanin_persistent.rs:258-286 | while the burst goes on the owner alone can get to the head of its loop from wherever it is |
| `FanInOwner.BatchIsReached` | benches/heap_fanin_persistent.rs:256-286 | every active or slow cell that is granted what it needs has a run into the burst with any number of blocks below 4096 in the owner's batch |
| `FanInProgress.EveryStepProgresses` | benches/heap_fanin_persistent.rs:149-489 | every step but a spin raises a measure of the work done, and a spin leaves it alone |
| `FanInProgress.BoundedRuns` | benches/heap_fanin_persistent.rs:149-489 | every run has at most `3 * burst + 8 * producers + 4121` steps that are not spins |
| `FanInProgress.CanFinish` | benches/heap_fanin_persistent.rs:149-489 | from every reachable state a run without spins leads to the end or to a refusal, and to the end if the cell is granted what it needs |
| `FanInProgress.OpensOnlyIfGranted` | benches/heap_fanin_persistent.rs:200-202 | the start barrier opens only in a cell that is granted a slot for each producer and for an owner that stays, and all blocks of the burst |
| `FanInProgress.EndsIffGranted` | benches/heap_fanin_persistent.rs:149-489 | the end can be reached if and only if the cell is granted that; with less, in every reachable state the start barrier is closed and no producer has freed |
| `FanInProgress.EndIsReachable` | benches/heap_fanin_persistent.rs:149-489 | every configuration that is granted what it needs has a run to the end |
| `FanInProgress.BurstIsReached` | benches/heap_fanin_persistent.rs:378-414 | and one into the burst, where the laws about the owner's slot speak |
| `FanInProgress.TooLittleNeverEnds` | benches/heap_fanin_persistent.rs:224-308 | the input: every configuration that is refused has a start from which no run ends or opens the start barrier |
| `FanInFairness.InfiniteRunsAreUnfair` | benches/heap_fanin_persistent.rs:258-283 | in every infinite run only the owner moves from some point on, spinning, while one step of another thread could be taken all the time |
| `Xorshift.StepInverts` | benches/medium_size_sweep.rs:286-290 | each step of the generator can be undone: it is injective |
| `Xorshift.NeverZero` | benches/medium_size_sweep.rs:280-290 | a non-zero state never becomes zero |
| `Xorshift.StreamsNeverMerge` | benches/medium_size_sweep.rs:285-292 | two streams that ever meet were the same stream |
| `Xorshift.WrapInjective` | benches/medium_size_sweep.rs:291 | the wrapped product with the multiplier tells all 64-bit states apart |
| `Xorshift.StepReaches` | benches/medium_size_sweep.rs:286-290 | every state is the step of one |
| `Xorshift.OutputTellsState` | benches/medium_size_sweep.rs:291 | what is handed out, times the multiplier's inverse, is the state it came from |
| `Xorshift.NamedAnswers` | benches/medium_size_sweep.rs:285-292 | the first answer for seed 1 is 5180492295206395165, and the answer from one state on which all three shifts work |
| `Xorshift.SeedsAgreeIff` | benches/medium_size_sweep.rs:280-282 | two seeds start the same stream if and only if they differ at most in the lowest bit |
| `Shuffle.DealPermutes` | benches/medium_size_sweep.rs:295-301 | the shuffle permutes, whatever is drawn |
| `Shuffle.EachOrderOnce` | benches/medium_size_sweep.rs:294-301 | on distinct elements every order is dealt by exactly one choice of draws |
| `Shuffle.DrawAt` | benches/medium_size_sweep.rs:297-299 | the draw for position `i` is the next number of the stream modulo `i + 1` |
| `Shuffle.EveryDrawComesUpIff` | benches/medium_size_sweep.rs:297-299 | every position up to and including the current one is drawn in some state that is not zero, but for one case with 2^64 positions |
| `Shuffle.Xorshift64.constructor` | benches/medium_size_sweep.rs:280-282 | the state is the seed with its lowest bit set, never zero |
| `Shuffle.Xorshift64.NextU64` | benches/medium_size_sweep.rs:285-292 | in place: one step, answering the wrapped product |
| `Shuffle.Xorshift64.Shuffle` | benches/medium_size_sweep.rs:295-301 | in place: the specified shuffle, and one step per position above 0 |
| `SweepCell.FifoPicks` | benches/medium_size_sweep.rs:421-422 | FIFO frees the blocks as they came |
| `SweepCell.LifoPicks` | benches/medium_size_sweep.rs:423 | LIFO frees the last first |
| `SweepCell.RandomPicks` | benches/medium_size_sweep.rs:424-427 | random order frees the blocks as a generator started from the seed shuffles them |
| `SweepCell.OrderIsPermutation` | benches/medium_size_sweep.rs:420-428 | FIFO, LIFO and random order each visit every index exactly once |
| `SweepCell.RunSameThreadCell` | benches/medium_size_sweep.rs:386-472 | whatever the allocator answers: the distinct blocks got before the first refusal are freed in the chosen order, the refusal is reported where it came and nothing is asked after it, and nothing stays live: FIFO frees `ptrs`, LIFO `ptrs` from the end, random what the seeded generator deals |
| `SweepCell.FreedExactlyOnce` | benches/medium_size_sweep.rs:430-442 | each block of that prefix is freed exactly once, whatever the order |

## Left out

- Nested arrays (`[[u64; 64]; 64]` and the like) are flattened row by row; the models do not capture their layout in memory.
- Integer widths: `u8`, `u16` and `u32` fields are naturals; the invariants bound cursors by 16, classes by 49 or 8, counters by 4096 and offsets by 262144, all within the source's types. `span_retires` is unbounded.
- `leaf_class` of B and B2, which read one header field, and the read-only leaf queries of the list models and B, which would add only easy members.
- The interface's drivers with their fixed numbers: dense and sparse drains are instances of `AllFiveIssueTheSame`, cold refill of `AllFiveAgreeRoundByRound`, one-class churn of `FlushBackIssues` with the scripts of `CanFlushBack`, the mixed churn of `MixedChurnIdentity` and remote merge of `RemoteMergeIdentity`; the instances are not spelled out.
- `HeapSlots.ClaimIsExclusive`: a claim is one atomic step; retries after a lost compare-and-swap, chunk and constructor memory exhaustion, and maintenance leases are not part of the model. The scan at capacity is: it finds nothing, since all slots are live then (`ClaimableIff`).
- `FanInLaws.FreedExactlyOnce`: memory ordering and weak memory are not modelled; threads interleave in atomic steps.
- `FanInProgress.EndsIffGranted`: a refused thread stops where it is; the panic, its message and the unwinding of the cell are not modelled.
- The descriptor sweep after a paused or reclaimed cell, and its count, belong to the allocator and are not part of this model.
- Blocks of classes that span several sub-leaves: the source only counts their retires, and so does the model.
- `SweepCell.RunSameThreadCell`: timings, percentiles and segment statistics are not modelled; `payload` is.
- The allocator under `src/` beyond slot claims, benchmark plumbing, statistics, memory probes and command lines.
- The other benches and examples: straight-line measurements that would add only easy facts.
