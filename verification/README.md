# A verified model of market_square

market_square is a lock-free bounded broadcast ring. Writers reserve generations, fill ring slots and
publish them in order; every reader holds a private generation in a table; any number of threads clean
up at the same time, dropping what all active readers have passed. This project models that protocol in
Dafny and proves what its users rely on: no active reader loses a message, every message is dropped
exactly once and before its slot is reused, published messages arrive in order and unchanged, and one
handle's destructor frees the area.

`dafny verify dfyconfig.toml` checks everything.

## How it is organised

- `Arithmetic.dfy`: the masked W-bit numbers of `src/arithmetics.rs`, for every width W >= 2 (W = 64, or
  32 with `small-gen`), and exactly where they behave like unbounded numbers.
- `Protocol.dfy`: `AreaInner` with its readers, writers and cleaners as one state machine. Every atomic
  load, store and compare-and-swap is a step; every thread has a program counter and the values it has
  loaded. The same machine runs on unbounded generations (`Natural`) or on W-bit words (`Wrapped(w)`).
- `Invariant.dfy`, `Preservation.dfy`: the history (log of stored values, multiset of drops, queue of
  cleaners, what each reader was handed) and the invariant with its preservation by every step. Its
  centre is the half-finished scan: every slot a cleaner has already passed is at or beyond the
  cleaner's running minimum, and slot generations only move forward.
- `Theorems.dfy`: what follows in every state of every run.
- `ReaderCalls.dfy`, `WriterCalls.dfy`, `CleanerCalls.dfy`: how every call ends, with any steps of other
  threads in between; `Delivery.dfy`: that every sequence of messages can be delivered.
- `Cleanup.dfy`: a cleanup nobody disturbs.
- `Exclusive.dfy`: the `E = Exclusive` store forms against the CAS forms, checks and stores as separate
  steps.
- `Simulation.dfy`: the machine on W-bit words against the machine on unbounded generations.
- `Tournament.dfy`: the destructors of the handles, and who frees the area; `DropProgress.dfy`: that they
  come to an end; `Overlap.dfy`: exactly which registrations endanger a live reader.
- `Teardown.dfy`: protocol and tournament as one machine, from the first registration to the freed area;
  `Completion.dfy`: that this machine never gets stuck.
- `ReaderTable.dfy`: the linear-probing table of `src/map.rs`, as a class over an array;
  `ConcurrentInsert.dfy`: one insertion among other threads' updates.
- `ReservationIter.dfy`: the checked iterator of `src/iter.rs`, as classes over the ring.
- `AreaInner.dfy`: the methods of `AreaInner` as a class on encoded W-bit words, specified on the
  unbounded state behind the words.

Where the code depends on its callers, the dependence is a named predicate: `Invariant.Allowed` (reserve
at least one slot, publish only filled reservations, read only while active, resume no later than
`read_gen`), `Simulation.SnapshotsRecent` (no thread sits on a snapshot 2^(W-2) generations old),
`Arithmetic.IndicesKept` (the ring capacity divides 2^(W-1), or nothing has wrapped; needed for the
contents of the ring only), `Exclusive.OneAtATime` (one cleanup, one reserving and one publishing call at a
time) and `Tournament.NoOverlap` (no registration behind a destructor's scan), for which
`Overlap.CreatesApart` is a sufficient condition that a caller can see to.

Where the code and its comments or asserts differ the model follows the code. The buffer capacity only
has to be positive, although one slot per generation survives a generation wrap only for capacities that
divide 2^(W-1) (`OneSlotEachIff`). `gen_gte_msb_masked` is described as distance < MAX/4 and also accepts
MAX/4 (`GteTruthfulIff` has the exact range). A null pointer from fold insertion is described as a full
table; exactly the removal of a key from a slot that the call has already found taken can make it mean
less (`MisleadsIffProbedCleared`, with a run in `NullWithoutFull`). `resume_at` and `set_reader_gen` check a
generation from below only (`ResumeReaderAt` and `SetReaderGen` say when the state stays valid).

## Model

| member | source | states |
|---|---|---|
| Arithmetic.DistIsDifference | src/arithmetics.rs:20-22 | For any two generations, the masked distance is their difference modulo 2^(W-1) |
| Arithmetic.DistExact | src/arithmetics.rs:20-22 | The masked distance is the true one whenever the first is ahead by less than a full turn, also across a wrap |
| Arithmetic.AddExact | src/arithmetics.rs:36-38 | Masked addition commutes with masking: generations never lose count |
| Arithmetic.GteTruthfulIff | src/arithmetics.rs:27-32 | Within a full turn the comparison tells the truth if and only if the generations are within a quarter of the word range |
| Arithmetic.CompareExact | src/arithmetics.rs:27-57 | All four comparisons and equality are exact in a window narrower than 2^(W-2) |
| Arithmetic.MaskInjective | src/area.rs:346-354 | A CAS on masked words compares equal exactly when the unbounded generations are equal |
| Arithmetic.EncodeFaithful | src/area.rs:24-36 | The suspended bit can be set, tested and stripped without touching the generation, and two words are equal only if generation and bit are |
| Arithmetic.OneSlotEachIff | src/area.rs:275-285 | Every window of buffer_capacity generations has a ring slot each, across wraps, if and only if the capacity divides 2^(W-1) |
| Arithmetic.SourceWidths | src/arithmetics.rs:1-15 | The constants of the two word types, u64 and u32 |
| Preservation.StepKeeps | src/area.rs:320-829 | Every atomic step of every writer, reader and cleaner keeps the invariant |
| Theorems.RunInv | src/area.rs:320-829 | The invariant holds in every state of every interleaving |
| Theorems.CountersOrdered | src/area.rs:320-437 | free_gen <= last_valid_gen <= read_gen <= write_gen <= free_gen + capacity, although a reserver decides from two separate loads |
| Theorems.OwnSlotAndValue | src/area.rs:275-285 | Generations in use never share a ring slot, and a published, undropped one still holds its writer's value |
| Theorems.NoActiveReaderLosesAMessage | src/area.rs:684-763 | last_valid_gen never passes any table slot, keyed or not; what an active reader has not passed is neither dropped nor won by a cleaner, and is in the ring |
| Theorems.SuspendedUntilActivated | src/area.rs:452-508 | A slot whose key is EMPTY or whose reader has not entered yet is suspended |
| Theorems.EntersInsideTheWindow | src/area.rs:487-506 | Only the owner's own CAS clears the suspended bit, and it enters between last_valid_gen and read_gen as they are at that moment, not behind the forced minimum |
| Theorems.GenerationsOnlyGrow | src/area.rs:553-663 | No step of anybody moves a slot's generation back, and only its owner changes an active slot |
| Theorems.ReaderGetsTheStretch | src/area.rs:1594-1603 | What an active reader's armed slices handed it since its entry is exactly the contiguous stretch of the log from there, in order, each message once, with the value stored |
| Theorems.SliceReadsTheLog | src/area.rs:1689-1718 | As long as a slice is alive each index of it reads the value stored for that generation, under concurrent cleanup and slot reuse |
| Theorems.SliceDropFindsItsReader | src/area.rs:1665-1673 | The generation-mismatch panic of an armed slice is never reached |
| ReaderCalls.ReadLoads | src/area.rs:1689-1735 | The load of read_gen in a read: the slice starts at the reader's generation and reaches to read_gen at that step, for read_at_most to n messages or read_gen, whichever comes first; read_with_check holds one exactly if something unread is published |
| ReaderCalls.ReadAnswers | src/area.rs:1689-1718 | A call of read or read_at_most ends with such a slice and in no other way, whatever other threads do meanwhile |
| ReaderCalls.CheckedReadAnswers | src/area.rs:1728-1756 | A call of read_with_check ends with a non-empty slice, without one and without an error only after counting a writer, or with ReadError only after counting none and then finding nothing again |
| ReaderCalls.CountCheckDecides | src/area.rs:1741-1755 | From the count check on: with a writer counted there is no error; with none, ReadError if and only if read_gen is then still the reader's generation, and otherwise the slice up to it |
| ReaderCalls.DropAdvances | src/area.rs:1659-1677 | Dropping an armed slice ends with the reader at the slice's end and has handed it exactly the messages logged for the slice, in order, on top of what it had |
| ReaderCalls.EnteringAnswers | src/area.rs:487-506 | Registering and resuming end with an active reader, not behind where it was left and at the entry asked for; only resume_at can come back without entering, if its entry had been forced past |
| ReaderCalls.EntryActivates | src/area.rs:599-626 | The step that ends a registration or a plain resumption leaves the reader active at the generation its word had |
| ReaderCalls.SuspendAnswers | src/area.rs:577-595 | Suspending ends suspended, not behind where the reader was |
| ReaderCalls.LeaveAnswers | src/area.rs:666-679 | Unregistering keeps the key until the word is suspended, and ends with the key gone |
| Delivery.EverySequenceIsDelivered | src/area.rs:1178-1187 | For every ring and table size and every sequence of messages there is a run that reserves, writes and publishes them and hands a registered reader exactly this sequence |
| Theorems.PublishedIsFixed | src/area.rs:409-437 | A published message stays published and its value and author never change |
| Theorems.ReadErrorIsFinal | src/area.rs:1728-1756 | When read_with_check returns ReadError, every message an AreaWriter ever publishes lies below the reader's generation, wherever publishes and writer drops fell between its loads |
| Theorems.NoWritersStay | src/area.rs:886-892 | Once writers_count is zero it stays zero |
| Theorems.ScannedStayAhead | src/area.rs:692-763 | Half-finished scans: every slot a cleaner has passed stays at or beyond its running minimum, however readers move meanwhile |
| Theorems.WonRangesTile | src/area.rs:757-784 | The ranges won and not yet freed cover [free_gen, last_valid_gen) without gap or overlap; each generation below free_gen has been dropped exactly once, none at or above last_valid_gen has |
| Theorems.FreedAfterDropped | src/area.rs:773-814 | free_gen only moves over generations that have been dropped exactly once by then |
| Theorems.SomeCleanerCanFree | src/area.rs:786-814 | Whenever something won is not freed, the first pending cleaner drops a message or its free_gen CAS succeeds |
| Theorems.RetryShrinksTheGap | src/area.rs:749-828 | A failed CAS on last_valid_gen means the counter has grown, so the gap up to new_last_valid strictly shrinks whatever other cleaners do |
| Theorems.ForcingShrinksTheGap | src/area.rs:709-737 | A failed forcing CAS on a slot that is still suspended means its generation has grown, so the gap up to min_held_gen strictly shrinks |
| Theorems.ReservationsTile | src/area.rs:1227-1254 | The non-empty unpublished reservations, split ones included, tile [read_gen, write_gen) |
| Theorems.ExactlyOneCanPublish | src/area.rs:1178-1187 | Whenever anything is unpublished exactly one reservation can publish; an attempt on any other changes nothing |
| Theorems.ReservationsFit | src/area.rs:320-363 | A reservation whose CAS can succeed fits the ring, and the free_gen a reserver loaded never exceeds write_gen |
| WriterCalls.ReserveLoads | src/area.rs:323-332 | On its two loads f and v a reserver asks for all n slots if v + n <= f + capacity and else for none, with best effort for as many as fit |
| WriterCalls.ReserveCas | src/area.rs:346-354 | With write_gen unmoved the CAS adds exactly the stretch asked for, for the caller's handle; otherwise nothing |
| WriterCalls.ReserveAnswers | src/area.rs:320-405 | Every reserving call ends with exactly the slots it asked for, or refused because nothing fits, or because write_gen had moved, whatever other threads do meanwhile |
| WriterCalls.SplitHalves | src/area.rs:1227-1254 | Splitting at n leaves a left half of length n and the rest, in place and for the same handle |
| WriterCalls.PublishMoves | src/area.rs:409-437 | Publishing moves read_gen to the reservation's end and uses it up exactly if it is next in line; otherwise nothing changes |
| CleanerCalls.CleanupAnswers | src/area.rs:684-829 | Every cleanup among other cleaners ends having won, dropped and freed up to read_gen or an active reader's generation as found during the call, or gives up because last_valid_gen had reached that |
| CleanerCalls.AdvanceDecides | src/area.rs:749-828 | A CAS on last_valid_gen that finds the counter moved is retried exactly as long as there is something left to win |
| Cleanup.ScanMinIsLeast | src/area.rs:692-747 | The scan arrives at the least of read_gen and the active generations: at most each of them and equal to one |
| Cleanup.ScanWordsAt | src/area.rs:709-743 | A scanned suspended slot is raised to the maximum of its old generation and the running minimum at that moment; active slots are unchanged |
| Cleanup.UndisturbedCleanup | src/area.rs:684-829 | A cleanup that runs undisturbed past the early check leaves last_valid_gen and free_gen at that least generation, the slots scanned as above, and every other counter and thread alone |
| Exclusive.LoneCleanerAgrees | src/area.rs:757-814 | A cleanup that is the only one under way, among any number of threads: no assert of the Exclusive form fails, and each step is the CAS form's step or a passed assert in front of a CAS that would succeed |
| Exclusive.ExclusiveAgrees | src/area.rs:418-436 | As long as one cleanup, one reserving and one publishing call are under way at a time, the Exclusive form has a step exactly when the CAS form has, and it is the same step or a passed check in front of it |
| Exclusive.ExclusiveRunsAreRuns | src/area.rs:334-362 | Every such run of the Exclusive forms, checks and stores interleaved with readers, goes through the states of a run of the CAS forms, and at no point does an assert fail |
| Simulation.GoSimulates | src/area.rs:553-663 | Each register, resume, read, suspend, advance and unregister step on the masked word is the masked image of the unbounded step |
| Simulation.CleanSimulates | src/area.rs:684-829 | Each cleaner step, CAS outcomes included, is the masked image of the unbounded step, for every capacity; its effect on the ring is the same where ring indices survive masking |
| Simulation.StepSimulates | src/area.rs:320-829 | When all counters and snapshots lie in a window of 2^(W-2), the machine on W-bit words takes a step exactly when the unbounded one does, and everything but the ring is then the masked form of its result, for every capacity and whatever is in the ring; the rings agree too where ring indices survive masking |
| Simulation.RecentIsEnough | src/area.rs:684-829 | That window exists in every invariant state in which no thread's own snapshot is 2^(W-2) old: counters, slots and reservations need no assumption |
| Simulation.WrappedRunRefines | src/arithmetics.rs:20-57 | For every capacity, every run on W-bit words is, state for state and up to the ring, the masked form of the unbounded run by the same steps; the rings are the same as long as ring indices survive masking |
| Simulation.WrappedReadersKeepTheirMessages | src/area.rs:282-285 | On W-bit words, for a capacity dividing 2^(W-1): the slot computed for a message an active reader has not passed holds the value stored for it |
| Simulation.WrappedRunIsARun | src/area.rs:213-228 | A run on W-bit words from a fresh area is the image of a run that all theorems apply to |
| Simulation.WrappedReaderGetsTheStretch | src/area.rs:1594-1603 | On W-bit words, where ring indices survive masking: an active reader's word stands at the end of the contiguous stretch of the log it has been handed |
| Simulation.WrappedDropsOnce | src/area.rs:757-784 | On W-bit words: the drop of each generation behind free_gen has been carried out exactly once, from last_valid_gen on never, and of none twice |
| Simulation.WrappedReadErrorIsFinal | src/area.rs:1728-1756 | On W-bit words: after ReadError no generation from the reader's on is ever published by an AreaWriter |
| Tournament.ExactlyOneDestroyer | src/area.rs:1427-1501 | Never two destroyers, and exactly one once every handle is gone and its destructor has finished |
| Tournament.NobodyElseMoves | src/area.rs:1066-1096 | From the moment a thread starts freeing, every other destructor is done, the table is empty, and only the destroyer has a step left |
| Tournament.DropsNeverStick | src/area.rs:1462-1472 | A destructor that waits for the keep-alloc tickets waits for a thread that can move |
| Tournament.OverlapCanDestroyEarly | src/area.rs:832-844 | A run in which a reader registers in a slot that a scan has just passed, and the area is destroyed with that reader alive |
| DropProgress.DestructorsFinish | src/area.rs:1427-1501 | Without new handles, destructors take boundedly many steps that change anything |
| DropProgress.RunDown | src/area.rs:1066-1096 | From every state in which nothing is freed yet, dropping the handles alive leads to a destroyer |
| Overlap.EndsBadlyIffOverlap | src/area.rs:1437-1440 | After any step, some continuation without further overlap destroys the area under a live reader if and only if the step was a registration in a slot that a running scan has passed |
| Overlap.CreatingApartIsSafe | src/area.rs:1437-1440 | If no reader is created while a destructor scans the table: never two destroyers, one in the end, and never one while a reader is alive |
| Teardown.DeedKeeps | src/area.rs:1427-1501 | Every call through a live handle, creation, destructor step and step of the final cleanup keeps protocol and tournament together |
| Teardown.LifeIsARun | src/area.rs:320-829 | The protocol's states in the life of an area are those of a run, to which all theorems apply |
| Teardown.DestroyerFindsItDeserted | src/area.rs:1478-1487 | The elected destroyer finds every slot unkeyed and suspended, no writer, call or reservation left, and read_gen at write_gen |
| Teardown.OnlyTheDestroyerActs | src/area.rs:1066-1096 | From the election on nothing happens to the area but the destroyer's cleanup and freeing |
| Teardown.FinalAssertsHold | src/area.rs:1481-1487 | No assert of the destroyer's Exclusive cleanup fails, for any number of earlier cleaners and reservers, and its steps are those of the CAS form |
| Teardown.FreedDroppedExactlyThePublished | src/area.rs:1078-1092 | When the area is freed exactly the messages ever published have been dropped, each exactly once, and none was left reserved |
| Teardown.DestroyerFinishes | src/area.rs:1485-1498 | The final cleanup always has a next step, takes boundedly many, and then the area is freed |
| Completion.EveryLifeCanEnd | src/area.rs:320-829 | Whatever has happened, the calls under way can be finished, the reservations filled and published, the handles dropped and the area freed: no state is a dead end |
| Completion.SomeLifeBegins | src/area.rs:1830-1848 | For every ring and table size and any number of concurrent calls there is such a life |
| ReaderTable.FoldedIsAtHome | src/map.rs:281-290 | The folded key is at home in the slot the probing reached, also where it wraps, is zero, or is just the flag |
| ReaderTable.OneProbeIsEnough | src/area.rs:511-540 | An id is live exactly when its home slot shows it, so one probe decides and live ids are distinct |
| ReaderTable.InsertAdds | src/map.rs:279-300 | Claiming an EMPTY slot adds one fresh id to the map from ids to slots and changes nothing else |
| ReaderTable.RemoveDrops | src/map.rs:357-372 | Clearing a slot removes that slot's id and nothing else |
| ReaderTable.KeyStepKeeps | src/map.rs:255-378 | Each atomic update of any thread is the corresponding update of the finite map |
| ReaderTable.AlwaysAtHome | src/map.rs:255-378 | After any sequence of inserts and removals every stored key is at home |
| ReaderTable.ProbesCover | src/map.rs:276-319 | capacity probes from any start visit every slot |
| ConcurrentInsert.ClaimAddsAFreshId | src/map.rs:291-300 | However others interfere, a successful insertion adds one id that was not in the table, at home in the slot it reports |
| ConcurrentInsert.NullMeansFullOrCleared | src/map.rs:276-322 | Among any updates of other threads, a null pointer after a probe of the whole table means a full table, or that a slot the call had found taken was cleared since |
| ConcurrentInsert.MisleadsIffProbedCleared | src/map.rs:276-322 | After any event of a call that probes the whole table, some harmless continuation returns a null pointer on a table that is not full if and only if the event cleared a slot already probed |
| ConcurrentInsert.CallEnds | src/map.rs:276-319 | A call has ended after at most two steps of its own for each slot to be probed, whatever other threads do |
| ConcurrentInsert.CallSucceeds | src/map.rs:276-319 | A call that probes the whole table and has ended has claimed a slot, if the table is not full and no slot it had found taken was cleared |
| ConcurrentInsert.FullMeansNull | src/map.rs:276-322 | On a table that is full from the start a call never claims a slot unless something is removed during it |
| ConcurrentInsert.NullWithoutFull | src/map.rs:276-322 | A run on two slots that returns a null pointer although the table is never full |
| ReaderTable.SimpleLPHashMap.GetOrInsertConcurrent | src/map.rs:255-323 | For every offset and number of probes: fold insertion takes the first EMPTY slot probed and fails exactly when there is none; lookup finds a key exactly when it is live and its slot is probed |
| ReaderTable.SimpleLPHashMap.RemoveConcurrent | src/map.rs:347-378 | For every offset and number of probes: removes exactly the given id if its slot is probed, and reports it |
| ReaderTable.SimpleLPHashMap.FinishInitAt | src/map.rs:331-339 | Clears IN_PROGRESS of that slot and changes no id |
| ReaderTable.SimpleLPHashMap.Register | src/area.rs:452-485 | Any seed gives a fresh non-zero id that leads to its slot in one probe, or nothing because every slot is taken |
| ReservationIter.ReservationSlot.Write | src/iter.rs:29-38 | Stores once, in this slot's own ring cell, counted once; a second write is refused and changes nothing |
| ReservationIter.ReservationIter.constructor | src/iter.rs:253-276 | The hand-over yields an iterator over exactly the reservation's generations, nothing yielded or written |
| ReservationIter.ReservationIter.Next | src/iter.rs:199-218 | Yields the next generation once, and nothing exactly when all have been yielded |
| ReservationIter.ReservationIter.Publish | src/iter.rs:136-153 | Past the assert every generation of the reservation has been yielded once, written once and is in its ring cell; read_gen moves exactly when the reservation is next in line, by CAS or by the Exclusive store, with the error each form names |
| AreaInner.AreaInner.TryReserveSlots | src/area.rs:320-363 | On W-bit words, both forms, for any two earlier loads: NoSpace, FailedGrab and success exactly when they should be, and a granted stretch fits the ring as it is then |
| AreaInner.AreaInner.TryReserveSlotsBestEffort | src/area.rs:368-405 | Both forms, for any two earlier loads: grants the minimum of n and what they leave, (0, 0, 0) if that is nothing, or fails exactly when write_gen has moved |
| AreaInner.AreaInner.SetReaderGen | src/area.rs:553-573 | For any generation, however far away: exactly when it is refused, and with which error; close by, an active reader moves strictly forward or not at all; the state stays valid if and only if it was not moved outside the valid generations |
| AreaInner.AreaInner.ResumeReaderAt | src/area.rs:631-663 | For any generation, however far away: exactly when it is refused, and with which error; close by, unless the word has been forced past it; the state stays valid if and only if the entry is a valid generation |
| AreaInner.AreaInner.PublishSlots | src/area.rs:409-437 | Both forms succeed exactly for an empty range or the one at read_gen, and otherwise fail with the error of the form |
| AreaInner.AreaInner.SuspendReader | src/area.rs:577-595 | Sets the flag and keeps the generation; reports a reader already suspended |
| AreaInner.AreaInner.ResumeReader | src/area.rs:599-626 | Clears the flag at the generation cleanups have left |
| AreaInner.AreaInner.Scan | src/area.rs:692-747 | The scanning loop on encoded words computes the least generation held and raises the suspended words |
| AreaInner.AreaInner.DropRange | src/area.rs:776-784 | Empties exactly the cells of the won range, oldest first |
| AreaInner.VacatedAt | src/area.rs:776-784 | Cell by cell: those of the won range are vacant, the rest of the ring is untouched |
| AreaInner.AreaInner.TryCleanupOldSlots | src/area.rs:684-829 | The whole cleanup on W-bit words: NothingToClean exactly when there is nothing below the least held generation, otherwise both counters move there and the messages below are dropped |

## Left out

- Weak memory ordering: every atomic operation is one step of a sequentially consistent interleaving.
- Raw pointers, allocation, layout and padding (`src/storage.rs`, `src/cache_padded.rs`): a ring cell is vacant or holds a value, and freeing the area is one event.
- Types without drop glue (`needs_drop` false): messages are always dropped.
- Conversions between usize and the generation type: requests and capacities fit the type.
- Random seeds: a seed is any number of the word range.
- SPIN_LIMIT panics, unwinding, `mem::forget`, disarmed slices and reservations, and moving a reader by hand.
- `publish_spin` and fairness: a spinning loop is a sequence of failed attempts; that some thread can move is proved, that it will is not.
- Insertion with `fold == false`: the area never uses it, and `src/map.rs` warns of duplicates.
- Several `ReservationSlot`s alive at once: `Next` is used the way `src/iter.rs` describes.
- Empty reservations: they are not tracked, since publishing or splitting off an empty range changes nothing.
- Reader errors ReaderNotFound: an `AreaInner` method is called on the slot the table lookup found.
- Bulk views of a slice (`as_slices`), iterator adaptors, macro and trait forwarding, examples and benchmarks.
- AreaInner.AreaInner.Scan: one thread undisturbed, so a forcing CAS does not fail and is not retried; `Protocol` has the retry.
- AreaInner.AreaInner.TryCleanupOldSlots: one thread undisturbed, so each CAS is a store and the retry loops run once; interference is the subject of `Protocol`, `Preservation` and `Theorems`.
- AreaInner.AreaInner.ResumeReaderAt: one thread undisturbed, so its CAS does not fail and is not retried; `Protocol` has the retry.
- ReaderTable.SimpleLPHashMap.GetOrInsertConcurrent: the class is undisturbed; insertion among other threads' updates is in `ConcurrentInsert`.
- ReaderTable.SimpleLPHashMap.RemoveConcurrent: undisturbed, so its CAS does not fail; the key is its caller's alone.
- Exclusive.ExclusiveAgrees: which of the two publish errors is named is not part of the states compared.
- Tournament.ExactlyOneDestroyer: assumes that no reader registers in a slot a destructor's scan has passed; `EndsBadlyIffOverlap` shows that this is exactly what is needed.
- Teardown.FreedDroppedExactlyThePublished: a reservation borrows its handle until it is published, so disarmed reservations that are thrown away are not covered.
- Simulation.WrappedRunRefines: assumes that no thread holds a snapshot 2^(W-2) generations old; the contents of the ring are compared only while ring indices survive masking.
- Theorems.ReaderGetsTheStretch: for readers that read only while active and resume no later than read_gen; a suspended reader holds no claim.
