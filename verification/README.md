# Verified models of six OSKit components

This project models, in Dafny, the parts of the OSKit whose correctness is least obvious from reading
them, and proves what they promise:

- **The address map manager** (`amm/`): a linked list of entries that tiles a 32-bit address space, with
  a lookup hint. The list is modelled as linked objects; its meaning is a function from addresses to
  flags. `Extents` and `ExtentEdits` hold the theory of tilings, `AddressMap` the object, `AmmFind` the
  aligned search, `AmmSimple` the simple interface, and `AmmRuns` what no sequence of calls can do.
- **The clock** (`dev/clock.c`): the differential callout queue and the tick handler. `Callout` is the
  queue as a value, `ClockMachine` a state machine whose steps interleave ticks with listeners,
  `ClockTicks` what one tick does, `ClockPeriods` when and how often a timer is notified over whole runs,
  `ClockOrder` in which order timers are, and `Clock` the object. The object carries its history, which is a
  run of the machine, so that theorems about runs are theorems about the object.
- **The access vector cache** (`com/avc.c`): `AvcProtocol` is the cache, its security server, delayed
  decisions and ordered notifications as a protocol; `AvcChains` and `AvcReclaim` are the hash chains and
  the second-chance reclamation; `AvcCache` is the object; `AvcService` puts object and protocol together, and
  carries its history as a run of the protocol.
- **The pipe** (`com/pipe_io.c`): `PipeMachine` interleaves any number of threads that read and write on both
  ends, at the granularity of the shared lock and with one condition variable for each end. `PipeCalls`
  is about the bytes that each call transfers, `PipeWakeups` about the sleepers that signals reach,
  `PipeMarks` about the flags that tell of them, `PipeClose` about what becomes of calls when the other end
  closes, `PipeLimits` has runs that show what the code does not promise, and `PipeSide` the copy loops.
- **The persistent label store** (`com/filepsid.c`): `PsidTable` and `FilePsid`.
- **Arithmetic**: the random number generator (`com/random.c`, in `Random` and `RandomTable`), and the
  Internet checksum with the headers it goes into (`bootp/udp.c`, in `Checksum`).

`Common`, `Distinctness` and `Alignment` hold what several of these share.

Main results:

1. A successful modify changes the flags of exactly its range, and a map changed only by modifies is the
   unique minimal list for its meaning; so modifies of disjoint ranges commute and can be undone, entry by
   entry (`AddressMap.Amm.Modify`, `Extents.MinimalUnique`, `AmmRuns.ModifiesCommute`).
2. The aligned search returns the least address that suits, spanning entries where it has to, and is a
   function of the map (`AmmFind.FindGen`).
3. In every run of allocate, deallocate, protect and reserve, allocations overlap only where something was
   freed in between, and stay off reserved space (`AmmRuns.NoDoubleAllocation`, `AmmRuns.ReservedForGood`).
   Any sequence of calls on the object is such a run, event by event with what the calls return
   (`AmmRuns.Serve`).
4. A timer that is first due in count n and has the period r is notified in the counts n, n + r, n + 2r, ...
   and in no other, whatever else is armed, removed, expired or reloaded meanwhile (`ClockPeriods.Cadence`),
   and a tick notifies every due timer once (`ClockTicks.TickNotifiesExactly`). A timer for every tick is
   notified once in every tick that starts after it was armed (`ClockPeriods.EveryTickNotifies`). Of two
   timers due in the same count the one armed later is notified first (`ClockOrder.LaterArmedFirst`).
5. Whenever the cache has seen all notifications, every cached decision agrees with the policy, although
   decisions may arrive arbitrarily late (`AvcProtocol.Coherent`, `AvcService.Service.Serve`).
6. Whatever other calls are in progress, a write call puts in the bytes it was given, in order
   (`PipeCalls.WritesItsData`), and a read call takes what it was asked for or all there is
   (`PipeCalls.ReadReturns`). A pipe conserves its bytes in both directions for any number of threads
   (`PipeMachine.BytesConserved`), and as long as at most one thread waits on each end, readers and writers
   taken together, no wakeup is lost (`PipeWakeups.NoLostWakeup`); one call at a time on each end is enough
   for that (`PipeWakeups.OneCallEach`).
7. The table that a new random number generator starts with is the one that seeding with 1 gives, word by
   word (`RandomTable.InitialIsSeededWithOne`); what is drawn are the terms of the recurrence.
8. A reopened label store has the table it had, and every file the label it was given last
   (`FilePsid.Store.Reopen`, `FilePsid.Serve`).

Some properties hold only on a condition. Each of these has its exact condition, and where that is not an
if-and-only-if over all inputs, an input or a run outside it:

- Setting a timer leaves the others alone exactly when the ticks are not negative or there is no other
  timer (`Callout.InsertKeepsOthersIff`).
- A timer armed for every tick by a listener of an every-tick timer is passed over by the tick it is armed
  in, while one armed for one tick is not; `ClockPeriods.FirstDue` has all cases.
- Reclaiming a node is an eviction of the protocol exactly when an earlier node of the chain has the same
  key, or the next one that has it, if any, has the same entry (`AvcCache.ReclaimEvictsIff`); pushing a node
  keeps keys unique exactly when the key was not cached (`AvcCache.PushedUniqueIff`). Calls that bring a
  revoked permission back are `AvcCache.TwinReappears`.
- No wakeup is lost as long as at most one thread waits on each end. With two readers, two writers, or a
  reader and a writer waiting on one end, which share its condition variable, one can be
  (`PipeLimits.TwoReadersLoseWakeup`, `PipeLimits.TwoWritersLoseWakeup`,
  `PipeLimits.ReaderAndWriterLoseWakeup`).
- A close leaves nobody asleep as long as at most one thread waits on each end
  (`PipeClose.CloseLeavesNobodyAsleep`). If two sleep there, a reader among them, the close can leave the
  reader asleep (`PipeClose.CloseForgets`), and then for good (`PipeClose.AsleepForGood`); a run is
  `PipeLimits.ReaderLeftBehind`.
- When the other end closes, the only write call in progress never returns if what it has left does not fit
  (`PipeClose.NoRoomNeverReturns`). If it fits, the call ends within nine steps of its own without sleeping
  (`PipeClose.RoomReturns`), unless the close leaves it asleep. `PipeLimits.WriterLeftBehind` is a run of the
  first kind.
- Relabelling a file system keeps the label cache right exactly when no cached inode has a reserved psid
  whose identifier changes (`FilePsid.Store.SetFs`, `FilePsid.RelabelMissesCache`).
- A search that fits nowhere, of a size that fits in the 32-bit space together with one unit of alignment,
  fails an assertion instead of returning nothing exactly when a restart leaves the space. In a fresh map
  that is when the request reaches past the space from the first free address on (`AmmSimple.FreshSafe`,
  `AmmSimple.FirstAllocation`).
- What a search finds always suits exactly when the size and one unit of alignment fit in the 32-bit space
  together (`AmmFind.TrustedIff`).
- A range of matching addresses is hidden from the search exactly when an empty entry inside it does not
  match (`AmmFind.SuitsFits`). Calls that lead to such a map are `AmmSimple.ReserveNothing`.
- The documentation (`doc/amm.tex`, line 794) promises that the entry a search returns contains the range.
  The code returns the entry in which the search started last. In maps without empty entries all searches of
  an alignment return an entry that contains at least the start of the range exactly when there is no
  alignment (`AmmFind.ReturnsCoverIff`). An exact search always does (`AmmFind.ReturnsCovering`), and an empty
  entry can be returned (`AmmFind.EmptyEntryReturned`).
- An allocation failure in the middle of a modify keeps the map intact exactly when nothing had been deleted
  yet (`AddressMap.Amm.Modify`).

Integers are unbounded in the model. Where the width matters it is written out: addresses wrap at 2^32,
the words of the generator are taken modulo 2^32, and the intermediate results of the seeding generator
are shown to fit 32 bits. Access vectors are sets of bits.

## Model

| member | source | states |
|---|---|---|
| `Extents.IndexOf` | amm/amm_find_addr.c:41-58 | every address of a tiled space is covered by an entry, whose flags are those of the address |
| `Extents.MinimalUnique` | amm/amm_modify.c:125-155 | two minimal tilings with the same flags everywhere are the same list |
| `ExtentEdits.SplitKeeps` | amm/amm_split.c:48-82 | a split keeps the tiling and the flags of every address |
| `ExtentEdits.JoinKeeps` | amm/amm_join.c:41-69 | a join of neighbours with equal flags keeps the tiling and the flags of every address |
| `ExtentEdits.ModifiedOverrides` | amm/amm_modify.c:46-159 | the modified list tiles the space and has the new flags on the range and the old ones elsewhere |
| `ExtentEdits.ModifiedSolid` | amm/amm_modify.c:46-159 | a modify of a non-empty range leaves no empty entry |
| `ExtentEdits.ModifiedMinimal` | amm/amm_modify.c:125-155 | a modify of a non-empty range keeps the map minimal: no two neighbours with equal flags |
| `ExtentEdits.LeftoverOutcome` | amm/amm_modify.c:72-115 | what an allocation failure leaves tiles the space exactly when nothing had to be deleted, and then means the same |
| `AddressMap.Amm.Gen` | amm/amm_init_gen.c:50-78 | a fresh map is one entry over the whole space |
| `AddressMap.Amm.FreeEntry` | amm/amm_free_entry.c:25-34 | a hint that leads to the freed entry falls back to the head of the list |
| `AddressMap.Amm.AllocEntry` | amm/amm_alloc_entry.c:25-31 | a new entry with the given range and flags, or a failure |
| `AddressMap.Amm.LiveLink` | amm/amm_free_entry.c:27-28 | a link of the list never leads to an entry that is off the list |
| `AddressMap.Amm.Split` | amm/amm_split.c:48-82 | the list after a split is the split list; nothing changes on failure |
| `AddressMap.Amm.Join` | amm/amm_join.c:41-69 | the list after a join is the joined list, the tail is gone, the hint is left alone |
| `AddressMap.Amm.FindAddr` | amm/amm_find_addr.c:25-66 | wherever the hint is, the entry found is the one that covers the address, and the hint then leads to it |
| `AddressMap.Amm.Scan` | amm/amm_find_addr.c:41-58 | the scan ends, and its assertion that it never comes back to the hint holds |
| `AddressMap.Amm.SplitFront` | amm/amm_modify.c:69-79 | what lies before the address is split off |
| `AddressMap.Amm.DeleteCovered` | amm/amm_modify.c:81-89 | exactly the entries that end before the end of the range are deleted |
| `AddressMap.Amm.SplitOff` | amm/amm_modify.c:91-100 | what lies after the range is split off |
| `AddressMap.Amm.Install` | amm/amm_modify.c:102-123 | a new entry over the range takes the place of the last covered one |
| `AddressMap.Amm.LinkTo` | amm/amm_modify.c:133-137 | the search from the head finds the link to the entry |
| `AddressMap.Amm.JoinBefore` | amm/amm_modify.c:125-143 | the new entry is joined with the one before it exactly when their flags agree |
| `AddressMap.Amm.JoinAfter` | amm/amm_modify.c:144-155 | the same for the entry after it |
| `AddressMap.Amm.JoinAround` | amm/amm_modify.c:125-157 | both joins, and a hint that leads to an entry |
| `AddressMap.Amm.Carve` | amm/amm_modify.c:69-123 | the list has the new entry between what came before and after the range, or what a failure leaves |
| `AddressMap.Amm.ModifyAt` | amm/amm_modify.c:69-158 | all phases together give the carved and joined list; a failure leaves a valid map exactly when the range lay in one entry or nothing changed |
| `AddressMap.Amm.ModifyHeld` | amm/amm_modify.c:46-159 | the contract of a modify, with the exact list, and the end that a caller still reads from the entry it held |
| `AddressMap.Amm.Modify` | amm/amm_modify.c:46-159 | EINVAL exactly for a range that wraps; success makes the list the modified one, entry by entry, which gives the range its flags, keeps all others and keeps a minimal map minimal; ENOMEM keeps the map valid exactly when nothing changed or the range lay in one entry |
| `AddressMap.ModifiedMeets` | amm/amm_modify.c:46-159 | the list that a modify computes has the meaning and the minimality that a modify promises |
| `Alignment.Align` | amm/amm_find_gen.c:48-49 | the least multiple at or above an address |
| `Alignment.RoundsByMask` | amm/amm_find_gen.c:48-49 | the rounded address is the mask expression in 32 bits: the conjunction of the sum that wraps and the complement of the mask |
| `Alignment.Align32` | amm/amm_find_gen.c:74 | a multiple of the unit in the 32-bit space; which one is stated by `RoundsByMask` |
| `AmmFind.SuitsFits` | amm/amm_find_gen.c:68-77 | a range whose entries all match has matching addresses; the converse fails exactly for an empty entry inside it that does not match |
| `AmmFind.SkipEntry` | amm/amm_find_gen.c:71-77 | past an entry that does not match, nothing suits before the next multiple after its end |
| `AmmFind.StandsRestarted` | amm/amm_find_gen.c:71-77 | a restart keeps the search exact, or leaves the space because nothing suits |
| `AmmFind.StopsRightly` | amm/amm_find_gen.c:59-90 | an entry that stops the search decides it rightly |
| `AmmFind.GoesOnRightly` | amm/amm_find_gen.c:59-90 | an entry that does not stop the search leaves it where it should stand |
| `AmmFind.WalksRightly` | amm/amm_find_gen.c:59-92 | from wherever the loop stands, it decides the search rightly |
| `AmmFind.TrustedIff` | amm/amm_find_gen.c:71-77 | for a size and an alignment, no search finds an address that does not suit exactly when both fit in 32 bits together |
| `AmmFind.WrapMisleads` | amm/amm_find_gen.c:71-90 | for every other size and alignment, a map and a search that finds address 0 although nothing suits |
| `AmmFind.ScanFrom` | amm/amm_find_gen.c:59-92 | the loop over the linked entries ends with the outcome of the scan of the map and the entry it started in last, and knows the link to the deciding entry |
| `AmmFind.ReturnsCovering` | amm/amm_find_gen.c:56-88 | the entry returned covers the address found in an exact search, and in one without alignment of a map without empty entries |
| `AmmFind.ReturnsCoverIff` | amm/amm_find_gen.c:71-77 | for an alignment, all searches of maps without empty entries return a covering entry exactly when there is no alignment |
| `AmmFind.EmptyEntryReturned` | amm/amm_find_gen.c:76 | a map in which an empty entry is returned |
| `AmmFind.FindGen` | amm/amm_find_gen.c:25-93 | the least multiple at or above the aligned hint that suits, possibly over several entries; none exactly when nothing suits and no restart leaves the space; an exact search tests one address; in all cases outcome and entry of the scan as a function of the map |
| `AmmSimple.Init` | amm/amm_init.c:29-42 | exactly the addresses between the bounds are free, all others reserved, in a minimal map |
| `AmmSimple.Allocate` | amm/amm_allocate.c:36-57 | for every map the lowest suiting range at or above the hint becomes allocated: all its addresses were free, and in a map without empty entries every lower one has an address that was not; when it is refused, when it fails an assertion, and what stays |
| `AmmSimple.FreshSafe` | amm/amm_allocate.c:45-47 | in a fresh map no restart of the search leaves the space exactly when the request does not reach past it from the first free address on |
| `AmmSimple.FreshFit` | amm/amm_allocate.c:45-47 | in a fresh map a request fits exactly when it ends within the bounds, and the first fit is the first free address at or above the hint |
| `AmmSimple.FirstAllocation` | amm/amm_allocate.c:36-57 | the first allocation after an init is placed at the hint, or at the lower bound if the hint is below it or none; it fails an assertion exactly when it is empty or reaches past the space from there, and has no fit exactly when it reaches past the upper bound |
| `AmmSimple.EmptyEntryHides` | amm/amm_find_gen.c:71-77 | a map with an empty reserved entry in which the search passes over a free range |
| `AmmSimple.ReserveNothing` | amm/amm_reserve.c:33-38 | calls that make such a map: an init, a reservation of nothing and the search |
| `AmmSimple.FreeInOneEntry` | amm/amm_allocate.c:48-52 | in a minimal map a free range lies in one entry, so that a failure keeps the map valid |
| `AmmSimple.Rewrite` | amm/amm_deallocate.c:40-59 | the loop ends, and changes exactly the allocated addresses of the range, or of a prefix when entries run out |
| `AmmSimple.RewriteNext` | amm/amm_deallocate.c:42-59 | a round moves the cursor on, or keeps it for one round after it has changed what it stands on |
| `AmmSimple.Deallocate` | amm/amm_deallocate.c:33-60 | the allocated addresses of the range become free and nothing else changes |
| `AmmSimple.Protect` | amm/amm_protect.c:37-68 | the allocated addresses of the range get the new protection and nothing else changes |
| `AmmSimple.Reserve` | amm/amm_reserve.c:33-38 | the range becomes reserved, and the list the modified one |
| `AmmSimple.EntryReaching` | amm/amm_select.c:59-65 | the loop ends at the entry in which the range ends |
| `AmmSimple.Select` | amm/amm_select.c:31-82 | entries end at both ends of the range, the first of them is returned, no address changes its flags |
| `AmmRuns.AllocationTakesFree` | amm/amm_allocate.c:45-52 | what is handed out was free and is allocated afterwards |
| `AmmRuns.AllocatesFromHint` | amm/amm_allocate.c:43-48 | what is handed out lies at or above the hint and was free; in a map without empty entries nothing lower at or above the hint was |
| `AmmRuns.ProtectionReaches` | amm/amm_protect.c:46-50 | after an allocate or a protect the addresses carry the bits of the protection asked for, the allocated bit and not the reserved one |
| `AmmRuns.StaysAllocated` | amm/amm_deallocate.c:33-60 | an allocated address stays so until it is freed or reserved |
| `AmmRuns.ReservedForGood` | amm/amm_reserve.c:33-38 | in every run a reserved address stays reserved and is never handed out |
| `AmmRuns.FreeAgainMeansFreed` | amm/amm_deallocate.c:33-60 | an allocated address that is free later was freed in between |
| `AmmRuns.NoDoubleAllocation` | amm/amm_allocate.c:36-57 | in every run two allocations overlap only where a deallocation came in between |
| `AmmRuns.AllocatesWithinBounds` | amm/amm_init.c:28-42 | in every run from a fresh map, allocations lie within the bounds given to it |
| `AmmRuns.ModifiesCommute` | amm/amm_modify.c:46-159 | modifies of disjoint ranges commute down to the entries |
| `AmmRuns.ModifyUndone` | amm/amm_modify.c:46-159 | setting a range back to its flags gives the same entries back |
| `AmmRuns.Perform` | amm/amm_allocate.c:36-57 | each call of the simple interface on the object is the event of its request with the result it returns, a free or protect with how far it got; unless it fails that event is a step of a run, and a call that reserves something and does not run out of entries keeps a minimal map minimal |
| `AmmRuns.Serve` | amm/amm_init.c:28-42 | any sequence of requests on a fresh map is a run of their events with the results returned, on through frees and protects that entries run out in, up to the first call that fails; the map is minimal until a call reserves nothing or runs out of entries |
| `Callout.InsertMeans` | dev/clock.c:324-346 | an inserted timer has its ticks remaining, every other timer what it had |
| `Callout.DeleteMeans` | dev/clock.c:351-369 | a removal takes out one timer and leaves every other what it had |
| `Callout.CountDownMeans` | dev/clock.c:221-228 | the count takes one tick off every timer that has one |
| `Callout.NoneDue` | dev/clock.c:234-235 | when the first timer is not due none is |
| `Callout.InsertKeepsOthersIff` | dev/clock.c:333-341 | an insertion keeps the other timers exactly when the ticks are not negative or there is no other timer |
| `ClockMachine.InvNext` | dev/clock.c:208-267 | every step of the handler, of listeners and of outside code keeps the invariant of the lists |
| `ClockMachine.WaitingNext` | dev/clock.c:221-267 | a waiting timer loses a tick in a count and in no other step |
| `ClockMachine.TicksRemaining` | dev/clock.c:374-396 | its remaining ticks are those it was armed for less the counts since |
| `ClockMachine.ExpiresOnTime` | dev/clock.c:208-267 | a timer that is not for every tick expires in the n-th count after it was armed, not before, and no tick ends later without it |
| `ClockPeriods.ScheduleNext` | dev/clock.c:208-267 | every step that does not set or remove a timer keeps it on its schedule, and an expiry comes in the count it is due in |
| `ClockPeriods.Cadence` | dev/clock.c:208-267 | in every run, for every tick count and period: a timer that is not set or removed expires in the counts first, first + r, first + 2r, ..., and between ticks was notified as often as the counts since call for |
| `ClockPeriods.StaysSynchronous` | dev/clock.c:289-318 | a timer on the every-tick list stays there until it is set or removed |
| `ClockPeriods.EveryTickNotifies` | dev/clock.c:217-219 | a timer armed for every tick is notified exactly once in every tick that starts after it was armed |
| `ClockOrder.OrderNext` | dev/clock.c:208-267 | every step that touches neither of two queued timers keeps their order, and the one behind does not expire before the one in front |
| `ClockOrder.LaterArmedFirst` | dev/clock.c:331-341 | in every run, a timer armed for no more ticks than another has remaining expires first: of two due in the same count the one armed later |
| `ClockOrder.EarlierDueFirst` | dev/clock.c:331-341 | a timer armed for more ticks than another has remaining expires after it |
| `ClockTicks.TrackNext` | dev/clock.c:208-267 | how each timer fares within a tick, step by step |
| `ClockTicks.TickNotifiesExactly` | dev/clock.c:217-266 | a tick notifies every-tick timers and due timers once and no others; a period of one moves a timer to the every-tick list, a longer one requeues it with that many ticks, the rest lose one tick |
| `Clock.Clock.AddSynchronous` | dev/clock.c:289-299 | the timer is in front of the every-tick list, and clocklist says so |
| `Clock.Clock.RemoveSynchronous` | dev/clock.c:304-318 | the timer is off the every-tick list; nothing happens to a list without it |
| `Clock.Clock.AddOneshot` | dev/clock.c:324-346 | the loop computes the insertion, for any tick count |
| `Clock.Clock.RemoveOneshot` | dev/clock.c:351-369 | the loop computes the removal |
| `Clock.Clock.TicksLeft` | dev/clock.c:374-396 | the ticks remaining, and zero for a timer that is not queued |
| `Clock.Clock.RemoveFromList` | dev/clock.c:401-418 | the timer is taken off the list that clocklist names, if any, and is then on none |
| `Clock.Clock.SetTime` | dev/clock.c:506-586 | the timer is taken off its list and, unless both counts are zero, armed; others are untouched |
| `Clock.CountPass` | dev/clock.c:221-228 | the loop computes the count, and whether anything is due |
| `Clock.Clock.SyncPass` | dev/clock.c:217-219 | the pass over the every-tick list ends whatever listeners do to other timers |
| `Clock.Clock.ExpireFirst` | dev/clock.c:234-265 | notifying and reloading a due timer leaves fewer due timers |
| `Clock.Clock.CalloutPass` | dev/clock.c:221-267 | the expiry loop ends and leaves no timer due |
| `Clock.Clock.HandleClock` | dev/clock.c:208-267 | one tick of the object is one tick of the machine, with the effect that `TickNotifiesExactly` states on every timer no listener touches |
| `AccessVectors.UpdateApplies` | com/avc.c:597-629 | updating a node does to each vector what the notification says, and nothing to the decided bits |
| `AccessVectors.FoldFollowsFate` | com/avc.c:597-629 | after a list of changes each bit is as the last change of it left it |
| `AccessVectors.FoldTwice` | com/avc.c:597-629 | changes applied again change nothing |
| `AvcProtocol.NewReplyWillAgree` | com/avc.c:489-495 | a decision not older than the latest notification is right once all notifications are applied, also those it already accounts for |
| `AvcProtocol.InvNext` | com/avc.c:477-510 | every step of server, network and cache keeps the invariant |
| `AvcProtocol.Coherent` | com/avc.c:672-719 | in every run, when all notifications have arrived, every cached entry agrees with the policy on its decided bits |
| `AvcProtocol.StaleReplyDisagrees` | com/avc.c:489-495 | a run in which accepting an older decision would leave the cache wrong |
| `AvcChains.Hash` | com/avc.c:142-143 | the hash is a slot number |
| `AvcChains.MixedAlone` | com/avc.c:142-143 | which bits of each part of a key reach the slot number, and where |
| `AvcChains.MixedTogether` | com/avc.c:142-143 | the parts are mixed bit by bit |
| `AvcChains.HashIs` | com/avc.c:142-143 | the hash is the number of the mixed bits |
| `AvcChains.WithoutMeans` | com/avc.c:346-352 | without one node the others keep their slots and are found as before |
| `AvcReclaim.ScanChain` | com/avc.c:330-338 | the marks before the first unmarked node of a chain are cleared |
| `AvcReclaim.Sweep` | com/avc.c:328-341 | a sweep from the hint stops at the first unmarked node, or clears all marks |
| `AvcReclaim.Choose` | com/avc.c:326-344 | two sweeps suffice; the panic is reached exactly when no node is cached |
| `AvcReclaim.ReclaimedMeans` | com/avc.c:320-355 | the node taken was unmarked if any node was, and no other is lost |
| `AvcReclaim.VictimIsNext` | com/avc.c:326-344 | the node taken is in the first slot at or cyclically after the hint that has an unmarked node, or any node if all are marked, and is the first such node of its chain |
| `AvcCache.Avc.Reclaim` | com/avc.c:320-355 | the first unmarked node in scan order, or the first node if all are marked, leaves the cache; the marks and the hint are as the scan leaves them |
| `AvcCache.Avc.Claim` | com/avc.c:358-387 | the chains are those after the node was taken, from the freelist or by a reclaim, with the entry pushed in front of its chain, for every key; the node counts stay right |
| `AvcCache.PushedUniqueIff` | com/avc.c:379-384 | pushing a node on a cache without duplicate keys leaves it without exactly when the key was not cached |
| `AvcCache.ReclaimEvictsIff` | com/avc.c:346-352 | taking a node out of a chain is an eviction exactly when an earlier node has its key, or the next one that has it, if any, has the same entry |
| `AvcCache.Avc.Insert` | com/avc.c:477-510 | refused exactly for a sequence number below the latest notification; otherwise the pushed chains, for every key, and an insertion of the protocol if the key was not cached |
| `AvcCache.Avc.Search` | com/avc.c:390-433 | the first node of the chain with the key, which is marked |
| `AvcCache.Avc.Lookup` | com/avc.c:436-474 | the entry exactly when its decided bits cover the request |
| `AvcCache.Avc.UpdateOne` | com/avc.c:655-665 | the entry of the key is updated, all others are not |
| `AvcCache.Avc.UpdateAll` | com/avc.c:643-654 | every node whose key agrees with the change, a wildcard on either side agreeing with everything, is updated, and no other |
| `AvcCache.Avc.Control` | com/avc.c:672-719 | a tried revocation takes away the permissions that are not retained and touches nothing else; any other change is made whole whatever is retained; keys it does not speak of stay; the latest notification number never decreases |
| `AvcCache.Avc.Flush` | com/avc.c:765-808 | all nodes are free again, nothing is cached |
| `AvcCache.TwinReappears` | com/avc.c:358-387 | calls on a cache of two nodes after which a revoked permission is found again: two insertions of one key, the revocation, and the insertion of another key |
| `AvcService.Service.Receive` | com/avc.c:477-510 | a decision is cached exactly when its key is not cached and it is not older than the latest notification; otherwise every lookup finds what it found |
| `AvcService.Service.Notified` | com/avc.c:672-719 | the next notification is delivered, and the cache does what it says |
| `AvcService.Service.Serve` | com/avc.c:477-510 | the history of the object is a run of the protocol, to which any sequence of changes, decisions, arrivals and deliveries adds exactly the acts of these events, in order; once all notifications have arrived what a lookup finds agrees with the policy |
| `PipeMachine.DataTaken` | com/pipe_io.c:244-267 | a round of the copy loop takes the front of the bytes |
| `PipeMachine.DataStuffed` | com/pipe_io.c:338-358 | a round of the write loop adds to the end and respects the limit |
| `PipeMachine.InvNext` | com/pipe_io.c:168-380 | every step of every thread on either end keeps the lock with one thread and the counts right |
| `PipeMachine.BytesConserved` | com/pipe_io.c:202-380 | in every run of any number of threads, for either end, bytes taken out followed by bytes queued are the bytes put in, in order, and never more than MAXPIPEBUF are queued |
| `PipeCalls.WriterStep` | com/pipe_io.c:328-376 | a step of a write call past its entry keeps what is put in followed by what is left; it ends with nothing left, and at its entry exactly on a closed or widowed end |
| `PipeCalls.BytesMoveOnlySo` | com/pipe_io.c:202-380 | bytes are put into an end only by writes on the other one, and taken out only by reads on it |
| `PipeCalls.WritesItsData` | com/pipe_io.c:338-358 | in every run, whatever other calls are in progress, a write call has put in, in order, the data it was given up to what is left |
| `PipeCalls.WriteReturns` | com/pipe_io.c:328-380 | a write that returns after its entry checks has put in all its data; one that returns at them has put in nothing, on a closed or widowed end |
| `PipeCalls.AloneWrites` | com/pipe_io.c:338-358 | with nobody else writing on the end, what was put into the other end since is the data up to what is left |
| `PipeCalls.OnlyReaderTakes` | com/pipe_io.c:243-267 | with nobody else reading on the end, what left it since is what the thread has taken |
| `PipeCalls.ReadsUpTo` | com/pipe_io.c:243-267 | in every run a read call has taken as many bytes as it counts, and wants the rest of what it was asked for |
| `PipeCalls.ReadReturns` | com/pipe_io.c:243-291 | a read that returns has all it was asked for, or left its queue empty, or was made on a closed end; with nothing taken it found the end of the stream |
| `PipeCalls.DeliversData` | com/pipe_io.c:202-380 | whatever is read of the first write on an end is the beginning of its data, in order |
| `PipeCalls.DropsLockForListeners` | com/pipe_io.c:272-276 | the lock is dropped after a round exactly when a listener of the other end is selected for it |
| `PipeMarks.MarksAlways` | com/pipe_io.c:234-236 | in every run of any number of threads an end is marked only while a thread waits there |
| `PipeMachine.EmptyReadMeansEnd` | com/pipe_io.c:228-237 | a read that wanted bytes returns none only when its end is empty and the other closed |
| `PipeWakeups.WakeNext` | com/pipe_io.c:168-380 | every step from a state with at most one waiter on each end keeps the relation between sleepers, marks and data |
| `PipeWakeups.SignalReaches` | com/pipe_io.c:280-286 | with at most one waiter on an end, a signal to it leaves nobody asleep there |
| `PipeWakeups.NoLostWakeup` | com/pipe_io.c:228-286 | for any number of threads, as long as at most one waits on each end: a sleeper is marked, and has nothing to do unless a thread is about to wake it |
| `PipeWakeups.OneCallEach` | com/pipe_io.c:228-286 | with at most one call in progress on each end that holds, and a reader and the writer that feeds it are never both asleep |
| `PipeClose.NoRoomNeverReturns` | com/pipe_io.c:328-376 | when the other end closes, the only write call in progress never returns if what it has left and what is queued exceed MAXPIPEBUF, whoever the signal reaches |
| `PipeClose.RoomReturns` | com/pipe_io.c:328-376 | otherwise, if the close does not leave it asleep, it never sleeps again and ends within nine steps of its own |
| `PipeClose.CloseLeavesNobodyAsleep` | com/pipe_io.c:190-194 | a close leaves nobody asleep as long as at most one thread waits on each end |
| `PipeClose.CloseForgets` | com/pipe_io.c:193-194 | from every state in which a reader and another thread sleep on an end, a close of the other can leave the reader asleep |
| `PipeClose.AsleepForGood` | com/pipe_io.c:228-237 | in every run a thread that is asleep when the other end is closed and out of use never wakes |
| `PipeClose.CloseStep` | com/pipe_io.c:168-197 | the close wakes a writer of the other end or leaves it as it is, and its load stays |
| `PipeLimits.WriterLeftBehind` | com/pipe_io.c:332-336 | a run from the initial state in which the other end closes on a write call that does not fit |
| `PipeLimits.ReaderLeftBehind` | com/pipe_io.c:190-194 | a run from the initial state in which the one signal of a close wakes a writer and leaves a reader of the same end asleep |
| `PipeLimits.TwoReadersLoseWakeup` | com/pipe_io.c:369-375 | a reachable state in which a second reader sleeps although data is there, and is not marked for a wakeup |
| `PipeLimits.TwoWritersLoseWakeup` | com/pipe_io.c:279-286 | a reachable state in which a second writer sleeps although there is room, and is not marked for a wakeup |
| `PipeLimits.ReaderAndWriterLoseWakeup` | com/pipe_io.c:369-375 | a reachable state in which a reader sleeps although data is there, and is not marked, because a writer of the same end got its signal |
| `PipeSide.Side.CopyOut` | com/pipe_io.c:240-287 | the copy loop yields the first bytes of the pipe, as many as wanted or there |
| `PipeSide.Side.StuffIn` | com/pipe_io.c:328-376 | the write loop appends as many bytes as there is room for |
| `PsidTable.BuildSearch` | com/filepsid.c:215-228 | a search finds the identifier of every psid, and zero for any other number |
| `PsidTable.BuildHolds` | com/filepsid.c:196-212 | the chains hold the table and nothing else |
| `PsidTable.BuildChange` | com/filepsid.c:248-264 | changing a node in place gives the chains of the changed table |
| `FilePsid.SearchSid` | com/filepsid.c:231-245 | a psid above the reserved ones with the identifier, or zero if there is none |
| `FilePsid.Store.NewPsid` | com/filepsid.c:267-332 | the next psid gets the identifier on disk and in memory; only an identifier without a context is refused |
| `FilePsid.Store.Init` | com/filepsid.c:437-455 | the two reserved psids |
| `FilePsid.Store.PsidFor` | com/filepsid.c:708-713 | a set uses a psid above the reserved ones, and makes one only if there is none |
| `FilePsid.Store.Set` | com/filepsid.c:690-730 | the inode has the identifier on disk and in the cache, other inodes keep theirs; a right cache stays right |
| `FilePsid.Store.Get` | com/filepsid.c:628-687 | the identifier an inode was given, cached or not; every psid on disk is defined; a right cache stays right |
| `FilePsid.Store.ChangePsid` | com/filepsid.c:733-836 | a reserved psid changes its identifier on disk and in memory, no other psid does |
| `FilePsid.Store.SetFs` | com/filepsid.c:839-856 | relabelling the file system keeps every psid but the reserved ones and so every given label; it keeps a right cache right exactly when no cached inode has a reserved psid whose identifier changes |
| `FilePsid.Store.ReadBack` | com/filepsid.c:494-542 | reading the index back rebuilds the table |
| `FilePsid.Store.Reopen` | com/filepsid.c:494-566 | a reopened store has the same table and next psid, an empty cache, which is right, and a file system identifier |
| `FilePsid.Serve` | com/filepsid.c:690-856 | after any sequence of sets, gets, relabellings and reopenings every inode has the identifier it was given last |
| `FilePsid.RelabelMissesCache` | com/filepsid.c:839-856 | an inode without a label that was looked up keeps the old answer until the store is reopened |
| `Random.GoodRand` | com/random.c:302-330 | for every 32-bit argument a number from 1 to 2^31-1 congruent to 16807 times it, with no step leaving 32 bits |
| `Random.StepsFollowRecurrence` | com/random.c:585-596 | the table always holds 31 consecutive terms of x[n] = x[n-31] + x[n-3] modulo 2^32 |
| `Random.Generator.constructor` | com/random.c:619-671 | the words of the initial table, with the pointers three places apart |
| `Random.Generator.Next` | com/random.c:565-601 | one step of the recurrence; the pointers stay three apart and in the table |
| `Random.Generator.Draw` | com/random.c:565-601 | n calls yield the next n terms of the recurrence without their last bits |
| `Random.Seeded` | com/random.c:357-359 | the first word is the seed, and each other word is 16807 times the one before, as a signed number, modulo 2^31-1 |
| `Random.SeededIsPower` | com/random.c:357-359 | word i is the seed times 16807^i modulo 2^31-1 |
| `Random.Generator.Seed` | com/random.c:344-368 | the seeded table cycled 310 times, with the pointers back where they were set |
| `RandomTable.InitialIsSeededWithOne` | com/random.c:339-341 | the initial table is the one that seeding with 1 gives |
| `RandomTable.DrawsAsSeededWithOne` | com/random.c:619-671 | a new generator draws the numbers of one that was seeded with 1 |
| `Checksum.OnesSum` | bootp/udp.c:44-48 | the ones' complement sum is the total modulo 65535, zero only for zeros |
| `Checksum.RunningIs` | bootp/udp.c:44-48 | adding words and taking 65535 off an overflow gives the ones' complement sum |
| `Checksum.IpChecksum` | bootp/udp.c:37-50 | the loop computes the complement of that sum over the 16-bit words |
| `Checksum.CheckPassesIff` | bootp/driver.c:116-119 | a check passes exactly when the words are not all zero and add up to a multiple of 65535 |
| `Checksum.StoredChecksumPasses` | bootp/udp.c:78-85 | a header passes once its checksum is stored in place of a zero word |
| `Checksum.OrderIndependent` | bootp/udp.c:44-48 | the order of the words does not matter |
| `Checksum.ByteOrderIndependent` | bootp/udp.c:37-50 | exchanging the bytes of every word exchanges those of the checksum (section 2 of RFC 1071) |
| `Checksum.FillHeaders` | bootp/udp.c:57-89 | every field of the IP and the UDP header, read back in network order, has the value it was given; the header passes the driver's check, and the rest of the buffer is left alone |

## Left out

- AmmRuns.Perform: a run ends at the first failed assertion, and at the first allocate or reserve that entries run out in.
- AddressMap.Amm.Modify: the caller-supplied new entry is not modelled, here and in `AddressMap.Amm.Install`; an empty range at AMM_MAXADDR, which fails an assertion of the lookup, is excluded.
- AddressMap.Amm.FindAddr: excludes AMM_MAXADDR itself, for which the assertion of the source fails.
- AmmSimple.Rewrite: the entry read after it may have been freed is modelled as still readable.
- Clock.Clock.HandleClock: requires listeners to leave the timer they are notified of alone and to arm others for at least one tick.
- Clock.Clock.SetTime: requires tick counts that are not negative.
- AvcCache.Avc.UpdateAll: is a delivery of the protocol only for keys without a wildcard; for others the updated nodes are stated.
- AvcCache.Avc.Control: does not model callbacks, but for the permissions they retain when a revocation is tried, which are a parameter.
- AvcCache.Avc.Insert: is an insertion of the protocol only for a key that is not cached yet and a cache without duplicate keys; for others the exact chains are stated.
- AvcService.Service.Serve: a decision for a key that is cached is dropped, and no callback retains permissions.
- PipeMachine.InvNext: an end is released only while no call on it is in progress, and a thread wakes only when it is signalled.
- PipeSide.Side.CopyOut: the copy loop alone; the notify window and the signal are steps of `PipeMachine`.
- PipeSide.Side.StuffIn: the write loop alone; the wait for room, the notify window and the signal are steps of `PipeMachine`.
- FilePsid.Store.Init: the labels of the labelling files themselves are not set.
- FilePsid.Store.Reopen: file errors, short reads and the labels of the labelling files themselves are not modelled.
- AMM hooks for splitting, joining and allocating, `align_off`, backward and best-fit searches, iteration.
- The conversion between times and ticks, reference counts and the COM interfaces of all components.
- AVC statistics, logging and auditing.
- The pipe's locks and condition variables, which are taken as atomic, and its asynchronous I/O interface.
- The seeding variant for weak seeds and generator types other than the default in `com/random.c`.
- All other directories of the OSKit: drivers, boot code, file systems, `diskpart/`, `com/sfs_*`, the queues of `com/`.
