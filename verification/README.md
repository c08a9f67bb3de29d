# Verified model of corosync's sort queue, timer list and member keys

This project models, in Dafny, the data structures and algorithms of the corosync client
repository that have bodies of their own, and proves what they are for.

- **The Totem sort queue** (`Uint32`, `SequenceOrder`, `SortQueueState`, `SortQueueRefinement`,
  `SortQueueHistory`, `SortQueueLimits`, `SortQueue`). A circular buffer addressed by 32-bit
  sequence ids that roll over. The class `SortQueue` keeps the structure and its three buffers and
  updates them in place; each method is proved to take the queue's value through a function of
  `SortQueueState`, which computes with the source's wrapping arithmetic. `SortQueueRefinement`
  proves that over every legal run these functions reply exactly as an ideal queue does: a map
  keyed by unbounded ids, with a miss count for each id of a window that slides up.
  `SortQueueHistory` tells these replies, the items and the highest slot from the operations of
  the run alone. `SortQueueLimits` gives the exact conditions under which the range test, the
  lookups and the release are right outside the window that callers are expected to keep to, with
  legal runs that lead to a failure of each release.
- **The ring list and the timer list** (`RingList`, `TimerModel`, `TimerRuns`, `TimerList`). The
  intrusive, circular, doubly linked list of libqb, as pointer surgery on heap nodes that refines
  operations on sequences; and the timer list built on it, with its handles, its stable insertion,
  and an expiry loop that unlinks nodes while it iterates and runs functions that may add timers.
  `TimerModel` states what the operations do to the pending, dispatched and deleted timers and
  proves conservation, order and punctuality over whole runs; `TimerRuns` says, timer by timer,
  what each operation of a run adds, runs and deletes; the class `TimerList` refines the model
  over the same runs, and its handle cells are proved to be set exactly while their timers are
  pending.
- **Member keys** (`MemberKeys`, `Members`). Printing a key into a buffer, reading it back with
  `sscanf`, counting the members in a sequence of keys, and filling the member array.
- **Marshalling** (`Swab`, `Align`, `CpgName`). Byte swapping by loop and by mask and shift,
  rounding up by mask and by division, and the order of group names.

`Options` holds the optional value.

## How the source is read

- The buffers and lists of a caller are modelled with what the C code demands of them: enough
  room, no aliasing between two structures, and the conditions that the source asserts. A failed
  assertion is a result of `ItemGet` (`AssertionFailed`) and of `QueueStep` (`Aborted`), and the
  main theorem shows that legal runs never meet it.
- Every sequence id is a 32-bit value and all sums wrap. The remainder is defined by repeated
  subtraction (`Uint32.Rem`), with `Uint32.RemIsModulo` connecting it to `%`.
- The ideal queue also keeps where in the buffers its window starts. No entry depends on this; it
  decides only whether a release wraps, and so which miss counts new ids start with.
- A queue's size is between 1 and 0x10000, the distance up to which the rollover adjustment
  works; `AgreementBound` and `InRangeRightWhenEndFits` prove that this is the limit.
- Clock readings are parameters; they do not decrease. An expiry time is a 64-bit sum, and the
  results about expiry require that it does not overflow (`Fits`); `ExpiryNotPast` says what an
  overflow does.
- The function of a timer is a parameter of the expiry: any function that says which timers the
  callback adds, after which delays. It takes the numbered timer, so each run of a timer function
  may behave in its own way.
- The cluster map's iterator is a given sequence of keys, and the fetch of a value is a given
  partial function of the key.

Where the code and its comments differ, the code is followed:

- The note on `qb_list_splice` (corosync-client/inc/libqb/qb/qblist.h:151) says that the spliced
  list is reinitialised. The body does not do so; `Splice` and `SpliceTail` state that the old
  head keeps its pointers, which then lead into the other ring.
- `timerlist_msec_duration_to_expire` is announced as the time until the next timer expires
  (corosync-client/inc/libqb/tlist.h:143-145). `WaitReachesExpiry` proves that after that time
  a timer can be run only if the clock has at most 1000 ticks a second, or one was due already.
- `sq_items_release` does not clear the miss counts in its wrapping branch
  (corosync-client/inc/corosync/sq.h:389-393); `ReleaseMissCounts` gives the exact condition for
  the new slots to start without misses, and `MissCountOutlivesRelease` a legal run after which the
  first miss of an id is counted as the second.
- A release of ids beyond the window does not always empty the queue, and a release of an id
  shortly below the window would clear outside the buffers; `ReleaseBeyondWindow` and
  `ReleaseInBoundsExactly` give the exact conditions, `ReleaseBeyondWindowFails` and
  `ReleaseBelowWindowFails` a queue reached by a legal run on which each goes wrong.
- The comment in `sq_item_inuse` (corosync-client/inc/corosync/sq.h:260-271) wants an id outside
  the window reported as in use, but the guard is compiled out. `InuseOfSharedSlot` says what is
  answered: whether the id of the window that shares its slot has an entry. Nor does `sq_item_get`
  reject all ids outside the window; `GetAssertionExactly` says which ones its assertions accept.
- The `memset` calls of `get_members` have their last two arguments exchanged and clear nothing
  (corosync-client/src/main/client_cmapctl.c:271, 279, 289), so a field that no key sets keeps
  its old value (`FilledKeeps`), and a key without a suffix is read with the previous key's
  suffix (`SuffixCarriedOver`).

## Model

| member | source | states |
|---|---|---|
| SequenceOrder.NearIdsAgree | corosync-client/inc/corosync/sq.h:78-108 | both comparisons give the order of the unbounded ids for any two ids at most 0x10000 apart, across any rollover |
| SequenceOrder.AgreementBound | corosync-client/inc/corosync/sq.h:55-108 | they are right for all pairs at most a given distance apart if and only if that distance is at most 0x10000 |
| SequenceOrder.Trichotomy | corosync-client/inc/corosync/sq.h:78-108 | over all pairs of 32-bit ids, exactly one of less, equal, greater holds, and "less or equal" is the negation of "greater" |
| SequenceOrder.TransitiveUnlessCycle | corosync-client/inc/corosync/sq.h:78-89 | over all triples, transitivity fails exactly on the rotations of an id below 0x10000, one up to the rollover point, and one beyond it |
| SortQueueState.PositionsAgree | corosync-client/inc/corosync/sq.h:229-272 | the position formulas of add, inuse and both branches of get are one function of the id, for all ids and all queues |
| SortQueueState.WindowPosition | corosync-client/inc/corosync/sq.h:229-235 | on the window, the position is (head + distance from the head id) modulo the size |
| SortQueueState.SlotInverse | corosync-client/inc/corosync/sq.h:229-235 | every slot belongs to exactly one distance, so distinct ids of the window have distinct slots |
| SortQueueRefinement.RepresentationUnique | corosync-client/inc/corosync/sq.h:43-53 | a queue stands for at most one ideal queue with a given unbounded head id |
| SortQueueRefinement.InitRepresents | corosync-client/inc/corosync/sq.h:118-164 | a new queue stands for the empty ideal queue, with cleared items and miss counts |
| SortQueueRefinement.AddRepresents | corosync-client/inc/corosync/sq.h:221-246 | adding a new id of the window finds its slot free, adds exactly this entry and resets the miss count of this id alone; every other slot and the bound on used slots are kept |
| SortQueueRefinement.InuseIsMembership | corosync-client/inc/corosync/sq.h:254-274 | an id of the window is in use exactly when the ideal queue has an entry for it |
| SortQueueRefinement.GetIsLookup | corosync-client/inc/corosync/sq.h:346-375 | for every id of the window both assertions hold and the entry's item, or its absence, is returned |
| SortQueueRefinement.InRangeIsWindowTest | corosync-client/inc/corosync/sq.h:310-337 | for every size up to 0x10000 the test's two branches accept exactly the ids whose distance from the head id is below the size |
| SortQueueRefinement.InRangeIsInWindow | corosync-client/inc/corosync/sq.h:310-337 | the test agrees with membership in the ideal window for every unbounded id less than a rollover away |
| SortQueueRefinement.MissCountRepresents | corosync-client/inc/corosync/sq.h:282-291 | counting a miss raises the count of this id alone, returns the ideal queue's new count, and changes no entry |
| SortQueueRefinement.ReleaseClearsOldest | corosync-client/inc/corosync/sq.h:382-402 | a release of k ids clears exactly the k oldest slots, in the wrapping and in the other branch, and their miss counts in the other branch alone |
| SortQueueRefinement.ReleaseShiftsSlots | corosync-client/inc/corosync/sq.h:388-401 | the slots of the slid window are the old ones, shifted by k |
| SortQueueRefinement.ReleaseRepresents | corosync-client/inc/corosync/sq.h:382-402 | a release drops every entry up to the id, keeps all other entries and their miss counts, and moves the window behind it |
| SortQueueRefinement.MissesFollowIds | corosync-client/inc/corosync/sq.h:282-402 | an id that stays in the window keeps its miss count through every operation, but for its misses, each of which adds one, and its insertion, which resets it |
| SortQueueRefinement.StepRefines | corosync-client/inc/corosync/sq.h:155-402 | each legal operation gives the ideal reply, counted misses included, and again stands for the ideal queue |
| SortQueueRefinement.RunRefines | corosync-client/inc/corosync/sq.h:118-402 | from initialisation on, over every legal run and any number of rollovers, all replies are the ideal ones, among them the counts of misses; no assertion fails and no clearing leaves the buffers |
| SortQueueHistory.EntriesFollowRun | corosync-client/inc/corosync/sq.h:118-402 | after any legal run the entries are exactly the items added and not released or reinitialised away since |
| SortQueueHistory.MissesFollowRun | corosync-client/inc/corosync/sq.h:221-402 | the miss count of an entry is the number of its misses since it was added, modulo 2^32 |
| SortQueueHistory.RepliesFollowHistory | corosync-client/inc/corosync/sq.h:118-402 | every reply of the 32-bit queue in a legal run is the one that the operations before it call for: lookups by the last additions, range tests by the last release, miss counts by the misses since the addition |
| SortQueueHistory.SlotsFollowRun | corosync-client/inc/corosync/sq.h:118-246 | after any legal run the highest slot is the highest one filled since the last initialisation, and each slot holds the item it was last filled with since then, or is clear |
| SortQueueLimits.InRangeRightWhenEndFits | corosync-client/inc/corosync/sq.h:310-337 | for any size the test is right on all ids if and only if the adjusted end of the window does not roll over |
| SortQueueLimits.GetAssertionExactly | corosync-client/inc/corosync/sq.h:352-366 | the assertions of the lookup accept exactly the ids before the end of the window and, while that end is below the rollover point, those beyond the rollover point |
| SortQueueLimits.InuseOfSharedSlot | corosync-client/inc/corosync/sq.h:254-274 | for every id, of the window or not, the answer is whether the id of the window that shares its slot has an entry |
| SortQueueLimits.ReleaseInBoundsExactly | corosync-client/inc/corosync/sq.h:388-399 | the clearing stays inside the buffers if and only if the id is not among the `head` ids below the last one released |
| SortQueueLimits.ReleaseAgainFails | corosync-client/inc/corosync/sq.h:388-399 | releasing an id again after its successor clears outside the buffers of every queue whose head has left the first slot |
| SortQueueLimits.ReleaseBelowWindowFails | corosync-client/inc/corosync/sq.h:388-399 | a legal run leads to a queue on which this happens |
| SortQueueLimits.ReleaseBeyondWindow | corosync-client/inc/corosync/sq.h:382-402 | a release beyond the window leaves an empty queue if and only if no entry lies in the slots from the new head up to the old one |
| SortQueueLimits.ReleaseBeyondWindowFails | corosync-client/inc/corosync/sq.h:382-402 | a legal run leads to a queue that a release beyond its window does not empty |
| SortQueueLimits.ReleaseMissCounts | corosync-client/inc/corosync/sq.h:389-400 | the slots entering the window have no misses if and only if the release does not wrap or they had none before |
| SortQueueLimits.MissCountOutlivesRelease | corosync-client/inc/corosync/sq.h:282-400 | a legal run after which the first miss of an id is counted as the second |
| SortQueue.Memset | corosync-client/inc/corosync/sq.h:392-399 | a stretch of a buffer is cleared and the rest kept |
| SortQueue.SortQueue.constructor | corosync-client/inc/corosync/sq.h:118-148 | initialisation gives the initial value, for any signed head id |
| SortQueue.SortQueue.Reinit | corosync-client/inc/corosync/sq.h:155-164 | all buffers are cleared and the head id set |
| SortQueue.SortQueue.Assert | corosync-client/inc/corosync/sq.h:171-180 | the loop passes exactly when all slots above the highest used one are free |
| SortQueue.SortQueue.CopyFrom | corosync-client/inc/corosync/sq.h:187-202 | a copy into large enough buffers has the source's value, which all later operations depend on alone |
| SortQueue.SortQueue.ItemAdd | corosync-client/inc/corosync/sq.h:221-246 | the whole new value of the queue after an insertion |
| SortQueue.SortQueue.ItemInuse | corosync-client/inc/corosync/sq.h:254-274 | the slot's mark is tested |
| SortQueue.SortQueue.ItemMissCount | corosync-client/inc/corosync/sq.h:282-291 | the whole new value, and the raised count |
| SortQueue.SortQueue.InRange | corosync-client/inc/corosync/sq.h:310-337 | the two branches compute the range test |
| SortQueue.SortQueue.ItemGet | corosync-client/inc/corosync/sq.h:346-375 | failed assertion, missing entry or item, by branch |
| SortQueue.SortQueue.ItemsRelease | corosync-client/inc/corosync/sq.h:382-402 | the whole new value after the two-branch clearing, for every id that stays inside the buffers |
| RingList.Init | corosync-client/inc/libqb/qb/qblist.h:62-66 | a head alone is an empty ring |
| RingList.Add | corosync-client/inc/libqb/qb/qblist.h:74-81 | the element stands directly after the given node or head, and the ring is sound |
| RingList.AddTail | corosync-client/inc/libqb/qb/qblist.h:90-97 | the element stands directly before the given node, at the end of the list for the head |
| RingList.Del | corosync-client/inc/libqb/qb/qblist.h:104-108 | exactly this node leaves the ring; its own pointers are unchanged |
| RingList.Replace | corosync-client/inc/libqb/qb/qblist.h:115-122 | the new node takes the old one's place, be it an element or the head, of an empty ring too |
| RingList.IsLast | corosync-client/inc/libqb/qb/qblist.h:130-134 | tells the last node of the sequence |
| RingList.Empty | corosync-client/inc/libqb/qb/qblist.h:141-144 | tells the empty sequence |
| RingList.Splice | corosync-client/inc/libqb/qb/qblist.h:153-167 | the list's nodes stand after the given place, and the list's head keeps its pointers, so that it is an empty ring afterwards if and only if the list was empty |
| RingList.SpliceTail | corosync-client/inc/libqb/qb/qblist.h:174-188 | the same, with the nodes before the given place |
| RingList.Length | corosync-client/inc/libqb/qb/qblist.h:297-306 | the loop counts the nodes of the sequence |
| TimerModel.InsertedIsStable | corosync-client/inc/libqb/tlist.h:56-77 | insertion keeps the list sorted and puts the timer after all that expire no later and before all that expire later |
| TimerModel.InsertedBehindDue | corosync-client/inc/libqb/tlist.h:63-76 | a timer that is not due goes in behind all the due ones, wherever they end |
| TimerModel.AddKeepsInv | corosync-client/inc/libqb/tlist.h:79-102 | adding keeps conservation, the order of the whole agenda, and punctuality |
| TimerModel.DeleteKeepsInv | corosync-client/inc/libqb/tlist.h:104-113 | deleting keeps them |
| TimerModel.DispatchFirstKeepsInv | corosync-client/inc/libqb/tlist.h:125-133 | a dispatch only moves the border between the dispatched and the pending part of the agenda |
| TimerModel.AddAllOnlyAdds | corosync-client/inc/libqb/tlist.h:206-212 | what a timer function adds leaves the due front of the list alone and loses no timer; `TimerRuns.AddAllCreates` says which timers it adds |
| TimerModel.DispatchStep | corosync-client/inc/libqb/tlist.h:196-216 | each turn of the expiry loop keeps its invariant and leads to the same final state |
| TimerModel.ExpireRunsExactlyTheDue | corosync-client/inc/libqb/tlist.h:184-217 | the expiry runs exactly the timers past their expiry at the time read on entry, once each and in order, whatever timers their functions add; all others stay pending and none is due |
| TimerModel.RunGuarantees | corosync-client/inc/libqb/tlist.h:79-217 | over every run each timer is exactly once pending, dispatched or deleted, none fires early, and all dispatches of the run are in order of expiry with ties in order of addition |
| TimerRuns.ClockAfterLast | corosync-client/inc/libqb/tlist.h:79-102 | the clock of a timer function advances by the delay of each of its requests |
| TimerRuns.AllFitExactly | corosync-client/inc/libqb/tlist.h:93 | requests fit if and only if no expiry time of the timers they ask for overflows |
| TimerRuns.CallbacksFitExactly | corosync-client/inc/libqb/tlist.h:206-212 | the functions of the due timers fit if and only if all their requests, one after the other, do |
| TimerRuns.AddAllCreates | corosync-client/inc/libqb/tlist.h:79-102 | a timer function adds exactly the timers it asks for, each with the expiry time of its own clock reading and duration, and its data, and does nothing else |
| TimerRuns.ExpireCreates | corosync-client/inc/libqb/tlist.h:184-217 | an expiry adds exactly the timers that the functions of the due timers ask for, from the reading on entry on |
| TimerRuns.AfterAdd | corosync-client/inc/libqb/tlist.h:79-102 | an addition in any run adds the timer asked for, pending, and changes nothing else |
| TimerRuns.AfterDelete | corosync-client/inc/libqb/tlist.h:104-113 | a deletion in any run takes exactly its timer from the pending ones to the deleted ones |
| TimerRuns.AfterExpire | corosync-client/inc/libqb/tlist.h:184-217 | an expiry in any run dispatches exactly the pending timers that expire before its reading, in order; pending are then the others and the timers that the functions asked for |
| TimerRuns.DeletedForGood | corosync-client/inc/libqb/tlist.h:104-113 | a timer deleted in a run stays deleted, and is neither pending nor dispatched from then on |
| TimerRuns.DispatchedForGood | corosync-client/inc/libqb/tlist.h:125-217 | a timer dispatched in a run is never pending, deleted or dispatched again |
| TimerModel.WaitBounds | corosync-client/inc/libqb/tlist.h:146-179 | the wait is the time to the earliest of all timers in whole milliseconds, and one clock tick; zero if that timer is due, and -1 without timers |
| TimerModel.WaitReachesExpiry | corosync-client/inc/libqb/tlist.h:143-179 | after the wait there is a timer to run if and only if one was due already or the clock has at most 1000 ticks a second |
| TimerList.TimerList.constructor | corosync-client/inc/libqb/tlist.h:50-54 | a new list is an empty ring with no timers |
| TimerList.TimerList.Insert | corosync-client/inc/libqb/tlist.h:56-77 | the loop links the node in at the place of stable insertion and the ring stays sound |
| TimerList.TimerList.AddDuration | corosync-client/inc/libqb/tlist.h:79-102 | the new state is that of the model, the node stands at the place of stable insertion, and the given handle, and no other, leads to the new timer |
| TimerList.TimerList.Unlink | corosync-client/inc/libqb/tlist.h:125-133 | the handle is zeroed and exactly this node leaves the ring, itself reinitialised |
| TimerList.TimerList.Delete | corosync-client/inc/libqb/tlist.h:104-113 | the new state is that of the model, and the handle is zeroed |
| TimerList.TimerList.MsecDurationToExpire | corosync-client/inc/libqb/tlist.h:146-179 | the wait of the model, read off the first node of the ring |
| TimerList.TimerList.Dispatch | corosync-client/inc/libqb/tlist.h:206-212 | one due timer leaves the list and its handle is zeroed before its function runs, all other handles keep their values, and the saved successor stays in place |
| TimerList.TimerList.CallTimerFn | corosync-client/inc/libqb/tlist.h:206-212 | a timer function's additions take the state to the model's, leave the due front of the ring alone, and no handle that was there before changes |
| TimerList.TimerList.Expire | corosync-client/inc/libqb/tlist.h:184-217 | the loop with the saved next node terminates in the state of the model's expiry while timer functions add timers; exactly the nodes that are due leave the ring, their handles are zeroed, and every other handle keeps its value |
| TimerList.TimerList.Run | corosync-client/inc/libqb/tlist.h:79-217 | over every run of additions, deletions and expiries the heap takes the states of the model, and with distinct cells each timer's handle leads to it while it is pending and is null ever after |
| TimerList.HandleSetWhilePending | corosync-client/inc/libqb/tlist.h:97-131 | the handle of each timer ever added leads to it exactly while it is pending, and with distinct cells is otherwise null |
| MemberKeys.DecimalRoundTrip | corosync-client/src/main/client_cmapctl.c:331 | a printed number reads as the number |
| MemberKeys.DecimalUnique | corosync-client/src/main/client_cmapctl.c:331 | a number is printed as the only string of digits that reads as it and has no leading zero |
| MemberKeys.ScanSignedInt | corosync-client/src/main/client_cmapctl.c:229 | a number is read behind white space and either sign, up to the first character that is no digit, if and only if it fits an `int` |
| MemberKeys.ScanNoInt | corosync-client/src/main/client_cmapctl.c:229 | without a digit behind white space and a sign the scan of a number fails |
| MemberKeys.ScanWordBetween | corosync-client/src/main/client_cmapctl.c:272 | a word is read behind white space, up to the next white space |
| MemberKeys.ScanWithoutSuffix | corosync-client/src/main/client_cmapctl.c:229-272 | with the prefix and a number but no dot and word behind it, the scan of `get_member_count` reads the id and that of `get_members` fails |
| MemberKeys.GenerateMembersKey | corosync-client/src/main/client_cmapctl.c:322-336 | the buffer holds the members key as a C string, and nothing behind its end is written |
| MemberKeys.GenerateNodelistKey | corosync-client/src/main/client_cmapctl.c:306-320 | the same for the node list key |
| MemberKeys.MembersKeyRoundTrip | corosync-client/src/main/client_cmapctl.c:272-336 | scanning a printed members key gives back its id and suffix if and only if the id fits a signed int |
| MemberKeys.MembersKeySpells | corosync-client/src/main/client_cmapctl.c:322-336 | the members key of an id and a suffix is the one string made of the prefix, the digits of the id without leading zeros, a dot and the whole suffix |
| MemberKeys.NodelistKeySpells | corosync-client/src/main/client_cmapctl.c:306-320 | the same for the node list key |
| MemberKeys.GeneratorsInjective | corosync-client/src/main/client_cmapctl.c:306-336 | each generator gives distinct keys for distinct ids or suffixes, for all 32-bit ids, and none of the other's |
| Members.GetMemberCount | corosync-client/src/main/client_cmapctl.c:222-236 | the count is that of the maximal runs of equal ids, and that of the members if and only if each member's keys are adjacent; for printed keys these are the ids they were printed from |
| Members.RunsCountMembers | corosync-client/src/main/client_cmapctl.c:222-236 | there are never fewer runs than distinct ids, and as many exactly when equal ids are contiguous |
| Members.PrintedKeysRead | corosync-client/src/main/client_cmapctl.c:229-273 | behind each printed key the id and the suffix in force are those it was printed from |
| Members.SuffixCarriedOver | corosync-client/src/main/client_cmapctl.c:271-272 | behind a key with an id but no dot and word the id is its own and the suffix that of the key before it |
| Members.ForeignKeySkipped | corosync-client/src/main/client_cmapctl.c:229-273 | a key without the prefix leaves the id and the suffix in force as they are |
| Members.GetMembers | corosync-client/src/main/client_cmapctl.c:266-298 | on an array as long as the count of `get_member_count` for the same keys no index is out of bounds, and every record of the array is as specified; for printed keys, adjacent for each member, it is the member's id and the values of its keys `ip` and `status` |
| Members.PrintedRecords | corosync-client/src/main/client_cmapctl.c:266-298 | from printed keys, adjacent for each member, a member's record carries its id and the values fetched for its keys `ip` and `status`, and where there is none what it held before |
| Members.RunsInhabited | corosync-client/src/main/client_cmapctl.c:222-298 | every record below the count belongs to some key's member |
| Members.FilledRecords | corosync-client/src/main/client_cmapctl.c:269-298 | each run's record carries its id, and the values of the run's last fetchable ip and status keys |
| Members.FilledKeeps | corosync-client/src/main/client_cmapctl.c:278-297 | a field that no key of the run sets, and every record beyond the last run, keeps its value |
| Members.MembersCollected | corosync-client/src/main/client_cmapctl.c:266-298 | with each member's keys adjacent there is one record for each member, with its id and the values of its only keys in force as `ip` and `status` |
| Swab.SwabBin | corosync-client/inc/corosync/mar_gen.h:133-143 | the loop reverses the first bytes of the buffer and no others |
| Swab.SwabBinTwice | corosync-client/inc/corosync/mar_gen.h:133-161 | swapping a buffer twice restores it |
| Swab.Swab16Reverses | corosync-client/inc/corosync/swab.h:39-45 | the mask-and-shift form reverses the bytes of the integer, and undoes itself |
| Swab.Swab32Reverses | corosync-client/inc/corosync/swab.h:51-59 | the same for 32 bits |
| Swab.Bytes64RoundTrip | corosync-client/inc/corosync/swab.h:65-77 | the eight bytes of an integer, put together again, are the integer |
| Swab.Swab64Reverses | corosync-client/inc/corosync/swab.h:65-77 | the same for 64 bits |
| Align.RoundingsAgree | corosync-client/inc/corosync/mar_gen.h:44 | for every power of two, of any width, rounding by mask and by division agree on all addresses, overflowing or not |
| Align.AgreeExactlyForPowers | corosync-client/inc/corosync/mar_gen.h:44 | they agree on all addresses if and only if the size is a power of two |
| Align.RoundUpIsLeastMultiple | corosync-client/inc/libqb/qb/qbdefs.h:39 | the result is the least multiple not below the address if and only if the sum does not overflow |
| CpgName.CompareIsShortlex | corosync-client/inc/corosync/ipc_cpg.h:195-202 | the sign is that of the shortlex order of the used bytes, zero exactly for equal ones, and reversed when the names are exchanged |
| CpgName.CompareTransitive | corosync-client/inc/corosync/ipc_cpg.h:195-202 | the order is transitive |

## Left out

- Allocation failures (`-ENOMEM`) and the freeing of memory (`sq_free`, `timerlist_post_dispatch`): no state is left to speak about.
- The item buffer's bytes: items are values of a type parameter, with one value standing for zeroed bytes.
- Timer functions that delete timers, or that store a new handle in a cell they used before: `TimerList.TimerList.AddDuration` allows the latter to other callers, but the model of a callback takes a new cell for each timer.
- TimerList.TimerList.Run: the client takes a new cell for each timer. For one that uses a cell again, `HandleSetWhilePending` says that the cell leads to a timer exactly while this timer is pending.
- Absolute timers: `timerlist_add_duration` makes none, and in a list that mixes both clocks the order by expiry time says nothing about either clock. `Expire` and `MsecDurationToExpire` read both clocks as the source does.
- RingList.Length: the counter is a 32-bit signed integer, so the ring must have fewer than 2^31 nodes.
- Members.GetMembers: the first key must carry an id, since the scan's variable has no value before; ids must be non-negative, since the loop takes -1 for "no id yet". The fixed sizes of the record's string fields are not modelled.
- MemberKeys.MembersKeyRoundTrip: the scan of a number that does not fit an `int` is undefined in C and is modelled as a failure.
- `qb_list_for_each_reverse` and the typed iteration macros: the same walk in the other direction, or with a cast.
- `set_cmap_value`, `get_cmap_value` and `delete_cmap_value`: dispatch on types over a store that is not part of the repository.
- `mar_name_match`, the `swab_mar_*` wrappers and the `marshall_*` copies: one step each.
- SSH, SFTP, command parsing, printing, quorum and monitoring: I/O and calls into other libraries.
