# Models of cFS test and table tools

This project models parts of a core Flight System distribution in Dafny and proves what they promise:

- **The stub table** of the OSAL unit-test framework (`StubEntries`, `StubOps`, `StubTable`, `StubRuns`, `StubLists`,
  `StubCounting`, `StubSchedules`, `StubStreams`, `StubWrites`, `StubEffects`, `StubQueue`, `StubQueueRoom`,
  `StubPutPlace`, `StubCodes`, `StubOvertaking`): a 200-slot open-addressed table with several entries per key, deletion without tombstones and a
  search bound. `StubTable` is the class over the array; its methods probe as the C code does and are proved against the
  operations of `StubOps`, which use a full scan. The other modules prove what whole runs of calls do: singletons, call
  counts, one-time calls, schedules of deferred codes, forced codes, hooks and contexts, data buffers that are read and
  written, and the message queue stubs on top of them.
- **Stub object IDs** (`StubObjIds`): bitmaps of issued indices, and the packing of index and type.
- **Tagged circular lists and the test runner** (`UtList`, `UtAssert`, `UtTestEntry`, `UtTestRun`, `UtTestOutcome`,
  `UtTestRing`, `UtTest`): doubly linked rings of heap nodes, spliced, traversed and destroyed; the order in which a run
  executes what was registered; and the counters from one assertion to the exit code.
- **CRC-16/ARC** (`CrcTable`, `CrcRegister`, `Crc`, `CrcDetection`, `CrcDistance`, `CrcDivision`): the table-driven loop with its signed
  arithmetic against the bitwise register, error detection, and the division of polynomials.
- **Directory commands** (`Directories`, `DirDeletion`, `DirWarnings`, `DirListing`, `OutputFiles`, `DirCommands`): delete-all with
  rewinding, listing packets, and the listing file with its rewritten statistics.
- **ELF to table converter** (`ElfFields`, `ElfSections`, `ElfTableFile`, `ElfImages`, `ElfSelection`, `ElfInput`, `ElfLoader`,
  `ElfConverter`): byte order, structures, sections, symbol selection, sizes and the table file, from the bytes of the
  object file to those of the table file.

`Wrappers` and `Bytes` hold integer widths, an option type, byte orders and C strings. Operations that the C code does by
changing state are methods of classes (`StubTable`, `ObjectIds`, `ListHead`, `Asserts`, `Framework`, `Dir`, `Loader`,
`Converter`) whose contracts give the whole new state as a function of the old one; the lemmas are about those functions.

Where the code does something else than its documentation says, the model follows the code:

- `utstubs.h` promises that entries of one key are served first in, first out. A new entry takes the first free slot on
  its probe path, so after a removal it can overtake one that is waiting (`RefilledHoleOvertakes`); `ServedInOrder` says
  exactly when it does not. So a message put after a get can overtake one that was put before it (`PutOvertakes`);
  `PutLandsBehind` says from the table before the call where a message lands.
- A test registered by a test while it runs is put in front of a head that the run has already passed, and never runs
  (`TestAddedByTestNeverRuns`). A setup that registers a test is in time; `ExecutedIffInTime` says exactly which entries
  run.
- `CalculateCRC` returns a sign-extended value; only its low 16 bits are the CRC.
- `DIR_DeleteAllCmd` never returns true. Its counters of entries that are left count reads, modulo 2^32, so from
  2^17 - 1 entries on it can leave files and not warn (`CrowdedIsMissed`); `WarningIsWrong` says exactly when.
- `WriteDirListToFile` counts entries in 16 bits, and reports failure for an empty directory and for every multiple of
  65536 entries.
- The converter is to accept a symbol name with one more character than the name of the object only if that is not
  printable, but its test looks at the terminator, so a neighbour whose name is one letter longer is taken for the object
  (`LongerNeighbourSelected`); `SelectedAsDocumented` says exactly when that happens. And the last table definition counts,
  but the first matching object.
- The exit code looks at 32-bit counters, and a segment with a multiple of 2^32 assertions looks empty, so runs with
  2^32 failures can exit with success (`FailingRunsPass`); `ExitCodeOfAnyRun` says exactly which runs exit rightly.

Callbacks of tests are finite scripts: what a callback asserts and registers, in order. Every terminating run can be
described in this way. Hooks are functions of what they are given.

## Model

| member | source | states |
|---|---|---|
| StubEntries.FindIsNearest | cfs/osal/ut_assert/src/utstubs.c:133-184 | the full scan fails exactly if no slot matches, and otherwise gives the one match at least cyclic distance from key mod 199 |
| StubEntries.ProbeOrder | cfs/osal/ut_assert/src/utstubs.c:136-172 | the d-th probe looks at slot (key mod 199 + d) mod 200, so each slot is probed once |
| StubTable.BoundedSearchIsComplete | cfs/osal/ut_assert/src/utstubs.c:143-172 | probing up to the search bound gives the answer of the full scan for every type but CALL_ONCE; a search for an unused slot fails only if no slot is unused |
| StubTable.StubTable.GetStubEntry | cfs/osal/ut_assert/src/utstubs.c:133-184 | the probing loop returns the result of the full scan in every state that satisfies the invariant, keeps the invariant and changes nothing but the search bound |
| StubTable.StubTable.ClearStubEntry | cfs/osal/ut_assert/src/utstubs.c:118-127 | the slot is all zero afterwards, and memory that the entry owned, and no other, is freed |
| StubTable.StubTable.ResetState | cfs/osal/ut_assert/src/utstubs.c:186-204 | clears exactly the entries of the key, or all for key 0, frees their copies, and the bound 0 after a full reset is right again |
| StubTable.StubTable.StubCallOnce | cfs/osal/ut_assert/src/utstubs.c:206-247 | runs the function exactly if it has no mark yet, marks it, and fails only if no slot is free |
| StubTable.StubTable.SetDeferredRetcode | cfs/osal/ut_assert/src/utstubs.c:249-269 | adds an entry in the nearest free slot for a positive count, nothing otherwise; fails exactly if the table is full |
| StubTable.StubTable.ClearDeferredRetcode | cfs/osal/ut_assert/src/utstubs.c:271-284 | the loop of searches removes every deferred code of the key and no other entry |
| StubTable.StubTable.CheckDeferredRetcode | cfs/osal/ut_assert/src/utstubs.c:286-309 | counts down the nearest deferred code and reports and drops it when its count ends |
| StubTable.StubTable.SetDefaultReturnValue | cfs/osal/ut_assert/src/utstubs.c:311-336 | rewrites the one forced code of the key or adds it |
| StubTable.StubTable.CheckDefaultReturnValue | cfs/osal/ut_assert/src/utstubs.c:387-405 | reports the forced code and counts its use |
| StubTable.StubTable.GetStubRetcodeAndCount | cfs/osal/ut_assert/src/utstubs.c:349-367 | reports code and count of the last call, the count as the int32 that its bits are, and nothing for a stub that was never called |
| StubTable.StubTable.GetStubCount | cfs/osal/ut_assert/src/utstubs.c:369-385 | probing reports the count of the full scan, and 0 for a stub that was never called |
| StubCodes.LastCode | cfs/osal/ut_assert/src/utstubs.c:349-367 | after a call the code reported is the one chosen in it, before any hook, and the count one more |
| StubTable.StubTable.SetDataBuffer | cfs/osal/ut_assert/src/utstubs.c:407-445 | adds the buffer, copied to fresh memory if asked, in the nearest free slot |
| StubTable.StubTable.GetDataBuffer | cfs/osal/ut_assert/src/utstubs.c:447-481 | reports address, size and position of the buffer in use |
| StubTable.StubTable.CopyToLocal | cfs/osal/ut_assert/src/utstubs.c:483-514 | delivers the unread front of the first buffer, as much as fits, and drops the buffer when it is used up |
| StubTable.StubTable.CopyFromLocal | cfs/osal/ut_assert/src/utstubs.c:516-547 | overwrites the unread front of the first buffer in memory, as much as there is room, and moves its position |
| StubTable.StubTable.SetHook | cfs/osal/ut_assert/src/utstubs.c:552-585 | sets, replaces or, for NULL, removes the one hook of the key |
| StubTable.StubTable.RegisterContext | cfs/osal/ut_assert/src/utstubs.c:666-691 | adds an argument to the one context of the key, which holds at most eight |
| StubTable.StubTable.DefaultStub | cfs/osal/ut_assert/src/utstubs.c:744-830 | chooses deferred, forced or default code, counts the call, runs the hook on code, count and context, and drops the context |
| StubTable.StubTable.Perform | cfs/osal/ut_assert/src/utstubs.c:118-830 | every call of the table keeps the invariant and is the step of the abstract state machine |
| StubRuns.StepValid | cfs/osal/ut_assert/src/utstubs.c:118-830 | every call keeps: unused slots all zero, entries typed as their purpose says, singletons, positions below sizes, owned memory live, unshared and reachable |
| StubRuns.ResetFreesCopies | cfs/osal/ut_assert/src/utstubs.c:186-204 | after a full reset no memory but the test program's is left, so no copy leaks |
| StubLists.AtMostOne | cfs/osal/ut_assert/src/utstubs.c:311-336 | a valid state has at most one COUNTER, FORCE_FAIL, CALLBACK_HOOK, CALLBACK_CONTEXT and CALL_ONCE entry per key |
| StubCounting.ReachableSingletons | cfs/osal/ut_assert/src/utstubs.c:206-247 | so does every state that calls reach from the cleared table |
| StubLists.CheckDeferredQueues | cfs/osal/ut_assert/src/utstubs.c:286-309 | the queue of deferred codes counts down its head, drops it at the end of its count, and every other queue is unchanged |
| StubLists.DefaultStubQueues | cfs/osal/ut_assert/src/utstubs.c:744-830 | what a stub call returns, which is what its hook makes of the chosen code, the count before the call and the registered arguments, and which queues it changes, in terms of the queues before it |
| StubEffects.SetDefaultForces | cfs/osal/ut_assert/src/utstubs.c:311-347 | a forced code that has been set is the one in force, and none is after it has been cleared |
| StubEffects.SetHookHooks | cfs/osal/ut_assert/src/utstubs.c:552-585 | the hook of the key is the one set last with its argument, and none after NULL |
| StubEffects.RegisterAllAdds | cfs/osal/ut_assert/src/utstubs.c:666-691 | after any number of registrations the next call sees the first eight arguments, in order |
| StubEffects.BufferInUse | cfs/osal/ut_assert/src/utstubs.c:447-481 | the address, size and position handed out are those of the first pending message, or zeros if none is pending |
| StubEffects.SetBufferInUse | cfs/osal/ut_assert/src/utstubs.c:407-481 | a buffer set when none is pending is the one in use, from its start and with its bytes |
| StubCounting.StepFrame | cfs/osal/ut_assert/src/utstubs.c:118-830 | a call changes no queue but those of its own key and purpose |
| StubCounting.CountTracksCalls | cfs/osal/ut_assert/src/utstubs.c:369-385 | over any run, UT_GetStubCount is the number of default stub calls of the key since its last reset, modulo 2^32 |
| StubCounting.CountFromStart | cfs/osal/ut_assert/src/utstubs.c:369-385 | so it is from the cleared table on |
| StubCounting.CallOnceRunsOnce | cfs/osal/ut_assert/src/utstubs.c:206-247 | between resets that cover it a one-time function runs exactly once if it is asked for at all |
| StubSchedules.DeferredSchedule | cfs/osal/ut_assert/src/utstubs.c:744-759 | in a run without hook, adds and resets the t-th call returns the code due then and otherwise its undeferred code |
| StubSchedules.DueOnTotals | cfs/osal/ut_assert/src/utstubs.c:286-309 | entry j of the schedule is due on call n_0 + ... + n_j |
| StubSchedules.DueOnlyOnTotals | cfs/osal/ut_assert/src/utstubs.c:286-309 | no other call has a code due |
| StubCodes.SetDeferredJoins | cfs/osal/ut_assert/src/utstubs.c:249-269 | a deferred code joins those of its key with the count and value asked for, at the place of the nearest free slot, and no other queue changes; a count that is not positive changes nothing; it aborts exactly on a full table |
| StubCodes.DeferredReturnsOnCall | cfs/osal/ut_assert/src/utstubs.c:249-309 | a code deferred by n calls, alone and without a hook, is returned by just the n-th call of its stub in every run that leaves codes and hook alone |
| StubSchedules.ServedInOrder | cfs/osal/ut_assert/src/utstubs.c:143-172 | a new entry is served after an older one of its key if and only if every slot in front of the older one is in use |
| StubSchedules.ServedInOrderIfNothingFreed | cfs/osal/ut_assert/src/utstubs.c:143-172 | in particular if no slot in use when the older was added is free when the newer is |
| StubSchedules.PackedAppends | cfs/osal/ut_assert/src/utstubs.c:143-172 | on a queue without holes in front of it a new entry joins the end, and the queue stays so |
| StubSchedules.LandsBehind | cfs/osal/ut_assert/src/utstubs.c:143-172 | a new entry lands behind all members of its queue if and only if no free slot lies in front of one |
| StubSchedules.RefilledHoleOvertakes | cfs/osal/ut_assert/src/utstubs.c:249-309 | the counterexample to first in, first out: add A, add B, consume A, add C leaves C in front of B |
| StubStreams.MessagesNonEmpty | cfs/osal/ut_assert/src/utstubs.c:407-445 | every pending buffer has a byte left |
| StubStreams.ReadMessages | cfs/osal/ut_assert/src/utstubs.c:483-514 | a read delivers the front of the first pending buffer, drops the buffer exactly with its last byte, and leaves other keys alone |
| StubStreams.StreamConserved | cfs/osal/ut_assert/src/utstubs.c:483-514 | over reads of any sizes, the bytes delivered followed by those pending are the bytes pending at first |
| StubStreams.LargeReadsDeliverWhole | cfs/osal/ut_assert/src/utstubs.c:483-514 | reads that are large enough deliver the buffers whole and in order |
| StubWrites.WriteEffect | cfs/osal/ut_assert/src/utstubs.c:516-547 | one write: the bytes taken, the state of the sink, and every block of memory |
| StubWrites.OthersSeeWrites | cfs/osal/ut_assert/src/utstubs.c:516-547 | another pending buffer changes exactly where it lies over the bytes written, and only at the same address |
| StubWrites.WritesLand | cfs/osal/ut_assert/src/utstubs.c:516-547 | over writes of any sizes the caller's block holds, from the position of the first buffer on, the bytes written one after the other up to its end |
| StubWrites.WritesFill | cfs/osal/ut_assert/src/utstubs.c:516-547 | writes that fit leave exactly their concatenation there |
| StubWrites.WritesElsewhere | cfs/osal/ut_assert/src/utstubs.c:516-547 | a block at which no pending buffer of the key lies is left alone |
| StubWrites.RoomConserved | cfs/osal/ut_assert/src/utstubs.c:516-547 | the bytes taken by writes of any sizes and the room left add up to the room at first |
| StubQueue.OsQueuePut | cfs/osal/src/ut-stubs/osapi-utstub-queue.c:202-219 | the stub on the real table: context, default stub, then a copied buffer under the queue's ID |
| StubQueue.OsQueueGet | cfs/osal/src/ut-stubs/osapi-utstub-queue.c:155-177 | the stub on the real table: context, default stub, then a read, and OS_QUEUE_EMPTY if it delivers nothing |
| StubQueue.PutAppends | cfs/osal/src/ut-stubs/osapi-utstub-queue.c:202-219 | a put adds its message behind all others, although each call fills and frees slots of its own |
| StubQueue.GetTakes | cfs/osal/src/ut-stubs/osapi-utstub-queue.c:155-177 | a get takes from the first message or reports an empty queue |
| StubCodes.PutFails | cfs/osal/src/ut-stubs/osapi-utstub-queue.c:202-219 | a put that returns gives the code of its stub, deferred, forced, default or from the hook; if that is not OS_SUCCESS nothing is queued, and memory and the messages of all queues are as they were |
| StubCodes.GetFails | cfs/osal/src/ut-stubs/osapi-utstub-queue.c:155-177 | a get whose stub gives another code than OS_SUCCESS returns that and no bytes, and consumes nothing |
| StubQueue.PutThenDrain | cfs/osal/src/ut-stubs/osapi-utstub-queue.c:155-219 | a burst of puts and gets that are large enough give the messages back whole and in order, then OS_QUEUE_EMPTY |
| StubPutPlace.PutLandsBehind | cfs/osal/src/ut-stubs/osapi-utstub-queue.c:202-219 | where a put that returns lands, told from the table before it: in the nearest of the free slots, less the one a first call takes for its counter, plus the one of a context pending before; behind every message if and only if none of these slots lies in front of one |
| StubPutPlace.LaterPutLandsBehind | cfs/osal/src/ut-stubs/osapi-utstub-queue.c:202-219 | once the stub has been called, and with no context pending, that is: if and only if no free slot lies in front of a pending message |
| StubPutPlace.FreeAfter | cfs/osal/ut_assert/src/utstubs.c:666-830 | those are the slots that registering the arguments, counting the call and dropping the context leave free |
| StubOvertaking.PutOvertakes | cfs/osal/src/ut-stubs/osapi-utstub-queue.c:155-219 | the input with which it does not: put A, put B, get, put C leaves C in front of B |
| StubOvertaking.SeparateIff | cfs/osal/ut_assert/src/utstubs.c:140-141 | that input works for all stubs and queues whose keys modulo 199 are at least two apart |
| StubOvertaking.SomeKeysAreSeparate | cfs/osal/src/ut-stubs/utstub-helpers.c:174-178 | as are the first queue ID issued and two stub addresses |
| StubQueueRoom.QueueDelivers | cfs/osal/src/ut-stubs/osapi-utstub-queue.c:155-219 | with four more free slots than messages none of these calls aborts |
| StubObjIds.IssueOrder | cfs/osal/src/ut-stubs/utstub-helpers.c:67-172 | indices are issued as 1, 2, ... 127, then 127 again; the live ones are those issued and not deleted; the index issued next is live only if it is 127 |
| StubObjIds.ObjectIds.Alloc | cfs/osal/src/ut-stubs/utstub-helpers.c:85-112 | the bitmap follows that model, and the overlap failure is reported exactly if the index is live |
| StubObjIds.ObjectIds.Delete | cfs/osal/src/ut-stubs/utstub-helpers.c:136-171 | clears the bit of the index; reports a wrong type, an index beyond the map, and a bit that was not set, in any combination, and goes on after each; beyond the map the bit is one of a later type's state, and every other state is unchanged |
| StubObjIds.SpotInRange | cfs/osal/src/ut-stubs/utstub-helpers.c:141-160 | the bit belongs to the map of its own type if and only if the index is in range, and otherwise to a later type or to none |
| StubObjIds.SpotAddress | cfs/osal/src/ut-stubs/utstub-helpers.c:141-160 | the bit of an index is the one at its byte address, with 20 bytes of state for each type |
| StubObjIds.WithoutBitBits | cfs/osal/src/ut-stubs/utstub-helpers.c:158 | clearing a bit of a last issue number leaves its other bits alone |
| StubObjIds.ObjectIds.DeleteStubObjId | cfs/osal/src/ut-stubs/utstub-helpers.c:118-172 | the same as Delete on the unpacked ID, after the one-time clearing, for the states of all types |
| StubObjIds.ObjectIds.AllocStubObjId | cfs/osal/src/ut-stubs/utstub-helpers.c:67-113 | the ID is composed of the issued index and the type, after a one-time clearing of all objects through the stub table; the other types are as that leaves them |
| StubObjIds.ByteBits | cfs/osal/src/ut-stubs/utstub-helpers.c:97-105 | setting and clearing one bit of a byte leaves the other bits alone |
| StubObjIds.DecomposeCompose | cfs/osal/src/ut-stubs/utstub-helpers.c:174-186 | unpacking recovers index and type if and only if both fit 16 bits and the type lacks the mark bit 0x4000 |
| StubObjIds.ComposeDecompose | cfs/osal/src/ut-stubs/utstub-helpers.c:174-186 | packing recovers an ID if and only if it carries the mark |
| UtList.Merge | cfs/osal/ut_assert/src/utlist.c:90-99 | the same four assignments join two rings into one, split a ring at the second head, and change nothing if both heads are one |
| UtList.InsertInto | cfs/osal/ut_assert/src/utlist.c:109-115 | a node inserted in front of any node of a ring gives a ring with it there |
| UtList.InsertAfter | cfs/osal/ut_assert/src/utlist.c:101-107 | a node inserted behind a node gives a ring with it there |
| UtList.Extract | cfs/osal/ut_assert/src/utlist.c:117-123 | any node of a ring, also one that is alone, is a ring of its own afterwards, and the others are a ring in their old order |
| UtList.ListHead.constructor | cfs/osal/ut_assert/src/utlist.c:40-69 | every tag starts with its own head as a ring of one |
| UtList.ListHead.Add | cfs/osal/ut_assert/src/utlist.c:147-159 | a fresh node with the data stands in front of the head of its tag, every other ring is unchanged, and an unknown tag is ignored |
| UtList.ListHead.MergeTags | cfs/osal/ut_assert/src/utlist.c:90-99 | among all rings of a list, merging the heads of two rings joins these, of one ring splits it in front of the second head, and all others are unchanged; a head merged with itself changes nothing |
| UtList.MergeTwiceRestores | cfs/osal/ut_assert/src/utlist.c:90-99 | merging twice with the same heads gives back the rings, each counted from its head |
| UtList.ListHead.DeleteNode | cfs/osal/ut_assert/src/utlist.c:161-170 | takes any node out of its ring, leaves the others and all other rings as they were, and frees it exactly if it carries data; without its only head a ring of data nodes stays a ring, but leaves the list |
| UtList.ListHead.Reset | cfs/osal/ut_assert/src/utlist.c:82-88 | terminates with the head alone; other heads of its ring are left alone, data nodes are freed, and other rings are unchanged |
| UtList.ListHead.Destroy | cfs/osal/ut_assert/src/utlist.c:71-80 | for any rings, merged or not, frees every data node exactly once and no head |
| UtTestRing.GrowArranges | cfs/osal/ut_assert/src/utlist.c:147-159 | once rings are merged, a node added for a tag ends the segment in front of that tag's head |
| UtTestRing.MergeArranges | cfs/osal/ut_assert/src/uttest.c:98-101 | each merge appends the ring of the next tag behind those merged before |
| UtTest.Framework.constructor | cfs/osal/ut_assert/src/uttest.c:140-147 | an empty registry with four tags and nothing executed |
| UtTest.Framework.AddCommon | cfs/osal/ut_assert/src/uttest.c:51-66 | the entry, its name cut to its array, joins the queue of its tag before the run, and the queue of the tag before during the run |
| UtTest.CopiedNameIs | cfs/osal/ut_assert/src/uttest.c:60-63 | the name, or its first 39 characters |
| UtTest.Framework.Add | cfs/osal/ut_assert/src/uttest.c:68-71 | a test with setup and teardown joins the TEST queue |
| UtTest.Framework.AddSetup | cfs/osal/ut_assert/src/uttest.c:73-76 | a setup alone joins the SETUP queue |
| UtTest.Framework.AddTeardown | cfs/osal/ut_assert/src/uttest.c:78-81 | a teardown alone joins the TEARDOWN queue |
| UtTest.Framework.RunEntry | cfs/osal/ut_assert/src/uttest.c:111-132 | one entry is one segment, its parts asserted in contexts of their own, counted if it has a test |
| UtTest.Framework.Run | cfs/osal/ut_assert/src/uttest.c:83-138 | walking the ring while callbacks extend it executes the entries as the queues say, the counters tell their history, every node registered before or during the run is freed and holds the entry that its queue says, and the exit code follows from the totals |
| UtTestRun.RunsGroupsInOrder | cfs/osal/ut_assert/src/uttest.c:88-101 | unless something is registered in time during the run, it executes every registered entry once: setups, tests, teardowns, each in registration order, behind the default group |
| UtTestRun.ExecutesWhatJoinsInTime | cfs/osal/ut_assert/src/uttest.c:106-133 | each phase executes its queue and what entries of this or an earlier phase register into it, once and in order, and nothing else |
| UtTestRun.PhasesInOrder | cfs/osal/ut_assert/src/uttest.c:88-101 | the phases follow each other |
| UtTestRun.ExecutedIffInTime | cfs/osal/ut_assert/src/uttest.c:83-138 | an entry is executed if and only if it was registered before the run, or by an executed entry before its phase was over |
| UtTestRun.TestAddedByTestNeverRuns | cfs/osal/ut_assert/src/uttest.c:68-138 | an entry that is only added as a test, and only by entries running with the tests or teardowns, is never executed |
| UtTestRun.QueuesInTheEnd | cfs/osal/ut_assert/src/uttest.c:51-66 | each queue ends with its entries followed by all that joined it, in time or not |
| UtAssert.Asserts.AssertEx | cfs/osal/ut_assert/src/utassert.c:155-186 | a true assertion is recorded as PASS, a false one under its type or the context, and a type out of range only in the number of test cases |
| UtAssert.Asserts.EndTest | cfs/osal/ut_assert/src/utassert.c:122-143 | a segment that does not look empty is added to the totals, and the segment is cleared |
| UtAssert.Asserts.ExitCode | cfs/osal/ut_assert/src/utbsp.c:197-223 | the exit code is that of the recorded types of all closed segments, each counted modulo 2^32 |
| UtAssert.CaseCountsConserved | cfs/osal/ut_assert/src/utassert.c:122-186 | if all recorded types are valid, the case counts sum to TotalTestCases, modulo 2^32 and exactly below it |
| UtAssert.ExitCodeTells | cfs/osal/ut_assert/src/utbsp.c:213-222 | below 2^32 assertions success means exactly that no closed segment recorded FAILURE, TSF or TTF |
| UtAssert.ExitCodeIsRight | cfs/osal/ut_assert/src/utbsp.c:213-222 | for any history, the exit code tells whether FAILURE, TSF or TTF was recorded if and only if none was, or one of them a number of times that is not a multiple of 2^32 |
| UtAssert.FailuresWrap | cfs/osal/ut_assert/src/utbsp.c:213-222 | 2^32 failures give success |
| UtTestOutcome.EntryIsSegment | cfs/osal/ut_assert/src/uttest.c:111-132 | executing an entry closes one segment with exactly the types of its assertions, or none if it asserts nothing |
| UtTestOutcome.EntryTypesAre | cfs/osal/ut_assert/src/uttest.c:111-132 | false assertions without a type are counted as TSF if the setup makes them, as FAILURE if the test does, and as TTF if the teardown does, and true ones as PASS |
| UtTestOutcome.RunCloses | cfs/osal/ut_assert/src/uttest.c:106-137 | below 2^32 assertions the totals are those of all executed entries together, and the segments those that assert anything |
| UtTestOutcome.ExitCodeOfRun | cfs/osal/ut_assert/src/uttest.c:83-138 | such a run exits with success exactly if no executed entry made a false assertion of a failing type |
| UtTestOutcome.RunClosesSeen | cfs/osal/ut_assert/src/utassert.c:122-143 | for runs of any length the totals are those of the entries whose number of assertions is not a multiple of 2^32 |
| UtTestOutcome.ExitCodeOfAnyRun | cfs/osal/ut_assert/src/uttest.c:83-138 | for runs of any length, the exit code tells whether an executed entry failed if and only if none did, or those totals count a failing type a number of times that is not a multiple of 2^32 |
| UtTestOutcome.FailingRunsPass | cfs/osal/ut_assert/src/utassert.c:122-143 | the inputs: the run of a registry with one test that fails 2^32 times, and of one with two that fail 2^31 times each, exit with success |
| CrcTable.TableIsShift8 | cfs/tools/tblCRCTool/cfe_ts_crc.c:69-90 | each of the 256 entries is eight steps of the register with the reflected polynomial 0x8005 |
| Crc.IndexIgnoresSign | cfs/tools/tblCRCTool/cfe_ts_crc.c:97 | the sign extension of the running value never reaches the index |
| Crc.NextCrcIsFeed | cfs/tools/tblCRCTool/cfe_ts_crc.c:95-99 | one iteration, in signed arithmetic, feeds the eight bits of a byte, low bit first |
| Crc.CalculateCRC | cfs/tools/tblCRCTool/cfe_ts_crc.c:63-102 | the loop gives the bitwise CRC of the buffer from the low half of the start |
| Crc.CrcOfIs | cfs/tools/tblCRCTool/cfe_ts_crc.c:67-101 | the low half of that result is the CRC, and the upper half sixteen copies of its sign bit |
| Crc.CrcContinues | cfs/tools/tblCRCTool/cfe_ts_crc.c:92-101 | passing a result on as the next start gives the CRC of the joined buffers |
| Crc.ChunkIndependence | cfs/tools/tblCRCTool/cfe_ts_crc.c:141-153 | folding over any partition, with empty pieces, gives the CRC of the whole |
| Crc.CrcOfFile | cfs/tools/tblCRCTool/cfe_ts_crc.c:104-158 | however the reads are cut, size and CRC are those of everything behind the headers, unless a read fails |
| CrcRegister.FeedInjective | cfs/tools/tblCRCTool/cfe_ts_crc.c:95-99 | feeding fixed bits is injective in the state of the register |
| CrcDetection.BurstDetected | cfs/tools/tblCRCTool/cfe_ts_crc.c:24-29 | messages that differ only inside sixteen consecutive bits have different CRCs, at any place, length and start |
| CrcDetection.OddErrorsDetected | cfs/tools/tblCRCTool/cfe_ts_crc.c:24-29 | so do messages that differ in an odd number of bits |
| CrcDetection.PayloadErrorsDetected | cfs/tools/tblCRCTool/cfe_ts_crc.c:63-102 | both hold for the low halves of what the program computes for payloads of bytes |
| CrcDetection.SeventeenBitsMissed | cfs/tools/tblCRCTool/cfe_ts_crc.c:24-29 | sixteen is the widest window: two payloads that differ in a burst of seventeen bits have one CRC |
| CrcDistance.PeriodIff | cfs/tools/tblCRCTool/cfe_ts_crc.c:24-29 | the register comes back to 1 after exactly the multiples of 32767 steps |
| CrcDistance.TwoErrorsDetected | cfs/tools/tblCRCTool/cfe_ts_crc.c:24-29 | two wrong bits change the CRC if and only if their distance is not a multiple of 32767, for every message and start |
| CrcDistance.PayloadTwoErrorsDetected | cfs/tools/tblCRCTool/cfe_ts_crc.c:63-102 | the same for the low halves of what the program computes for payloads of bytes |
| CrcDivision.CrcIsRemainder | cfs/tools/tblCRCTool/cfe_ts_crc.c:24-29 | message times x^16 is quotient times generator plus CRC, coefficient by coefficient |
| DirCommands.Dir.DeleteAllCmd | cfs/apps/filemgr/fsw/src/dir.c:207-345 | an entry is gone if and only if it is neither "." nor "..", its path is shorter than 64, has only valid characters and is that of a closed file, and removing it succeeds; the others are left in order; the number removed; the warning; the result false in any case |
| DirDeletion.KindIs | cfs/apps/filemgr/fsw/src/dir.c:239-288 | which entries are removed, which are counted as directories, which are passed over, and that all others are counted as not deleted |
| DirCommands.OpenedIs | cfs/apps/filemgr/fsw/src/dir.c:226-235 | the commands go on exactly with a valid path of a directory that opens and has room for a separator, which is appended if it is not there |
| Directories.ValidCharsAre | cfs/apps/osk_c_fw/fsw/src/fileutil.c:392-430 | the characters that are valid in a path |
| DirCommands.Dir.DeleteEntries | cfs/apps/filemgr/fsw/src/dir.c:237-290 | the loop that starts over after each removal terminates, and its counters are the numbers of reads |
| DirCommands.Dir.DeleteEntry | cfs/apps/filemgr/fsw/src/dir.c:239-288 | which entries are removed, and which counter each of the others increments |
| DirDeletion.TotalReads | cfs/apps/filemgr/fsw/src/dir.c:237-290 | an entry that is kept is read once, and once more for every removal behind it |
| DirWarnings.WarningIsWrong | cfs/apps/filemgr/fsw/src/dir.c:237-313 | in any directory, the warning counter fails to tell whether something is left if and only if something is and the numbers of reads of files and of directories that are left are both multiples of 2^32 |
| DirWarnings.WarnsIffSomethingLeft | cfs/apps/filemgr/fsw/src/dir.c:313 | below 2^17 - 1 entries the warning counter rises exactly if something other than "." and ".." is left |
| DirWarnings.CrowdedIsMissed | cfs/apps/filemgr/fsw/src/dir.c:237-313 | the input of 2^17 - 1 entries with which it does not, in any directory with a valid short path: 65536 files that cannot be removed in front of 65535 that can, all with names of valid characters |
| DirCommands.Dir.SendListPktCmd | cfs/apps/filemgr/fsw/src/dir.c:357-489 | the packet shows the accepted names with size, time and mode if asked for and known, and zeros otherwise, counts all entries, and is cleared at most when the directory cannot be listed |
| DirListing.PageIs | cfs/apps/filemgr/fsw/src/dir.c:408-432 | below 2^32 entries those are the first 20 of the names from the offset on whose paths are shorter than 64 |
| DirListing.LoadedTells | cfs/apps/filemgr/fsw/src/dir.c:797-839 | an entry holds name, size, time and mode each in its place |
| Directories.NonDotsPicked | cfs/apps/filemgr/fsw/src/dir.c:403-404 | the entries considered are all but "." and "..", in order |
| DirListing.AcceptedIsFitting | cfs/apps/filemgr/fsw/src/dir.c:408-432 | below 2^32 entries the accepted names are those from the offset on that fit |
| DirListing.PagesShowAll | cfs/apps/filemgr/fsw/src/dir.c:408-432 | the pages at offsets 0, 20, 40, ... show each entry once and in order if and only if every name fits |
| DirCommands.Dir.WriteDirListToFile | cfs/apps/filemgr/fsw/src/dir.c:615-785 | returns true if and only if every write succeeds and the count modulo 2^16 is not zero; the file then reads back as header, final statistics and an entry for each name shown, with its size, time and mode |
| DirCommands.ShownIs | cfs/apps/filemgr/fsw/src/dir.c:674-735 | the entries shown are the first whose paths are shorter than 64, up to the limit |
| DirListing.StatsRewritten | cfs/apps/filemgr/fsw/src/dir.c:743-757 | writing the statistics over the old ones leaves header and entries as they are |
| DirListing.EntryReadBack | cfs/apps/filemgr/fsw/src/dir.c:690-702 | an entry reads back from its bytes, whatever its array held behind the name, with size, time and mode in this order behind 64 bytes of name |
| DirListing.StatsReadBack | cfs/apps/filemgr/fsw/src/dir.c:655-657 | so do the statistics |
| ElfFields.SwapUInt16 | cfs/tools/elf2cfetbl/elf2cfetbl.c:2175-2181 | reverses two bytes in place |
| ElfFields.SwapUInt32 | cfs/tools/elf2cfetbl/elf2cfetbl.c:2187-2196 | reverses four bytes in place |
| ElfFields.SwapUInt64 | cfs/tools/elf2cfetbl/elf2cfetbl.c:2198-2218 | reverses eight bytes in place |
| ElfFields.SwapSymbol | cfs/tools/elf2cfetbl/elf2cfetbl.c:2153-2169 | reverses each multi-byte member of a symbol of either class, and nothing else |
| ElfFields.SwapSectionHeader | cfs/tools/elf2cfetbl/elf2cfetbl.c:2119-2147 | the same for a section header |
| ElfFields.SwapElfHeader | cfs/tools/elf2cfetbl/elf2cfetbl.c:2079-2113 | the same for the ELF header |
| ElfFields.SwapReads | cfs/tools/elf2cfetbl/elf2cfetbl.c:2079-2169 | a machine of either order that swaps when its order is not the file's reads every member as the file's order says |
| ElfFields.SwappedElsewhere | cfs/tools/elf2cfetbl/elf2cfetbl.c:2079-2169 | a byte that belongs to no member stays as it is |
| ElfImages.ValueOfTwo | cfs/tools/elf2cfetbl/elf2cfetbl.c:2175-2181 | which of two bytes counts more in either order |
| ElfImages.SymbolReadsBack | cfs/tools/elf2cfetbl/ELF_Structures.h:421-442 | what is stored in a symbol of either class and order, member after member as declared, is read |
| ElfImages.SectionReadsBack | cfs/tools/elf2cfetbl/elf2cfetbl.c:1685-1760 | the same for a section header |
| ElfImages.HeaderAccepted | cfs/tools/elf2cfetbl/elf2cfetbl.c:1473-1679 | a file that starts with such an ELF header is accepted if and only if its identification, type, machine and version are, and its members are read |
| ElfImages.FileDefReadsBack | cfs/tools/elf2cfetbl/elf2cfetbl.c:2253-2318 | the same for a table definition: strings in arrays of 64, 40, 32 and 20, and a size |
| ElfLoader.Loader.GetElfHeader | cfs/tools/elf2cfetbl/elf2cfetbl.c:1473-1679 | accepts exactly the headers with the right identification, type, known machine and version, and reads their members as the file's order says |
| ElfLoader.Loader.GetSectionHeader | cfs/tools/elf2cfetbl/elf2cfetbl.c:1685-1871 | reads the header at section offset plus index times entry size and its name, and chooses symbol table and string table; fails exactly at a negative place and at the end of the file |
| ElfLoader.Loader.Load | cfs/tools/elf2cfetbl/elf2cfetbl.c:629-669 | the passes over header and sections give the object that the bytes describe, or fail, alike on both machines |
| ElfSelection.SectionPlace | cfs/tools/elf2cfetbl/elf2cfetbl.c:1690-1720 | the i-th section header is read i times the entry size behind the start of the section table |
| ElfSections.ToInt64Is | cfs/tools/elf2cfetbl/elf2cfetbl.c:1690-1708 | an unsigned offset becomes the congruent int64 |
| Wrappers.ToInt32Is | cfs/tools/elf2cfetbl/elf2cfetbl.c:1877-1885 | and the congruent int32 |
| ElfSelection.SectionNameIs | cfs/tools/elf2cfetbl/elf2cfetbl.c:1735-1750 | a section's name is read where its header says in the section of names |
| ElfSelection.TablesAreFound | cfs/tools/elf2cfetbl/elf2cfetbl.c:1767-1800 | the sections found are those of all headers; the symbol table is the last one, and the string table the last that is called ".strtab", or else the first that does not hold the section names |
| ElfSelection.ObjectIs | cfs/tools/elf2cfetbl/elf2cfetbl.c:629-669 | the passes succeed if and only if the header is accepted, there are sections, all their headers and that of the names can be read, and there is a string table; the object is what has been found |
| ElfSections.SymbolsInSection | cfs/tools/elf2cfetbl/elf2cfetbl.c:1767-1779 | the symbols read are the entries of the symbol table section behind the null symbol, all of them and none outside the section |
| ElfConverter.SymbolReads | cfs/tools/elf2cfetbl/elf2cfetbl.c:1916-1917 | in particular every member of a symbol |
| ElfConverter.Converter.GetSymbol | cfs/tools/elf2cfetbl/elf2cfetbl.c:1877-1959 | reads the symbol at table offset plus index times entry size, with its name; fails exactly beyond the range of int32 and at the end of the file; remembers the last definition |
| ElfConverter.Converter.GetTblDefInfo | cfs/tools/elf2cfetbl/elf2cfetbl.c:2253-2318 | reads the definition at section offset plus symbol value with its strings ended and its size in the right order; fails exactly on a wrong size, beyond the range of uint32 and at the end of the file |
| ElfConverter.Converter.FindUserObject | cfs/tools/elf2cfetbl/elf2cfetbl.c:2336-2380 | finds the first symbol in table order that passes the test as coded |
| ElfConverter.Converter.LocateAndReadUserObject | cfs/tools/elf2cfetbl/elf2cfetbl.c:2324-2480 | selects that symbol, leaves the smaller of both sizes in it, or the definition's if the ELF file has none, and stands at section offset plus symbol value; fails exactly without a match and beyond the range of uint32 |
| ElfConverter.Converter.WriteWord | cfs/tools/elf2cfetbl/elf2cfetbl.c:2547-2590 | a header word comes out most significant byte first on machines of both orders |
| ElfConverter.Converter.OutputDataToTargetFile | cfs/tools/elf2cfetbl/elf2cfetbl.c:2486-2623 | writes both headers and as many bytes as the size says: zeros, or what the file gives |
| ElfConverter.Converter.Convert | cfs/tools/elf2cfetbl/elf2cfetbl.c:665-728 | succeeds exactly if a table can be selected, and writes its table file, which does not depend on the machine |
| ElfConverter.ConvertFile | cfs/tools/elf2cfetbl/elf2cfetbl.c:609-728 | from file to file: the result is a function of the bytes of the object file and the options, the same on machines of both orders |
| ElfTableFile.ObjectIndexIsFirst | cfs/tools/elf2cfetbl/elf2cfetbl.c:2336-2380 | the selected symbol matches and none before it does |
| ElfTableFile.DefIndexIsLast | cfs/tools/elf2cfetbl/elf2cfetbl.c:1936-1942 | the selected definition is the last |
| ElfSelection.SelectedIsChosen | cfs/tools/elf2cfetbl/elf2cfetbl.c:665-728 | the conversion succeeds if and only if there are a last definition that can be read and a first symbol that matches it with contents that can be sought, and uses these |
| ElfTableFile.NameIs | cfs/tools/elf2cfetbl/elf2cfetbl.c:1927-1932 | a name is the characters in front of the first zero, 60 at most |
| ElfTableFile.SelectedAsDocumented | cfs/tools/elf2cfetbl/elf2cfetbl.c:2336-2380 | the object selected is the one that the comments describe if and only if no symbol in front of that is the name with a printable character behind it, and otherwise it is such a symbol |
| ElfTableFile.DocumentedIndexIsFirst | cfs/tools/elf2cfetbl/elf2cfetbl.c:2343-2357 | the object that the comments describe is the first with the name, or the name and an unprintable character |
| ElfTableFile.IsPrintIs | cfs/tools/elf2cfetbl/elf2cfetbl.c:2351 | the printable characters are those from the blank to the tilde |
| ElfTableFile.LongerNeighbourSelected | cfs/tools/elf2cfetbl/elf2cfetbl.c:2345-2357 | the input, for every name that is read whole: a symbol whose name is one printable character longer, in front of the object, is selected |
| ElfTableFile.PayloadIsContents | cfs/tools/elf2cfetbl/elf2cfetbl.c:2402-2456 | zeros in .bss, otherwise the bytes at section offset plus symbol value, with the smaller of both sizes, or the definition's if the ELF file has none |
| ElfTableFile.TableFileReadsBack | cfs/tools/elf2cfetbl/elf2cfetbl.c:2490-2620 | reading the file most significant byte first gives content type, subtype and length, the identifiers, time, description and table name of the options where given and of the definition otherwise, and the number of bytes of contents that follow |

## Left out

- Allocation: `malloc` always succeeds, and `UtAssert_Abort` ends the program.
- Printing, console modes, event messages and what they format; argument names and types in stub contexts
  (`UT_Hook_GetArgPtr`, the parsing in `UT_Stub_RegisterContextWithMetaData`).
- Hooks that call back into the stub table while a stub call holds slots of it.
- Sizes of data buffers that are read from a NUL-terminated string by a caller; memory is a map from addresses to blocks, so
  buffers of the caller that overlap in part are not modelled.
- StubTable.StubTable.SetDataBuffer: a caller has to point at as many bytes as it says, as in C, and, unless it asks for a
  copy, at memory of its own: a buffer over a copy that the table owns would be left without memory when that is freed.
- StubQueue.PutThenDrain: says nothing if a call aborts; `StubQueueRoom.QueueDelivers` gives the room in which none does.
- Delete: the states of the object types lie one after the other, with little-endian numbers, as in a C array; what lies
  behind them all is one byte.
- `OS_QueueCreate`, `OS_QueueDelete` and the other OSAL stubs, which are thin wrappers of the default stub.
- The copying of data into a list node (`UtList_NewNode`): a node holds its data as a value.
- UtList.InsertAfter: only at the head of a given rotation of a ring, which any node is.
- Callbacks that never stop registering tests.
- OS_DirectoryRewind: always succeeds. What `OS_stat` and the table of open files say of a path is a parameter, and does
  not change while a command runs, except by removal.
- `DIR_CreateCmd`, `DIR_DeleteCmd` (whose test of the open status is inverted) and `DIR_WriteListFileCmd` before it calls
  `WriteDirListToFile`.
- WriteDirListToFile: the cFE file header is written as one piece of bytes; integers are stored by a little-endian
  processor.
- GetSectionHeader: requires that section names end within the 60 bytes they are read to, that index times entry size is
  below 2^31 and that a symbol table has entries of some size, since C leaves the rest undefined; a section without a name
  has an empty one.
- Convert: requires that the sections it looks up exist and that the table is below 2^31 bytes, since the C code indexes
  an array without a check and counts in an int; results of `fwrite` are ignored, as in C.
- ConvertFile: requires both; the map of machine names is a parameter.
- GetSymbol: an empty name compares what an earlier call left in its buffer; the model takes it for no match. A name of 60
  or more characters writes one byte past that buffer in C; the model gives the first 60 characters.
- The CRC tool's opening of its file and its seek behind the two headers.
- Command lines, epochs and the map of machine names of `elf2cfetbl.c`.
- `cfs/apps/mipea`, other applications, and the Python and ground system parts.
