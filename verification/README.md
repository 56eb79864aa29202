# iOS 32-bit runtime: verified models

Dafny models of the parts of LiveExec32 and touchHLE where correctness is decided by an algorithm or a protocol. Each
mutable structure of the original is a class, each loop of the original a loop with invariants. Properties are proved
for every input, every run or every reachable state.

| area | files |
|---|---|
| open-addressing hash table | `Probing`, `FlagWords`, `Rounding`, `Buckets`, `Rehashing`, `KHash`, `KHashRuns` |
| path normalisation (section 4, step 6 of RFC 1808) | `PathUnits`, `PathPasses`, `GetParents` |
| load order of binaries | `LoadGraph`, `LoadOrder` |
| guest memory | `GuestSpace`, `PageTables`, `GuestViews`, `GuestMemory`, `GuestMemoryRuns` |
| argument passing | `GuestArgs`, `Marshalling` |
| threads, mutexes, semaphores | `Threads`, `ThreadInvariant`, `ThreadRuns`, `ThreadLocks`, `ThreadWaking`, `ThreadMutexes`, `Environment` |
| guest filesystem | `GuestPaths`, `FsTree`, `FsMirror`, `FsLayout`, `FsWalk`, `GuestFs`, `FsAnswers`, `FsRuns` |
| shared | `Options`, `Arithmetic` |

`dafny verify dfyconfig.toml` checks everything.

**Hash table.** `KHash` keeps the packed two-bit flags, the key and value arrays and the four counters of the original.
The ghost field `Contents` is the finite map it stands for. The number theory behind the probe sequence is in `Probing`.
The in-place rehash is the relation `Rehashing.Moving`: which elements still wait in the old table, which are placed in
the new one, which one is in hand. The number of waiting elements is why the kick-out loop ends. `i & mask` is written
`i % n` for `n` a power of two, and `0.77 * n + 0.5` is `(77 * n + 50) / 100`.

**Paths.** The reference is one fold over slash-terminated units. Each of the four passes has a string function; each
loop is proved against its function, and the composition of the four functions is proved equal to the fold.

**Load order.** Kahn's algorithm is proved against paths and cycles in the dependency graph. Hash-map iteration order is
left open: the leaves come in any order.

**Guest memory.** Host memory is a finite map from addresses to bytes. `Coherent` ties the flat page table to the hash
table. `Load`, `Store`, `LoadBytes` and `StoreBytes` are the byte-by-byte reference. Answers of the host's `mmap` are
parameters. The comment in the original speaks of 16 MB; the constant, which the model follows, is 0x10000000.

**Argument passing.** The call's effect on registers and memory is a parameter, so the results hold for every callee. For
results returned through memory the model shows exactly when the arguments reach into the return buffer: from four
argument words on, the last one overwrites the buffer's first word, because the register taken by the return pointer is
not counted.

**Threads.** `Threads.Step` is the state machine: calls of the running guest thread and the executor's turn. `Enabled` is
what callers owe (existing handles, no self-deadlock on a plain mutex, no yield by a thread that has suspended itself,
no deadlocked program);
`Asserts` collects the original's own assertions and unwraps, and is proved, never required, over runs. Time is a
parameter: each candidate is examined at its own moment. `ThreadWaking.Due` says on the state's fields when a waiting
thread may go on. `Environment` holds the fields and loops of the original.

**Filesystem.** `TopAt` turns the tree into a table from paths to nodes without children. Answers and effects of the
calls are functions of this table, every operation is proved to answer and change it accordingly, and whole runs are
compared with replaying the table. Host answers are parameters; where the host fails, the original panics, except in the
final step of a rename. Panics are results named `Panics`, and the model says exactly when they occur. A rename onto the
same path makes the file vanish from the guest tree. Iteration orders of hash maps are given by a listing that shows each
child once. The tree that the filesystem starts with is `FsLayout.Layout`.

## Model

| member | source | states |
|---|---|---|
| `Probing.ProbeNext` | LiveExec32/khash.h:235-239 | the loop's `(i + ++step) & mask` walks the triangular probe sequence |
| `Probing.ProbeInjective` | LiveExec32/khash.h:51-53 | with power-of-two capacity the first `n` probes are pairwise different |
| `Probing.ProbeSurjective` | LiveExec32/khash.h:51-53 | every bucket is visited within `n` probes |
| `FlagWords.SetIsDelTrue` | LiveExec32/khash.h:171 | sets the deleted bit of bucket `i` and leaves all other buckets' flags, those in the same word included |
| `FlagWords.SetIsEmptyFalse` | LiveExec32/khash.h:169 | clears the empty bit of bucket `i` only |
| `FlagWords.SetIsBothFalse` | LiveExec32/khash.h:170 | makes bucket `i` live and leaves all others |
| `FlagWords.FillAllEmpty` | LiveExec32/khash.h:226 | filling with 0xaa makes every bucket empty and undeleted |
| `FlagWords.RoundedWord` | LiveExec32/khash.h:176 | the bit smearing gives the least power of two not below `x` for `0 < x <= 2^31`, and 0 for 0 and above 2^31 |
| `Rounding.RoundUpUnique` | LiveExec32/khash.h:249 | the rounding used for capacities is the only power of two `n` with `n/2 < x <= n` |
| `Rounding.MacroRoundsUp` | LiveExec32/khash.h:176 | on every word from 1 to 2^31 the bit-smearing macro computes that rounding |
| `Buckets.SearchStops` | LiveExec32/khash.h:237-241 | a probe that stops, stops at the key's bucket if the key is present and at an empty bucket if not |
| `Buckets.SearchExhausted` | LiveExec32/khash.h:239 | a probe that returns to its start proves the key absent |
| `Buckets.PutKeepsTable` | LiveExec32/khash.h:336-345 | using an empty or deleted bucket at the end of an occupied path keeps every key reachable and at one place |
| `Buckets.DelKeepsTable` | LiveExec32/khash.h:349-355 | a tombstone keeps all other keys reachable |
| `Buckets.IndexedSize` | LiveExec32/khash.h:196 | the number of live buckets is the number of keys |
| `Rehashing.PickUp` | LiveExec32/khash.h:270-276 | taking an element out of the old table keeps the rehash relation with that element in hand |
| `Rehashing.RoomInHand` | LiveExec32/khash.h:281 | while an element is in hand the new table still has an empty bucket on its probe path |
| `Rehashing.Round` | LiveExec32/khash.h:277-292 | one round of kicking out places the element in hand; it ends, or takes a waiting element in hand with its own value, which is then one fewer waiting |
| `Rehashing.Finishes` | LiveExec32/khash.h:295-304 | with nothing left to move, the first new-capacity entries form a table for the same keys |
| `KHashTable.Walk` | LiveExec32/khash.h:233-241 | the lookup loop ends at the first stopping bucket or back at its start |
| `KHashTable.WalkForPut` | LiveExec32/khash.h:320-335 | the insertion loop ends at the first stopping bucket, or at a deleted bucket passed on the way to an empty one |
| `KHashTable.FindEmpty` | LiveExec32/khash.h:278-281 | finds the first empty bucket on the path in the new table |
| `KHashTable.Settle` | LiveExec32/khash.h:282-291 | one kick-out round in place; unless it ends the process, strictly fewer elements wait |
| `KHashTable.KickOut` | LiveExec32/khash.h:277-292 | the kick-out loop terminates with nothing in hand and every key with its value still accounted for |
| `KHashTable.MoveAll` | LiveExec32/khash.h:269-294 | after the outer loop no element is left in the old table |
| `KHashTable.Expand` | LiveExec32/khash.h:253-267 | fresh empty flags and grown arrays start the rehash with all elements waiting |
| `KHashTable.Shrink` | LiveExec32/khash.h:295-298 | cutting the arrays keeps the first entries |
| `KHashTable.Rebuild` | LiveExec32/khash.h:253-300 | the whole in-place rehash represents the same map without tombstones, growing, shrinking or at the same size |
| `KHashTable.KHash.constructor` | LiveExec32/khash.h:212-214 | a new table is valid and empty |
| `KHashTable.KHash.CapacityGood` | LiveExec32/khash.h:249-252 | capacity is 0 or a power of two from 4 on, `upper_bound` is 77 percent of it to the nearest number, and `size <= n_occupied <= upper_bound` in every valid state |
| `KHashTable.KHash.SizeIsCardinality` | LiveExec32/khash.h:196 | `size` is the cardinality of the map |
| `KHashTable.KHash.Get` | LiveExec32/khash.h:230-243 | returns the bucket holding the key and its value exactly when the map has the key, the capacity otherwise |
| `KHashTable.KHash.Resize` | LiveExec32/khash.h:244-306 | leaves everything untouched exactly when the keys exceed 77 percent of the rounded-up request, as rounding goes; otherwise same map, that capacity, no tombstones |
| `KHashTable.KHash.Rehash` | LiveExec32/khash.h:268-304 | same map and size, new capacity, `n_occupied == size` |
| `KHashTable.KHash.MakeRoom` | LiveExec32/khash.h:310-318 | afterwards a bucket may be used; capacity stays, becomes 4 or doubles, as the ratio of size to capacity says |
| `KHashTable.KHash.Choose` | LiveExec32/khash.h:319-335 | never a different live key: the chosen bucket is live exactly when it holds the key |
| `KHashTable.KHash.Insert` | LiveExec32/khash.h:336-347 | the result code tells present, empty and deleted apart; the map gains at most the key |
| `KHashTable.KHash.Put` | LiveExec32/khash.h:307-348 | the key is in the returned bucket, all other keys keep their values; result 0 for a present key, 2 for a tombstone reused without a resize, 1 otherwise |
| `KHashTable.KHash.SetValue` | LiveExec32/dynarmic.cpp:1872 | storing through a live bucket changes that key's value only |
| `KHashTable.KHash.Del` | LiveExec32/khash.h:349-355 | removes exactly the bucket's key; nothing for the end iterator or a bucket that is not live |
| `KHashTable.KHash.Clear` | LiveExec32/khash.h:223-229 | the map becomes empty |
| `KHashRuns.Run` | LiveExec32/khash.h:223-355 | after any sequence of store, remove, clear and resize the table agrees with the replayed finite map, and a lookup answers as that map does |
| `PathUnits.JoinUnits` | LiveExec32/ap_getparents.c:5-70 | splitting a path into slash-terminated units and joining gives the path back |
| `PathUnits.UnitsJoin` | LiveExec32/ap_getparents.c:5-70 | joining units and splitting gives the units back |
| `PathUnits.NormalizeClean` | LiveExec32/ap_getparents.c:5-70 | the normal form has no `.` or `..` segment and is not longer than the input |
| `PathUnits.NormalizeIdempotent` | LiveExec32/ap_getparents.c:5-70 | normalising twice is normalising once |
| `PathUnits.NormalizeParent` | LiveExec32/ap_getparents.c:31-53 | a segment followed by `../` goes away together with it |
| `PathUnits.NormalizeDot` | LiveExec32/ap_getparents.c:11-53 | `./` anywhere and a `../` without a segment before it go away alone |
| `PathPasses.PassA` | LiveExec32/ap_getparents.c:11-22 | the first pass drops exactly the `./` units |
| `PathPasses.PassB` | LiveExec32/ap_getparents.c:24-29 | the second drops a final `.` |
| `PathPasses.PassC` | LiveExec32/ap_getparents.c:31-53 | the third pops one unit for each `../`, none when there is none |
| `PathPasses.PassD` | LiveExec32/ap_getparents.c:55-69 | the fourth treats a final `..` likewise |
| `PathPasses.ListPassesAreReduce` | LiveExec32/ap_getparents.c:10-69 | on unit lists the four passes in order are one fold |
| `PathPasses.FourPassesNormalize` | LiveExec32/ap_getparents.c:10-69 | for every string the four passes compute the normal form |
| `GetParents.RemoveDots` | LiveExec32/ap_getparents.c:12-22 | the copying loop in place computes the first pass and leaves what lies behind the string |
| `GetParents.CutDot` | LiveExec32/ap_getparents.c:25-29 | second pass in place |
| `GetParents.BackOneUnit` | LiveExec32/ap_getparents.c:39-46 | moves the cursor to the start of the unit before |
| `GetParents.CloseGap` | LiveExec32/ap_getparents.c:48-49 | the overlapping copy removes the gap, terminator included |
| `GetParents.RemoveParents` | LiveExec32/ap_getparents.c:32-53 | third pass in place, starting from the first dot |
| `GetParents.CutParent` | LiveExec32/ap_getparents.c:56-69 | fourth pass in place |
| `GetParents.ApGetParents` | LiveExec32/ap_getparents.c:5-70 | the buffer ends up holding the normal form of its string; nothing behind the old terminator changes |
| `LoadGraph.IndexOf` | touchHLE/src/environment.rs:168-172 | a name is mapped to the last binary that has it |
| `LoadGraph.GraphEdgesMean` | touchHLE/src/environment.rs:177-201 | there is an edge exactly for each dependency entry that names a packaged binary, by its name behind "/usr/lib/" or by the bare name |
| `LoadGraph.EdgesByName` | touchHLE/src/environment.rs:182-200 | with distinct names, binary `b` has an edge from binary `d` exactly when an entry of `b` is "/usr/lib/" and the name of `d`, or that name alone and without such a beginning |
| `LoadGraph.OrderMeansAcyclic` | touchHLE/src/environment.rs:165-167 | a graph with a complete dependency-respecting order has no cycle |
| `LoadGraph.BlockedMeansCycle` | touchHLE/src/environment.rs:230-235 | a set of nodes each waiting for another in it contains a cycle |
| `LoadGraph.DistinctNamesAllNodes` | touchHLE/src/environment.rs:168-175 | with distinct names every binary is a node |
| `LoadOrder.Build` | touchHLE/src/environment.rs:174-201 | the maps hold dependents with repetition and in-degrees |
| `LoadOrder.Leaves` | touchHLE/src/environment.rs:203-207 | exactly the nodes of in-degree 0, each once |
| `LoadOrder.Release` | touchHLE/src/environment.rs:218-227 | decrementing dependents, repeated ones too, restores the sorting invariant |
| `LoadOrder.Drain` | touchHLE/src/environment.rs:209-228 | the main loop ends with an empty queue and the invariant |
| `LoadOrder.Outcome` | touchHLE/src/environment.rs:230-244 | a positive in-degree is left exactly when there is a cycle; otherwise every node is sorted after its dependencies |
| `LoadOrder.GenerateBinaryLoadOrder` | touchHLE/src/environment.rs:167-245 | succeeds exactly for acyclic graphs; the result is a permutation of the nodes with each dependency first; a failure names a blocked binary |
| `GuestMemory.AddressSpace.constructor` | LiveExec32/dynarmic.cpp:1708-1764 | a new address space is empty and coherent, with or without a flat table |
| `GuestMemory.AddressSpace.GetMemoryPage` | LiveExec32/dynarmic.cpp:945-960 | whichever of the two tables answers, the answer is the page map's backing of the page |
| `GuestMemory.AddressSpace.FindRange` | LiveExec32/dynarmic.cpp:1847-1867 | the search terminates; the range found starts page-aligned and not below the request, and unless fixed has no mapped page |
| `GuestMemory.RequestStartAligned` | LiveExec32/dynarmic.cpp:1837-1847 | the adjusted request is page-aligned and not below 0x10000000 |
| `GuestMemory.RequestStartExact` | LiveExec32/dynarmic.cpp:1837-1867 | the search starts at the first multiple of the mask plus one from the request on, moved up by 0x10000000 if low; a free range there is taken |
| `GuestMemory.AddressSpace.Reserve` | LiveExec32/dynarmic.cpp:1832-1878 | refuses exactly fixed requests below 0x10000000, otherwise adds blank pages over the found range and nothing else |
| `GuestMemory.AddressSpace.PutPages` | LiveExec32/dynarmic.cpp:1869-1873 | each page of the range becomes a blank page |
| `GuestMemory.AddressSpace.AssignPages` | LiveExec32/dynarmic.cpp:1946-1959 | both tables are brought in line page by page, so coherence is restored |
| `GuestMemory.AddressSpace.Prepare` | LiveExec32/dynarmic.cpp:1913-1927 | argument errors and refusals leave the page map alone |
| `GuestMemory.AddressSpace.DirectMmap` | LiveExec32/dynarmic.cpp:1880-1911 | argument errors exactly; on success the guest reads the source's bytes in the range and elsewhere what it read before, and the tables agree again; backing stays disjoint if the source is unused |
| `GuestMemory.AddressSpace.Mmap` | LiveExec32/dynarmic.cpp:1913-1961 | likewise for the bytes the host supplied, rights included; a failed host call leaves the reservation, coherent exactly when no table entry of the range was in use |
| `GuestMemory.AddressSpace.UnmapPage` | LiveExec32/dynarmic.cpp:1811-1828 | removes one page from both tables, or fails and changes nothing |
| `GuestMemory.AddressSpace.Munmap` | LiveExec32/dynarmic.cpp:1800-1830 | removes pages up to the first unmapped one, success exactly when none was missing; the unmapped range then reads as zeros and no other guest byte changes; coherent even after a failure part-way |
| `GuestMemory.StoredPermsMean` | LiveExec32/dynarmic.cpp:1929-1934 | rights are stored as asked for, with the write right added exactly for executable file mappings of more than a page from offset 0 |
| `GuestViews.MapShows` | LiveExec32/dynarmic.cpp:1946-1959 | fresh host memory shows up in the mapped range byte by byte and nowhere else |
| `GuestViews.UnmapShows` | LiveExec32/dynarmic.cpp:1817-1828 | an unmapped page reads as zeros and giving its host memory back changes no other guest byte |
| `GuestViews.MapRights` | LiveExec32/dynarmic.cpp:1954-1956 | every page of the range gets the rights, every other page keeps its record |
| `GuestMemory.AddressSpace.MemoryRead8` | LiveExec32/dynarmic.cpp:1009-1021 | reads the mapped byte |
| `GuestMemory.AddressSpace.MemoryRead16` | LiveExec32/dynarmic.cpp:1022-1048 | at any alignment the little-endian composition of byte loads, page crossings included |
| `GuestMemory.AddressSpace.MemoryRead32` | LiveExec32/dynarmic.cpp:1049-1076 | likewise for four bytes |
| `GuestMemory.AddressSpace.MemoryRead64` | LiveExec32/dynarmic.cpp:1077-1095 | likewise for eight bytes |
| `GuestMemory.AddressSpace.MemoryWrite8` | LiveExec32/dynarmic.cpp:1096-1107 | writes the mapped byte |
| `GuestMemory.AddressSpace.MemoryWrite16` | LiveExec32/dynarmic.cpp:1108-1124 | equals the byte stores of the little-endian value |
| `GuestMemory.AddressSpace.MemoryWrite32` | LiveExec32/dynarmic.cpp:1125-1141 | likewise for four bytes |
| `GuestMemory.AddressSpace.MemoryWrite64` | LiveExec32/dynarmic.cpp:1142-1158 | likewise for eight bytes |
| `GuestMemory.AddressSpace.MemWrite` | LiveExec32/dynarmic.cpp:1991-2013 | writes the bytes up to the first unmapped page and changes no other guest byte; 0 exactly when all pages are mapped |
| `GuestMemory.AddressSpace.MemRead` | LiveExec32/dynarmic.cpp:2015-2031 | returns the guest bytes; 0 exactly when all pages are mapped |
| `GuestMemory.AddressSpace.WriteThenRead` | LiveExec32/dynarmic.cpp:1991-2031 | a block write followed by a block read of any length over any pages gives the same bytes back |
| `GuestSpace.PageWriteLocal` | LiveExec32/dynarmic.cpp:1991-2013 | with disjoint backing a host write inside one page changes exactly those guest bytes |
| `GuestMemory.FailedRemapDisagrees` | LiveExec32/dynarmic.cpp:1937-1941 | a failed fixed remap of a cached page: the flat table still gives the old host page, the hash table none |
| `GuestMemoryRuns.Step` | LiveExec32/dynarmic.cpp:1800-1961 | each call's answer and its effect on the page map; only an overflow or a failed fixed remap can break agreement; backing stays disjoint without direct maps |
| `GuestMemoryRuns.Run` | LiveExec32/dynarmic.cpp:1800-1961 | over every run the page map goes through the calls' effects in order; unless the last call breaks agreement the tables agree for every address, no page lies below 0x10000000 and backing stays disjoint; a run ends early only at such a call or at a host answer that is none |
| `GuestArgs.ArgRoundTrip` | touchHLE/src/abi.rs:446-560 | every argument type survives conversion to words and back |
| `GuestArgs.ArgBytes` | touchHLE/src/abi.rs:460-560 | an argument's words in passing order are its little-endian bytes, two's complement for signed types, low word first |
| `GuestArgs.WordsMean` | touchHLE/src/abi.rs:460-560 | what a callee makes of any words: the little-endian number they hold, cut to the type, with the type's sign |
| `GuestArgs.ArgumentAt` | touchHLE/src/abi.rs:246 | word `j` of argument `i` comes right after the words of the arguments before it |
| `GuestArgs.ParseFlatten` | touchHLE/src/abi.rs:343-416 | the word list of any argument list parses back to it |
| `Marshalling.Cpu.WriteNextArg` | touchHLE/src/abi.rs:392-416 | an argument's words continue the register and stack slots, split between r3 and the stack if need be; other memory is untouched |
| `Marshalling.Cpu.ReadNextArg` | touchHLE/src/abi.rs:345-369 | reads the argument from the same slots |
| `Marshalling.Cpu.WriteArgs` | touchHLE/src/abi.rs:246 | all arguments' words fill consecutive slots, and only stack slots below the caller's stack pointer are written |
| `Marshalling.Cpu.ReadArgs` | touchHLE/src/abi.rs:345-369 | reads a whole argument list from its slots |
| `Marshalling.Cpu.ExtendStack` | touchHLE/src/abi.rs:375-385 | makes exactly the room that the words beyond four need |
| `Marshalling.Cpu.CallHostFunction` | touchHLE/src/abi.rs:228-255 | word `k` of the list is in `r`k or on the stack at the entry SP plus 4(k - 4), and the callee reads the caller's list; nothing at or above the caller's stack pointer changes before it runs; the stack pointer is restored |
| `Marshalling.Cpu.CallHostFunctionLarge` | touchHLE/src/abi.rs:233-255 | with the buffer's address as word 0 the words are passed likewise and the callee still reads the list; fewer than four words leave memory alone, from four on the last word lies in the buffer's first word |
| `Marshalling.Cpu.CallGuestFunction` | touchHLE/src/abi.rs:262-313 | the words are in r0-r3 and on the stack at entry likewise, the callee reads the list, the saved frame words are intact at entry, and LR, SP and frame pointer are restored; PC is restored exactly when it was even, with the Thumb state |
| `Marshalling.Cpu.PushFrame` | touchHLE/src/abi.rs:269-286 | the frame words hold the old frame pointer and link register |
| `ThreadInvariant.InitialInv` | touchHLE/src/environment.rs:1450-1452 | the initial state satisfies the invariant |
| `ThreadInvariant.InvImpliesAsserts` | touchHLE/src/environment.rs:1660-1680 | in a state with the invariant no assertion or unwrap on contexts, blocks, mutexes or counts fails |
| `ThreadInvariant.SelfSuspension` | touchHLE/src/environment.rs:1822-1823 | the assertion at the start of a yield fails exactly for a thread that has suspended itself, and resuming itself brings it back |
| `ThreadInvariant.StepKeepsInv` | touchHLE/src/environment.rs:1183-1380 | every call and every executor turn keeps the invariant |
| `ThreadInvariant.DestroyKeeps` | touchHLE/src/environment/mutex.rs:85-98 | a mutex that is destroyed has no waiter, suspended waiters included |
| `ThreadInvariant.BlockOnMutexKeeps` | touchHLE/src/environment/mutex.rs:192-199 | a blocking lock adds its caller to waiters and waiting count alike |
| `ThreadInvariant.WakeMutexOk` | touchHLE/src/environment/mutex.rs:126-154 | relocking takes the woken thread out of waiters and waiting count alike |
| `ThreadInvariant.SwitchKeeps` | touchHLE/src/environment.rs:1660-1680 | a switch, also away from a finished thread, keeps the invariant |
| `ThreadRuns.RunsAreClean` | touchHLE/src/environment.rs:1450-1645 | over every run from a good state no assertion fails and the invariant holds |
| `ThreadRuns.ContextsInEveryRun` | touchHLE/src/environment.rs:55-59 | in every run exactly the current thread lacks a stored context, and coroutines are resumed and stored for their own thread |
| `ThreadRuns.RegistersSurvive` | touchHLE/src/environment.rs:1660-1680 | over every run each thread's registers are what its own computation last left |
| `ThreadRuns.PickIsNearest` | touchHLE/src/environment.rs:1871-1873 | the scheduler takes a thread no farther in cyclic order than any runnable one |
| `ThreadRuns.NoStarvation` | touchHLE/src/environment.rs:1862-1982 | a ready thread nobody suspends is chosen within as many schedule calls as there are threads, plus one per thread created |
| `ThreadLocks.CountIsLocksMinusUnlocks` | touchHLE/src/environment/mutex.rs:158-267 | over every run a thread's count on an error-checking or recursive mutex is its completed locks minus its unlocks |
| `ThreadLocks.TotalIsLocksMinusUnlocks` | touchHLE/src/environment/mutex.rs:158-267 | the same for all threads together and every kind, plain mutexes included |
| `ThreadLocks.LockAtOnce` | touchHLE/src/environment/mutex.rs:158-190 | a lock call that returns `Ok(n)` at once leaves its caller holding the mutex `n` times |
| `ThreadLocks.WaitsUntilChosen` | touchHLE/src/environment.rs:1872-1985 | a blocked thread keeps its reason, suspended or not, until the scheduler chooses it |
| `ThreadLocks.LockAfterBlocking` | touchHLE/src/environment/mutex.rs:192-200 | a lock call that blocked returns with its caller running and holding the mutex exactly once |
| `ThreadLocks.JoinDelivers` | touchHLE/src/environment.rs:1963-1979 | a join ends once the other thread has finished, with its result stored where asked and nowhere else |
| `ThreadLocks.SemaphoreConservation` | touchHLE/src/environment.rs:1313-1368 | at every point of every run the value is not negative and equals the first value plus increments minus completed decrements |
| `ThreadLocks.SuspensionsBalance` | touchHLE/src/environment.rs:1256-1291 | over every run the suspension count is suspensions minus resumptions |
| `ThreadLocks.SuspendResumeRestores` | touchHLE/src/environment.rs:1256-1291 | as many resumptions as suspensions bring back what the thread waited for, unless it was woken |
| `ThreadWaking.ChoosesNearestDue` | touchHLE/src/environment.rs:1868-1985 | a thread is chosen exactly when some active thread's sleep is over, mutex free, semaphore at least 1, joined thread finished, or nothing blocks it; the chosen one is such a thread and none is nearer |
| `ThreadWaking.SecondPassSucceeds` | touchHLE/src/environment.rs:2002-2010 | when no thread's condition holds, the next pass succeeds once the earliest end of sleep has passed and no pass succeeds before |
| `ThreadWaking.SleepsLongEnough` | touchHLE/src/environment.rs:1246-1254 | a sleep ends no earlier than it should, whatever happens meanwhile |
| `ThreadWaking.SemAfterBlocking` | touchHLE/src/environment.rs:1335-1351 | a waiting decrement at 0 gives up control and returns only having found the value at 1 or more and taken one away |
| `ThreadWaking.SemaphoreFromStart` | touchHLE/src/environment.rs:1313-1368 | conservation from the value a semaphore is created with |
| `ThreadWaking.JoinAfterBlocking` | touchHLE/src/environment.rs:1378-1386 | a join gives up control and returns only when the other thread has finished |
| `ThreadWaking.JoinGetsExitValue` | touchHLE/src/environment.rs:1205-1208 | what a join stores is the value the other thread exited with, however long ago |
| `ThreadWaking.NoStarvationWaiting` | touchHLE/src/environment.rs:1862-1985 | a thread whose condition holds at every schedule call, whatever it waits for, is chosen within the same bound |
| `ThreadWaking.SleeperWakes` | touchHLE/src/environment.rs:1877-1888 | a sleeper nobody suspends is chosen within the bound once its time has passed |
| `ThreadWaking.JoinerWakes` | touchHLE/src/environment.rs:1963-1979 | a thread that joins with a finished one and nobody suspends is chosen within the bound |
| `ThreadWaking.NewThreadRuns` | touchHLE/src/environment.rs:1220-1230 | a new thread starts with blank registers and gets to run within the bound; no other thread is touched |
| `ThreadMutexes.LockByRecord` | touchHLE/src/environment/mutex.rs:158-200 | answer and new record of a lock for each kind, owner and count |
| `ThreadMutexes.UnlockByRecord` | touchHLE/src/environment/mutex.rs:204-267 | answer and new record of an unlock for each kind, owner and count |
| `ThreadMutexes.DestroyByRecord` | touchHLE/src/environment/mutex.rs:85-98 | a mutex goes exactly when nobody holds it and no thread, suspended ones included, waits for it |
| `ThreadMutexes.NestedLocks` | touchHLE/src/environment/mutex.rs:180-187 | locks in a row of a free recursive mutex answer 1, 2, ...; after `n` of them exactly the `n`-th unlock frees it and brings the state back |
| `Environments.Environment.constructor` | touchHLE/src/environment.rs:1450-1452 | starts in the initial state |
| `Environments.Environment.NewThread` | touchHLE/src/environment.rs:1183-1236 | the new thread is ready with blank registers and its own coroutine |
| `Environments.Environment.Sleep` | touchHLE/src/environment.rs:1246-1254 | sleeps until the present time plus the duration |
| `Environments.Environment.SuspendThread` | touchHLE/src/environment.rs:1256-1271 | one suspension more, the reason kept inside |
| `Environments.Environment.ResumeThread` | touchHLE/src/environment.rs:1273-1291 | one suspension less, the last one giving the reason back |
| `Environments.Environment.SemDecrement` | touchHLE/src/environment.rs:1313-1351 | decrements, blocks, or reports failure as value and flag say |
| `Environments.Environment.SemIncrement` | touchHLE/src/environment.rs:1353-1369 | one increment |
| `Environments.Environment.JoinWithThread` | touchHLE/src/environment.rs:1371-1386 | blocks on the other thread |
| `Environments.Environment.NewMutex` | touchHLE/src/environment/mutex.rs:67-80 | a handle never in use, unlocked and without waiters |
| `Environments.Environment.DestroyMutex` | touchHLE/src/environment/mutex.rs:85-98 | refuses exactly locked or waited-for mutexes |
| `Environments.Environment.LockMutex` | touchHLE/src/environment/mutex.rs:158-200 | has the state machine's effect and outcome for each kind and owner |
| `Environments.Environment.UnlockMutex` | touchHLE/src/environment/mutex.rs:204-267 | likewise, a plain mutex being unlocked by any thread |
| `Environments.Environment.Scan` | touchHLE/src/environment.rs:1868-1997 | one pass takes and wakes the first candidate whose condition holds, or finds none and the earliest awakening |
| `Environments.Environment.ScheduleNextThread` | touchHLE/src/environment.rs:1862-2018 | the outer loop terminates with the nearest thread whose condition holds at a moment during the call, woken |
| `Environments.Environment.SwitchThread` | touchHLE/src/environment.rs:1660-1680 | swaps registers and coroutines between the two threads |
| `Environments.Environment.RunTurn` | touchHLE/src/environment.rs:1514-1602 | the executor's turn is the schedule step; the coroutine resumed next is the current thread's |
| `GuestPaths.ResolvePath` | touchHLE/src/fs.rs:273-312 | the loops compute the meaning of the path; no empty, `.` or `..` component is left |
| `GuestPaths.ResolveProper` | touchHLE/src/fs.rs:284-286 | every resolved path has proper components only, so the separator check on new names never fires |
| `GuestPaths.ResolveRelative` | touchHLE/src/fs.rs:288-312 | a relative path means the base joined with it |
| `GuestPaths.ResolveParent` | touchHLE/src/fs.rs:277-279 | `..` drops the last component and stays at the root |
| `GuestPaths.ResolveChild` | touchHLE/src/fs.rs:280 | a proper name adds a component |
| `GuestPaths.ResolveChildAndBack` | touchHLE/src/fs.rs:273-282 | a name followed by `..` makes no difference |
| `GuestPaths.ResolveSame` | touchHLE/src/fs.rs:275-276 | neither does a final `.` or slash |
| `GuestPaths.ResolveEnds` | touchHLE/src/fs.rs:291-312 | absolute paths do not depend on the base, the empty path is the base, a lone slash the root |
| `GuestPaths.RenderRoundTrip` | touchHLE/src/fs.rs:733-742 | a resolved path written out resolves to itself, whatever the working directory |
| `GuestPaths.ResolveJoin` | touchHLE/src/fs.rs:922-923 | components joined by slashes, taken relative to a directory, extend that directory's path by them |
| `FsTree.Descend` | touchHLE/src/fs.rs:748-761 | the loop looks the components up one by one |
| `FsTree.LookupStep` | touchHLE/src/fs.rs:772-790 | looking up a path is looking up its parent and then its name there |
| `FsTree.InsertChanges` | touchHLE/src/fs.rs:1147-1153 | inserting a childless node changes the table of nodes at its path only |
| `FsTree.RemoveChanges` | touchHLE/src/fs.rs:1231 | removing a childless node changes the table at its path only |
| `FsMirror.FromHostMirror` | touchHLE/src/fs.rs:84-122 | reading in a host directory mirrors it: each node is backed by its own relative path |
| `FsMirror.FromHostTop` | touchHLE/src/fs.rs:84-122 | what a read-in host directory holds at every path, writable or not |
| `FsMirror.AssembledMirror` | touchHLE/src/fs.rs:674-690 | a read-only directory over mirrors and read-only files is a mirror |
| `FsLayout.BaseOfHostDirectory` | touchHLE/src/fs.rs:84-122 | a host directory read in for writing is the only base of its tree |
| `FsLayout.AssembledGood` | touchHLE/src/fs.rs:128-150 | good children whose bases are not inside each other on the host make a good read-only directory |
| `FsLayout.ReadOnlyHostDirectory` | touchHLE/src/fs.rs:84-122 | a host directory read in read-only has no writable node |
| `FsLayout.LayoutGood` | touchHLE/src/fs.rs:663-690 | the initial tree, with Documents, Library and tmp, is a mirror whose base directories are apart on the host |
| `FsLayout.SandboxFinds` | touchHLE/src/fs.rs:665-690 | exactly the host's files and directories of Documents, Library and tmp are found below the app's directory, each backed by its own host path |
| `FsLayout.ReadOnlyFinds` | touchHLE/src/fs.rs:663-690 | the bundle is found below the app's directory and the libraries below /usr/lib, for reading only |
| `FsMirror.ChangeKeeps` | touchHLE/src/fs.rs:980-1303 | the changes that operations make keep the mirror and the whole read-only part |
| `FsMirror.BaseOf` | touchHLE/src/fs.rs:84-122 | a writable node lies in a base directory and its host path follows the guest path from there |
| `FsMirror.HostPathsDistinct` | touchHLE/src/fs.rs:84-122 | distinct writable nodes never share a host path |
| `FsMirror.WritableFileInWritableDirectory` | touchHLE/src/fs.rs:84-122 | writable files lie only in writable directories |
| `FsWalk.ListedIffBelow` | touchHLE/src/fs.rs:907-939 | pre-order lists exactly the descendants |
| `FsWalk.PreOrderDistinct` | touchHLE/src/fs.rs:907-939 | none twice |
| `FsWalk.Enumerate` | touchHLE/src/fs.rs:915-937 | the two-stack walk terminates with both stacks empty and lists recursive pre-order |
| `GuestFs.WalkLooksUp` | touchHLE/src/fs.rs:905-939 | each listed path, resolved from the base directory, looks up to its own node |
| `GuestFs.PanicsExactly` | touchHLE/src/fs.rs:366-374 | in a mirrored tree opening panics exactly when it reaches a host or resource file and the host fails, creating a directory and removing exactly when all else is in order and the host fails |
| `GuestFs.RenamePanicsExactly` | touchHLE/src/fs.rs:980-1017 | a rename panics exactly for a directory or read-only host file as source, or a read-only host file or uncreatable file as target |
| `GuestFs.PanicsChangeNothing` | touchHLE/src/fs.rs:980-1028 | a rename that panics has changed nothing |
| `FsAnswers.HandleIsNode` | touchHLE/src/fs.rs:1066-1100 | a handle is of the node at the path, under its own host path, and for writing only if the node is writable |
| `FsAnswers.OpenFails` | touchHLE/src/fs.rs:1031-1122 | each error of opening exactly when it occurs |
| `FsAnswers.CreateDirFails` | touchHLE/src/fs.rs:1255-1303 | each error of making a directory exactly when it occurs, and success with what it leaves |
| `FsAnswers.RemoveFails` | touchHLE/src/fs.rs:1159-1234 | each error of removing exactly when it occurs, and what removing leaves |
| `FsAnswers.RenameFails` | touchHLE/src/fs.rs:980-1028 | the errors of renaming, success exactly when it occurs, and what renaming leaves |
| `FsAnswers.CreateThenRemove` | touchHLE/src/fs.rs:1031-1303 | removing a directory just made or a file just created brings everything back |
| `GuestFs.RenameLeavesTarget` | touchHLE/src/fs.rs:1018-1027 | after a successful rename the target exists exactly when it is not the source's own path |
| `GuestFs.RenameOntoItself` | touchHLE/src/fs.rs:1018-1027 | renaming a file onto itself succeeds and the file is gone |
| `GuestFs.Fs.LookupNode` | touchHLE/src/fs.rs:763-766 | the node at the path's meaning |
| `GuestFs.Fs.LookupParentNode` | touchHLE/src/fs.rs:772-790 | the parent's node and the name, none for the root or a missing parent |
| `GuestFs.Fs.ChangeWorkingDirectory` | touchHLE/src/fs.rs:725-745 | succeeds exactly for directories; relative paths then continue from the directory meant |
| `GuestFs.Fs.OpenWithOptions` | touchHLE/src/fs.rs:1031-1155 | answers each case as the table and the host say; creates exactly one mirrored file or changes nothing; keeps mirror and read-only part |
| `GuestFs.Fs.CreateDir` | touchHLE/src/fs.rs:1255-1303 | likewise for a new directory |
| `GuestFs.Fs.Remove` | touchHLE/src/fs.rs:1159-1234 | removes exactly the node, a directory only when empty; keeps mirror and read-only part |
| `GuestFs.Fs.Rename` | touchHLE/src/fs.rs:980-1028 | the old entry goes exactly on success, the target appears if it was missing and can be created, all else stays |
| `FsRuns.Do` | touchHLE/src/fs.rs:980-1303 | each call is one step of the table of nodes |
| `FsRuns.Run` | touchHLE/src/fs.rs:980-1303 | every run answers as the replayed table does and leaves the tree showing it; a good tree stays good with its read-only part unchanged, and no two writable nodes share a host path |
| `FsRuns.RunFromLaunch` | touchHLE/src/fs.rs:663-697 | all this for every run that starts from the initial tree |
| `GuestFs.Fs.EnumerateRecursive` | touchHLE/src/fs.rs:907-939 | succeeds exactly for directories, with the pre-order list |

## Left out

- Condition variables: the scheduler's branch for them uses waiting and signalling code outside the modelled files.
- Debugger, single stepping, FILE object locks, panic unwinding and the app picker in the executor.
- The semaphore's `waiting` set: only the value is modelled.
- Deadlocked programs: the executor's turn requires that some thread can run or sleeps; the original panics otherwise.
- A main thread that returns, and what follows once a self-suspended thread's yield has panicked.
- Lock-count, thread-count and suspension-count overflow: counts are unbounded.
- Allocation failure in the hash table, and capacities of 2^31 and more; capacities there are unbounded integers.
- `KHashTable.KHash.Put`: the value slot of a new key is whatever the array held, as in the original, until it is stored.
- Page records: the hash table holds them by value, where the original holds pointers to them.
- Alignment of the found range beyond a page for larger masks: the original does not re-establish it while searching.
- `GuestMemory.AddressSpace.FindRange`: addresses do not wrap at 2^64.
- `GuestMemoryRuns.Run`: does not follow a run beyond a call that overflowed the 32-bit range or whose host call failed for a fixed range.
- Host pages larger than 4 KiB, file-backed aliasing, `Dynarmic_mprotect`, code reads and tracing.
- Variable argument lists, and floating-point values other than by their bits.
- `Marshalling.Cpu.CallHostFunction`: requires that the stack arguments fit below the stack pointer; the original would wrap.
- Symbolic links and host file contents; the host filesystem appears as paths and success flags.
- `create_dir_all`, file metadata, non-recursive enumeration and reading or writing file contents are not modelled.
- App bundles in archives: their tree is any mirrored tree without writable nodes.
- In-place update through mutable references into the tree: the model replaces the children of the directory at a path.
- Windows path separators: host names are split at the slash only.
- Heap allocator, dynamic linker, Mach-O loading, Objective-C runtime, syscalls, Mach messages, user interface, audio and graphics.
