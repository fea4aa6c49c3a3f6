# Verified models of the algorithmic cores

A Dafny 4.11 model of the programs in this repository that carry an algorithm or a protocol, with proofs
of what they promise. `dafny verify dfyconfig.toml` checks the whole project.

| files | what they model |
|---|---|
| Options, Sequences, Bits, RecencyList, Chains, Load, Ring, LinkedHashtbl, LinkedRuns, LinkedLookups, LinkedLoad | the linked hash table of c-hacks: chains and a circular list over the same entries |
| Hashtbl, HashtblRuns | the plain chained hash table of c-hacks, on the same chains |
| Leb128 | the 64-bit LEB128 encoders and decoders (section 7.6 of the DWARF Debugging Information Format, Version 3) |
| BankerSpec, BankerComplete, Banker | the banker's algorithm: states and runs as values, what its scan accepts, and the C arrays |
| Philosophers, ThreadPool, Reactor | three concurrent protocols as step systems over any number of threads |
| ChannelTable, TcpStream | channel map and poll table of the event loop; buffer and partial-write sender |
| IniText, IniStore, IniLines, IniRoundTrip, IniValues, IniTags, IniNames | the INI format of SimpleIni.h on values: single lines, the store as a map, the round trip, and what blocks and names come to |
| IniBuffer, IniBlocks, IniComments, IniInPlace, IniReload | the same parser as it runs, on one buffer with pointers into it |
| PatternFormatter | the pattern compiler and padder of spdlog |

Code that works on the heap is modelled on the heap: entries are objects with `next`, `lnext` and `lprev`
fields, tables and buffers are arrays, and each method is proved against a function on values. Ghost
fields hold the abstract value (`contents`), the entries (`all`) and the chains. The protocols are state
machines; a run is a sequence of enabled steps, one per lock, unlock, wait or system call.

Allocation results, evictor answers and the results of `read` and `write` are parameters, so the theorems
hold for every one of them.

Where the code does less than its comments say, the model follows the code:

- `is_safe` starts its scan over only behind the last process, so it can reject a safe state;
  `BankerComplete.FoundIff` says which ones it accepts.
- In `tcp_connection_send_data` the result of `write` is unsigned, so the error branch is dead and a failed
  write sends a byte from in front of the data later (`TcpStream.ConservedIff`).
- With key-only entries, SimpleIni's `FindEntry` leaves the value pointer of the previous key in place
  (`IniRoundTrip.RoundTripIff`).
- White space behind the tag of a multi-line block is ignored only as long as no CR LF has shortened the block,
  and a block without lines has no end of its own (`IniTags.BlockReadsIff`, `IniTags.BlankTagSwallows`,
  `IniTags.EmptyBlockSwallows`).
- A header without its closing bracket is not always skipped (`IniNames.UnclosedSkippedIff`).
- A full poll table drops a new descriptor without an error to the caller (`ChannelTable.PollAdd`, `ChannelTable.AgreeIff`).
- hashtbl.h and linked-hashtbl.h give 0.0 as the load factor that means the default; the code replaces only
  negative ones (`LinkedHashtbl.Create`, `Hashtbl.Create`). Nor is every load factor kept (`LinkedLoad.BoundIff`,
  `HashtblRuns.BoundIff`).
- A thread pool without workers accepts tasks and never runs them (`ThreadPool.AllExecutedIff`).

## Model

| member | source | states |
|---|---|---|
| Bits.MaskIsMod | c-hacks/src/hashtbl.c:96-106 | Masking a hash with capacity - 1, bit by bit, is the hash modulo the capacity, for every power of two. |
| Bits.PowerOfTwoTest | c-hacks/src/hashtbl.c:91-94 | For positive x, the test x & (x - 1) == 0 succeeds exactly for the powers of two. |
| Bits.RoundUp | c-hacks/src/hashtbl.c:82-89 | The doubling loop returns the least power of two that is not below its argument. |
| Bits.CapacityFacts | c-hacks/src/hashtbl.c:315-334 | The capacity that resize settles on is a power of two in 1..2^30, is at least the request, and exceeds the present size exactly when the request does and there is room; a doubling request is taken as it is. |
| Bits.DoublingRaisesThreshold | c-hacks/src/hashtbl.c:108-111 | Doubling the capacity raises the rounded threshold exactly when capacity times load factor is at least 0.75 or lies in [0.25, 0.5). |
| Bits.ThresholdRounds | c-hacks/src/hashtbl.c:108-111 | The threshold is a nearest integer to capacity times load factor, and a count is at or above it exactly when the count plus one half is above that product. |
| RecencyList.InsertIsMapUpdate | c-hacks/src/hashtbl.c:182-207 | As a map, the list of pairs after an insert answers the new value for the key and the old answers for all others. |
| RecencyList.RemoveIsMapRemove | c-hacks/src/hashtbl.c:147-163 | As a map, the list of pairs after a removal lacks exactly that key. |
| Ring.ListAdd | c-hacks/src/linked-hashtbl.c:106-115 | Four pointer writes turn a well-formed circular doubly linked list into one with the node right behind the head. |
| Ring.ListRemove | c-hacks/src/linked-hashtbl.c:117-121 | Two pointer writes close a well-formed ring over a node; all others keep their order. |
| Chains.ChainPush | c-hacks/src/hashtbl.c:120-127 | Pushing an entry onto the chain of its hash keeps every chain null-terminated, duplicate-free, in the slot of its hashes, and covering exactly the given entries plus the new one. |
| Chains.ChainUnlink | c-hacks/src/hashtbl.c:113-118 | Advancing one link over an entry keeps the chain invariant for the remaining entries. |
| Chains.ChainFind | c-hacks/src/hashtbl.c:129-141 | The chain walk stops at the first entry with equal hash and equal key, with its predecessor in hand, or at the end. |
| Chains.FoundIndex | c-hacks/src/linked-hashtbl.c:171-183 | What a walk of one chain finds is what a search of the whole abstract list finds, both ways. |
| LinkedHashtbl.Create | c-hacks/src/linked-hashtbl.c:326-375 | Creation succeeds exactly when both allocations do, and gives an empty valid table with normalised capacity; a negative load factor becomes 0.75, one above 1 becomes 1, any other is kept, 0.0, which the header gives for the default, included; the threshold is a nearest integer to capacity times factor. |
| LinkedHashtbl.Table.Lookup | c-hacks/src/linked-hashtbl.c:258-269 | NULL when no pair of the list has an equal key, the value of the pair that has one otherwise; in access order that pair moves to the front and nothing else moves. |
| LinkedHashtbl.Table.RecordAccess | c-hacks/src/linked-hashtbl.c:141-149 | The relinking moves exactly the accessed pair to the front, only in access order; chains and ring still hold the same entries. |
| LinkedHashtbl.Table.RemoveKey | c-hacks/src/linked-hashtbl.c:189-208 | The pair with an equal key leaves chain and ring, all others stay in order, and the answer is 0; without such a pair nothing changes and the answer is 1. |
| LinkedHashtbl.Table.RemoveEldest | c-hacks/src/linked-hashtbl.c:163-169 | The victim of the evictor is the last pair of the list. |
| LinkedHashtbl.Table.Insert | c-hacks/src/linked-hashtbl.c:210-256 | A new key goes to the front, a known one keeps its place and gets the new value, eviction drops the last pair, a failed allocation changes nothing. Without automatic resizing the table is left alone; with it, memory and room, it doubles exactly when the count has then reached capacity times load factor, rounded to nearest. |
| LinkedHashtbl.Table.Resize | c-hacks/src/linked-hashtbl.c:377-422 | The contents stay as they are whatever the allocation does; the size is then the greater of the old and the normalised one; it fails exactly when growth was needed and memory refused, and then the table is untouched. |
| LinkedHashtbl.Rehash | c-hacks/src/linked-hashtbl.c:405-413 | Moving every node of the ring onto its chain in the new table loses none and duplicates none. |
| LinkedHashtbl.Table.Clear | c-hacks/src/linked-hashtbl.c:287-307 | Walking the ring while taking nodes out of it ends with an empty valid table and a count of zero. |
| LinkedHashtbl.Iter.Next | c-hacks/src/linked-hashtbl.c:461-482 | On an unmodified table the iterator returns the n-th pair of the list in its direction and 0 exactly after the last, with the previous pair left in place. |
| LinkedHashtbl.Enumerate | c-hacks/src/linked-hashtbl.c:442-482 | Iterating to the end lists the pairs in list order, or in reverse for a negative or zero direction. |
| LinkedRuns.Execute | c-hacks/src/linked-hashtbl.c:189-422 | Refinement over whole runs: any sequence of inserts, lookups, removals, resizes and clears, with any allocation failures and evictor answers, leaves the pointer structure valid, denoting what the same calls make of a list of pairs, with the size those calls lead to, and every call has given the answer of the list. |
| LinkedLookups.LookupInRun | c-hacks/src/linked-hashtbl.c:189-307 | A lookup anywhere in a run, from an empty table, answers the value its key was last given by an insert that succeeded, if the key was neither removed, cleared nor evicted since, and NULL otherwise. |
| LinkedLookups.FixedSize | c-hacks/src/linked-hashtbl.c:247-253 | Over every run without automatic resizing, the table keeps its size unless resize is called. |
| LinkedLoad.BoundIff | c-hacks/src/linked-hashtbl.c:123-126 | Exact condition for the load bound over all runs, for every size: a table that starts empty always holds fewer entries than its threshold, as long as it can grow and whatever is called, if and only if size times load factor is at least 0.75 (0.5 one doubling short of 2^30, anything at 2^30). |
| LinkedLoad.CreateAndRun | c-hacks/src/linked-hashtbl.c:239-253 | So every table created with such a capacity and factor (for a factor of at least 0.75: with any capacity) keeps the count below the threshold after any calls whose inserts can allocate their tables, until the capacity is 2^30. |
| LinkedRuns.OrderedRun | c-hacks/src/linked-hashtbl.c:141-149 | After every run the list is strictly ordered by last touch, where a touch is a first insert or, in access order, a hit, but not the replacement of a value. |
| LinkedRuns.EvictsLeastRecent | c-hacks/src/linked-hashtbl.c:210-256 | After any run, an evicting insert of a new key removes the pair that was touched longest ago, and only that. |
| LinkedRuns.NeverAboveCap | c-hacks/src/linked-hashtbl.c:239-245 | With an evictor answering count > cap, no run of any calls, removals, clears and failed allocations included, ever leaves more than cap entries. |
| LinkedRuns.CacheHoldsMostRecent | c-hacks/src/linked-hashtbl.c:210-269 | With an evictor answering count > cap, the table holds after every run of inserts, lookups and resizes exactly the min(cap, number of) most recently touched distinct keys, most recent first. |
| Hashtbl.Table.FindEntry | c-hacks/src/hashtbl.c:129-141 | The chain of the hash holds the entry exactly when the abstract list holds the key. |
| Hashtbl.Table.Lookup | c-hacks/src/hashtbl.c:209-214 | NULL when no entry has an equal key, and the value of the one that has otherwise. |
| Hashtbl.Table.RemoveKey | c-hacks/src/hashtbl.c:147-163 | The entry with an equal key goes, all others stay, and the answer is 0; without one nothing changes and the answer is 1. |
| Hashtbl.Table.Insert | c-hacks/src/hashtbl.c:182-207 | A known key gets the new value in its place, a new one is added, and nothing but possibly the size changes when its entry cannot be allocated. Without automatic resizing the table is left alone; with it, memory and room, it doubles before a new key exactly when the count has reached capacity times load factor, rounded to nearest. |
| Hashtbl.Table.Resize | c-hacks/src/hashtbl.c:315-366 | Rehashing preserves the map and the count; the size is then the greater of the old and the normalised one, and a refused allocation leaves every field and slot unchanged. |
| Hashtbl.Transfer | c-hacks/src/hashtbl.c:345-357 | The entry-by-entry move empties the old chains, counts every entry once on each side, and builds chains over exactly the same entries. |
| Hashtbl.Table.Clear | c-hacks/src/hashtbl.c:232-251 | Unlinking every entry leaves an empty valid table. |
| Hashtbl.Iter.Next | c-hacks/src/hashtbl.c:401-431 | Call number n returns the n-th entry in slot-then-chain order, and 0 for ever after the last. |
| Hashtbl.Enumerate | c-hacks/src/hashtbl.c:388-431 | Iterating to the end lists all chains one after another. |
| Hashtbl.Apply | c-hacks/src/hashtbl.c:368-386 | The callback is asked about the same sequence from its start; the count returned stops with the first refusal. |
| Hashtbl.VisitsEachOnce | c-hacks/src/hashtbl.c:368-431 | That sequence holds every entry of the table exactly once, nentries in all. |
| Hashtbl.Create | c-hacks/src/hashtbl.c:270-313 | The same for the plain table. |
| HashtblRuns.Execute | c-hacks/src/hashtbl.c:147-366 | Refinement over whole runs, with any allocation failures, of the pointer structure to the list of pairs: contents, size and every answer. |
| HashtblRuns.LookupInRun | c-hacks/src/hashtbl.c:147-251 | A lookup anywhere in a run, from an empty table, answers the value its key was last given by an insert that succeeded, if the key was neither removed nor cleared since, and NULL otherwise. |
| HashtblRuns.FixedSize | c-hacks/src/hashtbl.c:193-197 | Over every run without automatic resizing, the table keeps its size unless resize is called. |
| HashtblRuns.BoundIff | c-hacks/src/hashtbl.c:108-111 | Exact condition for the load bound over all runs, for every size: a table that starts empty never holds more entries than its threshold, as long as it can grow, if and only if size times load factor is at least 0.75 or lies in [0.375, 0.5) ([0.25, 0.5) two doublings short of 2^30, anything from 2^29 on). |
| HashtblRuns.CreateAndRun | c-hacks/src/hashtbl.c:182-207 | So every table created with such a capacity and factor (for a factor of at least 0.75: with any capacity) keeps the count at or below the threshold after any calls whose inserts can allocate their tables, until the capacity is 2^30. |
| Leb128.EncodeUll | c-hacks/src/leb128.c:108-124 | The loop writes exactly the bytes of the unsigned encoding and leaves the rest of the buffer alone. |
| Leb128.EncodeLl | c-hacks/src/leb128.c:157-179 | The same for the signed encoding. |
| Leb128.DecodeUll | c-hacks/src/leb128.c:200-218 | The shifts and ORs compute the sum of the 7-bit groups modulo 2^64 and stop right behind the encoding. |
| Leb128.DecodeLl | c-hacks/src/leb128.c:242-262 | With sign extension skipped in the ten-byte case, the loop computes the signed reading of the groups as a 64-bit two's complement number. |
| Leb128.RoundTripLl | c-hacks/src/leb128.c:157-262 | For every signed 64-bit value and whatever bytes follow, decoding what was encoded returns the value and stops right after it, within ten bytes. |
| Leb128.RoundTripUll | c-hacks/src/leb128.c:108-218 | The same for every unsigned 64-bit value. |
| Leb128.LengthU | c-hacks/src/leb128.c:108-124 | An unsigned encoding has at most n bytes exactly when the value is below 128^n. |
| Leb128.LengthS | c-hacks/src/leb128.c:157-179 | A signed encoding has at most n bytes exactly when the value fits n groups of seven bits in two's complement. |
| Leb128.ByteU | c-hacks/src/leb128.c:108-124 | Byte k of an unsigned encoding is the k-th group of seven bits from the low end, with the continuation bit on all bytes but the last. |
| Leb128.ByteS | c-hacks/src/leb128.c:157-179 | The same for signed values, in two's complement. |
| Leb128.ShortestU | c-hacks/src/leb128.c:200-218 | No terminated byte string that decodes to a value is shorter than the encoding of that value. |
| Leb128.ShortestS | c-hacks/src/leb128.c:242-262 | The same for signed values. |
| Leb128.ListRoundTrip | c-hacks/src/leb128.c:108-262 | From a concatenation of signed and unsigned encodings, whatever follows it, the reader gets the original list back and exactly the rest is left. |
| BankerSpec.FoundIsSafe | 操作系统算法/银行家算法/banker.c:192-248 | If the scan accepts a state, the order it found lets every process finish in turn: the state is safe. |
| BankerSpec.FinishIff | 操作系统算法/银行家算法/banker.c:192-248 | An order lets every process finish exactly when none needs more of any resource than is free at the start and all processes before it hold, as sums. |
| BankerComplete.FoundIff | 操作系统算法/银行家算法/banker.c:192-248 | Exactly which states is_safe accepts, for non-negative allocations: those in which all processes can finish in an order where every process but the last-numbered one is followed by a higher-numbered one, that is, ascending with at most one turn, right behind the last process. |
| BankerComplete.CompleteUpToTwo | 操作系统算法/银行家算法/banker.c:192-248 | So with at most two processes the scan accepts every safe state. |
| BankerComplete.IncompleteFromThree | 操作系统算法/银行家算法/banker.c:228-229 | For every number of processes from three on there is a safe state that the scan rejects, because it starts over only behind the last process. |
| BankerSpec.TakeBackGrant | 操作系统算法/银行家算法/banker.c:173-189 | Returning a grant restores the state exactly. |
| BankerSpec.GrantConsistentIff | 操作系统算法/银行家算法/banker.c:91-127 | A granted request keeps resources conserved, needs equal to maxima minus allocations and everything non-negative if and only if it gives back no more than the process holds. |
| BankerSpec.RunSafety | 操作系统算法/银行家算法/banker.c:265-284 | From a consistent safe state, every run of legal requests, granted or refused, ends in a consistent safe state. |
| BankerSpec.NonNegativeRunsAreLegal | 操作系统算法/银行家算法/banker.c:265-284 | Every run of non-negative requests is legal in that sense. |
| Banker.Bank.IsSafe | 操作系统算法/银行家算法/banker.c:192-248 | The loop that resets its own index terminates, answers TRUE exactly when two sweeps finish every process, and then the array safe[] is a permutation of the processes in which each one's need can be met. |
| Banker.Bank.TryAllocate | 操作系统算法/银行家算法/banker.c:91-127 | The answer is whether no amount asked for exceeds the need or what is free; whatever it is, the amounts leave available and need and go to the allocation of that process, and no other entry changes. |
| Banker.Bank.ReturnBack | 操作系统算法/银行家算法/banker.c:173-189 | The three arrays change as one return. |
| Banker.Bank.HandleRequest | 操作系统算法/银行家算法/banker.c:265-284 | A request is granted exactly when no amount exceeds need or available and the scan accepts the state it leads to; then it is booked entry by entry, and otherwise all three arrays are what they were. |
| Banker.Bank.Serve | 操作系统算法/银行家算法/banker.c:265-284 | Serving a sequence of requests on the arrays computes the run that RunSafety speaks about. |
| Philosophers.RunInv | 操作系统算法/哲学家就餐问题/main.cpp:15-52 | In every reachable state each fork is held by exactly the philosopher whose phase says so. |
| Philosophers.NeverDeadlocked | 操作系统算法/哲学家就餐问题/main.cpp:15-52 | For any number of philosophers from two on, every reachable state has an enabled step, since everyone locks the lower-numbered fork first. |
| Philosophers.NeighboursExclude | 操作系统算法/哲学家就餐问题/main.cpp:15-52 | No two neighbours ever eat at once. |
| Philosophers.MealsKeepComing | 操作系统算法/哲学家就餐问题/main.cpp:15-52 | No run goes on for more than 3N steps without someone starting to eat. |
| ThreadPool.RunInv | ThreadPool/ThreadPool.h:34-97 | Over every interleaving of workers, enqueuers and destructor: mutual exclusion, history equal to queue plus taken tasks, and a waiting task never coexists with a sleeping pool and no notification to come. |
| ThreadPool.TasksInOrderOnce | ThreadPool/ThreadPool.h:34-85 | Tasks leave the queue in enqueue order, and finished, running and queued tasks together are exactly the accepted ones, each once. |
| ThreadPool.AllExecuted | ThreadPool/ThreadPool.h:46-60 | Once all workers of a non-empty pool have returned, every accepted task has been executed exactly once. |
| ThreadPool.AllExecutedIff | ThreadPool/ThreadPool.h:46-97 | Once all workers have returned, every accepted task has been executed exactly once if and only if the pool has a worker at all or nothing was accepted. |
| ThreadPool.NoneRefusedBefore | ThreadPool/ThreadPool.h:62-85 | In no interleaving is a call of enqueue refused before stop is set. |
| ThreadPool.NoneAcceptedAfter | ThreadPool/ThreadPool.h:62-85 | In no interleaving is one accepted after. |
| ThreadPool.NeverStuck | ThreadPool/ThreadPool.h:34-97 | With at least one worker, some thread of the pool can move in every reachable state, unless nothing is left to do or the destructor is done. |
| ThreadPool.ShutdownBounded | ThreadPool/ThreadPool.h:87-97 | After stop is set, the number of further steps is bounded by a rank that every step lowers, unless new calls come in. |
| ThreadPool.ShutdownCompletes | ThreadPool/ThreadPool.h:87-97 | When no step is left after stop, the destructor has joined all workers and everything accepted has been executed. |
| ThreadPool.EmptyPoolLosesTask | ThreadPool/ThreadPool.h:34-97 | With zero workers the promise fails: a task is accepted, the destructor ends, and the task was never run. |
| Reactor.RunInv | httptest-geektime/lib/event_loop.c:10-71 | The invariant of the pending queue, the lock, the flag and the wakeup bytes over every interleaving. |
| Reactor.HandledInOrder | httptest-geektime/lib/event_loop.c:10-71 | In every interleaving, applied changes followed by pending ones are exactly the changes enqueued, in lock order. |
| Reactor.AssertionHolds | httptest-geektime/lib/event_loop.c:54-71 | Whoever holds the lock to enqueue finds is_handle_pending at 0, so the assertion never fails. |
| Reactor.PendingWakesOwner | httptest-geektime/lib/event_loop.c:178-197 | While changes are pending and the owner polls, a wakeup byte is unread or an enqueuer is about to write one. |
| Reactor.NeverStuck | httptest-geektime/lib/event_loop.c:247-266 | If no internal step is possible, the loop is at rest with every enqueued change applied. |
| Reactor.DrainBounded | httptest-geektime/lib/event_loop.c:10-71 | Without new calls, only a bounded number of steps is possible, and at their end everything enqueued has been applied. |
| ChannelTable.FreeSlotIff | httptest-geektime/lib/poll_dispatcher.c:58-89 | The slot table has a free slot exactly when fewer descriptors are registered than it has slots. |
| ChannelTable.PollAdd | httptest-geektime/lib/poll_dispatcher.c:58-89 | The first free slot, and no other, gets descriptor and translated mask; a full table is left unchanged, and nobody is told. |
| ChannelTable.AddAgreesIff | httptest-geektime/lib/event_loop.c:99-106 | Adding a new descriptor leaves map and slot table in agreement on some set of registrations if and only if a slot was free. |
| ChannelTable.AgreeIff | httptest-geektime/lib/event_loop.c:10-37 | Map and slot table agree after every prefix of a run if and only if no new descriptor that the map can take comes while all 1024 slots are taken. |
| ChannelTable.TranslateIs | httptest-geektime/lib/poll_dispatcher.c:58-89 | Bit by bit: the read event asks for 0x40, the write event for 0x100, and no other bit counts. |
| ChannelTable.SlotsAreEvents | httptest-geektime/lib/event_loop.c:10-37 | After every run from empty tables, a descriptor has a slot exactly when it was added with effect and not removed since, and the slot carries the mask of the events of that add or of the last update since. |
| ChannelTable.GrownIs | httptest-geektime/lib/channel_map.c:5-25 | A map that is too small doubles, starting from 32 entries, until the slot fits, and no more often. |
| ChannelTable.Tables.MakeSpace | httptest-geektime/lib/channel_map.c:5-25 | Doubling until the slot fits keeps every entry in its place and clears the new part; a refused allocation leaves the map as it was. |
| ChannelTable.Tables.HandleAdd | httptest-geektime/lib/event_loop.c:86-109 | A new descriptor gets its map entry, and the first free slot, with its translated mask, if there is one; a known or negative one and a refused allocation change nothing; the answer tells these cases apart. |
| ChannelTable.Tables.HandleRemove | httptest-geektime/lib/event_loop.c:112-136 | Map entry and slot, if there is one, of the descriptor go, and no others; negative descriptors and those beyond the map change nothing. |
| ChannelTable.Tables.HandleUpdate | httptest-geektime/lib/event_loop.c:139-153 | On the arrays: the slot that held the descriptor has the mask of the channel's present events, and every other slot is as it was; the answer is -1 exactly for unknown descriptors that are not negative. |
| ChannelTable.Tables.HandlePending | httptest-geektime/lib/event_loop.c:10-37 | After any sequence of changes that the code survives, under any allocation failures, slot table and map hold exactly what those changes amount to. From empty tables, the slots are the descriptors added with effect and not removed since, each with the mask of its last add or update; if the slots sufficed all along, slots and map agree. |
| TcpStream.Buffer.Compact | httptest-geektime/lib/buffer.c:40-47 | The overlapping forward byte copy preserves the readable bytes. |
| TcpStream.Buffer.MakeRoom | httptest-geektime/lib/buffer.c:35-57 | The readable bytes stay the same; nothing changes when there is room, the bytes move to the front when that makes room, and otherwise the block grows by the size asked for or, if realloc fails, nothing changes. |
| TcpStream.Buffer.Append | httptest-geektime/lib/buffer.c:59-66 | The readable bytes are the old ones followed by the new ones. |
| TcpStream.Buffer.SocketRead | httptest-geektime/lib/buffer.c:82-100 | What readv delivered, into the free space and the spare block, follows the old readable bytes; a failure changes nothing. |
| TcpStream.Connection.SendData | httptest-geektime/lib/tcp_connection.c:93-125 | Bytes on the wire followed by the output buffer always equal the bytes handed over, and the write event is on exactly when the buffer is non-empty; a failed first write, whose -1 is read as an unsigned length, adds the byte in front of the data. |
| TcpStream.Connection.SendBuffer | httptest-geektime/lib/tcp_connection.c:127-132 | The whole readable part of the buffer is handed over in order, and the buffer ends up empty. |
| TcpStream.Connection.HandleWrite | httptest-geektime/lib/tcp_connection.c:32-57 | Exactly the accepted prefix moves from buffer to wire, and the write event goes off when the buffer is empty. |
| TcpStream.ConservedIff | httptest-geektime/lib/tcp_connection.c:32-125 | Over every run of sends and write events with any short or failing writes, wire plus waiting bytes equal the concatenation of everything given if and only if no send that found nothing waiting met a failing write. |
| TcpStream.Transmit | httptest-geektime/lib/tcp_connection.c:32-132 | Any sequence of calls on a connection, across compaction and growth of its buffer, leaves wire and buffer as the run on values does; the write event is on exactly while bytes wait, and without failing first writes everything given is then on the wire or waiting, in order. |
| IniText.SameIsFold | opencv-test/play-frame/SimpleIni.h:2857-2890 | Two names that neither order puts first are exactly those with equal characters, up to ASCII case for the caseless order. |
| IniText.LessIsTransitive | opencv-test/play-frame/SimpleIni.h:2857-2890 | Both orders are transitive and asymmetric, as the ordered containers demand. |
| IniStore.SameIs | opencv-test/play-frame/SimpleIni.h:2857-2890 | In characters: equal names have equal length and at each place the same character, or, without regard to case, a letter from A to Z and its small form. |
| IniStore.AddValue | opencv-test/play-frame/SimpleIni.h:2018-2125 | AddEntry is a map update: under any section and key names equal to the given ones the value is the new one, and every other key keeps its value; a section header changes no value. |
| IniStore.AddKeepsPlaces | opencv-test/play-frame/SimpleIni.h:2018-2125 | A known section or key keeps its place and spelling, a new one comes last, other sections stay as they are, and no two sections or keys of a section ever have equal names. |
| IniStore.ValueIs | opencv-test/play-frame/SimpleIni.h:2129-2160 | In such a store the value found is the one wherever both names match, and missing exactly when they match nowhere. |
| IniStore.LastOneWins | opencv-test/play-frame/SimpleIni.h:1482-1561 | After loading any text into an empty store, each key has the value of the last entry under an equal section and key that FindEntry yields, and no others have one. |
| IniStore.LastCopyWins | opencv-test/play-frame/SimpleIni.h:1530-1549 | The same for a store that holds data, where a key that the text does not name keeps its value. |
| IniLines.CommentLineSkipped | opencv-test/play-frame/SimpleIni.h:1633-1636 | A line that begins with ; or #, ended by LF, CR LF or CR, has no effect on the entries after it. |
| IniLines.FileCommentSkipped | opencv-test/play-frame/SimpleIni.h:1482-1561 | Nor has one at the start of the text on what is loaded. |
| IniLines.BlanksSkipped | opencv-test/play-frame/SimpleIni.h:1622-1629 | White space in front of an entry, empty lines included, has no effect. |
| IniLines.NoEntrySkipped | opencv-test/play-frame/SimpleIni.h:1683-1697 | A line that begins with an equals sign has no effect, nor one without any unless keys may stand alone. |
| IniLines.KeyLineRead | opencv-test/play-frame/SimpleIni.h:1676-1746 | A key and its value on a line, with any blanks around either and any end of line, are read without the blanks, and without quotes around the value if quoting is on. |
| IniLines.HeaderRead | opencv-test/play-frame/SimpleIni.h:1646-1675 | A section header is read without the blanks inside its brackets and whatever follows them on its line. |
| IniLines.ValueWritten | opencv-test/play-frame/SimpleIni.h:2659-2682 | When a value is written in quotes, as a block or as it is, in characters. |
| IniLines.UnnamedFirst | opencv-test/play-frame/SimpleIni.h:2546-2620 | The section without a name is written first, whatever its place in the store, and two empty lines come between sections. |
| IniLines.OneKeyWritten | opencv-test/play-frame/SimpleIni.h:2620-2688 | A section with one key is written as header and key line; blanks stand around the equals sign when they are wanted, and an empty value has no equals sign when keys may stand alone. |
| IniRoundTrip.SaveThenLoad | opencv-test/play-frame/SimpleIni.h:2546-2720 | Loading what Save wrote gives back all sections, keys and values in order, the unnamed section first and only if it has keys, multi-line and quoted values included; with key-only entries on, an empty value turns into the value of the key before it. |
| IniRoundTrip.RoundTripIff | opencv-test/play-frame/SimpleIni.h:1683-1756 | Load undoes Save if and only if key-only entries are off or no section has an empty value behind a non-empty one. |
| IniRoundTrip.StaleValue | opencv-test/play-frame/SimpleIni.h:1747-1753 | The smallest store that does not come back: the stale value pointer of FindEntry gives the second key the value of the first. |
| IniValues.SurvivesIff | opencv-test/play-frame/SimpleIni.h:1778-1846 | A value comes back, whatever text follows it, if and only if the condition used for the round trip holds of it; no weaker condition will do. |
| IniNames.NameSurvivesIff | opencv-test/play-frame/SimpleIni.h:1646-1675 | A section name that is not empty comes back from the header that Save writes, whatever follows, if and only if the condition used for the round trip holds of it. |
| IniNames.KeySurvivesIff | opencv-test/play-frame/SimpleIni.h:1676-1712 | A key comes back in front of every readable value if and only if the condition used for the round trip holds of it. |
| IniNames.BareKeySurvivesIff | opencv-test/play-frame/SimpleIni.h:1747-1753 | The same for a key alone on its line, with key-only entries. |
| IniTags.BlockReadsIff | opencv-test/play-frame/SimpleIni.h:1878-1986 | For every tag, lines that are not the tag, newlines of either kind, and blanks behind the tag: the block reads as its lines joined by LF, with the text behind the tag line left over, if and only if it has a line, and the tag carries no blanks or no CR LF has shortened the block before it. |
| IniTags.BlankTagSwallows | opencv-test/play-frame/SimpleIni.h:1935-1950 | For every key, line, tag, blanks and section name: in a file with CR LF, blanks behind the tag make the block take in the rest of the file, the next section included. |
| IniTags.BlankTagExample | opencv-test/play-frame/SimpleIni.h:1935-1950 | One such file. |
| IniTags.EmptyBlockIsEndless | opencv-test/play-frame/SimpleIni.h:1859-1987 | A block whose tag line comes at once does not read as an empty value: the value has no end of its own. |
| IniTags.EmptyBlockSwallows | opencv-test/play-frame/SimpleIni.h:1946-1984 | For every key, tag and section name: the key of such a block ends up with the tag line and the opening of the next section header as its value. |
| IniNames.UnclosedSkippedIff | opencv-test/play-frame/SimpleIni.h:1646-1656 | A header without its closing bracket is skipped, for every name, text behind it and section before it, if and only if no key follows before the next line with a bracket, or the section was already the one that the open name comes to. |
| IniNames.UnclosedHeader | opencv-test/play-frame/SimpleIni.h:1646-1660 | What the open name comes to when a comment follows: it runs on to the end of that comment. |
| IniBlocks.Probe | opencv-test/play-frame/SimpleIni.h:1920-1950 | One line is moved down, ended with a NUL and compared with the tag; trailing blanks count only once a CR LF has shortened the text. |
| IniBlocks.LoadBlock | opencv-test/play-frame/SimpleIni.h:1859-1987 | The loop that shifts lines down in the buffer and puts NULs in leaves, at the value pointer, the block that the reading of the text on values gives, and the pointer at the rest. |
| IniComments.LoadComment | opencv-test/play-frame/SimpleIni.h:1885-1916 | A run of comment lines, with the blank lines between them if they are to be kept, is moved together in the buffer, ended with a NUL, and nothing before it is touched. |
| IniInPlace.ReadValueAt | opencv-test/play-frame/SimpleIni.h:1705-1746 | Trimming, unquoting or block loading in place yields the value and the rest of the specification, as pointers, without touching what lies before the equals sign; a value without an end will end where the next search cuts it. |
| IniInPlace.FindEntryAt | opencv-test/play-frame/SimpleIni.h:1610-1761 | FindEntry on the buffer finds an entry exactly when the specification does; section, key and value pointers denote its strings; nothing earlier changes, and a string that reached into the text ends exactly where the specification says. |
| IniInPlace.LoadData | opencv-test/play-frame/SimpleIni.h:1482-1561 | For every text without NUL, comments, unclosed headers and blocks without lines included, the pointers that LoadData collects denote, at its end, exactly the store that the text means: no NUL or shift damages a string in a way that the meaning does not say. |
| IniInPlace.LoadDataInto | opencv-test/play-frame/SimpleIni.h:1530-1549 | The same for a store that already holds data: names are compared and strings copied as each entry is found, with a value without an end copied up to the end of the text. |
| IniReload.Reload | opencv-test/play-frame/SimpleIni.h:2546-2720 | Writing a store and running the in-place parser on the text gives the store back if and only if key-only entries are off or no section has an empty value behind a non-empty one. |
| PatternFormatter.PadIs | spdlog/spdlog/include/spdlog/pattern_formatter-inl.h:35-91 | With the true length declared, a padded field takes max(width, length) bytes, or exactly width when cut; text and blanks stand on the declared sides, and nothing is thrown. |
| PatternFormatter.PadPreservesIff | spdlog/spdlog/include/spdlog/pattern_formatter-inl.h:68-80 | The padder leaves what was written before the field intact if and only if it does not cut more than the field wrote, and asks for an impossible size if and only if it would cut more than there is. |
| PatternFormatter.HandlePadspec | spdlog/spdlog/include/spdlog/pattern_formatter-inl.h:1274-1325 | The iterator loop reads side, decimal width in size_t arithmetic and truncation mark as the specification does, caps the width at 64, and never passes the end. |
| PatternFormatter.PrintedSpec | spdlog/spdlog/include/spdlog/pattern_formatter-inl.h:1274-1325 | A printed side, decimal width and truncation mark read back as they were printed, with the width modulo 2^64 and capped at 64, and what follows is left over; that is the printed width, up to the cap, if and only if it did not wrap around to something below the cap. |
| PatternFormatter.TwoDigits | spdlog/spdlog/include/spdlog/pattern_formatter-inl.h:1299-1325 | Two digits are read as tens and ones, up to the cap. |
| PatternFormatter.BareSide | spdlog/spdlog/include/spdlog/pattern_formatter-inl.h:1282-1302 | A side mark without digits is passed over and means no padding. |
| PatternFormatter.OneFlag | spdlog/spdlog/include/spdlog/pattern_formatter-inl.h:1060-1272 | What a flag appends, with any specification: a custom handler goes first; three built-in flags ignore their padding and four append nothing without a source location, like the function name of '!'; a percent sign is itself; an unknown flag shows behind a percent sign, or, after a truncation mark, behind the function name, which is padded but not cut. |
| PatternFormatter.PlainFlag | spdlog/spdlog/include/spdlog/pattern_formatter-inl.h:1060-1272 | The same for a flag right behind its percent sign, with no padding. |
| PatternFormatter.NoFlag | spdlog/spdlog/include/spdlog/pattern_formatter-inl.h:1335-1361 | A specification with nothing behind it appends nothing. |
| PatternFormatter.EscapingIff | spdlog/spdlog/include/spdlog/pattern_formatter-inl.h:1227-1229 | The pattern with every percent sign of a text doubled appends exactly that text, for every text, if and only if it has no percent sign or no custom handler for one shows anything else. |
| PatternFormatter.Compile | spdlog/spdlog/include/spdlog/pattern_formatter-inl.h:1327-1372 | Running the compiled list of formatters appends, onto any buffer, what reading the pattern directly from left to right appends. |
| PatternFormatter.Format | spdlog/spdlog/include/spdlog/pattern_formatter-inl.h:1028-1043 | The formatters run in order on the growing buffer, and the end of line follows unless an exception was thrown. |
| PatternFormatter.AppendsOnly | spdlog/spdlog/include/spdlog/pattern_formatter-inl.h:1028-1043 | With true sizes declared, formatting never changes what the buffer already held. |

## Left out

- Leb128.DecodeUll: encodings of more than ten bytes are not covered, because a shift by 64 or more is undefined in C.
- Leb128.DecodeLl: the same limit of ten bytes.
- Banker.Bank.TryAllocate: the process number is below the number of processes; the comparison in banker.c:101 lets the number itself through, which is outside the arrays.
- ChannelTable.Tables.HandleRemove: an unregistered descriptor within the map is excluded, since the C code follows a null pointer there.
- ChannelTable.Tables.HandleUpdate: descriptors beyond the map are excluded, since the C code reads outside the map there.
- ChannelTable.Tables.HandlePending: runs are excluded in which a removal follows a null pointer or an update reads outside the map.
- TcpStream.Buffer.Append: the case that there is no room and realloc fails is excluded, since the C code then writes past the end; senders are modelled with a realloc that succeeds.
- IniInPlace.LoadData: the text holds no NUL, as a text that is read as a C string, and the store is empty; LoadDataInto is for a store that holds data.
- IniInPlace.LoadDataInto: the text holds no NUL either; memory for the copies is there.
- HashtblRuns.BoundIff: two keys that are not equal are given; without any the table never holds more than one entry.
- SimpleIni comments are read but not kept in the store; multiple values per key, byte order marks, character set conversion, CR LF output, numeric getters and deletion are not part of this model. Load-order numbers are positions in a sequence.
- Key and value free callbacks, the freeing of memory, and l_hashtbl_apply.
- The load factor is a real number instead of a double, and hashes are natural numbers instead of 32-bit ones. Doubling a capacity of 2^30 overflows an int in C; the model clamps it, with the same resulting capacity.
- leb128_encode_ul, leb128_encode_l and their decoders, which are the 64-bit functions at the width of long.
- Printing and keyboard input of the banker program, and its work_allocation array.
- The lifetime of futures and condition variables, exceptions thrown by tasks, and fairness of the scheduler.
- poll_dispatch's scan for ready descriptors, epoll, sockets, time-outs, the quit flag, and the casts of channel data.
- The HTTP server, request and response code.
- The individual flags of spdlog with their clocks and caches are functions of the message; custom handlers append any text.
- All other programs of the repository.
