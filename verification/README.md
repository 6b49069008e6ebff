# A verified model of the DNS relay

The relay answers DNS queries from a local table and an LRU cache, and forwards the rest to an upstream
server under translated transaction ids. This project models its five stateful or byte-level parts in
Dafny and proves what they keep over whole runs. `dafny verify dfyconfig.toml` checks everything.

| file | models |
|---|---|
| `HashTable.dfy` | the chained hash table of `src/hash.c`, over linked nodes, and its refinement of a finite map |
| `LruSpec.dfy` | the abstract cache: a most-recent-first sequence of entries, and retention over runs |
| `LruLinks.dfy` | the doubly linked list threaded through the record array, as facts about array contents |
| `CacheBudget.dfy` | the byte budget of that cache modulo 2^64, and exactly when its eviction loop ends |
| `LruCache.dfy` | the record cache of `src/cache.c` as intended: list, free stack, hash index and byte count in place |
| `CacheAsWritten.dfy` | the same cache with the statements in the order written, and exactly when that works |
| `StaticCache.dfy` | the static cache of `src/cache.c`, refining a multimap |
| `ThreadPool.dfy` | the worker pool of `src/threadPool.c` as an interleaving of atomic steps |
| `TaskQueue.dfy`, `PoolQueue.dfy` | its linked FIFO, as used inside the critical sections, and the steps of the pool carried out on it |
| `RelaySpec.dfy`, `IdAdapter.dfy` | the transaction-id ring and the relay steps of `src/main.c`, with their history |
| `Rfc1035.dfy` | a reference decoder for RFC 1035 sections 4.1.1 to 4.1.4 (AAAA: RFC 3596 section 2), written from the RFC |
| `Names.dfy`, `NameCodec.dfy` | `str_to_label` and `fetch_label` of `src/common.c` on byte buffers |
| `PointerChain.dfy` | exactly when `fetch_label` comes to an end |
| `Addresses.dfy` | the address union of `include/common.h` and what copying into it leaves |
| `MessageWriter.dfy`, `MessageReader.dfy` | the message writers and readers |
| `CompressedReply.dfy` | replies as compressing servers send them, which the reader understands |
| `Exchange.dfy` | both together, and with the cache the way from an upstream reply to a later response |

In-place code is written in place: classes over arrays, linked nodes and byte buffers, each method tied to
a specification function or to the reference decoder. The lemmas are about those specifications. Functions
that a proof does not need to look into are hidden there with `hide`.

How the C is read:

- A `void*` record in the hash table is a slot number, and NULL is `None`. The comparator is a partial
  function whose precondition is what the C comparator checks before it stops the process, so a verified
  call shows that the stop is not reached. It reads a snapshot of the records taken for the call.
- Clock readings are parameters, one per call (one per slot in the timeout sweep).
- `release` empties a slot's record list and sets its size to 0. A slot's data counts only while its size is
  above 0; sizes are those of a 64-bit machine, 64 bytes a record.
- A call that does not return is a result: a store can hang in the eviction loop, exit for lack of a slot, or,
  as the code is written, stop the process.
- Two bytes of a message are combined in network order, whatever the host order.

Where the code departs from its evident intent, the model does the following.

- `pop_back` clears the valid flag before it resets the hash node (src/cache.c:270, 282), on which the
  comparator stops the process (src/cache.c:588-591). `LruCache` resets the hash node first. `CacheAsWritten`
  keeps the order written: there a store stops the process if and only if the cache holds `max_length` - 1
  entries.
- `remove_record` subtracts and releases the record at `last` after relinking (src/cache.c:325-326). The
  comment and src/cache.c:284-285 mean the removed record, and so does `LruCache`. In `CacheAsWritten` the
  other entries keep their records if and only if there are none.
- `used_size` starts at 0, is only ever decreased, and is a `size_t` (include/cache.h:79), so after a release
  it is close to 2^64. While at most 1024 bytes have been released the sum in the loop guard
  (src/cache.c:198) wraps to at most 1024; after that it exceeds any budget, the loop empties the cache, and
  `pop_back` on an empty cache changes nothing, so the store never returns. `CacheBudget` keeps this.
- A store whose records are all expired leaves an indexed slot without data (src/cache.c:467, 511-514). The
  model keeps this: `SetMulti` and `SetOne` accept such a store and state that the cache is valid afterwards
  if and only if some record has not expired.
- `set_static_cache` returns false after it has appended an address to a known name (src/cache.c:686-697,
  716). The model keeps this.
- `str_to_label` makes its length check only while bytes are left, so an empty host passes even for
  `maxlen` 0 (src/common.c:90, 100). `StrToLabel` states the exact condition.
- `fetch_label` reports the zero byte as the end of a plain name but the position after the pointer of a
  compressed one (src/common.c:196, 209), and returns the length of the last segment only (src/common.c:197).
  The model keeps both. `ReadAnswer` states for every record whether it is kept: after a plain owner name the
  type is taken from the byte before it, so address records are lost (`KeptExactlyWhenCompressed`,
  `OwnAnswersAreNotKept`) and a record of type 256 to 511 is kept as an A record nobody sent
  (`InventedRecord`).
- A response keeps the query's counts of authority and additional records although its answers overwrite
  them (src/common.c:439-455). So a query with an additional record, such as EDNS, gets a response that is not
  a well formed message; `WriteResponse` states this both ways.
- The adapter keeps the question type in an `unsigned char` (src/main.c:63, 423), so a reply to a request of
  type 257 is offered to the cache of A records. The model keeps this.
- The relay stores every A and AAAA record of a reply under the request's type (src/main.c:242-259) and sends
  it as that type (src/main.c:334-349, src/common.c:406-415). So an A query can be answered with the first four
  bytes of a version 6 address (`MixedReply`), and an AAAA query with four bytes followed by what the array
  place held before.
- `check_A_record` looks at the first record only (src/cache.c:546-549), so records that have expired are sent
  while the first one lives, with ttl 0 because the difference wraps (`ExpiredServed`). `RelayThenServe` states
  for every reply and every time what is sent, and exactly when that is the reply's addresses with their
  remaining ttl.
- `fetch_label` follows a pointer wherever it leads (src/common.c:189-198); `EndsExactly` states when it comes to
  an end, and `SelfPointing` is a name on which it does not.
- The remainder of a negative `short` is negative, so most reply ids above 32767 lead out of the adapter's ring
  (src/main.c:441-449); `InRingExactly` states which do not.
- The -1 of a CNAME text that is too long is added to the length of the answer (src/common.c:416-418, 426-428).
  `WriteAnswer` keeps this.
- A ttl of 2^31 or more is written as 0, because it passes through a signed int (src/common.c:387-402).
- The work-conserving bound of the pool does not hold between setting `shutdown` and the broadcast for two or
  more workers; `CoveredExactlyAlone` states this both ways, and `WorkConserving` gives the bound that always
  holds.

## Model

| member | source | states |
|---|---|---|
| ThreadPool.WorkConserving | src/threadPool.c:14-33 | In every reachable state of any number of workers in which one sleeps, the queued tasks are at most the awake workers heading for the lock plus a signal about to be sent, plus the exited workers; the last term is needed only when somebody has exited, which is never before shutdown |
| ThreadPool.CoveredExactlyAlone | src/threadPool.c:75-82 | The bound without the exited workers holds in every reachable state, shutdown or not, if and only if the pool has at most one worker |
| ThreadPool.ShutdownLeavesTaskQueued | src/threadPool.c:75-82 | For every pool of two or more workers, a run in which, shutdown being set but not yet broadcast, all workers but one sleep beside a queued task, that one has exited, and no signal is pending |
| ThreadPool.TaskIsReachable | src/threadPool.c:14-33 | Before shutdown, from every state satisfying the invariant with a queued task and a worker, the pool can run on without new submissions and without spurious wakeups to a state where the head of the queue was taken |
| ThreadPool.CanDrain | src/threadPool.c:118-132 | Before shutdown every such state can run on, without spurious wakeups, until every submitted task was taken |
| ThreadPool.QuietRunsAreBounded | src/threadPool.c:14-33 | Before shutdown every run without submissions and spurious wakeups has at most as many steps as its rank says |
| ThreadPool.EveryQuietRunDrains | src/threadPool.c:118-132 | Before shutdown, in whatever order the steps come, a run without submissions and spurious wakeups that cannot be continued has taken every task, so no wakeup is lost |
| ThreadPool.RunKeepsInv | src/threadPool.c:14-33 | Lock exclusivity, soundness of what the lock holder concluded, shutdown order, task bookkeeping and the wakeup bound hold along every interleaving |
| ThreadPool.NobodyStranded | src/threadPool.c:78-82 | Once the broadcast has happened no worker sleeps or is about to, and none ever does again, in every interleaving, although the flag is written outside the lock |
| ThreadPool.ExitsAreBounded | src/threadPool.c:84-86 | After the broadcast all workers together make at most a fixed number of further steps in any interleaving |
| ThreadPool.WorkerCanMove | src/threadPool.c:84-86 | After the broadcast, until all workers have exited, a worker can move or the present lock holder can, so the joins are not deadlocked |
| ThreadPool.CanFinish | src/threadPool.c:71-101 | From every state satisfying the invariant after the flag is set, some run without new submissions and spurious wakeups reaches the end of destroy_tpool with every worker exited |
| ThreadPool.EveryRunFinishes | src/threadPool.c:71-101 | After the flag is set every run without submissions is bounded, and one that cannot be continued without them and without spurious wakeups is at the end of destroy_tpool with every worker exited |
| ThreadPool.TaskConservation | src/threadPool.c:25-32 | Along every interleaving the queue is the submitted tasks not yet taken, in order; each running task is the one its own worker took; what destruction frees is exactly the tasks never taken |
| ThreadPool.HistoryIsFaithful | src/threadPool.c:118-128 | The recorded submissions and takes are those of the steps themselves |
| ThreadPool.HistoryConcat | src/threadPool.c:118-128 | The submissions and takes of two runs together are those of each, in order |
| ThreadPool.NoNullTake | src/threadPool.c:26-28 | A worker that reaches the dequeue finds a non-empty queue and takes the oldest submission not yet taken |
| TaskQueue.Queue.Add | src/threadPool.c:119-128 | The walk to the tail appends the task and keeps the chain |
| TaskQueue.Queue.Take | src/threadPool.c:26-27 | The head leaves the queue and is returned |
| TaskQueue.Queue.Drain | src/threadPool.c:88-92 | The final loop visits exactly the queued tasks, in order |
| PoolQueue.Replay | src/threadPool.c:25-27 | Any interleaving with its queue steps carried out on the linked nodes: the chain holds the abstract queue throughout, the tasks taken are the tasks added, in order, as many as there are takes, and what is freed is the abstract leftovers |
| HashTable.Table.Get | src/hash.c:44-72 | The node of the first match in the key's chain, or the chain's last node; the sentinel never holds a record |
| HashTable.Table.Set | src/hash.c:92-112 | Overwrites the matching node unless the record is NULL, or appends one node; all other chains are unchanged |
| HashTable.Table.Reset | src/hash.c:74-91 | Unlinks the first match and nothing else |
| HashTable.LookupAgrees | src/hash.c:58-71 | For any hash and any comparator deciding key equality, a search succeeds exactly when the refined map has the key, with the map's record |
| HashTable.ResetOrStop | src/hash.c:74-91 | With a comparator that can stop the process: the first record that does not just differ decides; a match is unlinked, a stop leaves the table as it is |
| HashTable.SetAgrees | src/hash.c:98-111 | Setting a key is an update of the refined map at that key only if and only if the record is not stored under another key |
| HashTable.ResetAgrees | src/hash.c:81-90 | Resetting a key removes exactly that key from the refined map |
| HashTable.MapGet | src/hash.c:44-72 | get_hashnode is map lookup |
| HashTable.MapSet | src/hash.c:92-112 | set_hashnode is map update if and only if the record is not stored under another key |
| HashTable.MapReset | src/hash.c:74-91 | reset_hash_node is map removal |
| LruSpec.Retention | src/cache.c:169-196 | Over whole runs with maxLength at least 12 and no byte budget: a name stored or hit, then neither used again nor found expired, is still cached with its records as long as at most maxLength - 12 distinct other names were used since; CacheBudget.RetentionWithBudget carries it over |
| LruSpec.LiveConcat | src/cache.c:510-514 | The records that a store keeps of two lists together are those it keeps of each, in order |
| LruSpec.LiveOne | src/cache.c:510-514 | One record is kept if and only if its ttl is not below the clock; with LiveConcat this says exactly what is kept of any list |
| LruSpec.NoUnexpiredLost | src/cache.c:510-514 | Every given record whose ttl is not below the clock is kept, whatever stands around it |
| LruSpec.GetExactly | src/cache.c:546-549 | A lookup misses if and only if the name is not cached or the ttl of its first record is below the clock and is not 1099511627776, and then the name is gone; otherwise it gives all records of the entry and brings it to the front |
| LruSpec.UsesExactly | src/cache.c:334-372 | A call uses a name if and only if it stores it or its lookup of it hits; a lookup finds a name expired if and only if it misses although the name is cached |
| LruSpec.UsedNamesExactly | src/cache.c:334-372 | The names that Retention counts are exactly those that some call of the run stored or hit |
| LruSpec.HitReturnsLastStored | src/cache.c:334-372 | After any run a lookup of a cached name gives exactly the records that the last store of that very name left, unless the first of them has a ttl below the clock that is not 1099511627776 |
| LruSpec.RetentionBoundIsTight | include/cache.h:24 | For every such maxLength a run with maxLength - 11 other names loses the name; by CacheBudget.TightRunReturns it returns within the byte budget |
| LruSpec.MakeRoomKeeps | src/cache.c:259-301 | For a cache of any length, making room when it is full keeps exactly the entries at the first maxLength - 11 positions, if any; as written, CacheAsWritten.PopBack stops instead |
| LruSpec.EvictExactly | src/cache.c:259-301 | Exactly min(10, length) entries go, from the least recent end |
| LruSpec.ApplyKeeps | src/cache.c:179-257 | Every operation keeps labels distinct and the length below maxLength |
| CacheBudget.GuardMeaning | src/cache.c:198 | The guard of the eviction loop is false if and only if the bytes released so far are at most 1024 and together with the budget reach 1024 |
| CacheBudget.HangsExactlyWhenAlwaysOver | src/cache.c:198-203 | For any entries, sizes and budget the loop never ends if and only if its guard is true after every number of passes |
| CacheBudget.StoreReturnsExactly | src/cache.c:191-203 | With a budget of at least 1024 bytes a store returns, having evicted only what a full cache asks for, if and only if the bytes released so far and by its own eviction are at most 1024; otherwise it never returns |
| CacheBudget.FirstStoreFails | src/cache.c:198-225 | The first store of a cache with a smaller budget never returns, and that of a cache of length 1 exits |
| CacheBudget.RunReturnsExactly | src/cache.c:334-427 | A whole run returns, and then answers and ends as the cache without a budget, if and only if each of its stores finds at most 1024 bytes released; otherwise a store never returns |
| CacheBudget.NeverStoredIsMissed | src/cache.c:585-593 | After any run that returns, whatever was evicted or found expired, a name that no call stored is a miss and its lookup changes nothing |
| CacheBudget.RepliesExactly | src/cache.c:334-427 | The k-th answer of a run is that of the k-th call in the state the calls before it left, and a run that returns has answered every call |
| CacheBudget.RetentionWithBudget | src/cache.c:169-203 | Retention holds of the cache with a budget on the runs that return |
| CacheBudget.TightRunReturns | src/cache.c:191-203 | The run of RetentionBoundIsTight returns, with 640 bytes released |
| CacheBudget.ExpiredEntryHangs | src/cache.c:198-203 | In a cache of any length and budget three calls are enough to hang: store seventeen records, find them expired, store again |
| CacheBudget.FreshStoresReturn | src/cache.c:191-203 | A cache given only new names of one record each returns from exactly the stores before its second eviction |
| LruLinks.LinkedIsNormal | src/cache.c:602-644 | A well formed list passes test_normal if and only if the length is its own and, for two slots or more, first and last are its ends |
| LruLinks.NormalExactly | src/cache.c:602-644 | Whatever the links are, a list passes if and only if length links lead forward from slot 0 to a slot with no next one, as many lead back from there, and first and last are the ends when the length is above 1 |
| LruLinks.LinkFront | src/cache.c:244-255 | The writes that link a slot in front give a well formed list again |
| LruLinks.CutMiddle | src/cache.c:159-162 | The writes around a middle slot give the list without it |
| LruCache.ComparatorDecides | src/cache.c:585-593 | Between operations, and throughout the intended ones, the comparator's process stop is unreachable and it decides label equality; CacheAsWritten.DropLast has the opposite for the order written |
| LruCache.Cache.constructor | src/cache.c:76-111 | For any length and budget, with the defaults in place of those not above 0, an empty cache with all structures in agreement and nothing released |
| LruCache.Cache.StackPop | src/cache.c:140-146 | Fails if and only if every slot is listed; otherwise hands out a slot that was free and is no longer on the stack, which still holds exactly the other free slots |
| LruCache.Cache.StackPush | src/cache.c:147-150 | A listed slot becomes free and the stack holds exactly the free slots again; a number out of range changes nothing |
| LruCache.Cache.UnlinkNode | src/cache.c:157-167 | Exactly the neighbours' links are rewritten, and `last` moves when the slot was last |
| LruCache.Cache.DropLast | src/cache.c:264-299 | As intended: the least recent entry goes from list, index and valid slots, its slot to the free stack, and its bytes are counted as released |
| LruCache.Cache.PopBack | src/cache.c:259-301 | As intended: the min(10, length) least recent entries and their bytes go, and everything still agrees |
| LruCache.Cache.RemoveRecord | src/cache.c:302-332 | As intended: exactly the removed entry and its bytes go, wherever it stands in the list |
| LruCache.Cache.MoveToFront | src/cache.c:363-369 | The entry moves to the front, the others keep their order |
| LruCache.Cache.Find | src/cache.c:559-564 | The hash index finds a slot exactly when an entry carries the label, and it is that entry's slot |
| LruCache.Cache.MakeSpace | src/cache.c:191-203 | One eviction in a full cache and then the eviction loop: it hangs exactly when the abstract loop does, and otherwise leaves its entries and released bytes |
| LruCache.Cache.PushFront | src/cache.c:179-257 | After that room the label's slot is first and the rest is what the abstract store leaves; "no remain space" is reached exactly when every slot is listed and the label is unknown |
| LruCache.Cache.Get | src/cache.c:334-372 | Misses if and only if the name is not cached or its first record has a ttl below the clock that is not 1099511627776, and then the entry and its bytes are gone; otherwise the records are returned and the entry moves to the front |
| LruCache.Cache.AddMulti | src/cache.c:505-545 | Exactly the records that have not expired, in order and none of them lost, and 64 bytes booked for each |
| LruCache.Cache.Add | src/cache.c:463-496 | The record unless it has expired; the result is the bytes booked, 64 and those of the label with its terminator, or 0 |
| LruCache.Cache.SetMulti | src/cache.c:394-427 | Returns, hangs or exits as the abstract store with a budget, and refines it; the cache is valid afterwards if and only if some record has not expired |
| LruCache.Cache.SetOne | src/cache.c:373-393 | The same for one record; the result is the bytes booked, 64 and those of the label with its terminator, or 0 if and only if it has expired |
| LruCache.Cache.Run | src/cache.c:334-427 | Any sequence of lookups and stores at any clock values answers, ends, hangs or exits as the abstract run with a budget does |
| CacheAsWritten.DropLast | src/cache.c:264-282 | For every valid cache with entries, a round of pop_back in the order written stops the process |
| CacheAsWritten.PopBack | src/cache.c:259-301 | pop_back in the order written stops the process if and only if the cache has entries |
| CacheAsWritten.StoreStopsExactly | src/cache.c:191-203 | As written, with a budget of at least 1024 bytes, a store stops the process if and only if the cache holds maxLength - 1 entries, and otherwise does what it should |
| CacheAsWritten.SmallBudgetFails | src/cache.c:198-203 | As written, with a budget below 1024 bytes every store into an empty cache hangs and every other one stops the process |
| CacheAsWritten.RemoveRecord | src/cache.c:302-332 | As written, the cache stays valid and the other entries keep their records if and only if the removed entry was the only one; otherwise the last of the others loses its records, and only its bytes are counted |
| CacheAsWritten.RemovalExactly | src/cache.c:325-326 | What removing one of several entries leaves: the last of the others keeps its name without records, its bytes are the ones counted, and all before it are unchanged |
| CacheAsWritten.Get | src/cache.c:334-372 | As written, a lookup damages the cache if and only if it finds an entry beside others whose first record has a ttl below the clock that is not 1099511627776, and is right otherwise |
| CacheAsWritten.SetMulti | src/cache.c:394-427 | As written, a store returns, hangs, stops or exits as the abstract store of the code as written |
| CacheAsWritten.RunCompletesExactly | src/cache.c:334-427 | As written, a run completes, and then answers and ends as the abstract run, if and only if no store meets maxLength - 1 entries and no lookup finds an expired entry beside others; otherwise the first such store stops the process or the first such lookup damages the cache |
| CacheAsWritten.FirstEvictionStops | src/cache.c:191-197 | As written, maxLength - 1 stores of new names are in order and the next stops the process |
| CacheAsWritten.SecondNameIsDamaged | src/cache.c:302-332 | As written, in a cache of length 3 or more three calls are enough for damage: store two names and look the first one up after it expired |
| CacheAsWritten.RunAll | src/cache.c:334-427 | Any run on the structures in the order written answers and ends as the abstract run of the code as written |
| LruCache.Cache.TestNormal | src/cache.c:602-644 | Returns true exactly when both walks visit length slots and the ends are right |
| LruCache.Cache.ValidIsNormal | src/cache.c:602-644 | Every valid cache passes the repository's own test |
| LruCache.Cache.SlotConservation | src/cache.c:95-101 | List and free stack partition the slots 1..maxLength-1, stack[0] stays maxLength, and a free slot is left exactly when the cache is not full |
| LruCache.Cache.EveryNodeIsListed | src/cache.c:204-238 | Every chain node refers to a valid listed slot, in the bucket of that slot's label |
| LruCache.Cache.EverySlotHasOneNode | src/cache.c:204-238 | Every listed slot has exactly one chain node |
| StaticCache.LookupAfterInserts | src/cache.c:682-717 | After any inserts a stored name gives all its addresses in insertion order, and a name that is missing was refused by a full cache |
| StaticCache.AddressesOfConcat | src/cache.c:682-717 | The addresses given for a name by two lists of inserts are those of each, in order |
| StaticCache.Cache.Get | src/cache.c:673-681 | A lookup is multimap lookup |
| StaticCache.Cache.Set | src/cache.c:682-717 | An insert is the abstract insert, a refused one changes no lookup, and the result is true only for a new entry |
| StaticCache.Cache.LoadAll | src/cache.c:682-717 | Inserting a list of names with addresses builds the abstract multimap |
| RelaySpec.Conservation | src/main.c:198-214 | Over every run each accepted request is exactly once waiting, relayed or timed out, and each relayed reply carries the id and address recorded at its own acceptance and is offered to the cache that the low byte of its own type names |
| RelaySpec.RefusedExactlyWhenSlotBusy | src/main.c:423-440 | A push fails exactly when a waiting request holds the next id, which is the one accepted 1024 acceptances earlier, and then changes nothing |
| RelaySpec.ReplyReachesOwner | src/main.c:228-268 | A reply under a waiting request's id goes to exactly that request's client |
| RelaySpec.GrantedAreNumbered | src/main.c:434-436 | The j-th id granted along any run is j modulo 1024, one for each acceptance |
| RelaySpec.EachIdOncePerRound | src/main.c:434-436 | In any run, between two consecutive grants of an id there are 1023 others, and every other id is granted to exactly one of them |
| RelaySpec.LateReplyIsDropped | src/main.c:228-231 | After a request is settled, a reply under its id is dropped in every later state with at most 1023 acceptances after its own |
| RelaySpec.LateReplyAfterARound | src/main.c:228-268 | At the 1024th acceptance such a reply goes to that other client |
| RelaySpec.LateMembers | src/main.c:198-214 | The requests that a sweep finds are exactly the waiting ones whose age, by the clock read at their place, is at least 1000, whatever that place |
| RelaySpec.SweepExactly | src/main.c:200 | After a sweep a request among the last 1024 is waiting if and only if it was and less than 1000 ticks have passed since its acceptance by the clock read at its place; a waiting one that is older is timed out, and nothing else is |
| RelaySpec.SweepWitness | src/main.c:25 | A request accepted at 0 is timed out by a sweep that reads 5000 and stays for one that reads 999 |
| IdAdapter.Adapter.Push | src/main.c:423-440 | Refines acceptance: the id is the acceptance number modulo 1024, or -1 when refused |
| IdAdapter.InRingExactly | src/main.c:441-449 | The place of a reply id is inside the ring if and only if the id is below 32768 or a multiple of 1024, and is then the id modulo 1024 |
| IdAdapter.Adapter.Get | src/main.c:446-449 | For every id that leads into the ring, the request last accepted under it, with its type narrowed, if and only if it is still waiting |
| IdAdapter.Adapter.Pop | src/main.c:441-445 | Settles the waiting request under the id in the history, and changes nothing when there is none |
| IdAdapter.Adapter.Relay | src/main.c:228-268 | Sent exactly when a request is waiting under the id, under the id and to the address recorded when that request was accepted, and offered to the cache of its type; or dropped |
| IdAdapter.Adapter.SweepTimeouts | src/main.c:198-214 | Refines the sweep: exactly the used slots that are less than 1000 old by their own clock reading stay in use, and exactly those requests stay waiting; the other waiting ones are timed out |
| IdAdapter.Adapter.Serve | src/main.c:186-382 | Any sequence of requests to relay, replies and sweeps follows the abstract history; the ids issued and the datagrams sent are those of the history |
| Names.WalkWire | src/common.c:88-104 | A name in wire form is read back by the reference decoder wherever it stands |
| Names.JoinSplit | src/common.c:90-99 | The dots put back between the pieces of a host give the host |
| Names.SplitIsTheOnlyOne | src/common.c:90-99 | The pieces are the only ones without dots that give the host when joined |
| Names.WireLabelsConcat | src/common.c:88-104 | The wire form of two lists of labels together is that of each, in order |
| Names.WireLabelsOne | src/common.c:88-104 | One label is written as its length modulo 256 and its bytes, of whatever length |
| NameCodec.StrToLabel | src/common.c:81-105 | Writes the wire form and returns length + 2, or -1 exactly when the host is not empty and not shorter than maxlen; nothing outside is written |
| NameCodec.FetchLabel | src/common.c:163-212 | For every name that some number of pointers is enough for, wherever they lead, writes the dotted name and a terminator and nothing else; end position fixed by the first segment, result by the last |
| NameCodec.PointerIsFollowed | src/common.c:189-198 | A byte of 64 or more leads to the position in the low 14 bits of it and the next one, forward or backward; the name and the result are those found there |
| NameCodec.WalkIsFetched | src/common.c:163-212 | On a name of section 4.1.4 that is the name, end and last segment of the reference decoder |
| NameCodec.FetchBackward | src/common.c:163-212 | So on such a name fetch_label terminates and writes the dotted name of section 4.1.4 |
| PointerChain.EndsExactly | src/common.c:189-198 | For every message that the pointers do not lead out of, fetch_label comes to an end if and only if no pointer leads to a segment it was in before |
| PointerChain.LastLengthBySegment | src/common.c:189-198 | The result counts the text of the last segment only: for a name that ends in its own segment that of all labels, after a pointer that of the target |
| PointerChain.SelfPointing | src/common.c:189-198 | On a name that points to itself it does not |
| NameCodec.HostDecodes | src/common.c:81-105 | For every host of labels of 1 to 63 bytes the reference decoder gives the host back from its wire form |
| NameCodec.HostRoundTrip | src/common.c:163-212 | fetch_label of str_to_label gives every such host back |
| MessageWriter.WriteQuery | src/common.c:431-438 | Writes exactly the query bytes, or reports the source's 11 for a name that is too long |
| MessageWriter.QueryDecodes | src/common.c:431-438 | A written query decodes to its id, flags 0x0100 and the one question |
| MessageWriter.WriteAnswer | src/common.c:387-429 | Writes exactly the bytes of an A, AAAA or CNAME record, with the type, class and data length given and the ttl below 2^31 or 0 from there on; -1 exactly for a name of 520 bytes or more or another type, and one less than the written length for a CNAME text too long |
| MessageWriter.AnswerDecodes | src/common.c:387-429 | A written answer decodes to the name, type and class given, its ttl below 2^31 and 0 from there on, and four address bytes, sixteen, or the text as a name by its type; and ends where the record ends |
| MessageWriter.AnswerFields | src/common.c:387-429 | The same fields stand after the name for every answer the writer accepts, whatever the labels of its name |
| MessageWriter.AnswersDecode | src/common.c:446-453 | A written answer section decodes to its records, in order |
| MessageWriter.SentAllExactly | src/common.c:446-453 | Every record of a section that AnswersDecode recovers has the fields of its own answer |
| MessageWriter.SkipToAnswer | src/common.c:49-56 | Lands right after the first question of any query in which that has a plain name |
| MessageWriter.WriteResponse | src/common.c:439-455 | The answers follow the first question and the size is exact; for a query with one question the reference decoder accepts the response if and only if the query declared no authority and no additional records, and then recovers the id, the question and exactly the answers |
| MessageWriter.ResponseDecodes | src/common.c:439-455 | The same, of the response bytes |
| MessageReader.ReadQuestion | src/common.c:223-235 | Name, type, class and length as the source takes them: from right after a pointer, and one byte early after a plain name |
| MessageReader.ReadQuestions | src/common.c:236-248 | The name of the first question; for a plain name the question of section 4.1.2, after a pointer type and class from one byte late, and from byte 11 when the last segment is empty |
| MessageReader.ReadAnswer | src/common.c:249-290 | Which bytes become the fields, what the address then holds, and the distance to the next record; on every well formed record it is good if and only if the last segment of the owner is not empty and the type, or for a plain owner its high byte, is that of an address |
| MessageReader.ReadCompressed | src/common.c:249-290 | A record whose owner name ends in a pointer is stepped over exactly, and kept exactly when it is an address record |
| MessageReader.KeptExactly | src/common.c:249-271 | The type the reader takes from any record: its own after a pointer, its high byte after a plain owner name |
| MessageReader.PlainIsShifted | src/common.c:249-290 | What the reader sees of a record with a plain owner name, in terms of the record itself: each field begins one byte early, and so does the length it steps over |
| MessageReader.KeptExactlyWhenCompressed | src/common.c:249-271 | Of the address records, exactly those whose owner name ends in a pointer are read as addresses |
| MessageReader.InventedRecord | src/common.c:249-271 | A record of type 257 with a plain owner name is kept as an A record |
| MessageReader.ScanOfCompressed | src/common.c:292-318 | With compressed owner names the answer loop keeps exactly the A and AAAA records, in order |
| MessageReader.AddressRecordsConcat | src/common.c:309-315 | The address records of two lists together are those of each, in order |
| MessageReader.RoomExactly | src/common.c:309-315 | The array places that the answer loop writes are inside an array of n if and only if there are no answers or the rounds before the last keep fewer than n records |
| MessageReader.ReadAnswers | src/common.c:292-318 | After plain questions, in an array with that room, exactly the records that the reader sees as addresses at the positions it comes to, in order, whatever the owner names, each over what its place held before |
| Exchange.QueryRoundTrip | src/common.c:236-248 | Reading a written query gives the host, the type and class 1 back |
| Exchange.OwnAnswersAreNotKept | src/common.c:387-429 | Answers written by the relay are well formed but not kept by its own reader |
| CompressedReply.ReplyParts | src/common.c:292-318 | Every reply made of a question and records that point to its name is well formed and made of records that the reader understands |
| Exchange.CompressedIsStorable | src/main.c:233-262 | The relay can store every such reply with at most ten address records, and keeps exactly those |
| Exchange.StoreReply | src/main.c:233-262 | The records that the reader keeps of a reply, whatever their own types, are stored under the question's name, to expire at the current time plus their ttl |
| Exchange.SameKeyExactly | src/main.c:247 | Two hosts have the same cache key if and only if they are the same bytes |
| Exchange.LaterLookup | src/main.c:311-318 | After a reply was stored and any operations that do not store its name again, a lookup at any time gives all of its records if and only if the name is still cached and the storing time plus the ttl of the first record is not below the clock or is 1099511627776 |
| Exchange.AnswerQuery | src/main.c:311-362 | A query is answered exactly on a hit, with a response made of the cached addresses under the query's type and their remaining time as it is written |
| Exchange.AskAboutAnother | src/main.c:311-318 | On a fresh cache, after any calls whose stores are all about hosts other than the queried one, an A or AAAA query is a miss: nothing is sent and the cache stays as it was |
| Exchange.ServedExactly | src/main.c:334-349 | What is served of a reply is exactly the reply's addresses with their remaining ttl if and only if every record kept of it has the query's type and width and has not expired |
| Exchange.ServedRecords | src/main.c:334-349 | Every record served has the query's type and class, four or sixteen bytes of what was cached, the remaining ttl below 2^31, and ttl 0 once its time has passed by up to 2^31 |
| Exchange.PastTime | src/main.c:338 | The ttl written for any remaining time, which goes through an unsigned and a signed 32-bit int: 0 whenever it is negative by up to 2^31 |
| Exchange.RelayThenServe | src/main.c:233-362 | From any upstream reply to a query at any later time: the cache calls return exactly within the byte budget; then the query is answered exactly when the name is still cached and the first record's time has not passed; the response decodes to the query's id and question and what is served of the reply, each record with its remaining ttl, or 0 once expired, and the address bytes the type takes; and that is the reply's addresses exactly under the condition of ServedExactly |
| Exchange.MixedReply | src/main.c:242-259 | For every host and pair of addresses, a reply with an A and an AAAA record makes an A query get the first four bytes of the version 6 address |
| Exchange.ExpiredServed | src/cache.c:546-549 | For every host and pair of addresses, a reply whose second record expires first is still served with both, the expired one with ttl 0 |

## Left out

- Sockets, select, command line, signals, start-up and clean-up: input and output only.
- `find_smallest_prime` and the filling factor: any positive table size will do.
- `malloc`, `free` and dangling pointers: a release is the logical removal of the data, and after a wrong one the run is not followed further.
- The `int` width of a record's size: an entry's bytes are unbounded.
- The constant 1 that `set_cache_A_multi_record` returns.
- The cache's per-call mutex and the adapter's reader-writer lock: operations are taken as serialised; the failing push that keeps its lock is not captured.
- The `is_init` flags: the caches are modelled from their initialisation on, and freeing them is not modelled.
- The stored timeout message: only which requests time out is modelled.
- Reply ids that lead out of the adapter's ring: what is read there is not modelled.
- The bit-field setters of the header, `multiquery`, `jump_label`, `saveip`, printing and logging: unused in the modelled paths or easy.
- Parsing of the local record file and the choice among its three caches; the answers from local records.
- Several threads in destroy_tpool at once, and submissions after the pool is freed: the source leaves these to its callers.
- CacheBudget.RunReturnsExactly: the cached data is below 2^62 bytes and the budget at least 1024; for smaller budgets FirstStoreFails covers the first store, which is the last.
- StaticCache.Cache.LoadAll: the list of names and addresses stands for the parsed file.
- MessageWriter.WriteQuery: the id is a parameter, because the source draws it at random.
- MessageWriter.WriteResponse: the first question has a plain name, the only kind the skipping loop steps over.
- NameCodec.FetchLabel: the message is at most 32767 bytes, so the signed short counters do not wrap, and the text fits the destination; what a name that leaves the message reads is not modelled.
- MessageReader.ReadAnswers: questions have plain names, owner names are those of section 4.1.4, address data stays within the 288 bytes before the type field, and names have 1 to 255 text bytes, the room the structures have.
- Exchange.RelayThenServe: one cache stands for the one that the request's type selects; at most 10 records are kept of the reply and 20 sent, the room the arrays have.
