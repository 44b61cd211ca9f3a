# Shared-memory data structures: verified models

Models of the concurrent and in-place data structures of the repository, with proofs of what they are for.

**K-CAS over RDCSS** (`src/brown_kcas.h`, `src/rdcss.h`, `src/descriptors.h`). Every thread owns one K-CAS
descriptor and one RDCSS descriptor and reuses them for ever. `KcasState` holds shared memory (words are plain
values or tagged names of one use of a descriptor), a history that no step reads, and the invariant.
`KcasEvents` has what a single atomic access may do, `KcasThreads` the program of a thread, one load, store or
compare-and-swap per step, with helping nested to any depth: `FillStep`, `RdcssStep` and `ControlStep` are
`_cas_internal` with `_rdcss` (src/brown_kcas.h:291-363, src/rdcss.h:142-164), `HelpStep` is
`rdcss_try_snapshot` and `_rdcss_complete` (src/rdcss.h:92-116), `SnapStep` is `try_snapshot`
(src/descriptors.h:306-340), `ReadStep` is `read_value` (src/brown_kcas.h:159-174), `BaseStep` is the owner's
`reuse_descriptor`, `add_value` and `cas`. Applications may publish any entries. `KcasInvariant`, `KcasSteps` and
`KcasSafety` carry the invariant through every step of every thread; `KcasTheorems` states what follows for every
run. What applications see is a matter of the published entries: `KcasRepeats` shows that it is atomic exactly if
they are harmless (`KcasState.Harmless`; distinct locations are), with a run from the initial state against any that
are not. `KcasSolo` lets one thread's steps go on while nobody else moves: when its `cas` ends, and that the answer is
then exact. `KcasReach` carries that, and what a lone `read_value` does, over to reachable states. `KcasAlone` is that as an imperative program, which leaves what the steps leave. Memory is sequentially
consistent and sequence numbers are unbounded.

**The serial hopscotch table** (`src/node_shm_HH.h`). `Bits32` has the membership words and the scan macros,
`HopscotchState` the invariant between membership words, values and owners, `HopscotchTable` the lookup and the
map the cells stand for, `HopscotchMap` the object with its in-place operations. `_region_H` and `_region_V` are
one slice.

**The LRU store** (`src/node_shm_LRU.h`). `LruLists` has the chains of slots as sequences, `LruCache` the object
that relinks them. Slots stand for offsets divided by the step; the slots are `_region_size / _step` many, and
all offsets are below `UINT32_MAX`.

**The single-reader, single-writer ring** (`c_experiments/src/entry_holder.h`). `SrswRing` is the interleaving of
one reader's and one writer's loads, stores and slot accesses; `SharedQueue` the object, each of whose calls is
shown to be a sequence of those steps.

**Searches** (`c_experiments/src/holey_buffer.h`, `c_experiments/src/time_bucket.h`). `Searches` has the three
binary searches whose halved length drifts from the window they search.

## Where the code does not do what it seems to

- Two entries of one K-CAS about the same location: unless an earlier entry fails, the owner waits for its own
  tag to go away (src/brown_kcas.h:338); `KcasSolo.LockEndsExactlyIf` gives the exact condition for ending. Such an
  operation never succeeds, but it can fail and change memory all the same: a helper installs the tag late, and
  `update_entries` of another thread, already past the first entry about that location, replaces it by the value the
  second one expects (src/descriptors.h:294-303). `KcasRepeats.AtomicExactlyIf` says for which entries.
- RDCSS words carry the number before the second increment (src/descriptors.h:378-380), so the first test of
  every helper fails: `KcasTheorems.RdcssHelpIsDead`. All other theorems hold for either numbering.
- `get_val_at_hh_hash` adds in 32 bits before reducing (src/node_shm_HH.h:760-762), so hashes near 2^32 read the
  wrong slot unless the table size divides 2^32: `HopscotchTable.LookupsRightExactlyIf`.
- `del_hh_hash` looks at the lower half of a slot only (src/node_shm_HH.h:621), so key 0 is never deleted:
  `HopscotchMap.HHash.DelMap`.
- `put_hh_map` answers `UINT64_MAX` for failure, and for success when key and bucket are both 0xFFFFFFFF.
- `del_el` compares the stored 64-bit mark of a free element with a 32-bit constant (src/node_shm_LRU.h:469), so
  it never notices a deleted element: `LruCache.LRU_cache.DeletedNeverNoticed`.
- The free counter of the LRU store has 16 bits: a new region's counter is the length of its free list exactly if that
  is below 65536 (`LruCache.LRU_cache.constructor`), and for such regions it stays so.

## Model

| member | source | states |
|---|---|---|
| KcasTheorems.StepsAreAtomic | src/brown_kcas.h:291-363 | In every run, with any number of helping threads and any entries published, each step lets nobody succeed and, if all published entries are harmless, leaves logical memory as it was, or is the successful decision of one operation whose tag is then on all its locations, and which changes exactly those, all from before to desired |
| KcasTheorems.Linearizable | src/brown_kcas.h:144-152 | The log names each operation once, and exactly those that succeeded; if all published entries are harmless, logical memory is at every moment the result of applying the logged operations one after the other, each finding all its expected values |
| KcasTheorems.LogIsPrefix | src/brown_kcas.h:144-152 | What the log says of an earlier moment is never revised |
| KcasTheorems.RealTimeOrder | src/brown_kcas.h:144-152 | An operation whose cas returned comes before any published afterwards |
| KcasTheorems.AnswersAreTruthful | src/brown_kcas.h:354-362 | cas returned true exactly if its own operation is in the log, and then the outcome is final |
| KcasTheorems.FailureHasWitness | src/brown_kcas.h:322-343 | For every FAILED decision there was an instant, with the operation published and undecided, at which the logical value of one of its locations differed from its before |
| KcasTheorems.TagStays | src/brown_kcas.h:315-353 | An installed tag stays in its location until the operation is decided |
| KcasTheorems.VisibleTagMeansFirstInstalled | src/brown_kcas.h:322-322 | A visible tag means that entry 0 holds it too or all is decided, so helpers may start at entry 1 |
| KcasTheorems.NoTagAfterSuccess | src/brown_kcas.h:354-362 | After a successful cas returned, no location ever holds its tag again |
| KcasTheorems.RdcssWordResolved | src/rdcss.h:92-103 | An RDCSS word leaves memory only for its K-CAS tag, if at some instant the status read UNDECIDED while the word was in place and the operation has not succeeded, or for the hidden value once the operation is decided |
| KcasTheorems.SnapshotsAreExact | src/descriptors.h:306-340 | Whoever runs the algorithm, owner or helper, works on exactly the entries published under the tag, however the owner refills its descriptor meanwhile |
| KcasTheorems.ReadsAreCurrent | src/brown_kcas.h:159-174 | In every run, whenever a read_value ends it answers a value: the logical one of its location at that instant, and so what the log makes of the location if all published entries are harmless |
| KcasTheorems.RdcssHelpIsDead | src/descriptors.h:378-440 | With the number RDCSS words carry, a helper of an RDCSS always stops at its first test and changes nothing |
| KcasTheorems.AnswerMeans | src/brown_kcas.h:356-362 | The value returned says how the operation of this sequence number was decided, at every later moment before the next call |
| KcasSafety.RunInvariant | src/brown_kcas.h:291-363 | The invariant of memory, descriptors and all frames of all threads holds in every reachable state |
| KcasSafety.NextInv | src/brown_kcas.h:291-363 | Any step of any thread keeps the invariant, and what other threads rely on |
| KcasEvents.DecideSwitches | src/descriptors.h:247-250 | The status change to SUCCEEDED changes the logical value of exactly the operation's locations, from before to desired |
| KcasEvents.PublishKeeps | src/descriptors.h:237-243 | Publishing any entries under a new sequence number keeps the invariant and logical memory |
| KcasEvents.ReopenKeeps | src/brown_kcas.h:82-87 | Taking the descriptor back for refilling invalidates every copy still being made and keeps the invariant |
| KcasEvents.InstallKeeps | src/rdcss.h:98-99 | Replacing an RDCSS word by the tag keeps the invariant and logical memory |
| KcasEvents.RollbackKeeps | src/rdcss.h:100-102 | Replacing an RDCSS word of a decided operation by the value it hides keeps the invariant and logical memory |
| KcasEvents.RemoveKeeps | src/descriptors.h:294-303 | Replacing a tag by the value of any entry about its location keeps the invariant, and logical memory if all published entries are harmless |
| KcasEvents.RemovedValue | src/descriptors.h:294-303 | On the location of any entry of a harmless decided operation, past entry 0 if that was updated, a tag stands for that entry's own value |
| KcasRepeats.AtomicExactlyIf | src/brown_kcas.h:291-363 | If applications may publish certain entry lists, among them all of one entry, then in every run every step is atomic exactly if all those lists are harmless |
| KcasRepeats.FailureChangesMemory | src/descriptors.h:294-303 | For every entry list that is not harmless there is a run from the initial state, publishing it and one single-entry operation and nothing else, in which a step changes logical memory though no operation succeeds |
| KcasSolo.LockEndsExactlyIf | src/brown_kcas.h:322-343 | The steps of one thread left alone get out of the loop over the entries exactly if every entry about an already named location comes after one that does not find its before |
| KcasSolo.Leaves | src/brown_kcas.h:322-343 | Left alone, the loop tags the locations in order up to the first that does not hold its before |
| KcasSolo.Alone | src/brown_kcas.h:291-363 | Left alone, a cas gets to its return, true exactly if every location held its before; then exactly those change, to desired, and otherwise nothing does |
| KcasSolo.Sweep | src/descriptors.h:294-303 | update_entries changes exactly the locations that hold the tag, each to the value of the first entry about it |
| KcasSolo.HelpsAlone | src/rdcss.h:92-116 | A helper that gets past the first test, left alone, replaces the RDCSS word by the tag if the operation is undecided and by the hidden value otherwise, and changes nothing else |
| KcasReach.Undisturbed | src/brown_kcas.h:144-152 | From every reachable state: an idle thread's cas, left alone where it ends, returns true exactly if every location held its before; then exactly those change, to desired, and otherwise nothing does |
| KcasReach.ReadPlain | src/brown_kcas.h:159-174 | A read of a plain word answers that word and changes nothing |
| KcasReach.ReadFinishes | src/brown_kcas.h:159-174 | A read of a word tagged by a decided operation, left alone, answers the value the word stood for, having put the logical values in the place of that tag everywhere |
| KcasReach.RunFinishes | src/brown_kcas.h:322-343 | A run that meets the tag of another, decided operation, left alone, puts the logical values in its place everywhere, changes nothing else, and takes up its own entry again |
| KcasAlone.Brown_KCAS.DoCas | src/brown_kcas.h:144-152 | Undisturbed, cas is true exactly if every location held its before; then exactly those change, to desired, and otherwise nothing changes |
| KcasAlone.Brown_KCAS.CasInternal | src/brown_kcas.h:291-363 | Of another sequence number nothing happens; already decided, tagged locations get their final values; undecided, it is true exactly if every location held its before, and then exactly those change |
| KcasAlone.Brown_KCAS.Lock | src/brown_kcas.h:320-343 | The first phase tags the locations in order up to the first that does not hold its before, and fails exactly if there is one |
| KcasAlone.Brown_KCAS.RdcssAlone | src/rdcss.h:142-164 | The value found is the answer, a tag included; the tag replaces it exactly if it is the expected value and the operation is undecided |
| KcasAlone.Brown_KCAS.Complete | src/rdcss.h:92-103 | A placed RDCSS word becomes the tag if the operation is still undecided, and the hidden value otherwise; other words are not touched |
| KcasAlone.Brown_KCAS.UpdateEntries | src/descriptors.h:294-303 | Exactly the locations that hold the tag change, each to the value of the first entry about it |
| KcasAlone.Brown_KCAS.ReuseDescriptor | src/brown_kcas.h:82-87 | The descriptor is empty under the next sequence number |
| KcasAlone.Brown_KCAS.Adder | src/descriptors.h:263-269 | One entry is added at the end |
| KcasAlone.SameAsSteps | src/brown_kcas.h:291-363 | What the program leaves and answers is what the steps of the thread leave and answer |
| Bits32.Get | src/node_shm_HH.h:600-600 | Masking with a shifted one reads that bit |
| Bits32.SuccIsFirstBit | src/node_shm_HH.h:590-610 | _succ and _next find the least set bit from i on, or report none |
| Bits32.OffsetsAreTheBits | src/node_shm_HH.h:604-610 | The scan from one set bit to the next meets every set bit, in increasing order and so once |
| HopscotchState.BitMeansOwned | src/node_shm_HH.h:639-678 | In every state bit i of bucket b is set exactly if slot (b+i) mod N is occupied and owned by b |
| HopscotchState.HopDistance | src/node_shm_HH.h:649-660 | In every wrap-around case the distance computed after a hop is the old one minus (j-i), and names the slot that became free |
| HopscotchState.MoveKeeps | src/node_shm_HH.h:686-702 | A swap keeps bits, values and owners consistent and the contents as they were |
| HopscotchState.InsertKeeps | src/node_shm_HH.h:665-672 | Storing within reach keeps the invariant and adds exactly one value under its home bucket |
| HopscotchState.DeleteKeeps | src/node_shm_HH.h:626-629 | Clearing an owned slot and its bit keeps the invariant and removes exactly one value |
| HopscotchState.TotalOfUpdate | src/node_shm_HH.h:631-676 | Setting or clearing one bit changes the total of membership bits by one, which keeps it equal to the count |
| HopscotchTable.RawSlotsRightExactlyIf | src/node_shm_HH.h:759-764 | The 32-bit sum names the slots of the home bucket exactly if it cannot overflow or the size divides 2^32 |
| HopscotchTable.LookupsRightExactlyIf | src/node_shm_HH.h:781-793 | Lookups under a hash are right in every table exactly under that condition |
| HopscotchTable.EntryLostByWrap | src/node_shm_HH.h:759-793 | Otherwise there is a one-entry table in which the entry is not found |
| HopscotchTable.FindMeans | src/node_shm_HH.h:781-793 | The search finds an entry of the home bucket with the key, and one exactly if there is any |
| HopscotchTable.BucketMeans | src/node_shm_HH.h:490-500 | The slots get_bucket reports are those the bucket owns, all of them, nearest first |
| HopscotchTable.LookupMeans | src/node_shm_HH.h:781-806 | A lookup answers as the map keyed by home bucket and 32-bit key |
| HopscotchTable.RepresentsPut | src/node_shm_HH.h:809-815 | Adding the value of an absent key is adding that key to the map |
| HopscotchTable.RepresentsRemove | src/node_shm_HH.h:818-823 | Removing a value is removing exactly its key from the map |
| HopscotchMap.HHash.Probe | src/node_shm_HH.h:715-735 | The least circular distance to an empty slot, or UINT32_MAX exactly if there is none |
| HopscotchMap.HHash.HopScotch | src/node_shm_HH.h:742-752 | The farthest of the 31 buckets behind the hole that has a value to move into it, or 0 exactly if none has |
| HopscotchMap.HHash.Swap | src/node_shm_HH.h:686-702 | The value moves to the free place with its owner, and nothing else moves |
| HopscotchMap.HHash.SuccHash | src/node_shm_HH.h:605-610 | The least set bit from i on, or UINT32_MAX |
| HopscotchMap.HHash.PutHash | src/node_shm_HH.h:639-678 | Success adds exactly the value under its home bucket hash mod N; failure, however many hops came before, leaves all contents, and a value that is not zero is refused only if the table was full, or no slot within 32 of home was free and a hole, no farther than the nearest free slot was, ended where nothing can hop into it |
| HopscotchMap.HHash.Hop | src/node_shm_HH.h:649-660 | One round brings the hole strictly closer and keeps all contents, or the hole is frozen |
| HopscotchMap.HHash.DelHash | src/node_shm_HH.h:613-632 | Removes exactly that value of that bucket, if its key half is not zero |
| HopscotchMap.HHash.Hunt | src/node_shm_HH.h:781-793 | Answers the first match of the bucket, and with kill removes exactly it |
| HopscotchMap.HHash.GetBucket | src/node_shm_HH.h:490-500 | Reports one upper half for each set bit, at most 32, in offset order |
| HopscotchMap.HHash.GetSet | src/node_shm_HH.h:800-806 | The stored word, value times 2^32 plus key, or 0 for an absent key |
| HopscotchMap.HHash.PutSet | src/node_shm_HH.h:809-815 | Insert unless the bucket holds the key, in terms of the map; refused only for zero or as PutHash refuses |
| HopscotchMap.HHash.PutMap | src/node_shm_HH.h:833-845 | Insert-if-absent on the map; the answer is key times 2^32 plus bucket if the key is in the map afterwards, and UINT64_MAX if not, which happens only as PutHash refuses |
| HopscotchMap.HHash.GetMap | src/node_shm_HH.h:847-855 | For a 64-bit key the map's value at bucket (lower half mod N) and key (upper half), or 0, and nothing changes |
| HopscotchMap.HHash.DelMap | src/node_shm_HH.h:857-862 | The map's value at the same place, or 0; that key and nothing else is removed, unless it is key 0 |
| LruLists.UnlinkKeeps | src/node_shm_LRU.h:480-481 | Joining the neighbours takes exactly that element out of the doubly linked list |
| LruLists.LinkKeeps | src/node_shm_LRU.h:397-402 | The four writes put a new element right behind the header |
| LruLists.PopKeeps | src/node_shm_LRU.h:385-395 | The free list loses its top |
| LruLists.PushKeeps | src/node_shm_LRU.h:486-489 | The free list gets a new top |
| LruLists.BackIsOldest | src/node_shm_LRU.h:579-595 | With the most recent in front, what is taken from the back is no younger than anything that stays |
| LruLists.IndexAdd | src/node_shm_LRU.h:523-535 | Adding keeps the table and the list in agreement exactly if the key was not present |
| LruLists.IndexRemove | src/node_shm_LRU.h:501-511 | Removing keeps them in agreement |
| LruCache.LRU_cache.constructor | src/node_shm_LRU.h:327-330 | Nothing in use, every slot from the fourth on free, all invariants; with three slots the free list starts behind the region; the counter is right exactly below 65536 free slots |
| LruCache.LRU_cache.SetupFreeList | src/node_shm_LRU.h:278-323 | The chains, marks, times and control slots as laid out, and the count modulo 2^16 |
| LruCache.LRU_cache.AddEl | src/node_shm_LRU.h:373-416 | The top free element becomes the most recent, with key, time and table entry, and its offset is the answer; refused exactly if none is free, with nothing changed; lists stay a partition, order and index kept, the counter goes down by one |
| LruCache.LRU_cache.Touch | src/node_shm_LRU.h:1259-1283 | A used element moves to the front with the new time, anything else is refused; partition, order and index kept |
| LruCache.LRU_cache.DelEl | src/node_shm_LRU.h:459-495 | An offset is accepted exactly if it is a multiple of the step within the region, so that of a used element always is; the element leaves the used list and the table and becomes the top of the free list, and the counter goes up modulo 2^16 |
| LruCache.LRU_cache.TwoLinksExactlyIfUsed | src/node_shm_LRU.h:465-481 | A slot has two neighbours exactly if it is in use; relinking around any other would write behind the region |
| LruCache.LRU_cache.EvictLeastUsed | src/node_shm_LRU.h:579-595 | Removes elements from the back and reports their hashes in that order, at most max(1, max_evict), all but the last older than the cutoff; stops only at an empty list, the limit or a young element; no evicted element is younger than one that stays; the others keep place and hash, the table loses exactly the reported hashes, and the evicted go to the top of the free list |
| LruCache.LRU_cache.CheckForHash | src/node_shm_LRU.h:547-559 | The offset the table has under that hash, or UINT32_MAX; with the index in agreement that is the used element with the hash, none exactly if there is none |
| LruCache.LRU_cache.DeletedNeverNoticed | src/node_shm_LRU.h:469-472 | The test for a deleted element is false on every free one |
| SrswRing.Fifo | c_experiments/src/entry_holder.h:52-117 | In every interleaving the popped entries are a prefix of the pushed ones, in order, and at most ExpectedMax - 1 are inside |
| SrswRing.AnswersOfAQueue | c_experiments/src/entry_holder.h:52-117 | The answers, in the order they were settled, are those of one bounded queue used by one caller at a time: refusals and empty answers included |
| SrswRing.UnreadSlotsAreSafe | c_experiments/src/entry_holder.h:88-97 | The writer never writes an unread slot, nor the slot the reader is about to read |
| SrswRing.CachesErrSafely | c_experiments/src/entry_holder.h:73-117 | Comparing with the true indices is exact, and with cached ones can only see too little room or too few entries |
| SrswRing.RunKeeps | c_experiments/src/entry_holder.h:52-117 | The invariant behind these, over every run |
| SharedQueue.PushIsSteps | c_experiments/src/entry_holder.h:88-117 | A whole push is three to five steps of the writer |
| SharedQueue.PopIsSteps | c_experiments/src/entry_holder.h:52-83 | A whole pop is three to five steps of the reader |
| SharedQueue.PushMeans | c_experiments/src/entry_holder.h:88-97 | A push is refused exactly if ExpectedMax - 1 entries are inside, and otherwise adds the newest |
| SharedQueue.PopMeans | c_experiments/src/entry_holder.h:52-70 | A pop finds nothing exactly if nothing is inside, and otherwise takes the oldest |
| SharedQueue.SharedQueue_SRSW.Push | c_experiments/src/entry_holder.h:88-97 | The same for the object in place |
| SharedQueue.SharedQueue_SRSW.Pop | c_experiments/src/entry_holder.h:52-70 | The same for the object in place, a zeroed entry if there is none |
| SharedQueue.SharedQueue_SRSW.Full | c_experiments/src/entry_holder.h:100-117 | Full exactly if ExpectedMax - 1 entries are inside, however old the cached index is; otherwise the slot to write and the next index |
| SharedQueue.SharedQueue_SRSW.Emptiness | c_experiments/src/entry_holder.h:73-83 | Empty exactly if nothing is inside, however old the cached index is; otherwise the slot of the oldest entry |
| SharedQueue.SharedQueue_SRSW.Empty | c_experiments/src/entry_holder.h:120-122 | Equal indices mean that nothing is inside |
| SharedQueue.SharedQueue_SRSW.Reset | c_experiments/src/entry_holder.h:125-135 | The initial state, with zeroed entries |
| Searches.BSearch | c_experiments/src/holey_buffer.h:62-88 | On sorted keys an entry is found exactly if one has the key, looking at no more entries than the bound |
| Searches.U32bSearch | c_experiments/src/holey_buffer.h:93-121 | On ascending buckets the one bucket of the key, none exactly below the first, within the bound |
| Searches.TimeIntervalBSearch | c_experiments/src/time_bucket.h:20-54 | On disjoint ascending intervals the one that contains the time, or none, within the bound |
| Searches.TrackedHalf | c_experiments/src/holey_buffer.h:71-86 | The halved length never exceeds the window and lags by at most one a halving, whichever side is kept |
| Searches.BoundIsLogarithmic | c_experiments/src/holey_buffer.h:62-88 | The bound on entries looked at is at most 2 floor(log2 N) + 3 |

## Left out

- Progress and lock-freedom of K-CAS among several threads: the retry loop also waits for its own tag.
- KcasTheorems.NoTagAfterSuccess: says nothing about a failed operation, whose tag a late helper can leave behind after the descriptor is reused; such a tag has the logical value before.
- KcasAlone.Brown_KCAS.DoCas: starts where nobody's tag or RDCSS word is on its locations, because no other thread's descriptor is there to finish what was begun, and where it ends (`KcasSolo.LockEndsExactlyIf`).
- KcasAlone.Brown_KCAS.CasInternal: an undecided operation starts as for DoCas.
- KcasAlone.Brown_KCAS.Lock: starts as for DoCas.
- KcasAlone.Brown_KCAS.RdcssAlone: no RDCSS word is on the location, because alone the thread has none to help.
- The second pass of `read_value` over a word that is already plain, which calls `_cas_try_snapshot` on bits: modelled as a snapshot that fails.
- `sort_kcas_entries` in `cas`: in the concurrent model it is among the arbitrary single-word stores while the owner fills its descriptor, and the order of entries is not assumed; in the program it is left out, since the result does not depend on the order.
- Bit packing of tagged pointers, the 54-bit wrap of sequence numbers, relaxed memory orders.
- `write_value`, `write_ptr` and the `compare_exchange_*` of the application, which overwrite without the protocol.
- A table of 2N + 32 > 2^32 slots: index sums would wrap.
- Selecting between two slices, threads, `store`, and resizing of the hopscotch table.
- The LRU store's record bytes (`get_el`, `update_el`), `_count`, the shared hash table behind `HMap_interface`, the two-table selector, the reserve area, tiers and the atomic basket code.
- LruCache.LRU_cache.constructor: a region of fewer than three slots, whose controls the code writes behind the region.
- LruCache.LRU_cache.DelEl: takes the offset of a used element, exactly those with two neighbours (`TwoLinksExactlyIfUsed`); for any other the code writes behind the region.
- LruCache.LRU_cache.Touch: takes any slot but the tail sentinel, for which the code writes behind the region.
- The ring's `search`, and memory orders weaker than sequential consistency.
- Searches.TimeIntervalBSearch: the bounds are taken as they are at the start; the code loads each when it needs it. A table without an entry is left out, because the code reads entry 0 before anything else.
- Searches.BSearch: a table without an entry, for the same reason.
- Searches.U32bSearch: tables of fewer than two buckets, because the code reads the bound of bucket 1 first.
- `KeyValueManager`, the blackout searches, the concurrent hopscotch map, the serial-reference map, sparse slabs, atomic stack and queue, bloom filter, message buffers.
- Node bindings, shared-memory segments, random bits, clocks (times are parameters), mutexes, sleeping, printing.
