# NVMKV in Dafny

NVMKV is a key-value store on a flash device with a sparse address space. This project models its
logic and proves properties of it. The device calls (atomic vectored writes and trims, range
queries, the range iterator) are taken as given; everything above them is modelled.

The layers, from the bottom up:

- `Bits`, `HashFunc`, `Layout`, `Record`: word arithmetic, FNV-1a placement and probing, the split
  of the address space, the header every pair carries.
- `IoVectors`, `PutVectors`: what batches of writes and trims do to a sector map, the loops that cut
  buffers, extents and the tag table into vectors, and the vectors of a put.
- `StoreSpec`, `StoreProofs`, `StoreRuns`, `Store`, `LiveExtents`: put, get, exists and delete on the
  sector map, first as functions of the media, then as the class that runs the loops. A key denotes
  the pair at the first of its eight addresses that holds it; runs refine a map with a clock.
- `StoreExpiry`: how long a get finds what a put was asked to keep.
- `StoreLayout`: which keys and layouts the store theorems cover, and a configuration that meets
  their conditions.
- `CrossPool`: what deletes and puts of one pool do to keys of others.
- `PutLocks`, `PutRaces`, `PutResults`: any number of concurrent puts, interleaved step by step over
  the per-address lock set; when they lose a pair, what they report and why they write.
- `Bitmap`, `PoolManager`, `PoolLifecycle`, `PoolTags`, `PoolAnswers`, `PoolHazards`: pool bitmaps,
  create, delete, clear, restart, the tag table and map, and runs of these with writes that may fail.
- `RangeIterator`, `PoolDeletion`: iteration over the pairs of a pool and the deletion thread's pass.
- `Cache`, `CacheProofs`: the collision cache.

`dafny verify dfyconfig.toml` checks all of it.

## Findings

Some properties that the interface or the comments suggest do not hold of the code. For these the
project proves when they hold, or gives a run in which they fail:

- The eight addresses of a key are distinct only if there are three more key bits than value bits,
  because probes after the first wrap at 2^(key bits): `HashFunc.ProbesDistinctIff`.
- A replace that shrinks a value loses its last write vector, since the count passed to the device
  does not include the trim: `PutVectors.PutWritesWholePairIff`, `PutVectors.ShrinkingReplaceDropsLastVector`.
- The trim of such a replace is one sector early when values have sectors of their own: it discards the
  last sector of the new pair and leaves the last of the old one: `PutVectors.TrimTouches`,
  `PutVectors.ShrinkingReplaceLeaves`.
- A lifetime that ends past the end of the 32-bit clock is stored wrapped: the key is absent at once, or
  never expires if the sum is 2^32: `StoreExpiry.GetKeepsLifetime`.
- An unaligned value that spans sectors is counted as more vectors than the one that is filled, and
  the device executes the others with whatever the array held: `PutVectors.UnfilledIff`,
  `PutVectors.UnfilledReachAnySector`. The theorems about puts require the negation of that condition,
  `StoreProofs.WhenAllFilled`.
- A trim vector before as many write vectors as the limit allows overruns the vector array:
  `PutVectors.OverrunsArrayIff`.
- The batches of the tag table can exceed the total size of an atomic write, which the comment in
  their loop says they do not: `IoVectors.FirstBatchFitsIff`, `IoVectors.OversizedBatch`.
- After a delete a put can store a second copy of a key, and deleting that one brings the older back:
  `StoreRuns.PutDuplicatesIff`, `StoreLayout.SecondCopyIsReached`, `StoreRuns.HoleThenDeleteResurrects`,
  `StoreRuns.DeleteForgetsIff`.
- Unless there are more than three key bits beyond the value bits, every key has a probe on the
  store's own metadata records: `StoreLayout.ClearHashIff`, `StoreLayout.NoKeyInRun`. Keys with such a
  probe are not covered by the store theorems, on those layouts none is.
- A concurrent put can overwrite another key's fresh pair, exactly when two calls come to the same free
  address: `PutRaces.RaceIff`, `PutRaces.RaceLosesPair`.
- A concurrent put that is not to replace can write over a fresh pair of its own key and report success:
  `PutResults.UnaskedIff`, `PutResults.BothStore`.
- A delete trims a slot's length and so takes pairs of other pools that start within it; a replace by a
  longer value writes over pairs of other pools in the same slot: `CrossPool.DeleteSparesIff`,
  `CrossPool.PutSparesIff`.
- Values of accepted length reach the last sector of their slot when sectors are larger than 1024
  bytes, so pairs can become adjacent: `Layout.AcceptedSizesLeaveLastSectorIff`. The README of the
  repository gives a smaller limit for such sectors; the code does not enforce it.
- The search for a set bit misreads a bitmap whose first nonzero word is all ones and not word 0:
  `Bitmap.FirstSetRightIff`. If that word is also the last, marked pools are overlooked:
  `Bitmap.MarkedOverlookedIff`.
- A delete-all whose write fails unmarks pools that were already being deleted, after which a new pool
  can inherit pairs; a pool created while a delete-all pass is pending loses its pairs; a failed clear
  can make the store unusable after a restart, or put the next pool with that id into deletion; a failed
  create leaves its tag pointing at an unused pool: `PoolHazards`, `PoolTags.FailedCreateTakesTag`. Exactly
  when these happen is `PoolLifecycle.CleanIffNoLatePut`, `PoolLifecycle.LivePairsStayIff`,
  `PoolLifecycle.RestartsConsistentIff`, `PoolLifecycle.LiveSurviveIff` and `PoolTags.TagsExactIff`.
- A failed clear followed by a create in another sector leaves a bit on media that the count has lost:
  `PoolLifecycle.CountFallsBehind`, `PoolLifecycle.CountIsExactIff`.
- A tag without a zero byte among its sixteen is read on past its end, so that deletes and restarts
  need not find the name it was created under: `PoolManager.NameFixedIff`, `PoolTags.DeleteForgetsTagIff`,
  `PoolTags.RestartFindsTagIff`.
- A delete-all pass can report a failure after doing all its work, and then go on doing so:
  `PoolDeletion.FalseFailureIff`, `PoolDeletion.FalseFailureReadingIff`, `PoolDeletion.RepeatedPassFailsIff`.
- A cache lookup stops at the first free slot although deletions leave free slots inside windows:
  `CacheProofs.DeleteKeepsReachableIff`, `CacheProofs.DeletedKeyIsReached`.

## Model

| member | source | states |
|---|---|---|
| Bits.RoundUpIsLeastMultiple | util/kv_util.h:32-35 | for a power-of-two block the mask expression is the least multiple not below the value |
| Bits.OrOfDisjoint | src/kv_store_mgr.cpp:2369 | or-ing a hash into the clear low bits of a slot address adds it |
| Bits.FloorLog2 | src/kv_layout.cpp:33-46 | the shift loop finds the exponent of the largest power of two not above its argument |
| HashFunc.Fnv1a | util/kv_hash_func.cpp:102-134 | the two byte loops and the slice adjustment leave what the specification of the hash says, whose properties follow |
| HashFunc.FnvOfA | util/kv_hash_func.cpp:102-134 | the byte loop gives the published hash of a one-byte string |
| HashFunc.PoolIsSuffix | util/kv_hash_func.cpp:115-127 | for pool ids other than 0 the hash is that of the key followed by the four bytes of the id, low byte first, in pool 0; id 0 is not hashed |
| HashFunc.RecordsAreSteppedOver | util/kv_hash_func.cpp:128-132 | exactly the hashes below the slice address are moved, by that address, wrapping at 2^64; for any slice address up to 2^63 no hash stays below it |
| HashFunc.FnvOfAInPoolOne | util/kv_hash_func.cpp:102-134 | the hash of "a" in pool 1, and in pool 0, as numbers |
| HashFunc.SuffixKeepsDistinct | util/kv_hash_func.cpp:115-127 | hashing in the same pool id never makes two different key hashes equal |
| HashFunc.KeyHash | util/kv_hash_func.cpp:56-98 | hash, xor-fold and shift together are the placement function |
| HashFunc.FoldFits | util/kv_hash_func.cpp:77-89 | the xor-fold stays below 2^length on both sides of the 32-bit case |
| HashFunc.FoldXorsFields | util/kv_hash_func.cpp:77-89 | for every length the fold is the exclusive or of the field above it with the low bits, cut to it; above 32 bits the cut takes nothing |
| HashFunc.ProbeSlotIs | util/kv_hash_func.cpp:139-179 | the eight probe addresses in closed form: first the folded hash, then slots counted modulo 2^(key bits - value bits) |
| HashFunc.ProbesArePlaced | util/kv_hash_func.cpp:91-98 | every probe is slot-aligned and its slot lies inside the sparse address space |
| HashFunc.ProbesDistinctIff | util/kv_hash_func.cpp:172-179 | the eight probes of any key are distinct if and only if key bits >= value bits + 3 |
| HashFunc.ProbeOnMetadataIff | util/kv_hash_func.cpp:128-132 | exactly which probes fall on the metadata records, which the slice adjustment before folding does not prevent |
| HashFunc.PoolHashFits | src/kv_pool_manager.cpp:563-579 | the pool hash, id or folded, fits the pool bits |
| HashFunc.PoolHashIs | src/kv_pool_manager.cpp:563-579 | up to 2^(pool bits) pools the id itself, with more the folded hash of its four bytes, written out |
| HashFunc.ProbeLbaIs | src/kv_store_mgr.cpp:2369 | slot and pool hash can be read back from a pair address |
| Layout.KvLayout.constructor | src/kv_layout.cpp:25-50 | the split into sector, value, key and pool bits for any sector size up to half the value range |
| Layout.BitsOfLayout | src/kv_layout.cpp:33-48 | for sectors of 2^s bytes there are s sector bits and 21 - s value bits |
| Layout.KvLayout.SetMetadataRecords | src/kv_layout.cpp:61-68 | user data start after the given number of value ranges |
| Layout.KvLayout.PlaceRegions | src/kv_store.cpp:123-131 | the mask round-ups put tag table, deleted bitmap and user data exactly where the region specification says |
| Layout.BitmapBytesHoldPools | src/kv_pool_manager.cpp:133-134 | a bitmap has the fewest 32-bit words with a bit for every pool |
| Layout.RegionsOrderedIff | src/kv_pool_manager.cpp:97-140 | for 1 to 2^20 pools the metadata, bitmap and tag regions are ordered and disjoint if and only if sectors are at most 2^19 bytes |
| Layout.DataAfterTags | src/kv_store.cpp:123-131 | user data start on a slot boundary after the tag table |
| Layout.CompSparseAddrBits | src/kv_store_mgr.cpp:2580-2598 | the two bit-counting loops subtract the bit lengths of size and sector size |
| Layout.SparseSpaceIsLargestFit | src/kv_store_mgr.cpp:2580-2598 | 2^bits sectors are the largest power of two that fits the device; the count is negative exactly when not one sector fits |
| Layout.PairsStayInSlot | src/kv_layout.cpp:40-48 | every accepted pair, at any pool hash, ends inside its slot |
| Layout.LastSectorLeftIff | src/kv_layout.cpp:42-48 | for all pool hashes a pair leaves its slot's last sector alone if and only if it is one sector or its value is at most half the range less a sector |
| Layout.AcceptedSizesLeaveLastSectorIff | include/nvm_kv.h:26-27 | the largest value the interface accepts respects that bound only for sectors of at most 1024 bytes |
| Layout.LaidOutHasRoom | src/kv_store.cpp:116-131 | a laid-out store meets the conditions the store theorems assume, for every pool |
| Record.HeaderRoundTrip | src/kv_common.h:97-110 | any sector starting with an encoded header decodes to that header |
| Record.StampedBytes | src/kv_store_mgr.cpp:2029-2046 | where each field of a stamped sector lies: the words of the packed header by offset, the reserved word as the buffer had it, no keys counted, the key at byte 40 and the rest of the buffer after it |
| Record.StampedHolds | src/kv_store_mgr.cpp:2029-2046 | a stamped sector is found under its own key and pool and no other |
| IoVectors.ChunksTile | src/kv_store_mgr.cpp:2070-2084 | the write loop's vectors together lay the buffer down whole |
| IoVectors.ChunksTouch | src/kv_store_mgr.cpp:2070-2084 | they touch each sector of the buffer once and nothing else |
| IoVectors.ChunksCount | src/kv_store_mgr.cpp:2202-2205 | they are as many as the rounded division says beforehand |
| IoVectors.VectorCountInBytes | src/kv_store_mgr.cpp:2202-2205 | counting in bytes with the mask gives that number when the vector limit is a power of two |
| IoVectors.TrimChunksTile | src/kv_store.cpp:627-656 | the trim loop unmaps exactly the extent |
| IoVectors.TrimChunksTouch | src/kv_store.cpp:627-656 | each sector of the extent is trimmed once |
| IoVectors.Device.DeleteRange | src/kv_store.cpp:609-660 | delete_range terminates, hands the device no batch beyond the vector limit and trims exactly its extent, or on an error a leading part |
| IoVectors.Device.FillWrites | src/kv_pool_manager.cpp:796-814 | one batch of tag-table vectors: within the vector count, the next ones of the table, and as long in all as what is left or as the loop lets it get, which is the next whole number of vectors from the total on |
| IoVectors.FirstBatchFitsIff | src/kv_pool_manager.cpp:791-798 | the longest batch respects the total size of an atomic write if and only if the whole table does, the vector count alone bounds it, or the total is a whole number of vectors |
| IoVectors.OversizedBatch | src/kv_pool_manager.cpp:791-798 | a table and limits with a batch larger than the total |
| IoVectors.Device.WriteTable | src/kv_pool_manager.cpp:771-823 | persist_pool_tags writes the whole table in order, or on an error a leading part; every batch is within the vector count, and all are within the total size of an atomic write exactly under that condition |
| PutVectors.FilledVectorsAreCounted | src/kv_store_mgr.cpp:2140-2211 | as many vectors are filled as were counted unless an unaligned value spans sectors |
| PutVectors.TooManyVectorsIff | src/kv_store_mgr.cpp:2176-2211 | a put is refused for its size if and only if value and header sector exceed what the vectors hold in bytes, the header having a vector of its own when the value is aligned |
| PutVectors.UnfilledIff | src/kv_store_mgr.cpp:2187-2211 | a put hands the device vectors that nobody filled if and only if an unaligned value spans sectors and was counted as more vectors than the written one and the trim before it |
| PutVectors.UnfilledReachAnySector | src/kv_store_mgr.cpp:441 | such vectors, whatever the array held, can turn any sector into anything |
| PutVectors.OverrunsArrayIff | src/kv_store_mgr.cpp:408-441 | trim and write vectors exceed the array of the vector limit if and only if there is a trim and the write vectors alone reach the limit |
| PutVectors.HeadSectorWords | src/kv_store_mgr.cpp:2029-2046 | the header a put stores, word by word, in terms of the request |
| PutVectors.WriteVectorsTouch | src/kv_store_mgr.cpp:2009-2084 | the write vectors touch each sector of the pair once; with an unaligned multi-sector value only the first |
| PutVectors.PutWritesWholePairIff | src/kv_store_mgr.cpp:419-441 | a put writes its whole pair if and only if the value is aligned or fits beside its header and nothing is trimmed |
| PutVectors.IssuedLayDownImage | src/kv_store_mgr.cpp:2046-2084 | such a put lays down exactly header, key and value sectors at its address |
| PutVectors.ShrinkingReplaceDropsLastVector | src/kv_store_mgr.cpp:2099-2134 | a replace that shrinks the value by a sector or more issues the trim and drops the last write vector; a one-sector pair is then not written at all |
| PutVectors.TrimTouches | src/kv_store_mgr.cpp:2099-2134 | the trim discards from the end of the new pair to the end of the old one, where a pair with its value in sectors of its own counts without its last sector; it is refused if and only if one vector cannot hold the old value |
| PutVectors.ShrinkingReplaceLeaves | src/kv_store_mgr.cpp:2099-2134 | the media after such a replace of a value in sectors of its own: trimmed from the last sector of the new pair to before the last of the old, then written but for the last vector |
| Store.KvStore.GenLba | src/kv_store_mgr.cpp:2402-2565 | the probe loop of put chooses as the recursive specification does |
| Store.KvStore.ExamineProbe | src/kv_store_mgr.cpp:2411-2545 | one probe of put: fresh, reusable, already there, or on to the next |
| Store.KvStore.FillChunks | src/kv_store_mgr.cpp:2067-2084 | the in-place vector loop fills exactly the planned vectors |
| Store.KvStore.ProcessForWrite | src/kv_store_mgr.cpp:2009-2094 | the vector array holds header and value vectors from the given position on |
| Store.KvStore.IssueVectors | src/kv_store_mgr.cpp:408-441 | the device gets the trim vector, then the writes, as many in all as were counted for the writes: the last ones dropped, or vectors that nobody filled added |
| Store.KvStore.Put | src/kv_store_mgr.cpp:306-490 | validation, the expiry of the request or of the store made absolute, decision and one atomic write: refused as specified, or the decided vectors and any unfilled ones applied, or an I/O error and no change |
| Store.FilledPutEnds | src/kv_store_mgr.cpp:306-490 | with all vectors filled the media after a put are the specified ones |
| Store.KvStore.ReadMedia | src/kv_store_mgr.cpp:1924-1998 | the lookup loop finds the first of the eight addresses that holds the key |
| Store.KvStore.ReadValue | src/kv_store_mgr.cpp:547-566 | the bytes read are the first min(length, value length) of the stored value |
| Store.KvStore.Get | src/kv_store_mgr.cpp:494-584 | get of any sector-multiple length reports exactly the unexpired lookup, on media of any pools whose small values end in their sector |
| Store.SessionPairsFit | src/kv_store_mgr.cpp:2009-2046 | in a run's media they do |
| Store.KvStore.Exists | src/kv_store_mgr.cpp:2648-2775 | exists reports exactly whether the lookup is unexpired |
| Store.KvStore.Delete | src/kv_store_mgr.cpp:1735-1869 | delete trims the slot of the first address that holds the key |
| Store.GetReadsLong | src/kv_store_mgr.cpp:547-566 | reading more sectors than stored, or fewer, does not change the returned bytes |
| StoreProofs.WindowIsItsHead | src/kv_store_mgr.cpp:2411-2414 | in a run of one pool hash a window is mapped exactly when its first sector is |
| StoreProofs.ChooseStops | src/kv_store_mgr.cpp:2402-2565 | put decides as if it looked at the eight addresses alone |
| StoreProofs.WhenAllFilled | src/kv_store_mgr.cpp:2187-2211 | a put fills all the vectors it issues if and only if the value is aligned, or fits beside its header, or needs no more vectors than the one written and the trim |
| StoreProofs.PutKeepsInv | src/kv_store_mgr.cpp:2343-2566 | a put whose vectors are all filled keeps the placement invariant of the media |
| StoreProofs.PutFrame | src/kv_store_mgr.cpp:2343-2566 | such a put leaves what every other key denotes unchanged |
| StoreProofs.MetadataUntouched | src/kv_store_mgr.cpp:2343-2566 | such a put never changes a sector below the data start |
| StoreProofs.PutThenLookup | src/kv_store_mgr.cpp:2343-2566 | after a put that writes its pair whole the key denotes exactly that pair, whatever copies exist elsewhere |
| StoreProofs.PairReadsBack | src/kv_store_mgr.cpp:2009-2084 | the pair decoded from the written sectors is the requested one: value, length, expiry, generation |
| StoreRuns.DeleteKeepsInv | src/kv_store_mgr.cpp:1861-1869 | delete keeps the placement invariant |
| StoreRuns.DeleteFrame | src/kv_store_mgr.cpp:1861-1869 | delete leaves what every other key denotes unchanged |
| StoreRuns.DeleteForgetsIff | src/kv_store_mgr.cpp:1735-1869 | delete makes the key absent if and only if at most one address held it |
| StoreRuns.PutDuplicatesIff | src/kv_store_mgr.cpp:2402-2432 | a put makes a second copy if and only if some address before the stored copy is unmapped |
| StoreRuns.HoleThenDeleteResurrects | src/kv_store_mgr.cpp:2402-2432 | with such a hole a put stores a second copy, and a delete then brings the older pair back |
| StoreRuns.HoleIsReached | src/kv_store_mgr.cpp:306-490 | two keys with one first address leave such a hole: put one, put the other, delete the first; the next put of the other makes a second copy |
| StoreRuns.PutKeepsUnique | src/kv_store_mgr.cpp:2402-2565 | a put that meets no hole before its stored key leaves every key at no more than one address |
| StoreRuns.PutKeepsPacked | src/kv_store_mgr.cpp:2402-2565 | without deletes no address before a stored one is unmapped |
| StoreRuns.RefusedAsExistingIff | src/kv_store_mgr.cpp:2452-2529 | a put fails as existing if and only if replace is off and the key denotes an unexpired pair that no hole precedes |
| StoreRuns.NoRoomIff | src/kv_store_mgr.cpp:2554-2565 | put fails as full if and only if all eight addresses hold other keys |
| StoreRuns.StepRefinesMap | src/kv_store_mgr.cpp:306-584 | one put, get or delete answers as a clocked map may and then models the map's next state |
| StoreRuns.RunRefinesMap | src/kv_store_mgr.cpp:306-584 | every run of gets, deletes and whole puts, replacing by no shorter value and meeting no hole before a stored key, behaves as the clocked map |
| StoreRuns.DeleteFreeRunMeetsNoHole | src/kv_store_mgr.cpp:2402-2565 | a run without deletes never meets such a hole |
| StoreRuns.FormattedModelsEmpty | src/kv_store.cpp:200-245 | a new store models the empty map |
| StoreRuns.HistoryOfOthers | src/kv_store_mgr.cpp:1735-2566 | any history of deletes and of puts with all vectors filled, of other keys, holes and duplicates included, leaves what a key denotes unchanged |
| StoreRuns.GetReturnsLastPut | src/kv_store_mgr.cpp:306-584 | after any history, a whole put, then any changes of other keys, then a get before expiry returns the value put |
| StoreExpiry.GetKeepsLifetime | src/kv_store_mgr.cpp:2602-2643 | after a whole put of the caller's request and any changes of other keys a get returns the value up to now plus the request's lifetime, in global mode the store's, and not after; for ever if it is 0 or expiry is disabled; if the sum passes 2^32 it is absent at once, or kept for ever if the sum is 2^32 |
| StoreExpiry.StoredTime | src/kv_store_mgr.cpp:2032-2039 | the time in the header: 0 for no lifetime, otherwise the sum, less 2^32 when it passes the end of the clock |
| StoreLayout.InRunIff | src/kv_store.cpp:116-145 | the store theorems cover a key of a laid-out store if and only if none of the eight slots of its folded hash is a metadata record |
| StoreLayout.RecordsRange | src/kv_store.cpp:119-131 | a layout has two to nine metadata records |
| StoreLayout.ClearHashIff | util/kv_hash_func.cpp:172-179 | some folded hash keeps all its slots off the metadata if and only if there are more than three key bits beyond the value bits |
| StoreLayout.NoKeyInRun | util/kv_hash_func.cpp:172-179 | with no more than three every key of a laid-out store has a probe on the metadata records |
| StoreLayout.FirstPutIsAllowed | src/kv_store.cpp:196-262 | a laid-out store of 2^8 large sectors, with the keys "A" and "T", meets all conditions of the run theorem |
| StoreLayout.SecondCopyIsReached | src/kv_store_mgr.cpp:306-490 | on it putting "A" and "T" and deleting "A" makes the next put of "T" store a second copy |
| LiveExtents.FreshPutOverwritesNothing | src/kv_store_mgr.cpp:2411-2432 | on any media shared by any pools a put at a fresh address overwrites no mapped sector |
| LiveExtents.GoodPutKeepsLedger | src/kv_store_mgr.cpp:2411-2432 | fresh and same-size puts keep all live pairs disjoint and leave the sectors of every other pair as they were |
| LiveExtents.RunKeepsPairsDisjoint | src/kv_store_mgr.cpp:2411-2432 | over any run of them, of any pools, the live pairs stay pairwise disjoint |
| CrossPool.DeleteSparesIff | src/kv_store_mgr.cpp:1861-1869 | a delete leaves another key, of any pool, as it was if and only if its pair does not start within the slot length trimmed; otherwise that key is lost |
| CrossPool.PutSparesIff | src/kv_store_mgr.cpp:2452-2529 | a whole put, growing over a shorter value or not, leaves another key as it was if and only if its pair does not start inside the sectors written |
| CrossPool.FreshPutSpares | src/kv_store_mgr.cpp:2411-2432 | a put at a fresh address leaves the keys of all pools as they were |
| PutLocks.SafeList.TryInsert | util/kv_sync_list.cpp:45-63 | one turn of insert_entry: inserts exactly when the entry is not held |
| PutLocks.SafeList.DeleteEntry | util/kv_sync_list.cpp:67-86 | delete_entry removes the entry and says whether it was there |
| PutLocks.TakeStep | util/kv_sync_list.cpp:45-86 | a thread's step made with the list's own methods is the step of the interleaving model |
| PutResults.ResultsAreEarned | src/kv_store_mgr.cpp:2402-2566 | in any interleaving a put is refused as existing if and only if it was not to replace and a read that did not fail showed it an unexpired pair of its key; it is stored if and only if its write succeeded; once returned it has failed if and only if a device call of its own failed or reads at all eight addresses showed something else |
| PutResults.OverwriterHadReason | src/kv_store_mgr.cpp:2413-2545 | a put about to write over a pair of its own key was asked to replace it, or found it expired at its last read, or last found its window unmapped and another put of the key has stored the pair since |
| PutResults.UnaskedIff | src/kv_store_mgr.cpp:2413-2432 | some interleaving makes a put replace a pair of its key unasked if and only if it is not to replace, its key is not stored while one of its addresses is free, and another put of the key is under way |
| PutResults.BothStore | src/kv_store_mgr.cpp:2413-2432 | a concrete interleaving in which two puts of one key, neither to replace, both report success |
| PutLocks.RunKeepsInv | src/kv_store_mgr.cpp:2402-2566 | the lock invariant holds after every interleaving of any number of puts |
| PutLocks.LocksAreExclusive | src/kv_store_mgr.cpp:2402-2566 | in every reachable state the safe list is exactly the addresses of threads whose insert_lba is set, no two alike, and whoever writes is one of them |
| PutLocks.WaiterRereads | src/kv_store_mgr.cpp:2438-2545 | a put that waited writes only after reading under the lock, and only over a pair of its own key |
| PutRaces.UncontendedIsSerial | src/kv_store_mgr.cpp:2402-2566 | without contention every state that puts of different keys can reach has the media of the stored calls run one after another, nobody waits and nobody is about to overwrite another key |
| PutRaces.RaceIff | src/kv_store_mgr.cpp:2413-2432 | some interleaving of any number of puts of different keys makes one write over another's pair if and only if some of the calls, run one after another, leave two others that would store at the same address |
| PutRaces.TwoCallsRaceIff | src/kv_store_mgr.cpp:2413-2432 | for two calls alone: if and only if the first address of each that neither another key nor another pool occupies is the same and free |
| PutRaces.EmptyMediaRaceIff | src/kv_store_mgr.cpp:2413-2432 | on empty media: if and only if their first addresses are the same |
| PutRaces.LossNeedsShared | src/kv_store_mgr.cpp:2413-2432 | whatever the keys, nothing is lost unless two puts of different keys have a common address that nothing is stored at |
| PutRaces.RaceLosesPair | src/kv_store_mgr.cpp:2413-2432 | a concrete interleaving in which two puts succeed and one pair is lost |
| PutLocks.SomeoneCanStep | util/kv_sync_list.cpp:52-60 | no reachable state is deadlocked |
| PutLocks.StepLowersRank | src/kv_store_mgr.cpp:2402-2559 | every step, re-reads included, brings a put nearer its end |
| PutLocks.RunsEndReleased | src/kv_store_mgr.cpp:485-490 | every interleaving of n puts ends within 50 n steps, and then every put has returned and every lock is released |
| Bitmap.WordsForIs | util/kv_util.h:52-76 | the round-up to 32 and shift count the words of a bitmap |
| Bitmap.WordBitmap.Set | util/kv_bitmap.cpp:75-78 | sets one index of the set the words stand for and no other |
| Bitmap.WordBitmap.Clear | util/kv_bitmap.cpp:82-85 | clears one index and no other |
| Bitmap.WordBitmap.Test | util/kv_bitmap.cpp:89-92 | is nonzero exactly for members |
| Bitmap.WordBitmap.ScanWord | util/kv_bitmap.cpp:112-124 | the inner loop finds the first digit of the wanted value |
| Bitmap.WordBitmap.Search | util/kv_bitmap.cpp:96-154 | the least clear index below nbits or BM_FULL exactly when all are set, for any nbits; clear-and-set sets only that; find-set reports what the code reports |
| Bitmap.WordBitmap.FindFirstAvailable | util/kv_bitmap.cpp:172-176 | bitmap_ffa takes the least clear index and sets only it |
| Bitmap.FirstSetRightIff | util/kv_bitmap.cpp:145-153 | the search for a set bit is right if and only if the first nonzero word is word 0 or is not all ones |
| Bitmap.FirstSetMisses | util/kv_bitmap.cpp:145-153 | with two words, the second all ones, it says that nothing is set |
| Bitmap.MarkedOverlookedIff | src/kv_pool_manager.cpp:862-878 | has_pools_to_delete answers no although pools are marked if and only if the first nonzero word is all ones, is the last word and is not word 0 |
| Bitmap.WordsEqualIff | src/kv_pool_manager.cpp:903-910 | comparing bitmaps of one length word by word compares the sets they stand for |
| Bitmap.DeletionSnapshot | src/kv_pool_manager.cpp:882-915 | the comparison with the copy that lost bit 0 tells whether all pools in use but the default are marked; the copy handed out is the marked set |
| PoolManager.WordInBitSector | util/kv_bitmap.cpp:39-46 | the word that holds a pool's bit lies in the sector bit_index_sector names |
| PoolManager.SectorOfWords | src/kv_pool_manager.cpp:696-748 | writing the words of one sector is the single-sector update of the sets |
| PoolManager.TagInSector | src/kv_pool_manager.cpp:583-592 | the sixteen bytes of a tag lie whole in the sector computed for it and in no other |
| PoolManager.SearchFindsLeastFree | src/kv_pool_manager.cpp:303 | the bitmap search finds the least free id |
| PoolManager.NameFixedIff | src/kv_pool_manager.cpp:282-287 | the name read from a tag of sixteen bytes depends on nothing after them if and only if one of them is zero |
| PoolManager.PoolMgr.CreatePool | src/kv_pool_manager.cpp:273-340 | memory, media and result of create_pool for either outcome of its write are those of the step the run theorems are about |
| PoolAnswers.CreateAnswers | src/kv_pool_manager.cpp:282-340 | over any run that keeps the tag map exact: a name carried by a live pool answers with that pool, not 0, and changes nothing; any other create answers with the least id not in use, then a live pool with the given tag, or is refused if and only if every id is in use, or reports its failed write and takes no id |
| PoolManager.PoolMgr.MarkTargets | src/kv_pool_manager.cpp:382-399 | the marking loop wipes and forgets the tags of its targets and marks exactly them |
| PoolManager.PoolMgr.RevertMarks | src/kv_pool_manager.cpp:404-423 | the revert loop unmarks all its targets, marked before or not |
| PoolManager.PoolMgr.DeletePool | src/kv_pool_manager.cpp:346-453 | memory, media and result of delete_pool for one or all pools and either outcome of its write |
| PoolAnswers.CreateWritesTagSector | src/kv_pool_manager.cpp:635-767 | a create writes the sector of the new tag and no other of the tag table |
| PoolAnswers.SectorWritten | src/kv_pool_manager.cpp:635-767 | create, delete and clear of one pool take to the media what memory says of the pools in its sector, of the bitmaps they are to write, and leave all other bits there |
| PoolAnswers.BitmapsWritten | src/kv_pool_manager.cpp:919-962 | a delete-all and a bulk clear leave the deleted bitmap on media as in memory, a bulk clear the in-use bitmap too |
| PoolAnswers.DeleteAnswers | src/kv_pool_manager.cpp:346-453 | a delete is refused if and only if it is of pool 0 or an id not in use; otherwise, unless the pool is in deletion already, it succeeds if and only if its write does, and then exactly the pools asked for are in deletion in memory and on media; after a failed write none of them is |
| PoolLifecycle.SnapshotTakesAllIff | src/kv_pool_manager.cpp:896-910 | the snapshot is of the pools in deletion, and is for all if and only if no live pool but the default is left |
| PoolManager.PoolMgr.ClearPool | src/kv_pool_manager.cpp:966-982 | clear of one pool, persisted by sector |
| PoolManager.PoolMgr.ClearSnapshot | src/kv_pool_manager.cpp:919-962 | both branches of the bulk clear leave the set difference; a failed write leaves the mutex held |
| PoolAnswers.ClearsAfterSuccess | src/kv_pool_del_manager.cpp:154-195 | the thread clears exactly after a pass that reported success, and exactly that pass's pools |
| PoolAnswers.ClearAnswers | src/kv_pool_manager.cpp:919-982 | a clear succeeds if and only if its write does; its pools are out of use in memory either way and on media after a success, all others keep their status, and the count falls by their number |
| PoolManager.PoolMgr.Restore | src/kv_pool_manager.cpp:178-269 | restore passes exactly on consistent media and rebuilds the specified tag map |
| PoolManager.RestoredTags | src/kv_pool_manager.cpp:233-244 | the rebuilt map holds a tag exactly when a live pool other than 0 carries it, and maps it to the least such pool |
| PoolLifecycle.RunKeepsPools | src/kv_pool_manager.cpp:273-982 | over every interleaving, failures and restarts included: pool 0 in use and never marked, marked pools in use, the count no more than the pools, in-use bits covered on media |
| PoolLifecycle.CountIsExactIff | src/kv_pool_manager.cpp:289-296 | the count is the number of pools throughout a run if and only if no restart of it finds media whose count is not that of their bits |
| PoolLifecycle.CountFallsBehind | src/kv_pool_manager.cpp:966-982 | a failed clear and a create in another sector leave such media |
| PoolLifecycle.StatusMoves | src/kv_pool_manager.cpp:458-481 | the only moves of a pool's status in any step, failures and restarts included |
| PoolLifecycle.StatusCycles | src/kv_pool_manager.cpp:458-481 | without failing delete-alls over marked pools, and with restarts that find what was in memory, a status only cycles not in use, in use, being deleted, not in use |
| PoolLifecycle.CleanIffNoLatePut | src/kv_pool_manager.cpp:303-340 | only pools in use ever have pairs, and trimmed ones have none, throughout a run if and only if it has no put into a pool between its trimming and its clearing |
| PoolLifecycle.NewPoolIsEmpty | src/kv_pool_manager.cpp:303-340 | after a run without such late puts create_pool never hands out an id that still has pairs on media |
| PoolLifecycle.LatePutLeaks | src/kv_pool_manager.cpp:919-982 | after a late put the clear takes the pool and leaves its pairs |
| PoolLifecycle.OrderlyHasNoLatePut | src/kv_pool_manager.cpp:404-423 | without failing delete-alls over marked pools there is no late put |
| PoolLifecycle.StepLosesIff | src/kv_pool_del_manager.cpp:225-325 | a step takes pairs of a live pool if and only if it is a trimming pass over that pool, or over all pools while one other than the default is live and has pairs |
| PoolLifecycle.LivePairsStayIff | src/kv_pool_del_manager.cpp:154-169 | live pools keep their pairs through a run if and only if no pass of it is of that kind |
| PoolLifecycle.LivePairsStay | src/kv_pool_del_manager.cpp:154-169 | an orderly run without puts, other than into the default pool, while the thread is about to trim every pool takes no pairs of live pools |
| PoolLifecycle.PutUnderPassAllIsLost | src/kv_pool_del_manager.cpp:154-169 | such a put is lost to the next pass that trims |
| PoolLifecycle.StepSyncsIff | src/kv_pool_manager.cpp:635-767 | single-sector writes keep media bitmaps equal to memory across a step if and only if it is neither a failing clear nor a failing delete-all over marked pools |
| PoolLifecycle.RestartIsConsistent | src/kv_pool_manager.cpp:178-269 | restarts at every point of a run find bitmaps and count as in memory if and only if it has no failing clear and no failing delete-all over marked pools; the consistency check then passes |
| PoolLifecycle.RestartsConsistentIff | src/kv_pool_manager.cpp:233-263 | the consistency check passes at every point of a run if and only if no create writes back a bitmap sector without the bit of a pool that the media have as marked |
| PoolLifecycle.RestartKeepsLiveIff | src/kv_pool_manager.cpp:178-269 | a restart leaves every live pool live if and only if none is marked on media |
| PoolLifecycle.LiveSurviveIff | src/kv_pool_manager.cpp:178-269 | that holds at every point of a run if and only if it has no create of an id still marked on media and no failing delete-all over pools marked there |
| PoolTags.InverseWhateverFollows | src/kv_pool_manager.cpp:282-319 | the map is the exact inverse of the live tags, all terminated, if and only if it is the inverse of the names read whatever bytes follow the entries |
| PoolTags.CreateKeepsTagsIff | src/kv_pool_manager.cpp:309-340 | create keeps the map exact if and only if the name is known, or every id is taken, or the tag has a zero byte and its write succeeds or the name is empty |
| PoolTags.FailedCreateTakesTag | src/kv_pool_manager.cpp:317-340 | after a failed create the name answers with a pool that is not in use |
| PoolTags.FailedDeleteDropsTag | src/kv_pool_manager.cpp:384-425 | after a failed delete the pool stays but has lost its tag in memory, not on media |
| PoolTags.ClearKeepsTagsIff | src/kv_pool_manager.cpp:919-982 | clear keeps the map exact if and only if none of its pools is live and tagged |
| PoolTags.RestartKeepsTagsIff | src/kv_pool_manager.cpp:233-244 | a restart finds an exact map if and only if on media live pools have terminated tags, no two the same and pool 0 none |
| PoolTags.TagsExactIff | src/kv_pool_manager.cpp:273-425 | the map is exact throughout a run if and only if none of its steps is one of those |
| PoolTags.RestartRecovers | src/kv_pool_manager.cpp:178-269 | while writes succeed and tags have a zero byte, a restart at any point of any run, restarts included, recovers bitmaps, count and tag map exactly |
| PoolTags.DeleteForgetsTagIff | src/kv_pool_manager.cpp:389-394 | a delete erases the name a create has entered if and only if the tag has a zero byte or the same bytes follow it both times |
| PoolTags.RestartFindsTagIff | src/kv_pool_manager.cpp:238-244 | a restart finds that name exactly then, too |
| PoolHazards.UnmarkedPoolLeaksKeys | src/kv_pool_manager.cpp:404-423 | a reachable run in which a failing delete-all makes create hand out an id with pairs |
| PoolHazards.NewPoolLosesKeysToPass | src/kv_pool_del_manager.cpp:154-169 | a reachable run in which a pool created after the snapshot loses its pairs to a delete-all pass |
| PoolHazards.FailedClearBreaksRestart | src/kv_pool_manager.cpp:966-982 | a reachable run in which a failed clear makes the next restart refuse the store |
| PoolHazards.ReusedPoolIsDeletedAgain | src/kv_pool_manager.cpp:966-982 | a reachable run in which a failed clear, a create of the same id and a restart put a live pool into deletion |
| RangeIterator.RunsArePairs | src/kv_iterator.cpp:464-508 | the contiguous runs of the media are exactly the pairs when these are spaced |
| RangeIterator.OnePairPerSlotIsSpaced | src/kv_layout.cpp:40-48 | one pair per slot that leaves the last sector alone: pairs are disjoint and never adjacent |
| RangeIterator.RangeDevice.CountRanges | src/kv_iterator.cpp:464-508 | the counting loop terminates with the number of ranges, across batches |
| RangeIterator.CountIsPairs | src/kv_iterator.cpp:464-508 | which is the number of pairs |
| RangeIterator.FilterAndCheckSelectPool | src/kv_iterator.cpp:213-225 | device filter and software check select exactly the pool's pairs, with ids in addresses or read from media |
| RangeIterator.HashIsIdIff | src/kv_iterator.cpp:302-303 | headers are not read if and only if the address mask keeps every pool id as it is |
| RangeIterator.PoolIter.Iterate | src/kv_iterator.cpp:329-402 | one range forward across batches; after the end it is back in the old batch |
| RangeIterator.PoolIter.IterOverPool | src/kv_iterator.cpp:254-325 | the search loop terminates at the next pair of the pool |
| RangeIterator.IteratePool | src/kv_store_mgr.cpp:1045-1131 | begin and next until nothing is found yield every pair of the pool once, in address order, and no other |
| PoolDeletion.PassPicksTarget | src/kv_pool_del_manager.cpp:228-297 | filter and checks of the pass pick exactly the target's pairs |
| PoolDeletion.PoolDelManager.ProcessRanges | src/kv_pool_del_manager.cpp:257-325 | the inner loop queues or issues exactly the targets among a batch of ranges |
| PoolDeletion.PoolDelManager.DeletePool | src/kv_pool_del_manager.cpp:200-337 | without an error a pass trims exactly the target's pairs, each once, whatever batch size and vector limit; after an error a leading part |
| PoolDeletion.TrimmedTarget | src/kv_pool_del_manager.cpp:200-337 | what remains is exactly the pairs of other pools |
| PoolDeletion.FalseFailureIff | src/kv_pool_del_manager.cpp:247-336 | a pass that reads no headers reports a failure after trimming everything if and only if its last batch is nonempty without targets and no vector was waiting |
| PoolDeletion.FalseFailureReadingIff | src/kv_pool_del_manager.cpp:247-336 | a pass that reads headers does if and only if the last range of its last batch is no target and has expired, and no vector was waiting |
| PoolDeletion.OtherPassesReportSuccess | src/kv_store.cpp:730-830 | single-pool passes that read no headers, and the pass over everything, never do |
| PoolDeletion.RepeatedPassFailsIff | src/kv_pool_del_manager.cpp:160-169 | once only the default pool has pairs every delete-all pass reports a failure if and only if their number is no multiple of the batch size and, where headers are read, the last of them has expired |
| Cache.HomeIs | src/kv_cache.cpp:308-313 | the first slot of a key is the hash of the key and of the bytes of a pool id other than 0, folded to the bits of the cache |
| Cache.CollisionIsSlot | src/kv_cache.cpp:229-241 | the n-th collision address is n slots on |
| Cache.KvCache.Get | src/kv_cache.cpp:286-407 | eight probes over seven slots give the first free or matching slot, or the oldest as victim, and whether a match has expired |
| Cache.KvCache.FindPlace | src/kv_cache.cpp:218-273 | the probe loop and eviction map of put choose the same slot |
| Cache.KvCache.Insert | src/kv_cache.cpp:159-282 | put through each kind of context |
| Cache.KvCache.Remove | src/kv_cache.cpp:412-466 | delete scans the whole window past free slots |
| Cache.KvCache.DeleteLbas | src/kv_cache.cpp:470-488 | the purge by addresses |
| Cache.KvCache.DeletePools | src/kv_cache.cpp:492-505 | the purge by pools |
| Cache.KvCache.DeleteAllPools | src/kv_cache.cpp:509-527 | the purge of all pools but the default |
| Cache.KvCache.DeleteAll | src/kv_cache.cpp:531-545 | the purge of everything |
| CacheProofs.PurgeIsExact | src/kv_cache.cpp:470-545 | after a purge no matching entry is left and nothing else is gone |
| CacheProofs.PutThenGet | src/kv_cache.cpp:174-282 | a put right after its lookup, or without context, makes the next lookup hit with its length; address, expiry and generation are new exactly when the context had not found the key; the hit is expired if and only if keys expire and that expiry, old or new, is not 0 and has passed |
| CacheProofs.PutWritesOneSlot | src/kv_cache.cpp:159-282 | a put with a context of any age caches its key in one slot of its window, which the context names as its own, free or the victim, or else the probe gives, and changes nothing else |
| CacheProofs.EvictsOldest | src/kv_cache.cpp:259-273 | another key is displaced only from a full window, and then the one stamped earliest; nothing else changes |
| CacheProofs.HitsWereSupplied | src/kv_cache.cpp:159-545 | over any run with contexts of any age: entry i has index i and lies in its window, a hit's address was supplied by an earlier put of that key and its expired flag is that of its expiry, and a lookup's result is such a context |
| CacheProofs.DeleteFreeRunFindsAll | src/kv_cache.cpp:174-282 | without deletions a key is cached at most once and a lookup hits exactly when it is cached |
| CacheProofs.DeleteTakesOne | src/kv_cache.cpp:412-466 | a delete empties the first entry of its key in the window, past free slots, and nothing else; without one nothing |
| CacheProofs.DeleteKeepsReachableIff | src/kv_cache.cpp:412-466 | a deletion leaves all other entries reachable if and only if no probe for one of them crosses the freed slot |
| CacheProofs.OldVictimDuplicates | src/kv_cache.cpp:207-219 | an old victim context caches a key twice |
| CacheProofs.DeletedKeyHitsAgain | src/kv_cache.cpp:286-466 | a history after which a deleted key hits with its first address |
| CacheProofs.DeletedKeyIsReached | src/kv_cache.cpp:286-466 | in a cache of two entries the keys "A" and "T" do so |

## Left out

- Store.KvStore.Get: a header whose value runs past its own sector, which no put writes, is not read.
- Store.KvStore.Put: the vector array has room for the trim vector beside the vector limit; the original's has not, and what it does when it overruns (`PutVectors.OverrunsArrayIff`) is not modelled, nor is running out of memory. Unfilled vectors are left arbitrary.
- StoreProofs.PutKeepsInv: like every theorem about the media after a put, for puts whose vectors are all filled; for the others nothing can hold, as `UnfilledReachAnySector` shows.
- StoreRuns.StepRefinesMap: one pool hash, puts that fill their vectors and reach the media whole, no replace by a value a sector or more shorter, no put behind a hole; otherwise the map is not followed, as `UnfilledIff`, `PutWritesWholePairIff` and `PutDuplicatesIff` show. Deletes are taken to succeed.
- StoreRuns.HistoryOfOthers: keys of one pool hash, none hashed onto the metadata (`StoreLayout.InRunIff`); keys of other pools are in `CrossPool`.
- IoVectors.Device.WriteTable: buffers and limits are whole numbers of sectors.
- PutRaces.RaceIff: which windows hold sectors of other pools does not change during the calls, and calls of one key are covered by `LossNeedsShared` and `PutResults.UnaskedIff`.
- CrossPool.PutSparesIff: the value has no sector that reads as the first sector of a pair of the other key.
- PutLocks.RunKeepsInv: media are the keys at first sectors; bytes and vectors are in `PutVectors`. Deletes and cached puts do not take part.
- PoolManager.PoolMgr.CreatePool: bitmaps are sets here; `Bitmap` shows what the word arrays stand for. What follows a tag in memory is a parameter.
- PoolLifecycle.RunKeepsPools: a put is a single step, a restart likewise, and so is a pass, which either trims all pairs of its pools or is taken to leave some in each. The thread may or may not notice marked pools.
- Iteration with pool id -1: the device filter is given an all-ones pattern whose effect the repository does not define.
- The polynomial probe, which no caller selects.
- Batch put, which shares one lock flag among its keys, and batch get, a loop of gets.
- Reading with exact lengths, which changes the vectors between probes.
- The cached-address shortcut of put, and the second read of delete after waiting: the address released there can differ from the one locked.
- The expiry threads and asynchronous expiry deletion; expired pairs count as absent but not yet removed.
- Opening, closing and handles of stores, iterator slots, buffer pools, statistics and getters.
- The device calls themselves, system calls and memory allocation.
- The reserved word of the header, which the store never sets, and the padding of the store metadata.
