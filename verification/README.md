# xxfs index engine in Dafny

xxfs keeps every inode, directory listing and small file in one on-disk index: an
extendible-hash directory over 4 KiB pages of 56 slots, with inline values, out-of-line
records, overflow chains, page splitting and a direct-mapped write-back page cache. This
project models that engine together with the parts it rests on, and proves that all of it
together answers like a key/value map, with the exact conditions where the code does not.

Everything is for all inputs. Offsets, hashes and lengths are natural numbers; the hash
function is an arbitrary function of the key. A page in memory is the 56-slot array plus
its counter, and "what a reader can see" of it is the part below the counter.

## How the project is laid out

* `Bits` - masks, bit tests, lowest set bit, on natural numbers.
* `PagedLayout`, `PageCache` - blocks and pages; the class `PageStore` (disk, cache lines)
  refines a flat block store `flat`.
* `PagedPage` - one page: live slots have disjoint storage, their inline bytes fit, keys
  are distinct; every edit keeps this.
* `PagedState` - the whole index as a value: directory, blocks, and for each page the hash
  class it belongs to. `StateOK` is the extendible-hash invariant. `Stack(k)` lists the
  copies of `k` along its chain; `Lookup(k)` is the first. `Dense` says that every page
  with a successor is full.
* `PagedSteps`, `PagedSplit`, `PagedEffects`, `PagedTransitions`, `PagedWalk` - doubling,
  opening, linking, splitting, the page edits and the chain walk, each with its effect on
  every key.
* `PagedInsert` - the walk of `paged_insert`, which never looks for its key. A page may then
  hold a key twice; `LooseOK` is what still holds, and all that a reader needs.
* `PagedCost` - how many blocks a put or insert asks for, from the state it starts in.
* `PagedRaw`, `PagedIndex`, `PagedPersist`, `PagedFormat` - the imperative code: loops over
  slots and directory, the class `Index` with `Put`, `Insert`, `Get`, `Del`, splitting,
  mounting, writing out, and the image a new file starts with.
* `PagedRun` - runs of operations against a specification, and what readers see.
* `PagedLimits`, `PagedAlias`, `PagedExamples` - the sharing law of the directory, and where
  the code falls short: splits of overflow pages, keys taken for one another, covered copies,
  inserts nobody sees; each with its exact condition and a concrete input.
* `Allocator` - the block counters, and runs of allocations on them: `grows(i)` is the answer
  of `xxfs_os_file_extend` to request number `i`, any function.
* `SwissGroups`, `SwissTable`, `InodeCache`, `FileStore`, `Paths`, `Crc32c` - the other
  supporting cores.

## What holds, and what does not

* A successful put makes its value the answer for its key and leaves every other key's
  copies alone; a get returns exactly the first copy. `paged_put` stops at the first page
  with room, so after a delete it can cover an older copy instead of replacing it:
  `Put` gives the exact resulting stack, `DenseNeverShadows` shows that only a delete can
  lead there, `PlainRun` shows when a run is a run of an ordinary map, and
  `DeleteThenGet` when a deleted key is really gone.
* `paged_insert` on a key that is present adds a copy, and readers see the new value exactly
  when no page up to and including the first one with room held the key (`InsertAnswers`).
  `xxfs_create` and `xxfs_mkdir` look only in the inode cache (lib/xxfs.c:1495-1500,
  1559-1563), so after a mount they insert keys that are present: `InsertUnseen` creates "/"
  again on a freshly formatted file, succeeds, and still reads the old inode.
* What an operation costs is a function of the state it starts in. `PutCost` is 0 for an
  update in place and for an inline append to a page with room, and one for each bucket
  opened, page linked, value moved out of line and record written, never more than two.
  `Put` and `Insert` succeed exactly when that many blocks are granted, and take exactly
  these (`Settled`). The one case the bill leaves open is a chain that is all full and is
  refused its new page: the code then splits instead, and that attempt fails only on a
  second refusal or on a page that cannot be divided. `Run` adds the bills up, and
  `FileStore.Store.Write` has its own.
* `page_alloc` returns fresh blocks exactly while free blocks remain; with none it hands out
  the first data block once more (`Allocator`). So what is said above is the code's own
  behaviour as long as the free blocks cover the bills. With fewer, the model goes on with an
  idealised allocator that refuses or extends the file by a block of its own, as `grows`
  says, and its results describe the code only if that is what happens.
* Splitting a bucket head keeps every answer. Splitting an overflow page does not, because
  nothing links to the new page: `TailSplitExact` gives the condition, `TailSplitInstance`
  an input. A split needs a refused allocation, so `Lossless` - a free block, or a chain of
  one page - is what a caller can check to rule out that kind of split; it says nothing about
  whether `page_alloc` returns a fresh block.
* The directory lies in a block of its own that is no page and no record, and no allocation
  ever returns that block while it lies below the allocator's next one, as it does in every
  formatted file.
* Growing an existing file extent is right exactly when the new blocks do not follow the
  old ones or only zeros were left behind (`EnlargingExact`).
* `table_grow` keeps the map below 2^32 slots and hides all of it from there on.

## Model

| member | source | states |
|---|---|---|
| PageCache.PageStore.constructor | lib/xxfs.c:114-122 | a file opened with an empty cache shows exactly the blocks on disk |
| PageCache.PageStore.PageLoad | lib/xxfs.c:788-820 | the page returned is the last content written at that offset, and no block's visible content changes, whatever was evicted; a hit changes nothing, a miss only its own line |
| PageCache.PageStore.Evict | lib/xxfs.c:795-805 | a dirty line reaches the disk before it is freed, so the view of every block survives; no other line and no other block is touched |
| PageCache.PageStore.PageWriteback | lib/xxfs.c:872-882 | marking the line or writing through both make exactly this block show the page |
| PageCache.PageStore.CacheInvalidate | lib/xxfs.c:915-928 | the block is no longer cached and every block shows what it showed |
| PageCache.PageStore.Rewrite | lib/xxfs.c:1030-1032 | edit in place plus writeback changes the view of that one block only |
| PageCache.PageStore.EditUnseen | lib/xxfs.c:1087-1091 | the clean leftover of a failed append lies beyond the live slots and cannot be observed, even if dropped |
| PageCache.PageStore.WriteNewPage | lib/xxfs.c:1011-1016 | writing a new page past the cache and invalidating shows the page and leaves all cache lines alone |
| PageCache.PageStore.PatchRecord | lib/xxfs.c:1036-1041 | only the value bytes of that record change |
| PageCache.PageStore.FlushAll | lib/xxfs.c:904-913 | afterwards the disk alone shows the same flat store |
| PageCache.PageStore.WriteDir | lib/xxfs.c:1288 | the block holds the directory, with or without entries behind it; no page, no record and no other block changes |
| PageCache.DirShows | lib/xxfs.c:1288 | writing a directory block outside the index is seen by no page and no record |
| PageCache.EditShows | lib/xxfs.c:788-794 | editing a resident page changes what that block shows and nothing else |
| PageCache.EvictKeeps | lib/xxfs.c:795-805 | writing a dirty line back and freeing it keeps the view of every block |
| PageCache.FillKeeps | lib/xxfs.c:806-819 | filling a free line from disk keeps the view of every block |
| PageCache.FlushKeeps | lib/xxfs.c:906-911 | flushing one line keeps the view of every block |
| PageCache.CleanAgrees | lib/xxfs.c:904-913 | when no line is dirty, disk and view agree on all live slots |
| PagedPage.AddInlineOK | lib/xxfs.c:1078-1084 | an appended inline entry fits, overlaps no live entry and adds exactly this entry to the page |
| PagedPage.AddRecordOK | lib/xxfs.c:1085-1094 | an appended out-of-line entry keeps the page well-formed and adds exactly this entry |
| PagedPage.ShrinkInlineOK | lib/xxfs.c:1028-1034 | a value overwritten in place changes this entry and no byte of another one |
| PagedPage.ShrinkRecordOK | lib/xxfs.c:1035-1041 | a value overwritten in its record changes this entry and no other |
| PagedPage.PromoteOK | lib/xxfs.c:1042-1050 | moving a value out of line leaves dead inline space behind, keeps the page well-formed and changes only this entry |
| PagedPage.RemoveSlotOK | lib/xxfs.c:1257-1259 | moving the last slot into the hole keeps disjointness and distinct keys and removes exactly this entry |
| PagedState.DirIndexIsResidue | lib/xxfs.c:727-732 | the masked hash is the hash modulo the directory size |
| PagedState.DenseNeverShadows | lib/xxfs.c:1054-1071 | where every page with a successor is full, no put covers an older copy of its key |
| PagedSteps.DoubledOK | lib/xxfs.c:822-837 | doubling keeps the invariant and every key's copies |
| PagedSteps.DoubledHead | lib/xxfs.c:822-837 | every hash finds the same bucket page before and after doubling |
| PagedSteps.OpenedOK | lib/xxfs.c:1006-1017 | opening a bucket keeps the invariant, every key's copies, and opens no gap in a chain |
| PagedSteps.ExtendedOK | lib/xxfs.c:1054-1068 | linking an overflow page keeps the invariant, all entries, and introduces no alias |
| PagedSteps.ExtendedNothingNew | lib/xxfs.c:1054-1068 | linked behind a full page, it opens no gap in the chain |
| PagedSteps.ExtendedStacks | lib/xxfs.c:1054-1068 | linking an overflow page keeps every key's copies |
| PagedSplit.FilterCopies | lib/xxfs.c:974-978 | filtering entries by one hash bit keeps the copies of every key with that bit |
| PagedSplit.SortedStep | lib/xxfs.c:974-986 | one turn of the copying loop: both halves stay well-formed and packed, and neither the slots nor the inline bytes overflow, in spite of dead space in the source |
| PagedSplit.SplitPageOK | lib/xxfs.c:961-995 | after a split every page is well-formed and holds the old entries, sorted by the new bit |
| PagedSplit.SplitOK | lib/xxfs.c:951-995 | a split keeps the extendible-hash invariant: halves shared by exactly the indices of their narrower class, every slot in its class |
| PagedSplit.SplitHeadKeeps | lib/xxfs.c:951-995 | splitting a page the directory points at keeps the copies of every key |
| PagedSplit.SplitNothingNew | lib/xxfs.c:961-995 | a split introduces no alias and no gap |
| PagedSplit.SplitDeepens | lib/xxfs.c:951-997 | the page a retry could split next is one level deeper, which ends the recursion |
| PagedEffects.ShortKeysHaveNoAlias | lib/xxfs.c:1025-1027 | keys of at most 16 bytes are never taken for another key |
| PagedEffects.ReplacedEffect | lib/xxfs.c:1028-1050 | a new value in the key's slot replaces its top copy and touches no other key in any chain |
| PagedEffects.AppendedEffect | lib/xxfs.c:1071-1094 | an appended slot puts one copy on top for its key and touches no other key |
| PagedEffects.RemovedEffect | lib/xxfs.c:1257-1259 | removing the slot drops the top copy and touches no other key |
| PagedTransitions.PromoteStep | lib/xxfs.c:1042-1050 | the out-of-line move as a step of the whole index |
| PagedTransitions.AddInlineStep | lib/xxfs.c:1071-1094 | the inline append as a step of the whole index |
| PagedTransitions.RemoveStep | lib/xxfs.c:1257-1260 | the delete as a step of the whole index; in a one-page bucket it opens no gap |
| PagedWalk.WalkExtended | lib/xxfs.c:1054-1070 | after a full last page was extended, the walk stands on the new empty page and every answer is still the old one |
| PagedWalk.PutReplaced | lib/xxfs.c:1024-1050 | a put that ended on a slot of the key has exactly the promised outcome since it began |
| PagedWalk.PutAppended | lib/xxfs.c:1071-1094 | a put that ended on a page with room has exactly the promised outcome since it began |
| PagedInsert.InsertNext | lib/xxfs.c:1119-1140 | the insert walks past a full page, whatever it holds, with every answer still the old one |
| PagedInsert.InsertExtended | lib/xxfs.c:1123-1139 | after a full last page was extended, it stands on the new page and will meet a copy exactly if it would have before |
| PagedInsert.Landed | lib/xxfs.c:1142-1164 | the appended entry tops the stack if no copy was met, and lies behind the old answer otherwise; other keys are untouched |
| PagedInsert.InsertAnswers | lib/xxfs.c:1119-1164 | the inserted value answers if and only if no page up to and including the first one with room held the key, or it was the answer already |
| PagedCost.InPlaceIsFree | lib/xxfs.c:1028-1041 | a put of a value no longer than the answer it replaces asks for no block |
| PagedCost.MoveCostsOne | lib/xxfs.c:1042-1050 | a longer value for a key that is met asks for one |
| PagedCost.CostHere | lib/xxfs.c:1071-1094 | a put that stands on a page with room asks for none if the entry fits inline, for one otherwise |
| PagedCost.CrampedCost | lib/xxfs.c:1054-1070 | a put into a chain that is all full asks for a page, and for a record if the entry does not fit inline |
| PagedCost.CrowdedCost | lib/xxfs.c:1119-1140 | the same for an insert |
| PagedCost.SettledFree | lib/xxfs.c:734-746 | with as many free blocks as the bill says the operation succeeds, the free count falls by just that, and nothing else changes in the counters |
| PagedRaw.FindSlot | lib/xxfs.c:1023-1027 | the first slot with this hash, length and prefix, or none at all |
| PagedRaw.SplitSlots | lib/xxfs.c:951-986 | the copying loop delivers the two sorted, packed halves |
| PagedRaw.Repoint | lib/xxfs.c:988-991 | exactly the entries of the split page with the new bit set are re-pointed |
| PagedRaw.DoubleDir | lib/xxfs.c:824-832 | the new directory is the old one twice |
| PagedIndex.Index.Mount | lib/xxfs.c:1406-1426 | the directory is read from its block in the file; the mounted index is the state that file and superblock describe |
| PagedIndex.Index.PageAlloc | lib/xxfs.c:734-746 | with a free block exactly the code's allocation, of a block above every page, every record and the directory; with none, 0 or a block past the end, as the extension is answered |
| PagedIndex.Index.WriteRecord | lib/xxfs.c:839-870 | a fresh block holds both lengths, key and value; or nothing changed |
| PagedIndex.Index.OpenBucket | lib/xxfs.c:1006-1017 | the directory entry gets an empty page of global depth; no answer changes |
| PagedIndex.Index.LinkOverflow | lib/xxfs.c:1059-1067 | exactly one empty page is linked behind the page |
| PagedIndex.Index.ExtendChain | lib/xxfs.c:1055-1068 | a new last page, or nothing changed because no block is left |
| PagedIndex.Index.Overwrite | lib/xxfs.c:1028-1050 | the key's top copy is replaced, in place for no block or out of line for one, or nothing changed because that one was refused |
| PagedIndex.Index.AppendSlot | lib/xxfs.c:1071-1094 | one copy is put on top, inline for no block or out of line for one, or nothing visible changed because that one was refused |
| PagedIndex.Index.MakeRoomForBit | lib/xxfs.c:939-948 | the directory doubles exactly when the page uses all its bits and they are fewer than 20, and it fails exactly when they are 20 |
| PagedIndex.Index.Divide | lib/xxfs.c:950-995 | the state afterwards is exactly the split of the state before |
| PagedIndex.Index.SplitPage | lib/xxfs.c:930-995 | succeeds exactly when the page is less than 20 bits deep and one block is granted, which is all it takes; every answer is kept when a bucket head is split, or when the split stops after doubling; the last page of the key's chain is one level deeper |
| PagedIndex.Index.SinglePage | lib/xxfs.c:1019-1021 | decides whether the key's chain is at most one page |
| PagedIndex.Index.Put | lib/xxfs.c:1000-1098 | on success the value is the answer; where no overflow page can be split, the key's copies are exactly the predicted stack and every other key is untouched, and on failure every answer is as before; it succeeds exactly when the blocks of its bill are granted and takes exactly these; a value that fits in place is always written and costs nothing; the recursion through splits ends |
| PagedIndex.Index.Insert | lib/xxfs.c:1100-1167 | any key: an absent one as `Put`; a present one gets one more copy, seen exactly when no page up to and including the first one with room held it; success and blocks taken exactly by its bill |
| PagedIndex.Index.Get | lib/xxfs.c:1169-1236 | exactly the first copy, or absence, or "buffer too small", even where a page holds a key twice; the index is unchanged |
| PagedIndex.Index.ReadSlot | lib/xxfs.c:1180-1231 | a slot is a hit exactly when its whole key is the key asked for, and then its value is read |
| PagedIndex.Index.ScanPage | lib/xxfs.c:1180-1231 | the slot loop finds the first copy in the page, or there is none |
| PagedIndex.Index.Del | lib/xxfs.c:1238-1266 | succeeds exactly when the key has a copy, removes the first one, touches nothing else |
| PagedIndex.RetryResult | lib/xxfs.c:997 | a put retried after a split still is a put of the state before the split |
| PagedPersist.Checkpoint | lib/xxfs.c:1268-1291 | after flush and directory write, the blocks of the file show every page and record, and the block the superblock names holds the directory |
| PagedPersist.Remount | lib/xxfs.c:2083-2096 | an index re-opened from the file's blocks with an empty cache answers every key as the live one did |
| PagedFormat.FormattedShows | lib/xxfs.c:2298-2376 | the blocks and counters a new file is given fit together: the directory is readable, and it, the root's record and its page lie below the next free block |
| PagedFormat.FormattedOK | lib/xxfs.c:2342-2374 | the formatted index satisfies the invariant, holds "/" and nothing else, and no key is taken for "/" |
| PagedFormat.MountFormatted | lib/xxfs.c:2342-2376 | mounting a new file gives that index |
| PagedFormat.RunFormatted | lib/xxfs.c:2342-2376 | every run from a new file with two blocks an operation to spare is a run of the specification that starts with "/" alone |
| PagedRun.Execute | lib/xxfs.c:1000-1266 | each real operation is a step of the specification: gets and deletes always, puts and inserts unless they could split an overflow page, inserts of absent keys; it takes exactly the blocks of its bill when they are free; a delete in a one-page bucket opens no gap |
| PagedRun.Run | lib/xxfs.c:1000-1266 | every run of operations is a run of the specification, up to the first put or insert that could split an overflow page or insert of a present key; where the free blocks cover the bills, every put and insert succeeds and the free count falls by exactly their sum; two free blocks an operation always cover them, and then only a present key can stop the run |
| PagedRun.Untouched | lib/xxfs.c:1000-1266 | along any run a key's copies change only when that key is written |
| PagedRun.LastWriteWins | lib/xxfs.c:1000-1236 | along any run a get returns the value of the last successful put or insert of its key |
| PagedRun.DeleteThenGet | lib/xxfs.c:1238-1266 | along any run a get after a delete reports absence exactly when the key had one copy |
| PagedRun.PlainMapStep | lib/xxfs.c:1000-1266 | while no key has a covered copy, each step is a step of an ordinary map |
| PagedRun.SingleUntilDelete | lib/xxfs.c:1054-1071 | along any run no key has a covered copy before the first delete |
| PagedRun.PlainRun | lib/xxfs.c:1000-1266 | a run is a run of an ordinary map for as long as no put meets an index with a gap; only deletes in chains of several pages open one |
| PagedRun.FreshIsPlain | lib/xxfs.c:1406-1409 | a never-written index satisfies the invariant and is the empty map |
| PagedLimits.SharedExactly | lib/xxfs.c:939-991 | two directory entries name one page exactly when they agree modulo two to its local depth |
| PagedLimits.ChainInClass | lib/xxfs.c:727-732 | every slot of a chain has a hash in the class of the directory entry it hangs from |
| PagedLimits.TailSplitCount | lib/xxfs.c:988-991 | how many copies of a key remain after an overflow page was split |
| PagedLimits.TailSplitExact | lib/xxfs.c:961-995 | splitting an overflow page keeps every answer if and only if none of its slots has the new bit |
| PagedLimits.TailSplitLoses | lib/xxfs.c:988-991 | each slot with the new bit loses its key one copy |
| PagedAlias.AliasTakesThePut | lib/xxfs.c:1025-1041 | an in-place put that meets a slot of a key with the same hash, length and prefix first is a put of that key; it serves its own key if and only if the two are one key or the value was there already |
| PagedAlias.AliasMovesTheSlot | lib/xxfs.c:1042-1050 | out of line such a put serves its own key, and the other key loses a copy |
| PagedAlias.AliasTakesTheDelete | lib/xxfs.c:1252-1260 | a delete that meets such a slot takes the other key's copy; it takes its own if and only if the two are one key |
| PagedExamples.ShadowStateOK | lib/xxfs.c:1054-1071 | a well-formed index in which a put covers an older copy |
| PagedExamples.ShadowReturns | lib/xxfs.c:1000-1266 | mounted from a file, put, delete and get of that key bring the older value back |
| PagedExamples.InsertUnseen | lib/xxfs.c:1100-1167 | on a freshly formatted file an insert of "/" succeeds and a get still returns the old value |
| PagedExamples.TailSplitInstance | lib/xxfs.c:961-995 | a well-formed index and a split of an overflow page that changes an answer |
| PagedExamples.AliasInstance | lib/xxfs.c:1025-1034 | two keys of 17 bytes and an index in which a put of the one changes the other |
| Allocator.SuperBlock.PageAlloc | lib/xxfs.c:734-746 | exactly `AllocOne` on the counters: a free block is taken and the file keeps its size, or with none free it grows by one and none stays free, or nothing changes; the block is new exactly when free blocks remained or none was handed out; otherwise the first data block is returned again |
| Allocator.SuperBlock.PageAllocN | lib/xxfs.c:748-773 | exactly `AllocMany` on the counters: enough free blocks are taken and the file keeps its size, or all free ones are taken and it grows by the rest, or nothing changes; with none free the first data block is returned; freshness as above |
| Allocator.SuperBlock.AllocAll | lib/xxfs.c:734-773 | the extents of a run of requests tile one contiguous region |
| Allocator.SpendFree | lib/xxfs.c:734-746 | as many requests as there are free blocks are granted, and change nothing but the free count |
| Allocator.RunsFree | lib/xxfs.c:748-773 | the same for runs of blocks |
| Allocator.TilesAreDisjoint | lib/xxfs.c:734-773 | tiling extents are pairwise disjoint and in order |
| Allocator.TilesCover | lib/xxfs.c:734-773 | every byte of the region belongs to an extent |
| SwissGroups.MatchGroup | lib/xxfs.c:491-506 | bit i of the mask is set exactly when byte i of the group matches |
| SwissGroups.Tag | lib/xxfs.c:509 | the tag is the hash modulo 128, and no tag is EMPTY or DELETED |
| SwissGroups.HomeInRange | lib/xxfs.c:509-510 | the home group is the shifted hash modulo the number of groups |
| SwissGroups.CountFull | lib/xxfs.c:537-550 | live plus deleted slots fall short of the capacity exactly when an EMPTY byte exists |
| SwissTable.MatchKey | lib/xxfs.c:559-567 | the bitmask loop finds the key's slot in a group, or no slot of the group holds the key |
| SwissTable.AbsentAtEmpty | lib/xxfs.c:568-569 | an EMPTY byte on the probe path means that the key is nowhere in the table |
| SwissTable.AbsentAfterAll | lib/xxfs.c:557-572 | so does a full turn over all groups |
| SwissTable.ChosenOnce | lib/xxfs.c:598-634 | the first group of the probe order with a slot that is not live, and there the lowest tombstone, else the lowest empty slot, is one slot |
| SwissTable.FillOK | lib/xxfs.c:603-634 | filling the chosen slot keeps all probe paths clear and adds exactly this key |
| SwissTable.EraseOK | lib/xxfs.c:710-723 | a tombstone keeps all probe paths clear and removes exactly this key |
| SwissTable.MergedAll | lib/xxfs.c:638-656 | re-inserting all live slots in order rebuilds exactly the table's map |
| SwissTable.Table.constructor | lib/xxfs.c:537-550 | a new table is the empty map |
| SwissTable.Table.Find | lib/xxfs.c:552-573 | a slot exactly when the key is in the map, and then the key's slot |
| SwissTable.Table.Probe | lib/xxfs.c:578-622 | the key's slot, or the slot that is chosen for a new key, or every slot is live |
| SwissTable.Table.Insert | lib/xxfs.c:575-636 | the map gets this binding; a new key goes to exactly the chosen slot, the counters follow, and it fails only when every slot is live |
| SwissTable.Table.MigrateBatch | lib/xxfs.c:638-656 | exactly the next slots are merged in; no insertion fails |
| SwissTable.Table.Grow | lib/xxfs.c:658-688 | below 2^32 slots: twice the size, same map, no tombstone, old table drained; from 2^32 on: nothing moved, lookups see an empty map |
| SwissTable.Table.Put | lib/xxfs.c:690-703 | never fails; the table doubles exactly when the load limit is reached; the map gets this binding and the load limit holds again, except when a table of 2^32 slots or more has to grow: then only the entries of its first 64 slots and the new one are left to see |
| SwissTable.Table.Del | lib/xxfs.c:705-725 | removes the binding if there is one, clears its slot, and leaves and counts one tombstone |
| SwissTable.Table.CountIsSize | lib/xxfs.c:603-634 | the counter is the size of the map |
| InodeCache.Cache.constructor | lib/xxfs.c:211-218 | an empty cache of 16384 slots |
| InodeCache.Cache.EvictOne | lib/xxfs.c:274-300 | the first used entry from the clock position on leaves, if there is any, and is handed back; no other slot changes |
| InodeCache.Cache.Grow | lib/xxfs.c:302-326 | twice the slots, the same bag of entries, and each entry behind used slots only |
| InodeCache.Cache.Put | lib/xxfs.c:328-358 | always finds a slot: the first on the path that is free or has the hash, every slot before it being used for another one; nothing is lost but the reported victim and overwritten copy; the next lookup returns this slot exactly when one of the first sixteen was free or had the hash |
| InodeCache.StoredIsSeen | lib/xxfs.c:328-358 | with such a slot near, the lookup after a put returns exactly this inode |
| InodeCache.Cache.Del | lib/xxfs.c:360-372 | removes exactly what the bounded lookup finds |
| InodeCache.LookupSlot | lib/xxfs.c:234-247 | the loop computes the sixteen-probe lookup |
| InodeCache.BagFull | lib/xxfs.c:328-358 | a slot is free exactly when fewer entries are used than there are slots |
| InodeCache.BagUpdate | lib/xxfs.c:338-357 | replacing one slot exchanges one entry of the bag |
| InodeCache.LookupReaches | lib/xxfs.c:234-247 | an entry at the end of a passed probe path is found if and only if it lies within sixteen probes |
| InodeCache.NearIsFound | lib/xxfs.c:234-247 | where entries lie behind used slots only, a lookup finds every hash that lies within sixteen probes |
| FileStore.Store.Read | lib/xxfs.c:1849-1877 | exactly the bytes of the file from the offset on, as many as asked for or up to the end |
| FileStore.Store.Write | lib/xxfs.c:1750-1822 | a write that enlarges no extent is a write to a zero-filled byte array, through promotion too; one that does is right if and only if the new blocks are not adjacent or only zeros remained; size and blocks afterwards; it succeeds exactly when its requests are granted and takes exactly these, and with enough free blocks that is exactly what its end needs beyond what the file has |
| FileStore.RequestsSum | lib/xxfs.c:1763-1786 | the requests of a write add up to the blocks its end needs beyond those the file has |
| FileStore.Store.Promote | lib/xxfs.c:1763-1779 | moving inline bytes to a first block keeps the content |
| FileStore.Store.Alloc | lib/xxfs.c:748-773 | with a free block exactly the code's allocation; with none, refused or fresh blocks past the end, as the extension is answered |
| FileStore.WriteRefines | lib/xxfs.c:1763-1815 | a successful write of the restricted kind keeps the file well-formed and overlays exactly its bytes |
| FileStore.EnlargingExact | lib/xxfs.c:1784-1815 | the exact condition for a write that enlarges an extent |
| FileStore.EnlargingLoses | lib/xxfs.c:1792-1807 | a one-byte file that grows past one block loses its byte |
| FileStore.ReadBack | lib/xxfs.c:1849-1877 | what was just written is read back |
| FileStore.ReadAround | lib/xxfs.c:1849-1877 | bytes outside a write are read as before, and zeros where the file has grown |
| Paths.PathNormalize | lib/xxfs.c:1327-1352 | whenever the result fits the buffer, however long the path: "/" and the components without empty and "." ones, joined by slashes |
| Paths.ComponentsSplit | lib/xxfs.c:1327-1352 | slashes separate components, and what lies between them is one component unless it is empty or "." |
| Paths.RenderLast | lib/xxfs.c:1327-1352 | a canonical path is that of all components but the last, a slash, and the last |
| Paths.ReadBack | lib/xxfs.c:1327-1352 | reading a canonical path gives back its components |
| Paths.NormalizeIdempotent | lib/xxfs.c:1327-1352 | normalising twice is normalising once |
| Paths.SameKeyIff | lib/xxfs.c:1327-1352 | two paths share a key exactly when their component lists agree |
| Paths.GetParentPath | lib/xxfs.c:2594-2616 | the path of all components but the last |
| Paths.GetBasename | lib/xxfs.c:2618-2624 | the last component, empty for the root |
| Paths.ParentPlusBase | lib/xxfs.c:2594-2624 | parent and last component rebuild every non-root path |
| Crc32c.TableEntry | lib/xxfs_os.c:180-183 | a table entry is eight single-bit division steps |
| Crc32c.MakeTable | lib/xxfs_os.c:175-186 | all 256 entries are |
| Crc32c.Crc | lib/xxfs_os.c:210-216 | the table-driven loop equals bit-by-bit division, for every byte sequence |
| Crc32c.PolyTerms | lib/xxfs_os.c:182 | the polynomial has exactly the terms of Castagnoli's, bits reversed |
| Crc32c.CheckValue | lib/xxfs_os.c:210-216 | the checksum of the digits 1 to 9 is 0xE3069283 |
| Crc32c.Residue | lib/xxfs_os.c:210-216 | for every message, four further bytes give the checksum 0x48674BC7 if and only if they are the message's own checksum in little-endian order |
| Crc32c.ByteStep | lib/xxfs_os.c:213-214 | one table lookup equals feeding eight message bits |
| Crc32c.TableStep | lib/xxfs_os.c:214 | eight steps split into the low byte's table entry and the shifted rest |
| Crc32c.ShiftLinear | lib/xxfs_os.c:182 | the register step is linear over exclusive or |
| Crc32c.ShiftInjective | lib/xxfs_os.c:182 | the register step is injective |
| Crc32c.FeedDiffer | lib/xxfs_os.c:212-215 | the difference of two registers is the register fed with the difference |
| Crc32c.BurstDetected | lib/xxfs_os.c:212-215 | messages of one length that differ only within 32 consecutive bits have different checksums |
| Crc32c.FourBytesDetected | lib/xxfs_os.c:212-215 | messages that differ only within four consecutive bytes have different checksums |

## Left out

- PagedIndex.Index.PageAlloc: with no free block it stands for "refused, or one more block past the end", where the code returns the first data block again. `Allocator.SuperBlock.PageAlloc` has the code's branch, and free blocks for their bills, two at most, keep `Put` and `Insert` away from it.
- PagedIndex.Index.Put: assumes that no other stored key agrees with the key in hash, length and first 16 bytes (`PagedAlias` says what happens otherwise) and that key, value and header fit one block, since a record gets a single block. Its frame for the other keys is stated when a block is free or the chain is one page, that is, when no overflow page can be split. For a full chain that is refused its new page, success is described by what can prevent it, not by the count of blocks its splits take.
- PagedIndex.Index.Insert: assumes no alias and one-block records, as `Put` does, since a split may hand over to a put. With no block free, a full chain and a present key, it says only that either the entry was appended or the value was put.
- PagedIndex.Index.Del: removes the first copy; assumes no alias, as for `Put`.
- PagedRun.Run: inserts of present keys end a run; `PagedIndex.Index.Insert` describes a single one.
- PagedPersist.Checkpoint: directories of at most 512 entries, in their own block; the offset `page_alloc_raw` picks for a directory never written before is a parameter. Formatted files have one, so that branch does not arise for them. The superblock is returned as a value; its encoding and checksum are not modelled.
- PagedPersist.Remount: mounts from a written directory; the scan that rebuilds a directory from page headers is not modelled.
- SwissTable.Table.Put: allocation failure is excluded. After a table of 2^32 slots or more had to grow, the state is described for that put only.
- FileStore.Store.Write: a write ending within 128 bytes into a file that already has an extent is excluded, because inline bytes and extent pointer share storage; after a write that enlarges an extent only the content is described, and that the extent reaches beyond what was allocated. One file at a time; the inode is taken to be stored faithfully.
- FileStore.Store.Alloc: with no free block it is idealised as `PagedIndex.Index.PageAlloc` is.
- InodeCache.Cache.EvictOne: hands the victim back; stamping its times and checksum and storing it in the index are not part of this model.
- InodeCache.LookupSlot: compares hashes only, as the code does; that a lookup always returns the latest inode is not claimed, because deletes leave no tombstones.
- Paths.PathNormalize: for paths whose normal form does not fit the buffer only the length bound is stated.
- Memory allocation failures and I/O errors, and the error returns they lead to.
- The internals of `xxh64`, and the SSE2 and SSE4.2 branches.
- Bytes of a slot's key prefix beyond the key's length.
- ECC computation and correction, rename, directory listings and their cache, locks, memory mapping, times, profiling.
- Snapshots, defragmentation and LRC, which are stubs, and the command-line tools.
