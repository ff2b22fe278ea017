# A verified model of the blksnap block-snapshot core

This project models the sequential core of the blksnap kernel module. The
module takes copy-on-write snapshots of live block devices and keeps a
change-block-tracking (CBT) map of which blocks were written in which
snapshot generation. The model covers:

- the CBT map: block sizing, generation switching, raising blocks to the
  active generation, the sticky corruption flag;
- the chunk state machine of the difference area, with its page-list buffers;
- the diff-buffer iterator arithmetic;
- the event queue;
- the in-memory snapshot store;
- the tracker: copy-on-write block loop, enumeration, add/remove decisions;
- the snapshot session: create, take with rollback, destroy, collect;
- the snapshot image: fake disk geometry, open/close counting, write-request
  order, dirty-block marking;
- the range helpers of the copy-on-write test: binary search, clipping, and
  the partition of a disk into available and diff-storage ranges.

Each core file is one Dafny module:

| file | module | source |
|---|---|---|
| kernel.dfy | Kernel | error numbers, sector/page sizes, 64-bit modulus, Option/Result, powers of two, division lemmas |
| cbt_map.dfy | CbtMap | module/cbt_map.c |
| chunk.dfy | ChunkEngine | module/chunk.c |
| diff_buffer.dfy | DiffBufferIter | module/diff_buffer.h |
| event_queue.dfy | EventQueue | module/event_queue.c |
| snapstore_mem.dfy | SnapstoreMem | module/snapstore_mem.c |
| tracker.dfy | Tracker | module/tracker.c |
| snapshot.dfy | Snapshot | module/snapshot.c |
| snapimage.dfy | SnapImage | module/snapimage.c |
| range_map.dfy | RangeMap | tests/cpp/diff_storage.cpp |

## How the model is organised

Code that changes objects in place becomes a class whose methods keep the
source's loops. Examples are the CBT map over two byte arrays, chunks and
their diff area, the event queue, the memory store, trackers, snapshots and
their lists, and snapshot images.

Each class has a ghost abstract value (`State()`, `View()`, `Open()`,
`Trackers()`). A pure specification function says what one operation does to
that value (`SetSpec`, `SwitchSpec`, `NotifySpec`, `GetBlockSpec`, `Cow`,
`TakeSpec` and so on), and each method's `ensures` ties the new state to it.
The lemmas then prove what the source promises about those functions:
monotone marking, wrap-around at generation 256, FIFO order, bounded
allocation, reverse-order rollback, and so on.

Kernel services become parameters of the methods that use them. Their results
are inputs, so every error path is modelled: `dm_io`, allocators, the
diff-storage getter, `tracker_take_snapshot`, `snapimage_create`,
`copy_to_user`, `blk_submit_pages`, `snapstore_device_take_cow_block` and
`tracker_cbt_reset`.

Widths are explicit:

- `sector_t`/`size_t` sums wrap modulo 2^64 (`U64`);
- the cylinder count of the geometry is truncated to 16 bits;
- `snap_number_previous` is cast to a byte when reported;
- `PAGE_SHIFT` is 12, so `SECTOR_IN_PAGE` is 8.

Module parameters (`tracking_block_minimum_shift`,
`tracking_block_maximum_count`, `chunk_maximum_in_cache`) are method
parameters.

Where files of different revisions disagree, each file is modelled against its
own text. The `struct diff_buffer` of module/chunk.c (a page list) is the
buffer modelled; module/diff_buffer.h contributes only its iterator.
`snapimage_find` matches `original_dev`, and `snapimage_mark_dirty_blocks`
passes it the id it was given, as written.

## Model

| member | source | states |
|---|---|---|
| CbtMap.CountByShift | module/cbt_map.c:11-17 | the block count is the ceiling of capacity over the block's sectors: count blocks cover the capacity, count-1 do not |
| CbtMap.CalculateBlockSize | module/cbt_map.c:19-38 | the chosen shift is the minimum shift times a power of two, the count it gives is within the maximum, and the previous shift (half) would exceed it |
| CbtMap.BlockRangeIsOverlap | module/cbt_map.c:156-194 | the blocks from start>>shift to (start+cnt-1)>>shift are exactly those overlapping the sector range |
| CbtMap.Raise | module/cbt_map.c:156-194 | marking a block range never lowers a block, raises each block in range to max(old, generation) and leaves the others unchanged |
| CbtMap.SetPreserves | module/cbt_map.c:196-214 | cbt_map_set keeps the map well formed: same shift, same number of blocks |
| CbtMap.SetBothPreserves | module/cbt_map.c:216-235 | cbt_map_set_both keeps the map well formed |
| CbtMap.SetMarksOverlappingBlocks | module/cbt_map.c:156-214 | on a healthy map every overlapping write-map block becomes max(old, active) and every other block and the read map are unchanged |
| CbtMap.SetFailsIffBeyondMap | module/cbt_map.c:171-214 | cbt_map_set fails exactly when the map is corrupted or the range ends past the last block, and then returns -EINVAL with the map corrupted |
| CbtMap.CorruptedIgnoresSets | module/cbt_map.c:196-214 | on a corrupted map any sequence of sets changes nothing |
| CbtMap.SetAllMonotone | module/cbt_map.c:156-214 | any sequence of sets never lowers a block, never touches the read map, and corruption is sticky |
| CbtMap.MarkDirtyKeepsFlags | module/cbt_map.c:216-280 | marking dirty blocks changes neither flags, generations nor sizes, and on a corrupted map fails with -EINVAL without change |
| CbtMap.SwitchNPreserves | module/cbt_map.c:135-154 | any number of switches keeps the map well formed, its size and its corruption flag |
| CbtMap.SwitchCountsUp | module/cbt_map.c:135-154 | before the wrap, n switches make the active generation 1+n and the previous n, with the read map a copy of the write map |
| CbtMap.SwitchNSplit | module/cbt_map.c:135-154 | n+1 switches are one more switch after n |
| CbtMap.SwitchWraps | module/cbt_map.c:135-154 | the 255th switch wraps the active generation to 1, keeps previous 255, copies the old write map to the read map and zeroes the write map |
| CbtMap.CbtMap.constructor | module/cbt_map.c:103-128 | a new map has a block size within the limits, blk_count == count_by_shift(capacity, shift), no maps yet, not corrupted, and the given `active` flag |
| CbtMap.CbtMap.Allocate | module/cbt_map.c:40-64 | -ENOMEM unless both maps are allocated; on success both maps are zero, previous 0, active 1, not corrupted, new generation id |
| CbtMap.CbtMap.Deallocate | module/cbt_map.c:66-79 | both maps are released and the corruption flag cleared; sizes and generations are kept |
| CbtMap.CbtMap.Reset | module/cbt_map.c:81-90 | a reset recomputes the block size for the new capacity and reallocates: on success the map is in its initial state; the `active` flag is left as it was |
| CbtMap.CbtMap.Create | module/cbt_map.c:103-128 | creation succeeds exactly when the struct and both maps are allocated, and the result is a fresh map in its initial state with the given `active` flag |
| CbtMap.CbtMap.Switch | module/cbt_map.c:135-154 | the new state is SwitchSpec of the old, and the generation id changes exactly on the wrap |
| CbtMap.CbtMap.SetBlocks | module/cbt_map.c:156-194 | the byte loop raises the bitmap as Raise says and returns -EINVAL when the range passes blk_count |
| CbtMap.CbtMap.Set | module/cbt_map.c:196-214 | the new state and result are those of SetSpec |
| CbtMap.CbtMap.SetBoth | module/cbt_map.c:216-235 | the new state and result are those of SetBothSpec |
| CbtMap.CbtMap.MarkDirtyBlocks | module/cbt_map.c:264-280 | the ranges are applied in order with set_both, stopping at the first error, as MarkDirtySpec says |
| CbtMap.CbtMap.ReadToUser | module/cbt_map.c:237-262 | -EFAULT exactly on a corrupted map; otherwise the first min(blk_count-offset, size) bytes of read_map from offset, minus what copy_to_user left |
| ChunkEngine.PrefixPages | module/chunk.c:10-26 | on a list whose first k entries hold linked pages, freeing from entry i releases k-i pages |
| ChunkEngine.DiffBuffer.constructor | module/chunk.c:28-73 | a kzalloc'd buffer: given size, page_count entries, no page and no links |
| ChunkEngine.DiffBufferFree | module/chunk.c:10-26 | the loop releases every linked page of the buffer, none for a NULL buffer |
| ChunkEngine.DiffBufferNew | module/chunk.c:28-73 | the buffer exists exactly when page_count > 0 and every allocation succeeds; then it has the given size and all entries hold pages linked in array order; on a failure the pages already taken are released |
| ChunkEngine.ChunkBufferFits | module/chunk.c:223-240 | the page count is the ceiling of the chunk's bytes over the page size |
| ChunkEngine.ChunkIterInBuffer | module/chunk.c:223-240 | every sector offset the iterator accepts in a chunk buffer lands in one of its pages |
| ChunkEngine.NotifyErrorFails | module/chunk.c:150-162 | a completion with an error sets FAILED and corrupts the diff area with that error, nothing else |
| ChunkEngine.LoadCompletionStartsStore | module/chunk.c:164-182 | a successful load turns LOADING into BUFFER_READY and starts the store of the chunk's sectors at its (existing or new) diff store |
| ChunkEngine.InMemoryIssuesNoStore | module/chunk.c:83-116 | with an in-memory diff area a completed load only becomes BUFFER_READY and issues no I/O |
| ChunkEngine.StoreIsReused | module/chunk.c:83-116 | a chunk that already has a diff store never asks the allocator for one and keeps it |
| ChunkEngine.StoreErrorsFail | module/chunk.c:83-116 | a failed store allocation or a failed dm_io makes the chunk FAILED and corrupts the area, with the allocator's error when that failed |
| ChunkEngine.CachingIdempotent | module/chunk.c:118-141 | caching sets IN_CACHE and appends the chunk once only; cleanup is requested exactly when the count passes chunk_maximum_in_cache; caching again changes nothing |
| ChunkEngine.ChunkLifecycle | module/chunk.c:143-183 | two successful completions take a new chunk from LOADING to BUFFER_READY, STORE_READY and IN_CACHE, storing it at the allocated place and caching it once |
| ChunkEngine.DiffArea.constructor | module/chunk.c:75-141 | a diff area starts healthy with an empty cache |
| ChunkEngine.Chunk.constructor | module/chunk.c:185-202 | a new chunk has its number and area, no flags, no buffer, no store and error 0 |
| ChunkEngine.Chunk.AllocateBuffer | module/chunk.c:223-240 | -ENOMEM unless a buffer of ceil(sectors/8) linked pages and sectors*512 bytes is built; on failure the old buffer is kept |
| ChunkEngine.Chunk.FreeBuffer | module/chunk.c:249-254 | the buffer's pages are released, diff_buffer becomes NULL and BUFFER_READY is cleared |
| ChunkEngine.Chunk.StoreFailedAt | module/chunk.c:75-81 | FAILED is set and the diff area is marked corrupted with the error |
| ChunkEngine.Chunk.AsyncStoreDiff | module/chunk.c:278-299 | STORING is set and a write of sector_count sectors at the diff store is issued |
| ChunkEngine.Chunk.AsyncLoadOrig | module/chunk.c:305-326 | LOADING is set and a read of sector_count sectors at number*chunk_sectors is issued |
| ChunkEngine.Chunk.ScheduleStoring | module/chunk.c:83-116 | the chunk and area end as StoringSpec says |
| ChunkEngine.Chunk.ScheduleCaching | module/chunk.c:118-141 | the chunk and area end as CachingSpec says |
| ChunkEngine.Chunk.NotifyWork | module/chunk.c:143-183 | the chunk and area end as NotifySpec says |
| ChunkEngine.ChunkAlloc | module/chunk.c:185-202 | on success a fresh chunk with its number and area, error 0, no flags, no buffer and no store; NULL otherwise |
| DiffBufferIter.IterGet | module/diff_buffer.h:47-68 | no iterator exactly when ofs*512 >= size; otherwise page ofs/8, in-page offset (ofs mod 8)*512, and min(page rest, size rest) bytes, all within the page and the buffer |
| DiffBufferIter.IterAddressesSector | module/diff_buffer.h:45-68 | the iterator's page and offset address the sector's byte position exactly |
| DiffBufferIter.IterPageInBuffer | module/diff_buffer.h:47-68 | in a buffer of page_count pages the iterator's page index is below page_count |
| EventQueue.GenAllAppends | module/event_queue.c:31-56 | successful event_gen calls append their events at the tail in order |
| EventQueue.WaitDrainsInOrder | module/event_queue.c:58-90 | as many waits as there are queued events return every event once, oldest first, and leave the queue empty |
| EventQueue.GenThenWaitIsFifo | module/event_queue.c:31-90 | n events generated and then waited for come back in insertion order, each once, and one more wait fails with -ENOENT or -EINTR |
| EventQueue.WaitFailureKeepsQueue | module/event_queue.c:58-90 | a wait fails exactly on an empty queue, which it leaves unchanged; a successful wait removes exactly the head |
| EventQueue.EventQueue.constructor | module/event_queue.c:10-15 | a new queue is empty |
| EventQueue.EventQueue.Gen | module/event_queue.c:31-56 | the queue and result are GenSpec's: the event with a copy of data_size bytes is appended, or -ENOMEM and no change |
| EventQueue.EventQueue.Wait | module/event_queue.c:58-90 | the queue and result are WaitSpec's: the head is popped from a non-empty queue; an empty one gives -ENOENT on timeout, -EINTR on a signal, or the sleep's own negative error |
| EventQueue.EventQueue.Done | module/event_queue.c:17-29 | every event is freed, oldest first, and the queue is empty |
| SnapstoreMem.GetBlockKeepsInvariant | module/snapstore_mem.c:61-96 | a block is handed out exactly when the limit is not reached and both allocations succeed; then it is appended and the counter grows by one, otherwise nothing changes; the list length stays equal to the counter and within the limit |
| SnapstoreMem.GetBlocksBounded | module/snapstore_mem.c:61-96 | any number of requests keeps the invariant and the limit, and only appends to the list |
| SnapstoreMem.FirstLimitCallsSucceed | module/snapstore_mem.c:61-96 | with allocations succeeding, exactly the requests before the limit is reached get a block |
| SnapstoreMem.NoneOnceFull | module/snapstore_mem.c:65-70 | once the limit is reached no request gets a block |
| SnapstoreMem.SnapstoreMem.constructor | module/snapstore_mem.c:15-30 | limit = available blocks, none allocated, empty list |
| SnapstoreMem.SnapstoreMem.GetBlock | module/snapstore_mem.c:61-96 | the new state and result are GetBlockSpec's |
| SnapstoreMem.SnapstoreMem.Destroy | module/snapstore_mem.c:32-59 | every block is freed in list order and the list is empty |
| SnapstoreMem.Create | module/snapstore_mem.c:15-30 | on success a fresh store with the limit set, none allocated and an empty list; NULL otherwise |
| Tracker.RangeBySizeNoWrap | module/tracker.c:525-528 | without wrap-around, the computed range is start/size to (start+cnt-1)/size |
| Tracker.RangeBySizeIsOverlap | module/tracker.c:525-528 | for cnt > 0 the computed block range is exactly the blocks overlapping [start, start+cnt) |
| Tracker.CowRangeIsOverlap | module/tracker.c:525-530 | the same for the snapshot store block shift |
| Tracker.CowRangeOfEmptyRequestAtZero | module/tracker.c:525-528 | a zero-length request at sector 0 wraps to the range of every block |
| Tracker.CowLoopAllSkipped | module/tracker.c:530-550 | when every block is already being read the loop changes nothing and submits nothing |
| Tracker.CowLoopMarksRange | module/tracker.c:530-550 | when every block is taken and submitted, every block in range leaves the empty state, blocks outside are unchanged, and exactly the blocks that were empty are submitted |
| Tracker.CowLoopStopsAtError | module/tracker.c:533-537 | the loop returns the error of the first block it cannot take |
| Tracker.CowCorruptionRules | module/tracker.c:514-556 | a corrupted device is left alone; otherwise the device becomes corrupted exactly when the loop fails, with that error |
| Tracker.SnapDevice.CowBlocks | module/tracker.c:530-550 | the block loop leaves the block states, result and submissions CowLoop describes, and does not touch the corruption flag |
| Tracker.TrackerCow | module/tracker.c:514-556 | the device state, result and submissions are those of Cow |
| Tracker.Tracker.constructor | module/tracker.c:215-261 | a new tracker has its device, capacity, snapshot id 0 and no map |
| Tracker.Tracker.CbtBitmapSet | module/tracker.c:304-321 | no map: success and no change; otherwise the map changes as SetSpec says and becomes inactive exactly when the set fails |
| Kernel.FindFirst | module/tracker.c:38-58 | the first entry whose key matches, or none when no entry matches; tracker_get_by_dev_id (Tracker.FindTracker), snapshot_get_by_id at module/snapshot.c:256-275 (Snapshot.FindById) and snapimage_find at module/snapimage.c:737-757 (SnapImage.FindImage) are this walk with the device id, the snapshot id and the original device as key |
| Tracker.TrackerList.constructor | module/tracker.c:8 | the tracker list starts empty |
| Tracker.TrackerList.EnumCbtInfo | module/tracker.c:60-109 | min(trackers, max_count) entries in list order; -ENOBUFS when more trackers exist, -ENODATA when none |
| Tracker.TrackerList.Collect | module/tracker.c:719-733 | as enumeration, but an empty list is success with count 0 |
| Tracker.AddAlreadyTrackedRules | module/tracker.c:590-636 | a reset happens exactly when the map is inactive or resized; a healthy map succeeds without change except adopting a new id when the tracker had none; a new map or successful reset adopts the new id |
| Tracker.AddAlreadyTracked | module/tracker.c:590-636 | the tracker's snapshot id, map and the result are those of AddAlreadyTrackedSpec |
| Tracker.FindAppended | module/tracker.c:638-676 | a tracker appended for an untracked device is the one found for it, and device ids stay unique |
| Tracker.FindUnlinked | module/tracker.c:678-717 | unlinking a device's only tracker leaves the device untracked, and device ids stay unique |
| Tracker.RemoveAsWrittenKeepsDevice | module/tracker.c:710-712 | with the list as line 711 leaves it after removing a tracker that is not first, the removed device is still found and the devices before it are lost |
| Tracker.RemoveFirstAsWrittenLosesAll | module/tracker.c:710-712 | with the list as line 711 leaves it after removing the first tracker, the head points back at itself and no device is found |
| Tracker.TrackingAdd | module/tracker.c:638-676 | a tracked device reports -EALREADY for a successful update or the update's error, its tracker takes the snapshot id and map _add_already_tracked gives it, and no other tracker and no list entry changes; a new device reports tracker_new's error (-ENOMEM when no map could be created, as at module/tracker.c:245-250) or tracker_attach's error with nothing changed, or success with a fresh tracker carrying the id, capacity, snapshot id and map appended, found for its device, with device ids kept unique |
| Tracker.TrackingRemove | module/tracker.c:678-717 | -ENODATA when untracked, -EBUSY while in a snapshot, otherwise detach's result with the tracker unlinked |
| Snapshot.Obtained | module/snapshot.c:122-186 | the allocations snapshot_new got, in order, up to the first failure; all four exactly when all succeed |
| Snapshot.SnapshotNew | module/snapshot.c:122-186 | on success a fresh snapshot, not taken, count 0, with count empty tracker and image slots; otherwise -ENOMEM and what was allocated is freed in reverse order |
| Snapshot.NewFailureFreesAll | module/snapshot.c:164-186 | the objects freed on failure are exactly the ones allocated |
| Snapshot.Snapshot.constructor | module/snapshot.c:122-186 | the new snapshot has its id, empty arrays of the given size, count 0, not taken |
| Snapshot.RemoveAt | module/snapshot.c:277-309 | removing entry i keeps every other entry in order |
| Snapshot.RegisterAsWrittenLosesSnapshots | module/snapshot.c:242-244 | with the list as line 243 leaves it, earlier snapshots can no longer be found |
| Snapshot.RegisterKeepsSnapshots | module/snapshot.c:242-244 | appending keeps every earlier snapshot where it was found, and finds a new id at the end |
| Snapshot.FirstTrackerError | module/snapshot.c:224-240 | no error exactly when every device has a tracker; otherwise the error of the first device without one |
| Snapshot.FirstTrackerErrorAt | module/snapshot.c:224-240 | the first failing device determines the error |
| Snapshot.SnapshotList.constructor | module/snapshot.c:16 | the snapshot list starts empty |
| Snapshot.SnapshotList.Create | module/snapshot.c:205-254 | -ENOMEM when snapshot_new fails; the first tracker error with the list unchanged; otherwise a fresh snapshot holding the trackers in input order, count = number of devices, appended to the list |
| Snapshot.SnapshotList.Destroy | module/snapshot.c:277-309 | -ENODEV when no snapshot has the id; otherwise the first with the id is removed |
| Snapshot.Snapshot.CreateDiffAreas | module/snapshot.c:349-364 | the result is the first diff-area error over the present trackers |
| Snapshot.Snapshot.TakeTrackers | module/snapshot.c:383-394 | the loop stops at the first tracker that cannot be taken, with its index and error |
| Snapshot.TakeLoop | module/snapshot.c:383-394 | the index where taking stops lies between the start and the count |
| Snapshot.TakeLoopStop | module/snapshot.c:383-394 | all present trackers before the stop were taken; a failure stops at a present tracker with its error; success runs to the end |
| Snapshot.Snapshot.ReleaseTakenBefore | module/snapshot.c:396-402 | the released trackers are Released: the present ones before the failure, from the last back |
| Snapshot.ReleasedIsReverseOrder | module/snapshot.c:396-402 | the released trackers are exactly the present trackers before the failure, in strictly decreasing index order |
| Snapshot.Snapshot.CheckCorrupted | module/snapshot.c:433-445 | the result is whether any present tracker's diff area is corrupted |
| Snapshot.ImageLoop | module/snapshot.c:447-462 | images are created up to the first failure, whose error is returned; success when all are created |
| Snapshot.Snapshot.CreateImages | module/snapshot.c:447-462 | the image slots before the first failure hold the new images and the rest are unchanged |
| Snapshot.TakeGuards | module/snapshot.c:339-347 | a taken snapshot gives -EALREADY and an empty one -ENODEV, with no change |
| Snapshot.TakeFailureRollsBack | module/snapshot.c:383-425 | when taking tracker inx fails, the snapshot is not taken and is removed, the error is returned, and exactly the trackers taken before inx are released, in reverse order |
| Snapshot.TakeSucceeds | module/snapshot.c:328-476 | when every step succeeds the snapshot is taken with every image created |
| Snapshot.TakeCorruptedIsRemoved | module/snapshot.c:433-445 | a diff area corrupted after the take gives -EFAULT and removes the snapshot |
| Snapshot.SnapshotList.Take | module/snapshot.c:328-476 | -ESRCH for an unknown id; otherwise the result, released trackers, taken flag, list and images are those of TakeSpec |
| Snapshot.RemoveFirstKeepsOthers | module/snapshot.c:469-472 | removing the failed snapshot keeps every other one in the list |
| Snapshot.FirstFailure | module/snapshot.c:522-535 | the index of the first failed copy, or n when none fails |
| Snapshot.FirstFailureIsFirst | module/snapshot.c:522-535 | any index before which all copies succeed and at which one fails is the first failure |
| Snapshot.SnapshotList.Collect | module/snapshot.c:504-540 | without an array the count is the list length; with one, ids are copied in list order until pcount is used or a copy fails, with -ENODATA when not all fit |
| Snapshot.SnapshotList.CollectImages | module/snapshot.c:542-632 | -ESRCH for an unknown id; otherwise pcount is set to count, with -ENODEV before the take, -ENODATA for a small array or failed copy, -ENOMEM on allocation failure, and on success one (original, image) pair per device |
| SnapImage.GetGeo | module/snapimage.c:110-152 | -ENODEV exactly when the disk has no image |
| SnapImage.GeoFields | module/snapimage.c:126-145 | up to 63 sectors: one track, one head, one cylinder; above: 63-sector tracks, ceil(capacity/63) heads when they fit in 255, else 255 heads and ceil(tracks/255) cylinders truncated to 16 bits; start 0 |
| SnapImage.GeoBounds | module/snapimage.c:126-145 | sectors, heads and cylinders stay within their CHS fields |
| SnapImage.GeoCoversCapacity | module/snapimage.c:126-145 | without 16-bit truncation the geometry covers the whole capacity |
| SnapImage.GeoTruncatesHugeDisk | module/snapimage.c:134-139 | a disk of 63*255*65536+1 sectors gets one cylinder, so its geometry is smaller than the disk |
| SnapImage.OpenCloseKeepInv | module/snapimage.c:71-177 | open and close keep open_bdev set exactly while open_cnt > 0; close undoes open; open records the device only when the count was 0 |
| SnapImage.OpenAllKeepsInv | module/snapimage.c:71-102 | n opens add n to the count |
| SnapImage.ClosesUndoOpens | module/snapimage.c:71-177 | n closes after n opens restore the state |
| SnapImage.ClosesSaturate | module/snapimage.c:154-177 | closes never take the count below 0 |
| SnapImage.SnapImage.constructor | module/snapimage.c:515-580 | a new image has its capacity, devices and map, and is not open |
| SnapImage.SnapimageOpen | module/snapimage.c:71-102 | -ENODEV with no change without a disk or image; otherwise the counter changes as OpenSpec says |
| SnapImage.SnapimageClose | module/snapimage.c:154-177 | the counter changes as CloseSpec says |
| SnapImage.RequestWrite | module/snapimage.c:267-308 | a corrupted store gives -ENODATA before any marking; a request without data completes with success; otherwise set_both marks the range and the write's result is returned whatever the marking did |
| SnapImage.MarkDirtyBlocks | module/snapimage.c:1004-1034 | -ENODEV when no image matches; otherwise the found image's map changes as MarkDirtySpec says |
| RangeMap.Search | tests/cpp/diff_storage.cpp:129-152 | a found range is an element of the area containing the sector, end inclusive |
| RangeMap.SearchComplete | tests/cpp/diff_storage.cpp:129-152 | on ordered ranges, a sector in some range between the limits is found |
| RangeMap.Find | tests/cpp/diff_storage.cpp:123-155 | a found range is an element of the area containing the sector |
| RangeMap.FindComplete | tests/cpp/diff_storage.cpp:123-155 | on ordered ranges, a range is found exactly when some range contains the sector |
| RangeMap.FindRange | tests/cpp/diff_storage.cpp:123-155 | the binary search loop finds exactly what Find finds and leaves rg untouched otherwise |
| RangeMap.NormalizeRange | tests/cpp/diff_storage.cpp:157-177 | false with rg unchanged unless the first or last sector is found; otherwise rg clipped to the available range found |
| RangeMap.ClipInsideBoth | tests/cpp/diff_storage.cpp:169-176 | the clipped range starts at the later start, ends at the earlier end and is empty only for a sector one past the found range |
| RangeMap.EmptyClipExample | tests/cpp/diff_storage.cpp:141-176 | the inclusive end lets a range starting right after an available range normalise to count 0 |
| RangeMap.DiffSizeFits | tests/cpp/diff_storage.cpp:50 | the diff range size drawn for a clip of more than 16 sectors is a multiple of 8, at least 8 and at most the clip |
| RangeMap.KeptSteps | tests/cpp/diff_storage.cpp:41-56 | the kept clip points come from clip, and each is more than 16 sectors past the previous |
| RangeMap.KeptOrdered | tests/cpp/diff_storage.cpp:41-56 | the kept clip points are strictly increasing |
| RangeMap.TilesOrdered | tests/cpp/diff_storage.cpp:50-55 | every diff range ends before the available ranges that follow it |
| RangeMap.ProgressKeep | tests/cpp/diff_storage.cpp:44-55 | a kept clip splits into an available range from the previous point and an adjacent diff range ending at the clip point |
| RangeMap.GenerateRangeMap | tests/cpp/diff_storage.cpp:41-56 | the ranges tile [0, last kept point): for each kept point, an available range from the previous point and an adjacent diff range of size DiffSize ending at it; the ranges are in increasing, disjoint order |

## Left out

- I/O is abstract, and each call's outcome is a parameter: dm_io, bio submission and completion, blk_submit_pages, freeze_bdev/thaw_bdev, blkdev_get_by_dev, the filter.
- Locks, atomics, kref counting, work queues, wait queues and kthreads are not modelled. Locked regions are atomic steps, and event_wait's timeout and interrupt become its `emptyWait` input.
- copy_to_user, uuid generation and ktime_get become inputs (copy success flags, new ids, the event time).
- Block-device registration and request processing of module/snapimage.c are not modelled (snapimage_create beyond its result, the processing thread, the minor bitmap, init/done).
- module/main.c is not part of this model. Its parameters are method parameters.
- The first loop of GenerateRangeMap (floating-point scaling of rand()) and the test's I/O routines are not modelled. The clip points and the rand() draws are inputs.
- Source that does not compile as written is modelled as intended:
  - module/tracker.c:672 calls list_add_tail with the tracker itself, in swapped order; TrackingAdd appends the new tracker.
  - module/tracker.c:711 re-adds where an unlink is meant; TrackingRemove unlinks, and RemoveAsWritten is the as-written list (empty when the first tracker is removed, the trackers from the removed one on otherwise).
  - Other non-compiling fragments of that file are not part of the model: the undefined `result` at 690, and `ret`/`ptracker` in tracker_new.
- RangeMap.FindRange: requires a non-empty area and a sector not below the first range. Otherwise `area.size() - 1` underflows, or `rightLimit--` wraps at index 0.
- RangeMap.DiffSizeFits: requires a clip of at most RAND_MAX+1 sectors, as on a device of at most 2^31 sectors. Larger clips are not covered; once `clipSize >> 1` exceeds RAND_MAX+1 the test divides by zero.
- RangeMap.GenerateRangeMap: states the tiling for clip points within RAND_MAX+1, for the same reason.
- CbtMap.CbtMap.ReadToUser: requires offset <= blk_count. Beyond it the size_t subtraction wraps and the copy reads past read_map, which the model does not describe.
- SnapImage.SnapimageOpen: does not model open_cnt (a size_t) wrapping at 2^64.
- SnapImage.MarkDirtyBlocks: does not state that the maps of images other than the one found are unchanged.
- Snapshot.SnapshotList.Take: does not state that snapshots other than the one taken are unchanged.
- CbtMap.CbtMap.constructor: models only the sizing part of cbt_map_create (the struct fields); cbt_map_create's allocation is CbtMap.CbtMap.Create.
- Tracker.Tracker.constructor: the map that tracker_new creates is the `newMap` input of TrackingAdd.
- CbtMap.CbtMap.constructor and CbtMap.CbtMap.Create: the `active` flag that module/tracker.c reads and clears (lines 311, 318, 329 and 612) is not a field module/cbt_map.c knows of, so its value on a new map is the `initiallyActive` input rather than a fixed value. CbtMap.CbtMap.Reset leaves the flag as it was.
- Tracker.AddAlreadyTracked: tracker_cbt_reset (called at module/tracker.c:627) is not part of this model; only its result `resetResult` is. After a successful reset the model's map keeps its old capacity, block size, contents and `active` flag, and the new map that the reset presumably builds is not described.
- ChunkEngine.SetCorrupted and Tracker.SetDevCorrupted: the bodies of diff_area_set_corrupted and snapstore_device_set_corrupted are not part of this model; both are taken to mark the area or device corrupted and record the latest error, so a second error replaces the first.

## Findings

| source | as written | input that shows it | evidently intended | confidence | as-written member | corrected member |
|---|---|---|---|---|---|---|
| module/tracker.c:530-553 | after `continue` on -EALREADY the loop can end with ret still -EALREADY, and the device is marked corrupted | a write to a block that is already being read (last block of the range skipped) | a skipped block is not an error: ret is reset, the device stays healthy | not executed | Tracker.CowAsWrittenCorruptsOnRepeat | Tracker.TrackerCow |
| module/snapshot.c:243 | list_add_tail(&snapshots, &snapshot->link) links the list head into the new snapshot's ring | create snapshot A, then snapshot B: looking up A by id fails | list_add_tail(&snapshot->link, &snapshots): append to the list | not executed | Snapshot.RegisterAsWrittenLosesSnapshots | Snapshot.RegisterKeepsSnapshots |
| module/tracker.c:711 | list_add_tail(&trackers, tracker) after detaching leaves the tracker reachable from the list and cuts off the trackers before it; when the tracker is the first one, the head ends up pointing at itself and every tracker is lost | remove an idle tracked device that is not first in the list: it is still found, and earlier devices are not; remove the first one: no device is found any more | list_del: the tracker leaves the list | not executed | Tracker.RemoveAsWrittenKeepsDevice | Tracker.TrackingRemove |
