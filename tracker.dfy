/**
 * The tracker logic of module/tracker.c: the copy-on-write loop over the
 * snapshot store blocks a write touches, the enumeration of tracked
 * devices, CBT marking with failure handling, and the decisions taken when
 * a device is added to or removed from tracking.
 *
 * Block devices, freezing, the filter and the kref counting are outside the
 * model; their outcomes are inputs.
 */
module Tracker {
  import opened Kernel
  import CbtMap

  // ---------------------------------------------------------------------------
  // Copy-on-write (tracker_cow)
  // ---------------------------------------------------------------------------

  /** The state of one copy-on-write block of the snapshot store. */
  datatype CowState = CowEmpty | CowReading | CowRead

  /** A block the store has not touched is empty. */
  function StateOf(cow: map<nat, CowState>, i: nat): CowState
  {
    if i in cow then cow[i] else CowEmpty
  }

  /** The first and last block index of tracker_cow, in uint64_t arithmetic. */
  datatype BlockRange = BlockRange(first: nat, last: nat)

  /** The block range for blocks of `size` sectors; the sum and the decrement are in uint64_t arithmetic. */
  function RangeBySize(start: U64Val, cnt: U64Val, size: nat): (r: BlockRange)
    requires size >= 1
    ensures r.first < U64 && r.last < U64
  {
    var sum := (start + cnt) % U64;
    var last := Div(sum, size);
    assert last <= sum by { DivLowerBound(sum, size, last); }
    BlockRange(Div(start, size), if sum % size == 0 then (last + U64 - 1) % U64 else last)
  }

  /** tracker_cow's range for blocks of 2^blockShift sectors (snapstore_block_shift / snapstore_block_mask). */
  function CowBlockRange(start: U64Val, cnt: U64Val, blockShift: nat): BlockRange
  {
    RangeBySize(start, cnt, Pow2(blockShift))
  }

  /** The last block computed with the decrement on an aligned end is the block of the last sector. */
  lemma LastBlockOfEnd(sum: nat, size: nat)
    requires sum >= 1 && size >= 1
    ensures (if sum % size == 0 then sum / size - 1 else sum / size) == (sum - 1) / size
  {
    var q, m := sum / size, sum % size;
    assert sum == q * size + m;
    if m == 0 {
      assert q >= 1;
      assert sum - 1 == (q - 1) * size + (size - 1);
      DivLowerBound(sum - 1, size, q - 1);
      DivUpperBound(sum - 1, size, q - 1);
    } else {
      assert sum - 1 == q * size + (m - 1);
      DivLowerBound(sum - 1, size, q);
      DivUpperBound(sum - 1, size, q);
    }
  }

  /** An exact quotient of a positive sum is between 1 and the sum. */
  lemma AlignedQuotient(sum: nat, size: nat)
    requires sum >= 1 && size >= 1 && sum % size == 0
    ensures 1 <= sum / size <= sum
  {
    var q := sum / size;
    assert sum == q * size;
    assert q * 1 <= q * size;
  }

  /** Without wrap-around, the range is [first sector's block, last sector's block]. */
  lemma RangeBySizeNoWrap(start: U64Val, cnt: U64Val, size: nat)
    requires size >= 1
    requires cnt >= 1 && start + cnt < U64
    ensures RangeBySize(start, cnt, size) == BlockRange(Div(start, size), Div(start + cnt - 1, size))
  {
    var sum := start + cnt;
    assert sum % U64 == sum;
    LastBlockOfEnd(sum, size);
    if sum % size == 0 {
      var q := sum / size;
      AlignedQuotient(sum, size);
      assert (q + U64 - 1) % U64 == q - 1;
    }
  }

  lemma RangeBySizeIsOverlap(start: U64Val, cnt: U64Val, size: nat, i: nat)
    requires size >= 1
    requires cnt >= 1 && start + cnt < U64
    ensures var r := RangeBySize(start, cnt, size);
            r.first <= i <= r.last <==> i * size < start + cnt && start < (i + 1) * size
  {
    RangeBySizeNoWrap(start, cnt, size);
    DivUpperBound(start, size, i);
    DivLowerBound(start + cnt - 1, size, i);
  }

  /**
   * For a non-empty range that does not wrap, tracker_cow visits exactly the
   * blocks that share a sector with [start, start + cnt).
   */
  lemma CowRangeIsOverlap(start: U64Val, cnt: U64Val, blockShift: nat, i: nat)
    requires cnt >= 1 && start + cnt < U64
    ensures var r := CowBlockRange(start, cnt, blockShift);
            r.first <= i <= r.last <==> i * Pow2(blockShift) < start + cnt && start < (i + 1) * Pow2(blockShift)
  {
    RangeBySizeIsOverlap(start, cnt, Pow2(blockShift), i);
  }

  /** A zero-length request at sector 0 makes the decrement wrap: the loop is asked to visit every block index. */
  lemma CowRangeOfEmptyRequestAtZero(blockShift: nat)
    ensures CowBlockRange(0, 0, blockShift) == BlockRange(0, U64 - 1)
  {
  }

  /**
   * The per-block loop of tracker_cow from block i to block `last`. `take` is
   * the outcome of snapstore_device_take_cow_block for each index and
   * `submit` that of blk_submit_pages; `ret` is the value the loop's result
   * variable holds, and `skipRet` is what it holds after a block whose state
   * update returned -EALREADY. The result is the new block states, the final
   * `ret` and the blocks whose read was submitted, in order.
   */
  function CowLoop(cow: map<nat, CowState>, i: nat, last: nat, take: nat -> int, submit: nat -> int,
                   ret: int, skipRet: int): (r: (map<nat, CowState>, int, seq<nat>))
    decreases last + 1 - i
  {
    if i > last then (cow, ret, [])
    else if take(i) != SUCCESS then (cow, take(i), [])
    else if StateOf(cow, i) != CowEmpty then CowLoop(cow, i + 1, last, take, submit, skipRet, skipRet)
    else
      var cow1 := cow[i := CowReading];
      if submit(i) != SUCCESS then (cow1, submit(i), [i])
      else
        var (c2, r2, s2) := CowLoop(cow1, i + 1, last, take, submit, SUCCESS, skipRet);
        (c2, r2, [i] + s2)
  }

  /** The abstract snapshot-store device a tracker copies to. */
  datatype DevState = DevState(corrupted: bool, errorCode: int, cow: map<nat, CowState>)

  /** snapstore_device_set_corrupted, taken as: the device is corrupted with that error. */
  function SetDevCorrupted(d: DevState, err: int): DevState
  {
    d.(corrupted := true, errorCode := err)
  }

  /** tracker_cow with the given value of `ret` after a skipped block. */
  function CowWith(d: DevState, start: U64Val, cnt: U64Val, blockShift: nat, take: nat -> int, submit: nat -> int,
                   skipRet: int): (DevState, int, seq<nat>)
  {
    if d.corrupted then (d, SUCCESS, [])
    else
      var rg := CowBlockRange(start, cnt, blockShift);
      var (cow, ret, submitted) := CowLoop(d.cow, rg.first, rg.last, take, submit, SUCCESS, skipRet);
      var d1 := d.(cow := cow);
      (if ret != SUCCESS then SetDevCorrupted(d1, ret) else d1, ret, submitted)
  }

  /** tracker_cow as written: after `continue` on -EALREADY the result variable still holds -EALREADY. */
  function CowAsWritten(d: DevState, start: U64Val, cnt: U64Val, blockShift: nat, take: nat -> int,
                        submit: nat -> int): (DevState, int, seq<nat>)
  {
    CowWith(d, start, cnt, blockShift, take, submit, -EALREADY)
  }

  /** tracker_cow as intended: a block that is already being read or was read is skipped without error. */
  function Cow(d: DevState, start: U64Val, cnt: U64Val, blockShift: nat, take: nat -> int,
               submit: nat -> int): (DevState, int, seq<nat>)
  {
    CowWith(d, start, cnt, blockShift, take, submit, SUCCESS)
  }

  /** A stretch of blocks that are all already being read or read is skipped; `ret` ends as the skip value. */
  lemma {:induction false} CowLoopAllSkipped(cow: map<nat, CowState>, i: nat, last: nat, take: nat -> int,
                                            submit: nat -> int, ret: int, skipRet: int)
    requires i <= last
    requires forall k :: i <= k <= last ==> take(k) == SUCCESS && StateOf(cow, k) != CowEmpty
    ensures CowLoop(cow, i, last, take, submit, ret, skipRet) == (cow, skipRet, [])
    decreases last - i
  {
    if i < last {
      CowLoopAllSkipped(cow, i + 1, last, take, submit, skipRet, skipRet);
    }
  }

  /**
   * As written, copying a range whose blocks are all already being read
   * (for instance the same write seen twice) reports -EALREADY and corrupts
   * the snapshot store, although every step succeeded; the intended loop
   * reports success and leaves the store healthy.
   */
  lemma CowAsWrittenCorruptsOnRepeat(d: DevState, start: U64Val, cnt: U64Val, blockShift: nat)
    requires !d.corrupted
    requires CowBlockRange(start, cnt, blockShift).first <= CowBlockRange(start, cnt, blockShift).last
    requires forall k :: CowBlockRange(start, cnt, blockShift).first <= k <= CowBlockRange(start, cnt, blockShift).last
                         ==> StateOf(d.cow, k) != CowEmpty
    ensures var ok := (i: nat) => SUCCESS;
            var (d1, ret, submitted) := CowAsWritten(d, start, cnt, blockShift, ok, ok);
            ret == -EALREADY && d1.corrupted && d1.errorCode == -EALREADY && submitted == []
    ensures var ok := (i: nat) => SUCCESS;
            Cow(d, start, cnt, blockShift, ok, ok) == (d, SUCCESS, [])
  {
    var ok := (i: nat) => SUCCESS;
    var rg := CowBlockRange(start, cnt, blockShift);
    CowLoopAllSkipped(d.cow, rg.first, rg.last, ok, ok, SUCCESS, -EALREADY);
    CowLoopAllSkipped(d.cow, rg.first, rg.last, ok, ok, SUCCESS, SUCCESS);
  }

  /** A concrete instance: one write of sector 0 whose 8-sector block is already being read. */
  lemma CowAsWrittenExample()
    ensures var ok := (i: nat) => SUCCESS;
            var d := DevState(false, 0, map[0 := CowReading]);
            CowAsWritten(d, 0, 1, 3, ok, ok).0.corrupted && !Cow(d, 0, 1, 3, ok, ok).0.corrupted
  {
    var d := DevState(false, 0, map[0 := CowReading]);
    assert Pow2(3) == 8;
    assert CowBlockRange(0, 1, 3) == BlockRange(0, 0);
    CowAsWrittenCorruptsOnRepeat(d, 0, 1, 3);
  }

  /**
   * The intended loop: with every take and submit succeeding, no error is
   * reported, every visited block ends non-empty, reads are submitted for
   * exactly the blocks that were empty, and no block outside is touched.
   */
  lemma {:induction false} CowLoopMarksRange(cow: map<nat, CowState>, i: nat, last: nat,
                                            take: nat -> int, submit: nat -> int)
    requires forall k :: i <= k <= last ==> take(k) == SUCCESS && submit(k) == SUCCESS
    ensures var (cow1, ret, submitted) := CowLoop(cow, i, last, take, submit, SUCCESS, SUCCESS);
            ret == SUCCESS
            && (forall k :: i <= k <= last ==> StateOf(cow1, k) != CowEmpty)
            && (forall k: nat :: (k < i || k > last) ==> StateOf(cow1, k) == StateOf(cow, k))
            && (forall k :: k in submitted <==> i <= k <= last && StateOf(cow, k) == CowEmpty)
    decreases last + 1 - i
  {
    if i <= last {
      if StateOf(cow, i) != CowEmpty {
        CowLoopMarksRange(cow, i + 1, last, take, submit);
      } else {
        CowLoopMarksRange(cow[i := CowReading], i + 1, last, take, submit);
      }
    }
  }

  /** An error from take or submit stops the loop with that error, which then corrupts the device. */
  lemma {:induction false} CowLoopStopsAtError(cow: map<nat, CowState>, i: nat, last: nat,
                                              take: nat -> int, submit: nat -> int, k: nat)
    requires i <= k <= last && take(k) != SUCCESS
    requires forall j :: i <= j < k ==> take(j) == SUCCESS && submit(j) == SUCCESS
    ensures CowLoop(cow, i, last, take, submit, SUCCESS, SUCCESS).1 == take(k)
    decreases k - i
  {
    if i < k {
      if StateOf(cow, i) != CowEmpty {
        CowLoopStopsAtError(cow, i + 1, last, take, submit, k);
      } else {
        CowLoopStopsAtError(cow[i := CowReading], i + 1, last, take, submit, k);
      }
    }
  }

  /** A corrupted store is left alone, and an error reported by the loop always corrupts it. */
  lemma CowCorruptionRules(d: DevState, start: U64Val, cnt: U64Val, blockShift: nat, take: nat -> int,
                           submit: nat -> int)
    ensures d.corrupted ==> Cow(d, start, cnt, blockShift, take, submit) == (d, SUCCESS, [])
    ensures var (d1, ret, _) := Cow(d, start, cnt, blockShift, take, submit);
            !d.corrupted ==> (d1.corrupted <==> ret != SUCCESS) && (ret != SUCCESS ==> d1.errorCode == ret)
  {
  }

  /** A loop outcome with the blocks submitted earlier put in front. */
  function Prepend(earlier: seq<nat>, r: (map<nat, CowState>, int, seq<nat>)): (map<nat, CowState>, int, seq<nat>)
  {
    (r.0, r.1, earlier + r.2)
  }

  lemma PrependOne(earlier: seq<nat>, i: nat, r: (map<nat, CowState>, int, seq<nat>))
    ensures Prepend(earlier, (r.0, r.1, [i] + r.2)) == Prepend(earlier + [i], r)
  {
    assert earlier + ([i] + r.2) == (earlier + [i]) + r.2;
  }

  /** One pass of tracker_cow's loop while the result variable is still 0. */
  lemma CowLoopStep(cow: map<nat, CowState>, i: nat, last: nat, take: nat -> int, submit: nat -> int)
    requires i <= last
    ensures CowLoop(cow, i, last, take, submit, SUCCESS, SUCCESS) ==
            if take(i) != SUCCESS then (cow, take(i), [])
            else if StateOf(cow, i) != CowEmpty then CowLoop(cow, i + 1, last, take, submit, SUCCESS, SUCCESS)
            else if submit(i) != SUCCESS then (cow[i := CowReading], submit(i), [i])
            else
              var rest := CowLoop(cow[i := CowReading], i + 1, last, take, submit, SUCCESS, SUCCESS);
              (rest.0, rest.1, [i] + rest.2)
  {
  }

  class SnapDevice {
    var corrupted: bool
    var errorCode: int
    var cow: map<nat, CowState>

    ghost function State(): DevState
      reads this
    {
      DevState(corrupted, errorCode, cow)
    }

    /** The per-block loop of tracker_cow over blocks first..last, while the result is 0. */
    method CowBlocks(first: nat, last: nat, take: nat -> int, submit: nat -> int) returns (ret: int, submitted: seq<nat>)
      modifies this
      ensures (cow, ret, submitted) == CowLoop(old(cow), first, last, take, submit, SUCCESS, SUCCESS)
      ensures corrupted == old(corrupted) && errorCode == old(errorCode)
    {
      ghost var whole := CowLoop(cow, first, last, take, submit, SUCCESS, SUCCESS);
      ret := SUCCESS;
      submitted := [];
      var blkInx: nat := first;
      assert [] + whole.2 == whole.2;
      while blkInx <= last
        invariant whole == Prepend(submitted, CowLoop(cow, blkInx, last, take, submit, SUCCESS, SUCCESS))
        invariant ret == SUCCESS
        invariant corrupted == old(corrupted) && errorCode == old(errorCode)
        decreases last + 1 - blkInx
      {
        CowLoopStep(cow, blkInx, last, take, submit);
        var taken := take(blkInx);
        if taken != SUCCESS {
          ret := taken;
          assert submitted + [] == submitted;
          return;
        }
        if StateOf(cow, blkInx) != CowEmpty {
          blkInx := blkInx + 1;
          continue;
        }
        cow := cow[blkInx := CowReading];
        var s := submit(blkInx);
        PrependOne(submitted, blkInx, CowLoop(cow, blkInx + 1, last, take, submit, SUCCESS, SUCCESS));
        submitted := submitted + [blkInx];
        if s != SUCCESS {
          ret := s;
          return;
        }
        blkInx := blkInx + 1;
      }
      assert submitted + [] == submitted;
    }
  }

  /**
   * tracker_cow with the -EALREADY skip as intended; `blockShift` is
   * snapstore_block_shift() and the result is the loop's error.
   */
  method TrackerCow(snapdev: SnapDevice, start: U64Val, cnt: U64Val, blockShift: nat,
                    take: nat -> int, submit: nat -> int) returns (ret: int, submitted: seq<nat>)
    modifies snapdev
    ensures (snapdev.State(), ret, submitted) == Cow(old(snapdev.State()), start, cnt, blockShift, take, submit)
  {
    if snapdev.corrupted {
      return SUCCESS, [];
    }
    var rg := CowBlockRange(start, cnt, blockShift);
    ret, submitted := snapdev.CowBlocks(rg.first, rg.last, take, submit);
    if ret != SUCCESS {
      snapdev.corrupted := true;
      snapdev.errorCode := ret;
    }
  }

  // ---------------------------------------------------------------------------
  // Trackers and their enumeration
  // ---------------------------------------------------------------------------

  class Tracker {
    const devId: nat
    var snapshotId: nat
    var cbtMap: CbtMap.CbtMap?
    /** part_nr_sects_read() of the tracked device: its current capacity in sectors. */
    var capacity: nat

    constructor (devId: nat, capacity: nat)
      ensures this.devId == devId && this.capacity == capacity && snapshotId == 0 && cbtMap == null
    {
      this.devId := devId;
      this.capacity := capacity;
      snapshotId := 0;
      cbtMap := null;
    }

    /**
     * tracker_cbt_bitmap_set: nothing without a map; otherwise cbt_map_set,
     * and when that fails the map is marked inactive.
     */
    method CbtBitmapSet(sector: U64Val, sectorCnt: U64Val) returns (res: int)
      requires cbtMap != null ==> cbtMap.Allocated()
      modifies if cbtMap != null then {cbtMap, cbtMap.writeMap} else {}
      ensures cbtMap == old(cbtMap)
      ensures cbtMap == null ==> res == SUCCESS
      ensures cbtMap != null ==> (cbtMap.Allocated()
                                  && (cbtMap.State(), res) == CbtMap.SetSpec(old(cbtMap.State()), sector, sectorCnt)
                                  && cbtMap.active == (old(cbtMap.active) && res == SUCCESS))
    {
      if cbtMap == null {
        return SUCCESS;
      }
      res := cbtMap.Set(sector, sectorCnt);
      if res != SUCCESS {
        cbtMap.active := false;
      }
    }
  }

  /** struct cbt_info_s as tracker_enum_cbt_info fills it. */
  datatype CbtInfo = CbtInfo(devId: nat, cbtMapSize: nat, snapNumber: Byte, generationId: nat, devCapacity: nat)

  /**
   * One entry: the map's size, previous generation (cast to unsigned char)
   * and generation id, or zeros without a map; the capacity in bytes,
   * from_sectors in 64-bit arithmetic.
   */
  function InfoOf(t: Tracker): CbtInfo
    reads t, t.cbtMap
  {
    var bytes := (t.capacity * SECTOR_SIZE) % U64;
    if t.cbtMap != null then
      CbtInfo(t.devId, t.cbtMap.blkCount, t.cbtMap.snapNumberPrevious % 256, t.cbtMap.generationId, bytes)
    else CbtInfo(t.devId, 0, 0, 0, bytes)
  }

  /** The first tracker of the list with the given device id, as tracker_get_by_dev_id finds it. */
  function FindTracker(ts: seq<Tracker>, devId: nat): Option<nat>
  {
    FindFirst(ts, DevIdOf, devId)
  }

  function DevIdOf(t: Tracker): nat { t.devId }

  /** The global list of trackers. */
  class TrackerList {
    var trackers: seq<Tracker>

    constructor ()
      ensures trackers == []
    {
      trackers := [];
    }

    /**
     * tracker_enum_cbt_info: at most max_count entries, in list order;
     * -ENOBUFS when more trackers exist, -ENODATA when there are none.
     * `fill` says whether an output array was given.
     */
    method EnumCbtInfo(maxCount: int, fill: bool) returns (res: int, count: nat, infos: seq<CbtInfo>)
      ensures count == Min(|trackers|, Max(maxCount, 0))
      ensures res == if |trackers| > count then -ENOBUFS else if count == 0 then -ENODATA else SUCCESS
      ensures |infos| == (if fill then count else 0)
      ensures forall i :: 0 <= i < |infos| ==> infos[i] == InfoOf(trackers[i])
    {
      res := SUCCESS;
      count := 0;
      infos := [];
      var inx := 0;
      while inx < |trackers|
        invariant 0 <= inx <= |trackers| && count == inx
        invariant count <= Max(maxCount, 0)
        invariant res == SUCCESS || (res == -ENOBUFS && count == Max(maxCount, 0) && inx < |trackers|)
        invariant |infos| == (if fill then count else 0)
        invariant forall i :: 0 <= i < |infos| ==> infos[i] == InfoOf(trackers[i])
        decreases |trackers| - inx
      {
        if count >= maxCount {
          res := -ENOBUFS;
          break;
        }
        if fill {
          infos := infos + [InfoOf(trackers[inx])];
        }
        count := count + 1;
        inx := inx + 1;
      }
      if res == SUCCESS && count == 0 {
        res := -ENODATA;
      }
    }

    /** tracking_collect: an empty list is not an error. */
    method Collect(maxCount: int, fill: bool) returns (res: int, count: nat, infos: seq<CbtInfo>)
      ensures count == Min(|trackers|, Max(maxCount, 0))
      ensures res == (if |trackers| > count then -ENOBUFS else SUCCESS)
      ensures |infos| == (if fill then count else 0)
      ensures forall i :: 0 <= i < |infos| ==> infos[i] == InfoOf(trackers[i])
    {
      res, count, infos := EnumCbtInfo(maxCount, fill);
      if res == -ENODATA {
        count := 0;
        res := SUCCESS;
      }
    }
  }

  // ---------------------------------------------------------------------------
  // Adding and removing tracking
  // ---------------------------------------------------------------------------

  /**
   * The decisions of _add_already_tracked on values: the tracker's snapshot
   * id, whether it has a CBT map, that map's `active` flag and capacity, the
   * device's capacity now, whether a new map could be created and what
   * tracker_cbt_reset returns.
   */
  datatype AddOutcome = AddOutcome(snapshotId: nat, result: int, mapCreated: bool, resetCalled: bool)

  function AddAlreadyTrackedSpec(curId: nat, newId: nat, hasMap: bool, mapActive: bool, mapCapacity: nat,
                                 devCapacity: nat, newMapOk: bool, resetResult: int): AddOutcome
  {
    var id1 := if newId != 0 && curId == 0 then newId else curId;
    if !hasMap then
      if !newMapOk then AddOutcome(id1, -ENOMEM, false, false)
      else AddOutcome(newId, SUCCESS, true, false)
    else
      var resetNeeded := !mapActive || mapCapacity != devCapacity;
      if !resetNeeded then AddOutcome(id1, SUCCESS, false, false)
      else if resetResult != SUCCESS then AddOutcome(id1, resetResult, false, true)
      else AddOutcome(newId, SUCCESS, false, true)
  }

  /**
   * A healthy, unresized map needs no reset: the call succeeds and only adopts
   * a new nonzero snapshot id when the tracker had none. A reset happens
   * exactly when the map is inactive or the capacity changed.
   */
  lemma AddAlreadyTrackedRules(curId: nat, newId: nat, hasMap: bool, mapActive: bool, mapCapacity: nat,
                               devCapacity: nat, newMapOk: bool, resetResult: int)
    ensures var o := AddAlreadyTrackedSpec(curId, newId, hasMap, mapActive, mapCapacity, devCapacity, newMapOk, resetResult);
            (o.resetCalled <==> hasMap && (!mapActive || mapCapacity != devCapacity))
            && (o.mapCreated <==> !hasMap && newMapOk)
            && (hasMap && mapActive && mapCapacity == devCapacity ==>
                  o.result == SUCCESS && o.snapshotId == (if curId == 0 then newId else curId))
            && (o.result != SUCCESS ==> o.snapshotId == (if newId != 0 && curId == 0 then newId else curId))
            && (o.result == SUCCESS && (o.resetCalled || o.mapCreated) ==> o.snapshotId == newId)
  {
  }

  /**
   * _add_already_tracked. `newMap` is what cbt_map_create returned;
   * `resetResult` is what tracker_cbt_reset returned.
   */
  method AddAlreadyTracked(t: Tracker, snapshotId: nat, newMap: CbtMap.CbtMap?, resetResult: int)
    returns (result: int, resetCalled: bool)
    modifies t
    ensures var o := AddAlreadyTrackedSpec(old(t.snapshotId), snapshotId, old(t.cbtMap) != null,
                                           old(t.cbtMap) != null && old(t.cbtMap.active),
                                           if old(t.cbtMap) != null then old(t.cbtMap.deviceCapacity) else 0,
                                           t.capacity, newMap != null, resetResult);
            t.snapshotId == o.snapshotId && result == o.result && resetCalled == o.resetCalled
            && t.cbtMap == (if o.mapCreated then newMap else old(t.cbtMap))
    ensures t.capacity == old(t.capacity)
  {
    resetCalled := false;
    if snapshotId != 0 && t.snapshotId == 0 {
      t.snapshotId := snapshotId;
    }
    if t.cbtMap == null {
      if newMap == null {
        return -ENOMEM, false;
      }
      t.cbtMap := newMap;
      t.snapshotId := snapshotId;
      return SUCCESS, false;
    }
    var resetNeeded := false;
    if !t.cbtMap.active {
      resetNeeded := true;
    }
    if t.cbtMap.deviceCapacity != t.capacity {
      resetNeeded := true;
    }
    if !resetNeeded {
      return SUCCESS, false;
    }
    resetCalled := true;
    result := resetResult;
    if result != SUCCESS {
      return;
    }
    t.snapshotId := snapshotId;
    result := SUCCESS;
  }

  /** No two trackers of the list watch the same device. */
  ghost predicate UniqueDevIds(ts: seq<Tracker>)
  {
    forall i, j :: 0 <= i < j < |ts| ==> ts[i].devId != ts[j].devId
  }

  /** A tracker appended for an untracked device is the one found for it, and ids stay unique. */
  lemma {:induction false} FindAppended(ts: seq<Tracker>, t: Tracker)
    requires FindTracker(ts, t.devId).None?
    ensures FindTracker(ts + [t], t.devId) == Some(|ts|)
    ensures UniqueDevIds(ts) ==> UniqueDevIds(ts + [t])
    decreases |ts|
  {
    var r := ts + [t];
    if ts != [] {
      assert r[1..] == ts[1..] + [t];
      FindAppended(ts[1..], t);
    }
    if UniqueDevIds(ts) {
      forall a, b | 0 <= a < b < |r|
        ensures r[a].devId != r[b].devId
      {
        assert r[a] == ts[a];
        if b < |ts| {
          assert r[b] == ts[b];
        }
      }
    }
  }

  /** Unlinking the only tracker of a device leaves that device untracked, and ids stay unique. */
  lemma {:induction false} FindUnlinked(ts: seq<Tracker>, i: nat)
    requires i < |ts| && UniqueDevIds(ts)
    ensures FindTracker(ts[..i] + ts[i + 1..], ts[i].devId).None?
    ensures UniqueDevIds(ts[..i] + ts[i + 1..])
  {
    var r := ts[..i] + ts[i + 1..];
    forall j | 0 <= j < |r|
      ensures r[j].devId != ts[i].devId
    {
      if j < i {
        assert r[j] == ts[j];
      } else {
        assert r[j] == ts[j + 1];
      }
    }
    forall a, b | 0 <= a < b < |r|
      ensures r[a].devId != r[b].devId
    {
      var a' := if a < i then a else a + 1;
      var b' := if b < i then b else b + 1;
      assert r[a] == ts[a'] && r[b] == ts[b'];
    }
  }

  /**
   * The list after tracking_remove as written at module/tracker.c:711, reading
   * `tracker` as its list node: list_add_tail(&trackers, node) runs
   * __list_add(&trackers, node->prev, node). For a later tracker the head is
   * linked in just before its node, so a walk from the head starts at that
   * tracker and runs on through the trackers after it. For the first tracker
   * node->prev is the head itself, whose next pointer ends up pointing back
   * at the head, so the walk finds nothing.
   */
  function RemoveAsWritten(ts: seq<Tracker>, i: nat): seq<Tracker>
    requires i < |ts|
  {
    if i == 0 then [] else ts[i..]
  }

  /** As written, the device just removed is still the first one found, and the devices before it are lost. */
  lemma RemoveAsWrittenKeepsDevice(ts: seq<Tracker>, i: nat, j: nat)
    requires i < |ts| && UniqueDevIds(ts) && j < i
    ensures FindTracker(RemoveAsWritten(ts, i), ts[i].devId) == Some(0)
    ensures FindTracker(RemoveAsWritten(ts, i), ts[j].devId).None?
  {
  }

  /** As written, removing the first tracker leaves an empty list: no device is found any more. */
  lemma RemoveFirstAsWrittenLosesAll(ts: seq<Tracker>, devId: nat)
    requires |ts| > 0
    ensures FindTracker(RemoveAsWritten(ts, 0), devId).None?
    ensures forall k :: 0 <= k < |ts| ==> FindTracker(RemoveAsWritten(ts, 0), ts[k].devId).None?
  {
  }

  /**
   * tracking_add: an already tracked device goes through _add_already_tracked
   * and its success is reported as -EALREADY; that tracker's snapshot id and
   * map change as _add_already_tracked says and no other tracker changes. A
   * new device reports the error of tracker_new: `newResult` for the
   * allocation or the device lookup, -ENOMEM when cbt_map_create returned no
   * map; then the error of tracker_attach (`attachResult`); on
   * success a new tracker with the given snapshot id is appended to the list
   * (the call at module/tracker.c:672 passes the tracker itself, with the
   * arguments in swapped order, and does not compile as written; the model
   * appends, as the lookups elsewhere in the file expect).
   * `capacity` is the device's capacity that tracker_new reads; `newMap` is
   * the map cbt_map_create returned.
   */
  method TrackingAdd(list: TrackerList, devId: nat, capacity: nat, snapshotId: nat, newMap: CbtMap.CbtMap?,
                     resetResult: int, newResult: int, attachResult: int) returns (result: int)
    modifies list, list.trackers
    ensures var found := FindTracker(old(list.trackers), devId);
            found.Some? ==>
              var t := old(list.trackers)[found.value];
              var o := AddAlreadyTrackedSpec(old(t.snapshotId), snapshotId, old(t.cbtMap) != null,
                                             old(t.cbtMap) != null && old(t.cbtMap.active),
                                             if old(t.cbtMap) != null then old(t.cbtMap.deviceCapacity) else 0,
                                             t.capacity, newMap != null, resetResult);
              result == (if o.result == SUCCESS then -EALREADY else o.result)
              && t.snapshotId == o.snapshotId
              && t.cbtMap == (if o.mapCreated then newMap else old(t.cbtMap))
              && t.capacity == old(t.capacity)
              && (forall u :: u in old(list.trackers) && u != t ==> unchanged(u))
              && list.trackers == old(list.trackers)
    ensures FindTracker(old(list.trackers), devId).None? ==>
              result == (if newResult != SUCCESS then newResult
                         else if newMap == null then -ENOMEM
                         else attachResult)
              && (forall t :: t in old(list.trackers) ==> unchanged(t))
              && (result != SUCCESS ==> list.trackers == old(list.trackers))
              && (result == SUCCESS ==>
                    |list.trackers| == |old(list.trackers)| + 1
                    && list.trackers[..|old(list.trackers)|] == old(list.trackers)
                    && var t := list.trackers[|old(list.trackers)|];
                       fresh(t) && t.devId == devId && t.capacity == capacity && t.snapshotId == snapshotId
                       && t.cbtMap == newMap && FindTracker(list.trackers, devId) == Some(|old(list.trackers)|)
                       && (UniqueDevIds(old(list.trackers)) ==> UniqueDevIds(list.trackers)))
  {
    var found := FindTracker(list.trackers, devId);
    if found.Some? {
      var t := list.trackers[found.value];
      var resetCalled;
      result, resetCalled := AddAlreadyTracked(t, snapshotId, newMap, resetResult);
      if result == SUCCESS {
        result := -EALREADY;
      }
      return;
    }
    if newResult != SUCCESS {
      return newResult;
    }
    if newMap == null {
      return -ENOMEM;
    }
    if attachResult != SUCCESS {
      return attachResult;
    }
    var t := new Tracker(devId, capacity);
    t.cbtMap := newMap;
    t.snapshotId := snapshotId;
    FindAppended(list.trackers, t);
    list.trackers := list.trackers + [t];
    result := SUCCESS;
  }

  /**
   * tracking_remove: -ENODATA for an untracked device, -EBUSY while the
   * tracker belongs to a snapshot; otherwise the result of tracker_detach
   * (`detachResult`), and the tracker leaves the list whatever that result
   * (the intended unlink; RemoveAsWritten is the list as line 711 leaves it).
   */
  method TrackingRemove(list: TrackerList, devId: nat, detachResult: int) returns (ret: int)
    modifies list
    ensures var found := FindTracker(old(list.trackers), devId);
            ret == (if found.None? then -ENODATA
                    else if old(list.trackers)[found.value].snapshotId != 0 then -EBUSY
                    else detachResult)
    ensures var found := FindTracker(old(list.trackers), devId);
            list.trackers == if found.None? || old(list.trackers)[found.value].snapshotId != 0 then old(list.trackers)
                             else old(list.trackers)[..found.value] + old(list.trackers)[found.value + 1..]
    ensures var found := FindTracker(old(list.trackers), devId);
            found.Some? && old(list.trackers)[found.value].snapshotId == 0 && UniqueDevIds(old(list.trackers)) ==>
              FindTracker(list.trackers, devId).None? && UniqueDevIds(list.trackers)
  {
    var found := FindTracker(list.trackers, devId);
    if found.None? {
      return -ENODATA;
    }
    var t := list.trackers[found.value];
    if t.snapshotId != 0 {
      return -EBUSY;
    }
    ret := detachResult;
    if UniqueDevIds(list.trackers) {
      FindUnlinked(list.trackers, found.value);
    }
    list.trackers := list.trackers[..found.value] + list.trackers[found.value + 1..];
  }
}
