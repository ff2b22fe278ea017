/**
 * The change-block-tracking map of module/cbt_map.c.
 *
 * The map stores one byte per tracking block: the generation (snapshot
 * number) in which the block was last written. `write_map` holds the active
 * generation, `read_map` the one frozen at the last snapshot. The pure part
 * of this module (CbtState and the *Spec functions) is the abstract value of
 * a map; class CbtMap is the map itself, over two byte arrays, and each of
 * its methods is tied to one of the spec functions.
 */
module CbtMap {
  import opened Kernel

  /** Sectors in a tracking block of 2^shift bytes. */
  function BlockSectors(shift: nat): (r: nat)
    requires shift >= SECTOR_SHIFT
    ensures r >= 1
  {
    Pow2(shift - SECTOR_SHIFT)
  }

  /** count_by_shift: the number of 2^shift-byte blocks covering `capacity` sectors. */
  function CountByShift(capacity: nat, shift: nat): (r: nat)
    requires shift >= SECTOR_SHIFT
    ensures r * BlockSectors(shift) >= capacity
    ensures (r - 1) * BlockSectors(shift) < capacity
  {
    CeilDiv(capacity, BlockSectors(shift))
  }

  /**
   * cbt_map_calculate_block_size. The loop doubles the shift value itself
   * (shift << 1), so the candidates are minShift, 2*minShift, 4*minShift, ...
   * It ends only because some candidate yields at most one block, which is
   * why maxCount must be positive.
   */
  method CalculateBlockSize(capacity: nat, minShift: nat, maxCount: nat)
    returns (shift: nat, count: nat)
    requires minShift >= SECTOR_SHIFT
    requires maxCount >= 1
    ensures shift >= minShift
    ensures count == CountByShift(capacity, shift)
    ensures count <= maxCount
    ensures exists k: nat :: shift == minShift * Pow2(k)
    ensures shift == minShift || CountByShift(capacity, shift / 2) > maxCount
  {
    shift := minShift;
    count := CountByShift(capacity, shift);
    ghost var k: nat := 0;
    while count > maxCount
      invariant shift >= minShift
      invariant shift == minShift * Pow2(k)
      invariant count == CountByShift(capacity, shift)
      invariant shift == minShift || CountByShift(capacity, shift / 2) > maxCount
      decreases capacity - BlockSectors(shift)
    {
      DoublingShrinksCount(capacity, shift, count);
      ScaledPow2Step(minShift, k);
      shift := shift * 2;
      count := CountByShift(capacity, shift);
      k := k + 1;
    }
  }

  /** While more than one block is needed, a block is smaller than the device, and doubling the shift grows it. */
  lemma DoublingShrinksCount(capacity: nat, shift: nat, count: nat)
    requires shift >= SECTOR_SHIFT
    requires count == CountByShift(capacity, shift) && count >= 2
    ensures BlockSectors(shift) < capacity
    ensures BlockSectors(shift) < BlockSectors(2 * shift)
  {
    var b := BlockSectors(shift);
    assert (count - 1) * b >= b;
    Pow2Strict(shift - SECTOR_SHIFT, 2 * shift - SECTOR_SHIFT);
  }

  lemma ScaledPow2Step(m: nat, k: nat)
    ensures m * Pow2(k + 1) == 2 * (m * Pow2(k))
  {
  }

  /** First tracking block of a sector range: sector_start >> (shift - SECTOR_SHIFT). */
  function FirstBlock(start: U64Val, shift: nat): nat
    requires shift >= SECTOR_SHIFT
  {
    Div(start, BlockSectors(shift))
  }

  /**
   * Last tracking block (inclusive): (sector_start + sector_cnt - 1) >> (shift - SECTOR_SHIFT),
   * where the sum is computed in 64-bit sector_t arithmetic.
   */
  function LastBlock(start: U64Val, cnt: U64Val, shift: nat): nat
    requires shift >= SECTOR_SHIFT
  {
    Div((start + cnt + U64 - 1) % U64, BlockSectors(shift))
  }

  /** Block i of size 2^shift bytes shares a sector with [start, start + cnt). */
  ghost predicate Overlaps(i: nat, start: nat, cnt: nat, shift: nat)
    requires shift >= SECTOR_SHIFT
  {
    i * BlockSectors(shift) < start + cnt && start < (i + 1) * BlockSectors(shift)
  }

  /** For a non-empty range that does not wrap, [FirstBlock, LastBlock] is exactly the overlapping blocks. */
  lemma BlockRangeIsOverlap(start: U64Val, cnt: U64Val, shift: nat, i: nat)
    requires shift >= SECTOR_SHIFT
    requires cnt >= 1 && start + cnt <= U64
    ensures FirstBlock(start, shift) <= i <= LastBlock(start, cnt, shift) <==> Overlaps(i, start, cnt, shift)
  {
    var b := BlockSectors(shift);
    assert (start + cnt + U64 - 1) % U64 == start + cnt - 1;
    DivUpperBound(start, b, i);
    DivLowerBound(start + cnt - 1, b, i);
  }

  /** The byte map after raising blocks first..last to generation g (the body of the _cbt_map_set loop). */
  function Raise(m: seq<Byte>, first: nat, last: int, g: Byte): (r: seq<Byte>)
    ensures |r| == |m|
    ensures forall i :: 0 <= i < |m| ==> r[i] >= m[i]
    ensures forall i :: 0 <= i < |m| && first <= i <= last ==> r[i] == Max(m[i], g)
    ensures forall i :: 0 <= i < |m| && !(first <= i <= last) ==> r[i] == m[i]
  {
    seq(|m|, i requires 0 <= i < |m| => if first <= i <= last && m[i] < g then g else m[i])
  }

  /** The result of _cbt_map_set: -EINVAL as soon as the loop reaches a block beyond the map. */
  function RaiseError(blkCount: nat, first: nat, last: int): int
  {
    if first <= last && last >= blkCount then -EINVAL else SUCCESS
  }

  /** The abstract value of a CBT map. */
  datatype CbtState = CbtState(
    shift: nat,          // blk_size_shift
    write: seq<Byte>,    // write_map: active generation
    read: seq<Byte>,     // read_map: previous generation
    active: nat,         // snap_number_active
    previous: nat,       // snap_number_previous
    corrupted: bool)     // is_corrupted

  ghost predicate WellFormed(s: CbtState)
  {
    s.shift >= SECTOR_SHIFT && |s.write| == |s.read| && s.active < 256 && s.previous < 256
  }

  /** The state right after a successful cbt_map_allocate. */
  function InitialState(shift: nat, blkCount: nat): CbtState
  {
    CbtState(shift, seq(blkCount, _ => 0), seq(blkCount, _ => 0), 1, 0, false)
  }

  /** cbt_map_set. */
  function SetSpec(s: CbtState, start: U64Val, cnt: U64Val): (CbtState, int)
    requires WellFormed(s)
  {
    if s.corrupted then (s, -EINVAL)
    else
      var first, last := FirstBlock(start, s.shift), LastBlock(start, cnt, s.shift);
      var res := RaiseError(|s.write|, first, last);
      (s.(write := Raise(s.write, first, last, s.active), corrupted := res != SUCCESS), res)
  }

  /** cbt_map_set_both: the read map is raised only when the write map was, and corruption is never set. */
  function SetBothSpec(s: CbtState, start: U64Val, cnt: U64Val): (CbtState, int)
    requires WellFormed(s)
  {
    if s.corrupted then (s, -EINVAL)
    else
      var first, last := FirstBlock(start, s.shift), LastBlock(start, cnt, s.shift);
      var res := RaiseError(|s.write|, first, last);
      var w := Raise(s.write, first, last, s.active);
      if res != SUCCESS then (s.(write := w), res)
      else (s.(write := w, read := Raise(s.read, first, last, s.previous)), RaiseError(|s.read|, first, last))
  }

  /** cbt_map_switch (the generation identifier is handled by the class). */
  function SwitchSpec(s: CbtState): CbtState
  {
    if s.active + 1 == 256 then s.(read := s.write, previous := s.active, active := 1, write := seq(|s.write|, _ => 0))
    else s.(read := s.write, previous := s.active, active := s.active + 1)
  }

  /** cbt_map_mark_dirty_blocks: set_both range by range, stopping at the first error. */
  function MarkDirtySpec(s: CbtState, ranges: seq<SectorRange>): (CbtState, int)
    requires WellFormed(s)
    decreases |ranges|
  {
    if ranges == [] then (s, SUCCESS)
    else
      var (s1, r1) := SetBothSpec(s, ranges[0].sectorOffset, ranges[0].sectorCount);
      if r1 != SUCCESS then (s1, r1)
      else
        SetBothPreserves(s, ranges[0].sectorOffset, ranges[0].sectorCount);
        MarkDirtySpec(s1, ranges[1..])
  }

  /** Repeated cbt_map_set calls, as the tracker issues them for a run of writes. */
  function SetAll(s: CbtState, ranges: seq<SectorRange>): CbtState
    requires WellFormed(s)
    decreases |ranges|
  {
    if ranges == [] then s
    else
      SetPreserves(s, ranges[0].sectorOffset, ranges[0].sectorCount);
      SetAll(SetSpec(s, ranges[0].sectorOffset, ranges[0].sectorCount).0, ranges[1..])
  }

  /** Repeated cbt_map_switch calls. */
  function SwitchN(s: CbtState, n: nat): CbtState
    decreases n
  {
    if n == 0 then s else SwitchN(SwitchSpec(s), n - 1)
  }

  // ---------------------------------------------------------------------------
  // Properties of the abstract map
  // ---------------------------------------------------------------------------

  lemma SetPreserves(s: CbtState, start: U64Val, cnt: U64Val)
    requires WellFormed(s)
    ensures WellFormed(SetSpec(s, start, cnt).0)
    ensures SetSpec(s, start, cnt).0.shift == s.shift && |SetSpec(s, start, cnt).0.write| == |s.write|
  {
  }

  lemma SetBothPreserves(s: CbtState, start: U64Val, cnt: U64Val)
    requires WellFormed(s)
    ensures WellFormed(SetBothSpec(s, start, cnt).0)
    ensures SetBothSpec(s, start, cnt).0.shift == s.shift && |SetBothSpec(s, start, cnt).0.write| == |s.write|
  {
  }

  /**
   * cbt_map_set on a healthy map and a non-wrapping, non-empty range: each block
   * that shares a sector with the range ends at max(old value, active generation);
   * every other block keeps its value; the read map is untouched.
   */
  lemma SetMarksOverlappingBlocks(s: CbtState, start: U64Val, cnt: U64Val, i: nat)
    requires WellFormed(s) && !s.corrupted
    requires cnt >= 1 && start + cnt <= U64
    requires i < |s.write|
    ensures SetSpec(s, start, cnt).0.write[i]
            == if Overlaps(i, start, cnt, s.shift) then Max(s.write[i], s.active) else s.write[i]
    ensures SetSpec(s, start, cnt).0.read == s.read
  {
    BlockRangeIsOverlap(start, cnt, s.shift, i);
  }

  /**
   * cbt_map_set fails exactly when the map was already corrupted or the range
   * extends past the sectors the map covers; a failure leaves the map corrupted.
   */
  lemma SetFailsIffBeyondMap(s: CbtState, start: U64Val, cnt: U64Val)
    requires WellFormed(s)
    requires cnt >= 1 && start + cnt <= U64
    ensures var (s1, res) := SetSpec(s, start, cnt);
            (res != SUCCESS <==> s.corrupted || start + cnt > |s.write| * BlockSectors(s.shift))
            && (res != SUCCESS ==> res == -EINVAL && s1.corrupted)
  {
    var b, n := BlockSectors(s.shift), |s.write|;
    var x := start + cnt - 1;
    assert (start + cnt + U64 - 1) % U64 == x;
    assert FirstBlock(start, s.shift) == start / b && LastBlock(start, cnt, s.shift) == x / b;
    DivLowerBound(start, b, start / b);
    DivLowerBound(x, b, start / b);
    assert start / b <= x / b;
    DivLowerBound(x, b, n);
    assert RaiseError(n, start / b, x / b) != SUCCESS <==> n * b <= x;
  }

  /** A corrupted map ignores every later cbt_map_set: the corruption flag is sticky. */
  lemma {:induction false} CorruptedIgnoresSets(s: CbtState, ranges: seq<SectorRange>)
    requires WellFormed(s) && s.corrupted
    ensures SetAll(s, ranges) == s
    decreases |ranges|
  {
    if ranges != [] {
      CorruptedIgnoresSets(s, ranges[1..]);
    }
  }

  /** No run of cbt_map_set calls lowers any block of the write map, and none touches the read map. */
  lemma {:induction false} SetAllMonotone(s: CbtState, ranges: seq<SectorRange>)
    requires WellFormed(s)
    ensures |SetAll(s, ranges).write| == |s.write|
    ensures forall i :: 0 <= i < |s.write| ==> SetAll(s, ranges).write[i] >= s.write[i]
    ensures SetAll(s, ranges).read == s.read
    ensures s.corrupted ==> SetAll(s, ranges).corrupted
    decreases |ranges|
  {
    if ranges != [] {
      var s1 := SetSpec(s, ranges[0].sectorOffset, ranges[0].sectorCount).0;
      SetPreserves(s, ranges[0].sectorOffset, ranges[0].sectorCount);
      SetAllMonotone(s1, ranges[1..]);
    }
  }

  /** Marking dirty blocks never changes the corruption flag, the generations or the block size. */
  lemma {:induction false} MarkDirtyKeepsFlags(s: CbtState, ranges: seq<SectorRange>)
    requires WellFormed(s)
    ensures var s1 := MarkDirtySpec(s, ranges).0;
            s1.corrupted == s.corrupted && s1.active == s.active && s1.previous == s.previous
            && s1.shift == s.shift && |s1.write| == |s.write| && |s1.read| == |s.read|
    ensures s.corrupted && ranges != [] ==> MarkDirtySpec(s, ranges) == (s, -EINVAL)
    decreases |ranges|
  {
    if ranges != [] {
      var (s1, r1) := SetBothSpec(s, ranges[0].sectorOffset, ranges[0].sectorCount);
      if r1 == SUCCESS {
        SetBothPreserves(s, ranges[0].sectorOffset, ranges[0].sectorCount);
        MarkDirtyKeepsFlags(s1, ranges[1..]);
      }
    }
  }

  /** Switching the generation preserves the shape of the map. */
  lemma {:induction false} SwitchNPreserves(s: CbtState, n: nat)
    requires WellFormed(s)
    ensures WellFormed(SwitchN(s, n)) && |SwitchN(s, n).write| == |s.write| && SwitchN(s, n).corrupted == s.corrupted
    decreases n
  {
    if n > 0 {
      SwitchNPreserves(SwitchSpec(s), n - 1);
    }
  }

  /**
   * Starting from generation 1, the first 254 switches count the active
   * generation up to 255 without touching the write map.
   */
  lemma {:induction false} SwitchCountsUp(s: CbtState, n: nat)
    requires s.active == 1
    requires n < 255
    ensures SwitchN(s, n).active == 1 + n
    ensures SwitchN(s, n).write == s.write
    ensures n > 0 ==> SwitchN(s, n).previous == n && SwitchN(s, n).read == s.write
  {
    if n > 0 {
      SwitchCountsUp(s, n - 1);
      SwitchNSplit(s, n - 1);
    }
  }

  lemma {:induction false} SwitchNSplit(s: CbtState, n: nat)
    ensures SwitchN(s, n + 1) == SwitchSpec(SwitchN(s, n))
    decreases n
  {
    if n > 0 {
      SwitchNSplit(SwitchSpec(s), n - 1);
    }
  }

  /**
   * The 256-generation wrap: exactly 255 switches after generation 1, the
   * active generation is 1 again, the write map is all zero and the read map
   * holds the blocks of generations 1..255.
   */
  lemma SwitchWraps(s: CbtState)
    requires s.active == 1
    ensures SwitchN(s, 255).active == 1
    ensures SwitchN(s, 255).previous == 255
    ensures SwitchN(s, 255).read == s.write
    ensures |SwitchN(s, 255).write| == |s.write|
    ensures forall i :: 0 <= i < |s.write| ==> SwitchN(s, 255).write[i] == 0
  {
    SwitchCountsUp(s, 254);
    SwitchNSplit(s, 254);
  }

  // ---------------------------------------------------------------------------
  // The map object
  // ---------------------------------------------------------------------------

  class CbtMap {
    var deviceCapacity: nat
    var blkSizeShift: nat
    var blkCount: nat
    var readMap: array?<Byte>
    var writeMap: array?<Byte>
    var snapNumberActive: nat
    var snapNumberPrevious: nat
    var generationId: nat
    var isCorrupted: bool
    /**
     * The `active` flag that module/tracker.c reads and clears on this map.
     * module/cbt_map.c never sets it, so its value on a new map is an input.
     */
    var active: bool

    ghost predicate Valid()
      reads this
    {
      blkSizeShift >= SECTOR_SHIFT
      && snapNumberActive < 256 && snapNumberPrevious < 256
      && (readMap != null ==> readMap.Length == blkCount)
      && (writeMap != null ==> writeMap.Length == blkCount)
    }

    /** Both maps are present (cbt_map_allocate succeeded) and are distinct buffers. */
    ghost predicate Allocated()
      reads this
    {
      Valid() && readMap != null && writeMap != null && readMap != writeMap
    }

    ghost function State(): CbtState
      reads this, readMap, writeMap
      requires Allocated()
    {
      CbtState(blkSizeShift, writeMap[..], readMap[..], snapNumberActive, snapNumberPrevious, isCorrupted)
    }

    /** kzalloc of the map followed by cbt_map_calculate_block_size; `initiallyActive` is the `active` flag it starts with. */
    constructor (capacity: nat, minShift: nat, maxCount: nat, initiallyActive: bool)
      requires minShift >= SECTOR_SHIFT && maxCount >= 1
      ensures Valid() && readMap == null && writeMap == null
      ensures deviceCapacity == capacity && blkCount <= maxCount && blkSizeShift >= minShift
      ensures blkCount == CountByShift(capacity, blkSizeShift)
      ensures !isCorrupted && active == initiallyActive
    {
      var shift, count := CalculateBlockSize(capacity, minShift, maxCount);
      deviceCapacity := capacity;
      blkSizeShift := shift;
      blkCount := count;
      readMap := null;
      writeMap := null;
      snapNumberActive := 0;
      snapNumberPrevious := 0;
      generationId := 0;
      isCorrupted := false;
      active := initiallyActive;
    }

    /**
     * cbt_map_allocate; `readOk`/`writeOk` are the outcomes of the two buffer
     * allocations and `newId` the random generation identifier.
     */
    method Allocate(readOk: bool, writeOk: bool, newId: nat) returns (res: int)
      requires Valid()
      modifies this
      ensures Valid()
      ensures res == (if readOk && writeOk then SUCCESS else -ENOMEM)
      ensures readOk <==> readMap != null
      ensures writeOk <==> writeMap != null
      ensures blkCount == old(blkCount) && blkSizeShift == old(blkSizeShift)
      ensures deviceCapacity == old(deviceCapacity) && active == old(active)
      ensures res == SUCCESS ==> (Allocated() && fresh(readMap) && fresh(writeMap)
                                && State() == InitialState(blkSizeShift, blkCount) && generationId == newId)
      ensures res != SUCCESS ==> (snapNumberActive == old(snapNumberActive) && snapNumberPrevious == old(snapNumberPrevious)
                                && isCorrupted == old(isCorrupted) && generationId == old(generationId))
    {
      var read: array?<Byte> := null;
      var write: array?<Byte> := null;
      if readOk {
        read := new Byte[blkCount](_ => 0);
        assert read[..] == seq(blkCount, _ => 0);
      }
      if writeOk {
        write := new Byte[blkCount](_ => 0);
        assert write[..] == seq(blkCount, _ => 0);
      }
      readMap, writeMap := read, write;
      if read == null || write == null {
        return -ENOMEM;
      }
      snapNumberPrevious := 0;
      snapNumberActive := 1;
      generationId := newId;
      isCorrupted := false;
      res := SUCCESS;
    }

    /** cbt_map_deallocate. */
    method Deallocate()
      requires Valid()
      modifies this
      ensures Valid() && readMap == null && writeMap == null && !isCorrupted
      ensures blkCount == old(blkCount) && blkSizeShift == old(blkSizeShift) && deviceCapacity == old(deviceCapacity)
      ensures snapNumberActive == old(snapNumberActive) && snapNumberPrevious == old(snapNumberPrevious)
      ensures generationId == old(generationId) && active == old(active)
    {
      isCorrupted := false;
      readMap := null;
      writeMap := null;
    }

    /** cbt_map_reset: drop both maps, size them for the new capacity and allocate them afresh. */
    method Reset(capacity: nat, minShift: nat, maxCount: nat, readOk: bool, writeOk: bool, newId: nat)
      returns (res: int)
      requires Valid()
      requires minShift >= SECTOR_SHIFT && maxCount >= 1
      modifies this
      ensures Valid()
      ensures deviceCapacity == capacity && blkSizeShift >= minShift && blkCount <= maxCount
      ensures blkCount == CountByShift(capacity, blkSizeShift)
      ensures res == (if readOk && writeOk then SUCCESS else -ENOMEM)
      ensures res == SUCCESS ==> (Allocated() && fresh(readMap) && fresh(writeMap)
                                && State() == InitialState(blkSizeShift, blkCount) && generationId == newId)
      ensures res != SUCCESS ==> !isCorrupted && (readMap == null || writeMap == null)
      ensures active == old(active)
    {
      Deallocate();
      deviceCapacity := capacity;
      var shift, count := CalculateBlockSize(capacity, minShift, maxCount);
      blkSizeShift, blkCount := shift, count;
      isCorrupted := false;
      res := Allocate(readOk, writeOk, newId);
    }

    /**
     * cbt_map_create: kzalloc (outcome `structOk`), block size, allocation;
     * on any failure the map is destroyed and null returned.
     */
    static method Create(capacity: nat, minShift: nat, maxCount: nat, structOk: bool,
                         readOk: bool, writeOk: bool, newId: nat, initiallyActive: bool) returns (m: CbtMap?)
      requires minShift >= SECTOR_SHIFT && maxCount >= 1
      ensures m != null <==> structOk && readOk && writeOk
      ensures m != null ==> (fresh(m) && m.Allocated() && fresh(m.readMap) && fresh(m.writeMap)
                          && m.State() == InitialState(m.blkSizeShift, m.blkCount)
                          && m.deviceCapacity == capacity && m.blkCount == CountByShift(capacity, m.blkSizeShift)
                          && m.blkCount <= maxCount && m.generationId == newId
                          && m.active == initiallyActive)
    {
      if !structOk {
        return null;
      }
      m := new CbtMap(capacity, minShift, maxCount, initiallyActive);
      var res := m.Allocate(readOk, writeOk, newId);
      if res != SUCCESS {
        m.Deallocate();
        return null;
      }
      m.isCorrupted := false;
    }

    /**
     * cbt_map_switch: read_map becomes a copy of write_map and the generation
     * advances; at 256 it restarts at 1 with a zeroed write map and the new
     * generation identifier `newId`.
     */
    method Switch(newId: nat)
      requires Allocated()
      modifies this, readMap, writeMap
      ensures Allocated() && readMap == old(readMap) && writeMap == old(writeMap)
      ensures State() == SwitchSpec(old(State()))
      ensures generationId == if old(snapNumberActive) + 1 == 256 then newId else old(generationId)
      ensures blkCount == old(blkCount) && deviceCapacity == old(deviceCapacity) && active == old(active)
    {
      forall i | 0 <= i < readMap.Length {
        readMap[i] := writeMap[i];
      }
      snapNumberPrevious := snapNumberActive;
      snapNumberActive := snapNumberActive + 1;
      if snapNumberActive == 256 {
        snapNumberActive := 1;
        forall i | 0 <= i < writeMap.Length {
          writeMap[i] := 0;
        }
        generationId := newId;
      }
      assert readMap[..] == old(writeMap[..]);
    }

    /** _cbt_map_set: raise every block of `map` from the range's first to last block to `snapNumber`. */
    method SetBlocks(sectorStart: U64Val, sectorCnt: U64Val, snapNumber: Byte, bitmap: array<Byte>)
      returns (res: int)
      requires Allocated()
      requires bitmap == readMap || bitmap == writeMap
      modifies bitmap
      ensures bitmap[..] == Raise(old(bitmap[..]), FirstBlock(sectorStart, blkSizeShift),
                               LastBlock(sectorStart, sectorCnt, blkSizeShift), snapNumber)
      ensures res == RaiseError(blkCount, FirstBlock(sectorStart, blkSizeShift),
                                LastBlock(sectorStart, sectorCnt, blkSizeShift))
    {
      var first := FirstBlock(sectorStart, blkSizeShift);
      var last := LastBlock(sectorStart, sectorCnt, blkSizeShift);
      res := SUCCESS;
      var blk := first;
      while blk <= last
        invariant first <= blk
        invariant blk == first || blk <= last + 1
        invariant blk > first ==> blk - 1 < blkCount
        invariant forall i :: 0 <= i < bitmap.Length ==>
                    bitmap[i] == (if first <= i < blk && old(bitmap[i]) < snapNumber then snapNumber else old(bitmap[i]))
        decreases last - blk
      {
        if blk >= blkCount {
          res := -EINVAL;
          break;
        }
        if bitmap[blk] < snapNumber {
          bitmap[blk] := snapNumber;
        }
        blk := blk + 1;
      }
      assert bitmap[..] == Raise(old(bitmap[..]), first, last, snapNumber);
    }

    /** cbt_map_set: refuse on a corrupted map; a failed update corrupts it. */
    method Set(sectorStart: U64Val, sectorCnt: U64Val) returns (res: int)
      requires Allocated()
      modifies this, writeMap
      ensures Allocated() && readMap == old(readMap) && writeMap == old(writeMap)
      ensures (State(), res) == SetSpec(old(State()), sectorStart, sectorCnt)
      ensures blkCount == old(blkCount) && deviceCapacity == old(deviceCapacity)
      ensures generationId == old(generationId) && active == old(active)
    {
      if isCorrupted {
        return -EINVAL;
      }
      res := SetBlocks(sectorStart, sectorCnt, snapNumberActive, writeMap);
      if res != SUCCESS {
        isCorrupted := true;
      }
    }

    /** cbt_map_set_both: the write map with the active generation, then, if that worked, the read map with the previous one. */
    method SetBoth(sectorStart: U64Val, sectorCnt: U64Val) returns (res: int)
      requires Allocated()
      modifies readMap, writeMap
      ensures Allocated()
      ensures (State(), res) == SetBothSpec(old(State()), sectorStart, sectorCnt)
    {
      if isCorrupted {
        return -EINVAL;
      }
      res := SetBlocks(sectorStart, sectorCnt, snapNumberActive, writeMap);
      if res == SUCCESS {
        res := SetBlocks(sectorStart, sectorCnt, snapNumberPrevious, readMap);
      }
    }

    /** cbt_map_mark_dirty_blocks. */
    method MarkDirtyBlocks(ranges: seq<SectorRange>) returns (ret: int)
      requires Allocated()
      modifies readMap, writeMap
      ensures Allocated()
      ensures (State(), ret) == MarkDirtySpec(old(State()), ranges)
    {
      var inx := 0;
      while inx < |ranges|
        invariant 0 <= inx <= |ranges|
        invariant Allocated()
        invariant MarkDirtySpec(old(State()), ranges) == MarkDirtySpec(State(), ranges[inx..])
        decreases |ranges| - inx
      {
        assert ranges[inx..][1..] == ranges[inx + 1..];
        ret := SetBoth(ranges[inx].sectorOffset, ranges[inx].sectorCount);
        if ret != SUCCESS {
          return;
        }
        inx := inx + 1;
      }
      ret := SUCCESS;
    }

    /**
     * cbt_map_read_to_user: -EFAULT on a corrupted map; otherwise a window of
     * read_map of min(blk_count - offset, size) bytes, shortened by the
     * `notCopied` bytes copy_to_user reports it could not copy.
     */
    method ReadToUser(offset: nat, size: nat, notCopied: nat) returns (r: Result<seq<Byte>>)
      requires Allocated()
      requires offset <= blkCount
      ensures isCorrupted <==> r.Err?
      ensures r.Err? ==> r.code == -EFAULT
      ensures r.Ok? ==> (|r.value| == Min(blkCount - offset, size) - Min(notCopied, Min(blkCount - offset, size))
                      && r.value == readMap[offset .. offset + |r.value|])
    {
      var realSize := Min(blkCount - offset, size);
      if isCorrupted {
        return Err(-EFAULT);
      }
      var leftSize := Min(notCopied, realSize);
      var readed := realSize - leftSize;
      r := Ok(readMap[offset .. offset + readed]);
    }
  }
}
