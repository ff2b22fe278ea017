/**
 * The decision logic of the snapshot image device of module/snapimage.c:
 * the fake disk geometry reported to HDIO_GETGEO, the open/close reference
 * counter, the order of checks on a write to the image and the marking of
 * dirty blocks through an image.
 *
 * The block device itself (gendisk, request queue, processing thread) is
 * outside the model. The snapshot store's corruption flag, the presence of
 * data in a bio and the result of snapstore_device_write are inputs.
 */
module SnapImage {
  import opened Kernel
  import CbtMap

  // ---------------------------------------------------------------------------
  // Geometry (_snapimage_getgeo)
  // ---------------------------------------------------------------------------

  /** struct hd_geometry: heads, sectors per track, cylinders, start. */
  datatype Geometry = Geometry(heads: nat, sectors: nat, cylinders: nat, start: nat)

  /** 63 sectors per track and 255 heads: the largest values the CHS fields can take. */
  const MAX_SECTORS: nat := 63
  const MAX_HEADS: nat := 255
  /** `cylinders` is an unsigned short: the rounded-up count is truncated modulo 2^16. */
  const U16: nat := 0x1_0000

  /** Tracks of 63 sectors needed for `capacity`: (capacity + 62) / 63 in uint64_t arithmetic. */
  function Tracks(capacity: U64Val): nat
  {
    ((capacity + (MAX_SECTORS - 1)) % U64) / MAX_SECTORS
  }

  /** The geometry of an image of `capacity` sectors. */
  function Geo(capacity: U64Val): Geometry
  {
    if capacity > MAX_SECTORS then
      var q := Tracks(capacity);
      if q > MAX_HEADS then Geometry(MAX_HEADS, MAX_SECTORS, ((q + (MAX_HEADS - 1)) / MAX_HEADS) % U16, 0)
      else Geometry(q, MAX_SECTORS, 1, 0)
    else Geometry(1, capacity, 1, 0)
  }

  /**
   * _snapimage_getgeo: -ENODEV when the disk has no image behind it
   * (`image` is the capacity of the image in private_data, if any).
   */
  function GetGeo(image: Option<U64Val>): (r: Result<Geometry>)
    ensures r.Err? <==> image.None?
    ensures r.Err? ==> r.code == -ENODEV
  {
    if image.None? then Err(-ENODEV) else Ok(Geo(image.value))
  }

  /**
   * What the fields mean: tracks start at sector 0, a disk of at most 63
   * sectors is one track of one head on one cylinder, a larger one has full
   * 63-sector tracks, one cylinder while ceil(capacity / 63) tracks fit in
   * 255 heads, and 255 heads with ceil(tracks / 255) cylinders otherwise.
   */
  lemma GeoFields(capacity: U64Val)
    requires capacity + (MAX_SECTORS - 1) < U64
    ensures var g := Geo(capacity);
            var q := CeilDiv(capacity, MAX_SECTORS);
            g.start == 0
            && (capacity <= MAX_SECTORS ==> g.sectors == capacity && g.heads == 1 && g.cylinders == 1)
            && (capacity > MAX_SECTORS ==>
                  g.sectors == MAX_SECTORS
                  && (q <= MAX_HEADS ==> g.heads == q && g.cylinders == 1)
                  && (q > MAX_HEADS ==> g.heads == MAX_HEADS && g.cylinders == CeilDiv(q, MAX_HEADS) % U16))
  {
    assert Tracks(capacity) == CeilDiv(capacity, MAX_SECTORS);
  }

  /** Every field fits its C type, and a non-empty disk has at least one sector per track and one head. */
  lemma GeoBounds(capacity: U64Val)
    requires 1 <= capacity && capacity + (MAX_SECTORS - 1) < U64
    ensures var g := Geo(capacity);
            1 <= g.sectors <= MAX_SECTORS && 1 <= g.heads <= MAX_HEADS && g.cylinders < U16
  {
    if capacity > MAX_SECTORS {
      assert Tracks(capacity) == CeilDiv(capacity, MAX_SECTORS);
    }
  }

  /**
   * Every division rounds up, so unless the cylinder count is truncated the
   * geometry covers at least the whole capacity.
   */
  lemma GeoCoversCapacity(capacity: U64Val)
    requires capacity + (MAX_SECTORS - 1) < U64
    requires CeilDiv(CeilDiv(capacity, MAX_SECTORS), MAX_HEADS) < U16
    ensures var g := Geo(capacity);
            g.sectors * g.heads * g.cylinders >= capacity
  {
    var g := Geo(capacity);
    if capacity > MAX_SECTORS {
      var q := CeilDiv(capacity, MAX_SECTORS);
      assert Tracks(capacity) == q;
      assert q * MAX_SECTORS >= capacity;
      if q > MAX_HEADS {
        var c := CeilDiv(q, MAX_HEADS);
        assert g.cylinders == c;
        assert c * MAX_HEADS >= q;
        calc {
          g.sectors * g.heads * g.cylinders;
        ==
          MAX_SECTORS * (c * MAX_HEADS);
        >=  { MulMonotone(MAX_SECTORS, q, c * MAX_HEADS); }
          MAX_SECTORS * q;
        >=
          capacity;
        }
      } else {
        assert g.sectors * g.heads * g.cylinders == MAX_SECTORS * q;
      }
    }
  }

  lemma MulMonotone(k: nat, a: nat, b: nat)
    requires a <= b
    ensures k * a <= k * b
  {
  }

  /**
   * The truncation is real: a disk of 63 * 255 * 65536 + 1 sectors reports a
   * single cylinder, far less than its capacity.
   */
  lemma GeoTruncatesHugeDisk()
    ensures var capacity := MAX_SECTORS * MAX_HEADS * U16 + 1;
            var g := Geo(capacity);
            g.cylinders == 1 && g.sectors * g.heads * g.cylinders < capacity
  {
    var capacity := MAX_SECTORS * MAX_HEADS * U16 + 1;
    assert Tracks(capacity) == MAX_HEADS * U16 + 1;
  }

  // ---------------------------------------------------------------------------
  // Open / close reference counting
  // ---------------------------------------------------------------------------

  /** open_cnt and open_bdev of an image (a block device is named by a number). */
  datatype OpenState = OpenState(openCnt: nat, openBdev: Option<nat>)

  /** The image is opened by some device exactly while the count is positive. */
  ghost predicate OpenInv(s: OpenState)
  {
    s.openCnt == 0 <==> s.openBdev.None?
  }

  /** The locked region of _snapimage_open: the first opener is remembered, and the count grows. */
  function OpenSpec(s: OpenState, bdev: nat): OpenState
  {
    OpenState(s.openCnt + 1, if s.openCnt == 0 then Some(bdev) else s.openBdev)
  }

  /** The locked region of _snapimage_close: decrement only a positive count; forget the device at zero. */
  function CloseSpec(s: OpenState): OpenState
  {
    var cnt := if s.openCnt > 0 then s.openCnt - 1 else s.openCnt;
    OpenState(cnt, if cnt == 0 then None else s.openBdev)
  }

  /** Opens by the devices `bdevs`, in order. */
  function OpenAll(s: OpenState, bdevs: seq<nat>): OpenState
    decreases |bdevs|
  {
    if bdevs == [] then s else OpenSpec(OpenAll(s, bdevs[..|bdevs| - 1]), bdevs[|bdevs| - 1])
  }

  /** n closes in a row. */
  function CloseN(s: OpenState, n: nat): OpenState
    decreases n
  {
    if n == 0 then s else CloseN(CloseSpec(s), n - 1)
  }

  /** Opening and closing both keep the invariant; a close undoes an open. */
  lemma OpenCloseKeepInv(s: OpenState, bdev: nat)
    requires OpenInv(s)
    ensures OpenInv(OpenSpec(s, bdev)) && OpenInv(CloseSpec(s))
    ensures CloseSpec(OpenSpec(s, bdev)) == s
    ensures OpenSpec(s, bdev).openBdev.value == (if s.openCnt == 0 then bdev else s.openBdev.value)
  {
  }

  /** Any run of opens keeps the invariant and counts one per open. */
  lemma {:induction false} OpenAllKeepsInv(s: OpenState, bdevs: seq<nat>)
    requires OpenInv(s)
    ensures OpenInv(OpenAll(s, bdevs))
    ensures OpenAll(s, bdevs).openCnt == s.openCnt + |bdevs|
    decreases |bdevs|
  {
    if bdevs != [] {
      OpenAllKeepsInv(s, bdevs[..|bdevs| - 1]);
    }
  }

  /** As many closes as opens bring the image back to where it was. */
  lemma {:induction false} ClosesUndoOpens(s: OpenState, bdevs: seq<nat>)
    requires OpenInv(s)
    ensures CloseN(OpenAll(s, bdevs), |bdevs|) == s
    decreases |bdevs|
  {
    if bdevs != [] {
      var init := bdevs[..|bdevs| - 1];
      OpenAllKeepsInv(s, init);
      OpenCloseKeepInv(OpenAll(s, init), bdevs[|bdevs| - 1]);
      ClosesUndoOpens(s, init);
    }
  }

  /** Surplus closes are absorbed: the count never goes below zero, and at zero no device is remembered. */
  lemma {:induction false} ClosesSaturate(s: OpenState, n: nat)
    requires OpenInv(s)
    ensures CloseN(s, n).openCnt == if s.openCnt >= n then s.openCnt - n else 0
    ensures OpenInv(CloseN(s, n))
    decreases n
  {
    if n > 0 {
      ClosesSaturate(CloseSpec(s), n - 1);
    }
  }

  // ---------------------------------------------------------------------------
  // The image
  // ---------------------------------------------------------------------------

  class SnapImage {
    const capacity: U64Val
    const originalDev: nat
    const imageDev: nat
    const cbtMap: CbtMap.CbtMap
    var openCnt: nat
    var openBdev: Option<nat>

    constructor (capacity: U64Val, originalDev: nat, imageDev: nat, cbtMap: CbtMap.CbtMap)
      ensures this.capacity == capacity && this.originalDev == originalDev && this.imageDev == imageDev
      ensures this.cbtMap == cbtMap
      ensures Open() == OpenState(0, None)
    {
      this.capacity := capacity;
      this.originalDev := originalDev;
      this.imageDev := imageDev;
      this.cbtMap := cbtMap;
      openCnt := 0;
      openBdev := None;
    }

    ghost function Open(): OpenState
      reads this
    {
      OpenState(openCnt, openBdev)
    }
  }

  /**
   * _snapimage_open: -ENODEV when the device has no disk (`hasDisk`) or the
   * disk no image; otherwise the open is counted.
   */
  method SnapimageOpen(hasDisk: bool, image: SnapImage?, bdev: nat) returns (res: int)
    modifies if image != null then {image} else {}
    ensures res == (if !hasDisk || image == null then -ENODEV else SUCCESS)
    ensures image != null ==> image.Open() == if res == SUCCESS then OpenSpec(old(image.Open()), bdev)
                                              else old(image.Open())
  {
    if !hasDisk {
      return -ENODEV;
    }
    if image == null {
      return -ENODEV;
    }
    if image.openCnt == 0 {
      image.openBdev := Some(bdev);
    }
    image.openCnt := image.openCnt + 1;
    res := SUCCESS;
  }

  /** _snapimage_close: without an image behind the disk nothing happens. */
  method SnapimageClose(image: SnapImage?)
    modifies if image != null then {image} else {}
    ensures image != null ==> image.Open() == CloseSpec(old(image.Open()))
  {
    if image != null {
      if image.openCnt > 0 {
        image.openCnt := image.openCnt - 1;
      }
      if image.openCnt == 0 {
        image.openBdev := None;
      }
    }
  }

  // ---------------------------------------------------------------------------
  // Writes to the image
  // ---------------------------------------------------------------------------

  /**
   * _snapimage_request_write. `storeCorrupted` is
   * snapstore_device_is_corrupted, `hasData` is bio_has_data, [ofs, ofs + cnt)
   * the bio's sectors and `writeResult` what snapstore_device_write returns.
   * A corrupted store refuses before the CBT map is touched; an empty bio is
   * completed at once; otherwise both CBT maps are marked and the write goes
   * ahead whatever the marking returned. `completed` says that the request
   * was completed here.
   */
  method RequestWrite(image: SnapImage, storeCorrupted: bool, hasData: bool, ofs: U64Val, cnt: U64Val,
                      writeResult: int) returns (res: int, completed: bool)
    requires image.cbtMap.Allocated()
    modifies image.cbtMap.readMap, image.cbtMap.writeMap
    ensures image.cbtMap.Allocated()
    ensures storeCorrupted ==> res == -ENODATA && !completed && image.cbtMap.State() == old(image.cbtMap.State())
    ensures !storeCorrupted && !hasData ==>
              res == SUCCESS && completed && image.cbtMap.State() == old(image.cbtMap.State())
    ensures !storeCorrupted && hasData ==>
              res == writeResult && !completed
              && image.cbtMap.State() == CbtMap.SetBothSpec(old(image.cbtMap.State()), ofs, cnt).0
  {
    completed := false;
    if storeCorrupted {
      return -ENODATA, false;
    }
    if !hasData {
      return SUCCESS, true;
    }
    res := image.cbtMap.SetBoth(ofs, cnt);
    res := writeResult;
  }

  /** snapimage_find: the first image of the list whose original device is `dev`. */
  function FindImage(images: seq<SnapImage>, dev: nat): Option<nat>
  {
    FindFirst(images, OriginalDevOf, dev)
  }

  function OriginalDevOf(image: SnapImage): nat { image.originalDev }

  /**
   * snapimage_mark_dirty_blocks: -ENODEV when snapimage_find finds no image
   * for `devId` (it compares with the original device, although the caller
   * passes an image device number); otherwise set_both range by range,
   * stopping at the first error.
   */
  method MarkDirtyBlocks(images: seq<SnapImage>, devId: nat, ranges: seq<SectorRange>) returns (res: int)
    requires forall i :: 0 <= i < |images| ==> images[i].cbtMap.Allocated()
    modifies set i | i in images :: i.cbtMap.readMap
    modifies set i | i in images :: i.cbtMap.writeMap
    ensures FindImage(images, devId).None? ==> res == -ENODEV
    ensures FindImage(images, devId).Some? ==>
              var m := images[FindImage(images, devId).value].cbtMap;
              m.Allocated() && (m.State(), res) == CbtMap.MarkDirtySpec(old(m.State()), ranges)
  {
    var found := FindImage(images, devId);
    if found.None? {
      return -ENODEV;
    }
    var m := images[found.value].cbtMap;
    res := SUCCESS;
    var inx := 0;
    while inx < |ranges|
      invariant 0 <= inx <= |ranges|
      invariant m.Allocated()
      invariant CbtMap.MarkDirtySpec(old(m.State()), ranges) == CbtMap.MarkDirtySpec(m.State(), ranges[inx..])
      invariant res == SUCCESS
      decreases |ranges| - inx
    {
      assert ranges[inx..][1..] == ranges[inx + 1..];
      res := m.SetBoth(ranges[inx].sectorOffset, ranges[inx].sectorCount);
      if res != SUCCESS {
        return;
      }
      inx := inx + 1;
    }
  }
}
