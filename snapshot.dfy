/**
 * Snapshot session bookkeeping of module/snapshot.c: the global list of
 * snapshots, their tracker and image arrays, the `is_taken` state with its
 * reverse-order rollback, and the routines that report snapshots and images
 * to user space.
 *
 * Trackers and images are named by device ids. The allocators, uuid_gen,
 * tracker_create_or_get, diff_area_new, tracker_take_snapshot,
 * diff_area_is_corrupted, snapimage_create and copy_to_user are abstract:
 * their outcomes are inputs (per array slot where the source calls them per
 * slot).
 */
module Snapshot {
  import opened Kernel

  function Reverse<T>(s: seq<T>): (r: seq<T>)
    ensures |r| == |s| && forall i :: 0 <= i < |s| ==> r[i] == s[|s| - 1 - i]
  {
    if s == [] then [] else Reverse(s[1..]) + [s[0]]
  }

  // ---------------------------------------------------------------------------
  // The snapshot object (snapshot_new)
  // ---------------------------------------------------------------------------

  /** What snapshot_new allocates, in allocation order. */
  datatype Obj = SnapshotStruct | TrackerArray | SnapimageArray | DiffStorage

  /** The outcomes of snapshot_new's four allocations. */
  datatype NewAllocs = NewAllocs(structOk: bool, trackersOk: bool, imagesOk: bool, storageOk: bool)

  /** The objects obtained before the first allocation that failed. */
  function Obtained(a: NewAllocs): (r: seq<Obj>)
    ensures |r| <= 4
    ensures a.structOk && a.trackersOk && a.imagesOk && a.storageOk <==> |r| == 4
    ensures r == [SnapshotStruct, TrackerArray, SnapimageArray, DiffStorage][..|r|]
  {
    if !a.structOk then []
    else if !a.trackersOk then [SnapshotStruct]
    else if !a.imagesOk then [SnapshotStruct, TrackerArray]
    else if !a.storageOk then [SnapshotStruct, TrackerArray, SnapimageArray]
    else [SnapshotStruct, TrackerArray, SnapimageArray, DiffStorage]
  }

  class Snapshot {
    const id: nat
    const trackerArray: array<Option<nat>>
    const snapimageArray: array<Option<nat>>
    var count: nat
    var isTaken: bool

    ghost predicate Valid()
      reads this
    {
      trackerArray.Length == snapimageArray.Length && count <= trackerArray.Length
      && trackerArray != snapimageArray
    }

    /** The tracker slots in use. */
    ghost function Trackers(): seq<Option<nat>>
      reads this, trackerArray
      requires Valid()
    {
      trackerArray[..count]
    }

    /** The diff_area_new loop of snapshot_take: the first error on a used slot. */
    method CreateDiffAreas(env: TakeEnv) returns (ret: int)
      requires Valid()
      ensures ret == AreaError(Trackers(), env, 0)
    {
      ghost var ts := Trackers();
      var inx := 0;
      while inx < count
        invariant 0 <= inx <= count
        invariant AreaError(ts, env, 0) == AreaError(ts, env, inx)
        decreases count - inx
      {
        if trackerArray[inx].Some? {
          var area := env.areaResult(inx);
          if area != SUCCESS {
            return area;
          }
        }
        inx := inx + 1;
      }
      ret := SUCCESS;
    }

    /** The tracker_take_snapshot loop: stops at the first failing used slot. */
    method TakeTrackers(env: TakeEnv) returns (ret: int, inx: nat)
      requires Valid()
      ensures (ret, inx) == TakeLoop(Trackers(), env, 0, SUCCESS)
    {
      ghost var ts := Trackers();
      ret := SUCCESS;
      inx := 0;
      while inx < count
        invariant 0 <= inx <= count
        invariant ret == SUCCESS
        invariant TakeLoop(ts, env, 0, SUCCESS) == TakeLoop(ts, env, inx, ret)
        decreases count - inx
      {
        if trackerArray[inx].Some? {
          ret := env.takeResult(inx);
          if ret != SUCCESS {
            return;
          }
        }
        inx := inx + 1;
      }
    }

    /** The rollback `while (inx--)`: tracker_release_snapshot on each used slot below inx. */
    method ReleaseTakenBefore(inx0: nat) returns (released: seq<nat>)
      requires Valid() && inx0 <= count
      ensures released == Released(Trackers(), inx0)
    {
      ghost var ts := Trackers();
      released := [];
      var inx := inx0;
      while inx > 0
        invariant 0 <= inx <= inx0
        invariant Released(ts, inx0) == released + Released(ts, inx)
        decreases inx
      {
        inx := inx - 1;
        if trackerArray[inx].Some? {
          released := released + [inx];
        }
      }
    }

    /** The diff_area_is_corrupted loop. */
    method CheckCorrupted(env: TakeEnv) returns (corrupted: bool)
      requires Valid()
      ensures corrupted == AnyCorrupted(Trackers(), env, 0)
    {
      ghost var ts := Trackers();
      var inx := 0;
      while inx < count
        invariant 0 <= inx <= count
        invariant AnyCorrupted(ts, env, 0) == AnyCorrupted(ts, env, inx)
        decreases count - inx
      {
        if trackerArray[inx].Some? && env.corrupted(inx) {
          return true;
        }
        inx := inx + 1;
      }
      corrupted := false;
    }

    /** The snapimage_create loop: fills image slots until the first failure. */
    method CreateImages(env: TakeEnv) returns (ret: int)
      requires Valid()
      modifies snapimageArray
      ensures ret == ImageLoop(count, env, 0).0
      ensures forall i :: 0 <= i < snapimageArray.Length ==>
                snapimageArray[i] == if i < ImageLoop(count, env, 0).1 then Some(env.imageResult(i).value)
                                     else old(snapimageArray[i])
    {
      ret := SUCCESS;
      var inx := 0;
      while inx < count
        invariant 0 <= inx <= count
        invariant ImageLoop(count, env, 0) == ImageLoop(count, env, inx)
        invariant forall i :: 0 <= i < snapimageArray.Length ==>
                    snapimageArray[i] == if i < inx then Some(env.imageResult(i).value) else old(snapimageArray[i])
        decreases count - inx
      {
        var image := env.imageResult(inx);
        if image.Err? {
          return image.code;
        }
        snapimageArray[inx] := Some(image.value);
        inx := inx + 1;
      }
    }

    constructor (id: nat, n: nat)
      ensures this.id == id && Valid() && count == 0 && !isTaken
      ensures fresh(trackerArray) && fresh(snapimageArray) && trackerArray.Length == n
      ensures forall i :: 0 <= i < n ==> trackerArray[i].None? && snapimageArray[i].None?
    {
      this.id := id;
      trackerArray := new Option<nat>[n](_ => None);
      snapimageArray := new Option<nat>[n](_ => None);
      count := 0;
      isTaken := false;
    }
  }

  /**
   * snapshot_new: two NULL-filled arrays of `count` entries, a new uuid and
   * is_taken false; on a failure -ENOMEM, with everything obtained so far
   * freed in reverse order.
   */
  method SnapshotNew(count: nat, a: NewAllocs, newId: nat) returns (r: Snapshot?, err: int, freed: seq<Obj>)
    ensures r != null <==> |Obtained(a)| == 4
    ensures r != null ==> (fresh(r) && fresh(r.trackerArray) && fresh(r.snapimageArray) && r.Valid()
                           && r.id == newId && r.count == 0 && !r.isTaken && r.trackerArray.Length == count
                           && (forall i :: 0 <= i < count ==> r.trackerArray[i].None? && r.snapimageArray[i].None?)
                           && err == SUCCESS && freed == [])
    ensures r == null ==> err == -ENOMEM && freed == Reverse(Obtained(a))
  {
    if !a.structOk {
      return null, -ENOMEM, [];
    }
    if !a.trackersOk {
      return null, -ENOMEM, [SnapshotStruct];
    }
    if !a.imagesOk {
      return null, -ENOMEM, [TrackerArray, SnapshotStruct];
    }
    if !a.storageOk {
      return null, -ENOMEM, [SnapimageArray, TrackerArray, SnapshotStruct];
    }
    r := new Snapshot(newId, count);
    err, freed := SUCCESS, [];
  }

  /** Whatever allocation fails, every object obtained before it is freed exactly once. */
  lemma NewFailureFreesAll(a: NewAllocs)
    requires |Obtained(a)| < 4
    ensures multiset(Reverse(Obtained(a))) == multiset(Obtained(a))
  {
    ReversePermutes(Obtained(a));
  }

  /** Reversal only reorders. */
  lemma {:induction false} ReversePermutes<T>(s: seq<T>)
    ensures multiset(Reverse(s)) == multiset(s)
    decreases |s|
  {
    if s != [] {
      ReversePermutes(s[1..]);
      assert s == [s[0]] + s[1..];
    }
  }

  // ---------------------------------------------------------------------------
  // The list of snapshots
  // ---------------------------------------------------------------------------

  /** snapshot_get_by_id: the first snapshot with that id. */
  function FindById(ss: seq<Snapshot>, id: nat): Option<nat>
  {
    FindFirst(ss, IdOf, id)
  }

  function IdOf(s: Snapshot): nat { s.id }

  /** list_del of entry i. */
  function RemoveAt<T>(s: seq<T>, i: nat): (r: seq<T>)
    requires i < |s|
    ensures |r| == |s| - 1
    ensures forall j :: 0 <= j < i ==> r[j] == s[j]
    ensures forall j :: i <= j < |r| ==> r[j] == s[j + 1]
  {
    s[..i] + s[i + 1..]
  }

  /**
   * The list after snapshot_create as written at module/snapshot.c:243:
   * list_add_tail(&snapshots, &snapshot->link) links the list head into the
   * new snapshot's own one-element ring, so a walk from the head finds only
   * the new snapshot.
   */
  function RegisterAsWritten(ss: seq<Snapshot>, s: Snapshot): seq<Snapshot>
  {
    [s]
  }

  /** The list after snapshot_create as intended: the new snapshot is appended. */
  function Register(ss: seq<Snapshot>, s: Snapshot): seq<Snapshot>
  {
    ss + [s]
  }

  /** As written, creating a second snapshot makes the first unreachable: looking it up by id fails. */
  lemma RegisterAsWrittenLosesSnapshots(ss: seq<Snapshot>, s: Snapshot, id: nat)
    requires FindById(ss, id).Some? && s.id != id
    ensures FindById(RegisterAsWritten(ss, s), id).None?
  {
  }

  /** As intended, every earlier snapshot stays findable and the new one is found by its own (new) id. */
  lemma RegisterKeepsSnapshots(ss: seq<Snapshot>, s: Snapshot, id: nat)
    ensures FindById(ss, id).Some? ==> FindById(Register(ss, s), id) == FindById(ss, id)
    ensures FindById(ss, s.id).None? ==> FindById(Register(ss, s), s.id) == Some(|ss|)
    decreases |ss|
  {
    if ss != [] && ss[0].id != id {
      assert Register(ss, s)[1..] == Register(ss[1..], s);
      RegisterKeepsSnapshots(ss[1..], s, id);
    }
    if ss != [] && ss[0].id != s.id {
      assert Register(ss, s)[1..] == Register(ss[1..], s);
      RegisterKeepsSnapshots(ss[1..], s, s.id);
    }
  }

  /** The error of the first device for which tracker_create_or_get fails, if any. */
  function FirstTrackerError(devIds: seq<nat>, getTracker: nat -> Result<nat>): (r: Option<int>)
    ensures r.None? <==> forall i :: 0 <= i < |devIds| ==> getTracker(devIds[i]).Ok?
    ensures r.Some? ==> exists i :: 0 <= i < |devIds| && getTracker(devIds[i]) == Err(r.value)
                                    && forall j :: 0 <= j < i ==> getTracker(devIds[j]).Ok?
    decreases |devIds|
  {
    if devIds == [] then None
    else if getTracker(devIds[0]).Err? then
      assert getTracker(devIds[0]) == Err(getTracker(devIds[0]).code);
      Some(getTracker(devIds[0]).code)
    else
      var r := FirstTrackerError(devIds[1..], getTracker);
      assert forall i :: 1 <= i < |devIds| ==> devIds[1..][i - 1] == devIds[i];
      if r.Some? then
        var i :| 0 <= i < |devIds[1..]| && getTracker(devIds[1..][i]) == Err(r.value)
                 && forall j :: 0 <= j < i ==> getTracker(devIds[1..][j]).Ok?;
        assert getTracker(devIds[i + 1]) == Err(r.value);
        r
      else r
  }

  /** When every device before k yields a tracker and device k does not, its error is the first one. */
  lemma {:induction false} FirstTrackerErrorAt(devIds: seq<nat>, getTracker: nat -> Result<nat>, k: nat)
    requires k < |devIds| && getTracker(devIds[k]).Err?
    requires forall j :: 0 <= j < k ==> getTracker(devIds[j]).Ok?
    ensures FirstTrackerError(devIds, getTracker) == Some(getTracker(devIds[k]).code)
    decreases k
  {
    if k > 0 {
      assert getTracker(devIds[0]).Ok?;
      forall j | 0 <= j < k - 1 ensures getTracker(devIds[1..][j]).Ok? {
        assert devIds[1..][j] == devIds[j + 1];
      }
      FirstTrackerErrorAt(devIds[1..], getTracker, k - 1);
    }
  }

  /** The per-slot spec of snapshot_take; the step results are inputs indexed by slot. */
  datatype TakeEnv = TakeEnv(
    areaResult: nat -> int,           // diff_area_new
    takeResult: nat -> int,           // tracker_take_snapshot
    corrupted: nat -> bool,           // diff_area_is_corrupted after taking
    imageResult: nat -> Result<nat>)  // snapimage_create

  /** The diff_area_new loop: the first error on a used slot, or SUCCESS. */
  function AreaError(ts: seq<Option<nat>>, env: TakeEnv, i: nat): int
    decreases |ts| - i
  {
    if i >= |ts| then SUCCESS
    else if ts[i].Some? && env.areaResult(i) != SUCCESS then env.areaResult(i)
    else AreaError(ts, env, i + 1)
  }

  /** The tracker_take_snapshot loop: the final `ret` and the index where the loop stopped. */
  function TakeLoop(ts: seq<Option<nat>>, env: TakeEnv, i: nat, ret: int): (r: (int, nat))
    requires i <= |ts|
    ensures i <= r.1 <= |ts|
    decreases |ts| - i
  {
    if i == |ts| then (ret, i)
    else if ts[i].None? then TakeLoop(ts, env, i + 1, ret)
    else if env.takeResult(i) != SUCCESS then (env.takeResult(i), i)
    else TakeLoop(ts, env, i + 1, SUCCESS)
  }

  /** The rollback `while (inx--)`: the used slots below inx, highest first. */
  function Released(ts: seq<Option<nat>>, inx: nat): seq<nat>
    requires inx <= |ts|
  {
    if inx == 0 then []
    else (if ts[inx - 1].Some? then [inx - 1] else []) + Released(ts, inx - 1)
  }

  /** Some used slot's diff area is corrupted. */
  function AnyCorrupted(ts: seq<Option<nat>>, env: TakeEnv, i: nat): bool
    decreases |ts| - i
  {
    if i >= |ts| then false
    else (ts[i].Some? && env.corrupted(i)) || AnyCorrupted(ts, env, i + 1)
  }

  /** The snapimage_create loop from slot i: its result and the slot where it stopped. */
  function ImageLoop(n: nat, env: TakeEnv, i: nat): (r: (int, nat))
    requires i <= n
    ensures i <= r.1 <= n
    ensures forall k :: i <= k < r.1 ==> env.imageResult(k).Ok?
    ensures r.1 < n ==> env.imageResult(r.1).Err? && r.0 == env.imageResult(r.1).code
    ensures r.1 == n ==> r.0 == SUCCESS
    decreases n - i
  {
    if i == n then (SUCCESS, n)
    else if env.imageResult(i).Err? then (env.imageResult(i).code, i)
    else ImageLoop(n, env, i + 1)
  }

  /**
   * The outcome of snapshot_take on a found snapshot: the result, the new
   * is_taken, whether the snapshot leaves the list, the slots released in
   * rollback (in order) and how many image slots were filled.
   */
  datatype TakeOutcome = TakeOutcome(ret: int, taken: bool, removed: bool, released: seq<nat>, images: nat)

  function TakeSpec(isTaken: bool, ts: seq<Option<nat>>, env: TakeEnv): TakeOutcome
  {
    if isTaken then TakeOutcome(-EALREADY, true, false, [], 0)
    else if |ts| == 0 then TakeOutcome(-ENODEV, false, false, [], 0)
    else if AreaError(ts, env, 0) != SUCCESS then TakeOutcome(AreaError(ts, env, 0), false, true, [], 0)
    else
      var (ret, inx) := TakeLoop(ts, env, 0, SUCCESS);
      if ret != SUCCESS then TakeOutcome(ret, false, true, Released(ts, inx), 0)
      else if AnyCorrupted(ts, env, 0) then TakeOutcome(-EFAULT, true, true, [], 0)
      else
        var (r2, k) := ImageLoop(|ts|, env, 0);
        TakeOutcome(r2, true, false, [], k)
  }

  // ---------------------------------------------------------------------------
  // Properties of snapshot_take
  // ---------------------------------------------------------------------------

  /** A taken snapshot or one without devices is refused with no effect. */
  lemma TakeGuards(isTaken: bool, ts: seq<Option<nat>>, env: TakeEnv)
    ensures isTaken ==> TakeSpec(isTaken, ts, env) == TakeOutcome(-EALREADY, true, false, [], 0)
    ensures !isTaken && |ts| == 0 ==> TakeSpec(isTaken, ts, env) == TakeOutcome(-ENODEV, false, false, [], 0)
  {
  }

  /** When the take loop stops with an error, every used slot before it was taken successfully. */
  lemma {:induction false} TakeLoopStop(ts: seq<Option<nat>>, env: TakeEnv, i: nat)
    requires i <= |ts|
    ensures var (r, inx) := TakeLoop(ts, env, i, SUCCESS);
            (forall k :: i <= k < inx && ts[k].Some? ==> env.takeResult(k) == SUCCESS)
            && (r != SUCCESS ==> inx < |ts| && ts[inx].Some? && env.takeResult(inx) == r)
            && (r == SUCCESS ==> inx == |ts|)
    decreases |ts| - i
  {
    if i < |ts| {
      if ts[i].None? || env.takeResult(i) == SUCCESS {
        TakeLoopStop(ts, env, i + 1);
      }
    }
  }

  /** The rollback visits exactly the used slots below inx, each once, from the highest down. */
  lemma {:induction false} ReleasedIsReverseOrder(ts: seq<Option<nat>>, inx: nat)
    requires inx <= |ts|
    ensures forall k :: k in Released(ts, inx) <==> 0 <= k < inx && ts[k].Some?
    ensures forall a, b :: 0 <= a < b < |Released(ts, inx)| ==> Released(ts, inx)[a] > Released(ts, inx)[b]
  {
    if inx > 0 {
      ReleasedIsReverseOrder(ts, inx - 1);
      var rest := Released(ts, inx - 1);
      var r := Released(ts, inx);
      if ts[inx - 1].Some? {
        assert r == [inx - 1] + rest;
        forall a, b | 0 <= a < b < |r|
          ensures r[a] > r[b]
        {
          assert r[b] == rest[b - 1] && rest[b - 1] in rest;
          if a > 0 {
            assert r[a] == rest[a - 1];
          }
        }
      } else {
        assert r == rest;
      }
    }
  }

  /**
   * If taking tracker k fails after the others before it succeeded, the
   * trackers before k are released from k-1 down to 0, the snapshot stays
   * not taken and leaves the list with that error.
   */
  lemma TakeFailureRollsBack(ts: seq<Option<nat>>, env: TakeEnv)
    requires |ts| > 0 && AreaError(ts, env, 0) == SUCCESS
    requires TakeLoop(ts, env, 0, SUCCESS).0 != SUCCESS
    ensures var o := TakeSpec(false, ts, env);
            var inx := TakeLoop(ts, env, 0, SUCCESS).1;
            !o.taken && o.removed && inx < |ts| && o.ret == env.takeResult(inx) && ts[inx].Some?
            && (forall k :: k in o.released <==> 0 <= k < inx && ts[k].Some?)
            && (forall k :: k in o.released ==> env.takeResult(k) == SUCCESS)
            && (forall a, b :: 0 <= a < b < |o.released| ==> o.released[a] > o.released[b])
  {
    TakeLoopStop(ts, env, 0);
    ReleasedIsReverseOrder(ts, TakeLoop(ts, env, 0, SUCCESS).1);
  }

  /** Without corruption and with every step succeeding, the snapshot is taken, stays listed and gets all its images. */
  lemma {:induction false} TakeSucceeds(ts: seq<Option<nat>>, env: TakeEnv)
    requires |ts| > 0
    requires forall i :: 0 <= i < |ts| ==> (env.areaResult(i) == SUCCESS && env.takeResult(i) == SUCCESS
                                            && !env.corrupted(i) && env.imageResult(i).Ok?)
    ensures TakeSpec(false, ts, env) == TakeOutcome(SUCCESS, true, false, [], |ts|)
  {
    AreaOk(ts, env, 0);
    TakeLoopStop(ts, env, 0);
    assert TakeLoop(ts, env, 0, SUCCESS).0 == SUCCESS;
    NoCorruption(ts, env, 0);
    ImagesOk(|ts|, env, 0);
  }

  lemma {:induction false} AreaOk(ts: seq<Option<nat>>, env: TakeEnv, i: nat)
    requires forall k :: i <= k < |ts| ==> env.areaResult(k) == SUCCESS
    ensures AreaError(ts, env, i) == SUCCESS
    decreases |ts| - i
  {
    if i < |ts| {
      AreaOk(ts, env, i + 1);
    }
  }

  lemma {:induction false} NoCorruption(ts: seq<Option<nat>>, env: TakeEnv, i: nat)
    requires forall k :: i <= k < |ts| ==> !env.corrupted(k)
    ensures !AnyCorrupted(ts, env, i)
    decreases |ts| - i
  {
    if i < |ts| {
      NoCorruption(ts, env, i + 1);
    }
  }

  lemma {:induction false} ImagesOk(n: nat, env: TakeEnv, i: nat)
    requires i <= n
    requires forall k :: i <= k < n ==> env.imageResult(k).Ok?
    ensures ImageLoop(n, env, i) == (SUCCESS, n)
    decreases n - i
  {
    if i < n {
      ImagesOk(n, env, i + 1);
    }
  }

  /** A diff area found corrupted after taking: -EFAULT, the snapshot stays taken but leaves the list. */
  lemma TakeCorruptedIsRemoved(ts: seq<Option<nat>>, env: TakeEnv)
    requires |ts| > 0 && AreaError(ts, env, 0) == SUCCESS && TakeLoop(ts, env, 0, SUCCESS).0 == SUCCESS
    requires AnyCorrupted(ts, env, 0)
    ensures TakeSpec(false, ts, env) == TakeOutcome(-EFAULT, true, true, [], 0)
  {
  }

  /** The difference between first-match lookup and index: a removed entry's id may still be listed later. */
  lemma RemoveFirstKeepsOthers(ss: seq<Snapshot>, i: nat, j: nat)
    requires i < |ss| && j < |ss| && j != i
    ensures ss[j] in RemoveAt(ss, i)
  {
    if j < i {
      assert RemoveAt(ss, i)[j] == ss[j];
    } else {
      assert RemoveAt(ss, i)[j - 1] == ss[j];
    }
  }

  /** The first index in [0, n) where copy_to_user fails, or n. */
  function FirstFailure(copyOk: nat -> bool, n: nat): (r: nat)
    ensures r <= n
    ensures forall j :: 0 <= j < r ==> copyOk(j)
    ensures r < n ==> !copyOk(r)
  {
    if n == 0 then 0
    else
      var r := FirstFailure(copyOk, n - 1);
      if r < n - 1 then r else if copyOk(n - 1) then n else n - 1
  }

  /** struct blk_snap_image_info; a NULL slot leaves kcalloc's zero. */
  datatype ImageInfo = ImageInfo(origDevId: nat, imageDevId: nat)

  function OrZero(o: Option<nat>): nat
  {
    if o.Some? then o.value else 0
  }

  class SnapshotList {
    var snapshots: seq<Snapshot>

    constructor ()
      ensures snapshots == []
    {
      snapshots := [];
    }

    /**
     * snapshot_create: a new snapshot with one tracker per device, in input
     * order, appended to the list; the first error of snapshot_new or of
     * tracker_create_or_get is returned and the snapshot dropped.
     */
    method Create(devIds: seq<nat>, a: NewAllocs, newId: nat, getTracker: nat -> Result<nat>)
      returns (ret: int, s: Snapshot?)
      modifies this
      ensures |Obtained(a)| < 4 ==> ret == -ENOMEM && s == null && snapshots == old(snapshots)
      ensures |Obtained(a)| == 4 && FirstTrackerError(devIds, getTracker).Some? ==>
                ret == FirstTrackerError(devIds, getTracker).value && s == null && snapshots == old(snapshots)
      ensures |Obtained(a)| == 4 && FirstTrackerError(devIds, getTracker).None? ==>
                (ret == SUCCESS && s != null && fresh(s) && s.Valid() && s.id == newId && !s.isTaken
                 && s.count == |devIds| && snapshots == Register(old(snapshots), s)
                 && (forall i :: 0 <= i < |devIds| ==> s.trackerArray[i] == Some(getTracker(devIds[i]).value)))
    {
      var sn, err, freed := SnapshotNew(|devIds|, a, newId);
      if sn == null {
        return err, null;
      }
      var inx := 0;
      while inx < |devIds|
        invariant 0 <= inx <= |devIds| && sn.count == inx && sn.Valid() && !sn.isTaken
        invariant forall i :: 0 <= i < inx ==> getTracker(devIds[i]).Ok? && sn.trackerArray[i] == Some(getTracker(devIds[i]).value)
        invariant snapshots == old(snapshots)
        decreases |devIds| - inx
      {
        var tracker := getTracker(devIds[inx]);
        if tracker.Err? {
          FirstTrackerErrorAt(devIds, getTracker, inx);
          return tracker.code, null;
        }
        sn.trackerArray[inx] := Some(tracker.value);
        sn.count := sn.count + 1;
        inx := inx + 1;
      }
      snapshots := Register(snapshots, sn);
      ret, s := SUCCESS, sn;
    }

    /** snapshot_destroy: unlink the first snapshot with that id, or -ENODEV. */
    method Destroy(id: nat) returns (ret: int)
      modifies this
      ensures var f := FindById(old(snapshots), id);
              (f.None? ==> ret == -ENODEV && snapshots == old(snapshots))
              && (f.Some? ==> ret == SUCCESS && snapshots == RemoveAt(old(snapshots), f.value))
    {
      var f := FindById(snapshots, id);
      if f.None? {
        return -ENODEV;
      }
      snapshots := RemoveAt(snapshots, f.value);
      ret := SUCCESS;
    }

    /**
     * snapshot_take. The result and the slots released in rollback follow
     * TakeSpec; a failure after the guards unlinks the snapshot.
     */
    method Take(id: nat, env: TakeEnv) returns (ret: int, released: seq<nat>)
      requires forall i :: 0 <= i < |snapshots| ==> snapshots[i].Valid()
      modifies this, set s | s in snapshots, set s | s in snapshots :: s.snapimageArray
      ensures var f := FindById(old(snapshots), id);
              f.None? ==> ret == -ESRCH && released == [] && snapshots == old(snapshots)
      ensures var f := FindById(old(snapshots), id);
              f.Some? ==>
                var s := old(snapshots)[f.value];
                var o := TakeSpec(old(s.isTaken), old(s.Trackers()), env);
                ret == o.ret && released == o.released && s.isTaken == o.taken
                && snapshots == (if o.removed then RemoveAt(old(snapshots), f.value) else old(snapshots))
                && s.count == old(s.count)
                && (forall i :: 0 <= i < s.snapimageArray.Length ==>
                      s.snapimageArray[i] == if i < o.images then Some(env.imageResult(i).value)
                                             else old(s.snapimageArray[i]))
    {
      var f := FindById(snapshots, id);
      released := [];
      if f.None? {
        return -ESRCH, [];
      }
      var s := snapshots[f.value];
      if s.isTaken {
        return -EALREADY, [];
      }
      if s.count == 0 {
        return -ENODEV, [];
      }
      ret := s.CreateDiffAreas(env);
      if ret != SUCCESS {
        snapshots := RemoveAt(snapshots, f.value);
        return;
      }
      var inx;
      ret, inx := s.TakeTrackers(env);
      if ret != SUCCESS {
        released := s.ReleaseTakenBefore(inx);
        snapshots := RemoveAt(snapshots, f.value);
        return;
      }
      s.isTaken := true;
      var corrupted := s.CheckCorrupted(env);
      if corrupted {
        snapshots := RemoveAt(snapshots, f.value);
        return -EFAULT, [];
      }
      ret := s.CreateImages(env);
    }

    /**
     * snapshot_collect: without an output array only counts; otherwise copies
     * ids in list order, stopping with -ENODATA when `pcount` entries are
     * used up or copy_to_user fails. The count is always reported.
     */
    method Collect(pcount: nat, idArrayGiven: bool, copyOk: nat -> bool) returns (ret: int, count: nat, ids: seq<nat>)
      ensures !idArrayGiven ==> ret == SUCCESS && count == |snapshots| && ids == []
      ensures idArrayGiven ==> count == FirstFailure(copyOk, Min(|snapshots|, pcount))
                               && ret == (if count < |snapshots| then -ENODATA else SUCCESS)
                               && |ids| == count && forall i :: 0 <= i < count ==> ids[i] == snapshots[i].id
    {
      ret, count, ids := SUCCESS, 0, [];
      if snapshots == [] {
        return;
      }
      if !idArrayGiven {
        return SUCCESS, |snapshots|, [];
      }
      var inx := 0;
      while inx < |snapshots|
        invariant 0 <= inx <= |snapshots| && inx <= pcount
        invariant forall j :: 0 <= j < inx ==> copyOk(j)
        invariant |ids| == inx && forall i :: 0 <= i < inx ==> ids[i] == snapshots[i].id
        decreases |snapshots| - inx
      {
        if inx >= pcount || !copyOk(inx) {
          FirstFailureIsFirst(copyOk, Min(|snapshots|, pcount), inx);
          return -ENODATA, inx, ids;
        }
        ids := ids + [snapshots[inx].id];
        inx := inx + 1;
      }
      count := inx;
      FirstFailureIsFirst(copyOk, Min(|snapshots|, pcount), count);
    }

    /**
     * snapshot_collect_images: -ESRCH for an unknown id (count untouched);
     * otherwise the count is always set, with -ENODEV before the snapshot is
     * taken, nothing more without an output array, -ENODATA for too small an
     * array or a failed copy, -ENOMEM when kcalloc fails.
     */
    method CollectImages(id: nat, arrayGiven: bool, pcount: nat, allocOk: bool, copyOk: bool)
      returns (ret: int, pcountOut: nat, infos: seq<ImageInfo>)
      requires forall i :: 0 <= i < |snapshots| ==> snapshots[i].Valid()
      ensures var f := FindById(snapshots, id);
              f.None? ==> ret == -ESRCH && pcountOut == pcount && infos == []
      ensures var f := FindById(snapshots, id);
              f.Some? ==>
                var s := snapshots[f.value];
                pcountOut == s.count
                && ret == (if !s.isTaken then -ENODEV
                           else if !arrayGiven then SUCCESS
                           else if pcount < s.count then -ENODATA
                           else if !allocOk then -ENOMEM
                           else if !copyOk then -ENODATA
                           else SUCCESS)
                && (ret == SUCCESS && arrayGiven ==>
                      s.Valid() && |infos| == s.count
                      && forall i :: 0 <= i < s.count ==>
                           infos[i] == ImageInfo(OrZero(s.trackerArray[i]), OrZero(s.snapimageArray[i])))
    {
      infos := [];
      var f := FindById(snapshots, id);
      if f.None? {
        return -ESRCH, pcount, [];
      }
      var s := snapshots[f.value];
      assert s.Valid();
      pcountOut := s.count;
      if !s.isTaken {
        return -ENODEV, pcountOut, [];
      }
      if !arrayGiven {
        return SUCCESS, pcountOut, [];
      }
      if pcount < s.count {
        return -ENODATA, pcountOut, [];
      }
      if !allocOk {
        return -ENOMEM, pcountOut, [];
      }
      var inx := 0;
      while inx < s.count
        invariant 0 <= inx <= s.count && |infos| == inx
        invariant forall i :: 0 <= i < inx ==>
                    infos[i] == ImageInfo(OrZero(s.trackerArray[i]), OrZero(s.snapimageArray[i]))
        decreases s.count - inx
      {
        infos := infos + [ImageInfo(OrZero(s.trackerArray[inx]), OrZero(s.snapimageArray[inx]))];
        inx := inx + 1;
      }
      ret := if copyOk then SUCCESS else -ENODATA;
    }
  }

  /** FirstFailure is the one index below n with every earlier copy succeeding and its own failing. */
  lemma FirstFailureIsFirst(copyOk: nat -> bool, n: nat, c: nat)
    requires c <= n
    requires forall j :: 0 <= j < c ==> copyOk(j)
    requires c < n ==> !copyOk(c)
    ensures FirstFailure(copyOk, n) == c
  {
  }
}
