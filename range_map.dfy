/**
 * The range helpers of the diff-storage test in tests/cpp/diff_storage.cpp:
 * the binary search for the range holding a sector (FindRange), the
 * clipping of a write range to one available range (NormalizeRange) and
 * the loop of GenerateRangeMap that splits the device at sorted clip points
 * into an available part and a diff-storage part.
 *
 * Sectors are sector_t (uint64_t) and the sums below are taken modulo 2^64
 * as the test computes them. The values drawn from std::rand() are inputs.
 */
module RangeMap {
  import opened Kernel

  /** blksnap::SRange. */
  datatype SRange = SRange(sector: U64Val, count: U64Val)

  /** rg.sector + rg.count in sector_t arithmetic. */
  function EndOf(rg: SRange): U64Val
  {
    (rg.sector + rg.count) % U64
  }

  /** rg.sector + rg.count - 1 in sector_t arithmetic: the last sector of a range. */
  function LastOf(rg: SRange): U64Val
  {
    (rg.sector + rg.count + U64 - 1) % U64
  }

  /** The test FindRange applies: the upper bound is inclusive, so the sector just past a range matches it too. */
  predicate Matches(rg: SRange, sector: U64Val)
  {
    rg.sector <= sector <= EndOf(rg)
  }

  /** Both the starts and the ends of the ranges are in ascending order, as in a sorted list of disjoint ranges. */
  ghost predicate Ordered(area: seq<SRange>)
  {
    forall i, j :: 0 <= i < j < |area| ==> area[i].sector <= area[j].sector && EndOf(area[i]) <= EndOf(area[j])
  }

  // ---------------------------------------------------------------------------
  // FindRange
  // ---------------------------------------------------------------------------

  /**
   * The search of FindRange between leftLimit and rightLimit. A sector below
   * the first range would make the size_t rightLimit wrap below 0, so the
   * search is defined only for sectors at or after area[0].sector.
   */
  function Search(area: seq<SRange>, sector: U64Val, left: nat, right: nat): (r: Option<SRange>)
    requires left <= right + 1 && right < |area|
    requires area[0].sector <= sector
    ensures r.Some? ==> r.value in area && Matches(r.value, sector)
    decreases right + 1 - left
  {
    if left > right then None
    else
      var inx := left + (right - left) / 2;
      if sector < area[inx].sector then
        if right == inx then Search(area, sector, left, right - 1) else Search(area, sector, left, inx)
      else if sector > EndOf(area[inx]) then
        if left == inx then Search(area, sector, left + 1, right) else Search(area, sector, inx, right)
      else Some(area[inx])
  }

  /** On ordered ranges, a range holding the sector lies left of every range starting after the sector and right of every range ending before it. */
  lemma OrderedMatch(area: seq<SRange>, sector: U64Val, i: nat, j: nat)
    requires Ordered(area)
    requires i < |area| && j < |area| && Matches(area[j], sector)
    ensures sector < area[i].sector ==> j < i
    ensures sector > EndOf(area[i]) ==> j > i
  {
    if i < j {
      assert area[i].sector <= area[j].sector && EndOf(area[i]) <= EndOf(area[j]);
    } else if j < i {
      assert area[j].sector <= area[i].sector && EndOf(area[j]) <= EndOf(area[i]);
    }
  }

  /**
   * On ordered ranges the search misses nothing: when some range between
   * the limits holds the sector, one is found.
   */
  lemma {:induction false} SearchComplete(area: seq<SRange>, sector: U64Val, left: nat, right: nat, j: nat)
    requires left <= right + 1 && right < |area|
    requires area[0].sector <= sector
    requires Ordered(area)
    requires left <= j <= right && Matches(area[j], sector)
    ensures Search(area, sector, left, right).Some?
    decreases right + 1 - left
  {
    var inx := left + (right - left) / 2;
    SearchStep(area, sector, left, right);
    OrderedMatch(area, sector, inx, j);
    if sector < area[inx].sector {
      // The range holding the sector lies left of inx, so inx is not the left end and rightLimit moves to inx.
      assert j < inx < right;
      SearchComplete(area, sector, left, inx, j);
    } else if sector > EndOf(area[inx]) {
      assert j > inx;
      if left == inx {
        SearchComplete(area, sector, left + 1, right, j);
      } else {
        SearchComplete(area, sector, inx, right, j);
      }
    }
  }

  /** The whole search of FindRange over a non-empty list. */
  function Find(area: seq<SRange>, sector: U64Val): (r: Option<SRange>)
    requires |area| > 0 && area[0].sector <= sector
    ensures r.Some? ==> r.value in area && Matches(r.value, sector)
  {
    Search(area, sector, 0, |area| - 1)
  }

  /** On ordered ranges FindRange succeeds exactly when some range holds the sector. */
  lemma FindComplete(area: seq<SRange>, sector: U64Val)
    requires |area| > 0 && area[0].sector <= sector
    requires Ordered(area)
    ensures Find(area, sector).Some? <==> exists j :: 0 <= j < |area| && Matches(area[j], sector)
  {
    if j :| 0 <= j < |area| && Matches(area[j], sector) {
      SearchComplete(area, sector, 0, |area| - 1, j);
    }
  }

  /** One halving step of Search, between limits that still hold a range. */
  lemma SearchStep(area: seq<SRange>, sector: U64Val, left: nat, right: nat)
    requires left <= right < |area|
    requires area[0].sector <= sector
    ensures var inx := left + (right - left) / 2;
      Search(area, sector, left, right) ==
        if sector < area[inx].sector then
          (if right == inx then Search(area, sector, left, right - 1) else Search(area, sector, left, inx))
        else if sector > EndOf(area[inx]) then
          (if left == inx then Search(area, sector, left + 1, right) else Search(area, sector, inx, right))
        else Some(area[inx])
  {
  }

  /**
   * FindRange: binary search by halving [leftLimit, rightLimit]; `rg` is
   * the caller's range, overwritten only when a range is found. The list
   * must not be empty (area.size() - 1 would wrap) and the sector must not
   * lie before the first range (rightLimit-- would wrap at index 0).
   */
  method FindRange(area: seq<SRange>, sector: U64Val, rg: SRange) returns (found: bool, rgOut: SRange)
    requires |area| > 0
    requires area[0].sector <= sector
    ensures found <==> Find(area, sector).Some?
    ensures found ==> rgOut == Find(area, sector).value && rgOut in area && Matches(rgOut, sector)
    ensures !found ==> rgOut == rg
  {
    var leftLimit: nat := 0;
    var rightLimit: nat := |area| - 1;
    found, rgOut := false, rg;
    while leftLimit <= rightLimit
      invariant leftLimit <= rightLimit + 1 && rightLimit < |area|
      invariant Search(area, sector, leftLimit, rightLimit) == Find(area, sector)
      decreases rightLimit + 1 - leftLimit
    {
      var inx := leftLimit + (rightLimit - leftLimit) / 2;
      SearchStep(area, sector, leftLimit, rightLimit);
      if sector < area[inx].sector {
        if rightLimit == inx {
          rightLimit := rightLimit - 1;
        } else {
          rightLimit := inx;
        }
        continue;
      }
      if sector > EndOf(area[inx]) {
        if leftLimit == inx {
          leftLimit := leftLimit + 1;
        } else {
          leftLimit := inx;
        }
        continue;
      }
      found, rgOut := true, area[inx];
      break;
    }
  }

  // ---------------------------------------------------------------------------
  // NormalizeRange
  // ---------------------------------------------------------------------------

  /** The clipping of NormalizeRange: rg's first and last sector pulled into `avail`, and the count recomputed. */
  function Clip(avail: SRange, rg: SRange): SRange
  {
    var from := if rg.sector < avail.sector then avail.sector else rg.sector;
    var to := if LastOf(rg) > LastOf(avail) then LastOf(avail) else LastOf(rg);
    SRange(from, (to + U64 - from + 1) % U64)
  }

  /**
   * NormalizeRange: false when neither the first nor the last sector of rg
   * falls in an available range; otherwise rg is clipped to the range found
   * for the first sector or, failing that, for the last one.
   */
  method NormalizeRange(availableRanges: seq<SRange>, rg: SRange) returns (ok: bool, rgOut: SRange)
    requires |availableRanges| > 0
    requires availableRanges[0].sector <= rg.sector && availableRanges[0].sector <= LastOf(rg)
    ensures ok <==> Find(availableRanges, rg.sector).Some? || Find(availableRanges, LastOf(rg)).Some?
    ensures !ok ==> rgOut == rg
    ensures ok ==> var avail := if Find(availableRanges, rg.sector).Some? then Find(availableRanges, rg.sector).value
                               else Find(availableRanges, LastOf(rg)).value;
                   avail in availableRanges && rgOut == Clip(avail, rg)
  {
    var from := rg.sector;
    var to := LastOf(rg);
    var availableRange := SRange(0, 0);
    var foundFrom, foundTo;
    foundFrom, availableRange := FindRange(availableRanges, from, availableRange);
    if !foundFrom {
      foundTo, availableRange := FindRange(availableRanges, to, availableRange);
      if !foundTo {
        return false, rg;
      }
    }
    if from < availableRange.sector {
      from := availableRange.sector;
    }
    if to > LastOf(availableRange) {
      to := LastOf(availableRange);
    }
    rgOut := SRange(from, (to + U64 - from + 1) % U64);
    ok := true;
  }

  /**
   * For ranges that do not wrap, the clipped range starts at the later of the
   * two starts and ends at the earlier of the two ends, so it lies inside
   * both. Because the match is inclusive at the top, the clip can be empty:
   * that happens exactly when rg starts on the sector just past `avail`.
   */
  lemma ClipInsideBoth(avail: SRange, rg: SRange)
    requires avail.count >= 1 && avail.sector + avail.count < U64
    requires rg.count >= 1 && rg.sector + rg.count <= U64
    requires Matches(avail, rg.sector) || Matches(avail, LastOf(rg))
    ensures var r := Clip(avail, rg);
            r.sector == Max(rg.sector, avail.sector)
            && r.sector + r.count <= rg.sector + rg.count
            && r.sector + r.count <= avail.sector + avail.count
            && r.count == Min(rg.sector + rg.count, avail.sector + avail.count) - r.sector
            && (r.count == 0 <==> rg.sector == avail.sector + avail.count)
  {
    assert LastOf(rg) == rg.sector + rg.count - 1;
    assert LastOf(avail) == avail.sector + avail.count - 1;
  }

  /**
   * An instance: with one available range of sectors [0, 100), a write of 8
   * sectors at sector 100 is accepted, and normalised to an empty range.
   */
  lemma EmptyClipExample()
    ensures Find([SRange(0, 100)], 100) == Some(SRange(0, 100))
    ensures Clip(SRange(0, 100), SRange(100, 8)) == SRange(100, 0)
  {
    assert Search([SRange(0, 100)], 100, 0, 0) == Some(SRange(0, 100));
  }

  // ---------------------------------------------------------------------------
  // The partition loop of GenerateRangeMap
  // ---------------------------------------------------------------------------

  /** RAND_MAX + 1 for the C library's rand(). */
  const RAND_RANGE: nat := 0x8000_0000

  /**
   * diffStoreRangeSize for a clip of `clipSize` sectors and the value `draw`
   * of std::rand(): (8 + draw / ((RAND_MAX + 1) / (clipSize >> 1))) & ~7.
   * The divisor is zero once clipSize >> 1 exceeds RAND_MAX + 1; the test
   * then divides by zero, and this function yields 0.
   */
  function DiffSize(clipSize: nat, draw: nat): nat
  {
    var half := clipSize / 2;
    var k := if half == 0 then 0 else RAND_RANGE / half;
    if k == 0 then 0 else ((8 + draw / k) / 8) * 8
  }

  /**
   * For a clip of more than 16 sectors on a device of at most 2^31 sectors,
   * the diff part is a positive multiple of 8 that fits in the clip.
   */
  lemma DiffSizeFits(clipSize: nat, draw: nat)
    requires 16 < clipSize <= RAND_RANGE && draw < RAND_RANGE
    ensures 8 <= DiffSize(clipSize, draw) <= clipSize
    ensures DiffSize(clipSize, draw) % 8 == 0
  {
    var h := clipSize / 2;
    DivisorBounds(h);
    var k := RAND_RANGE / h;
    var q := draw / k;
    DivLowerBound(draw, k, q);
    assert q * k <= draw;
    assert RAND_RANGE < (k + 1) * h;
    assert q * k < (k + 1) * h;
    QuotientBound(h, k, q);
    RoundedDown(clipSize, draw, h, k, q);
  }

  /** The divisor (RAND_MAX + 1) / h for h = clipSize >> 1 between 8 and 2^30. */
  lemma DivisorBounds(h: nat)
    requires 8 <= h && 2 * h <= RAND_RANGE
    ensures var k := RAND_RANGE / h;
            k >= 2 && (h < 14 ==> k >= 14) && RAND_RANGE < (k + 1) * h
  {
    var k := RAND_RANGE / h;
    DivLowerBound(RAND_RANGE, h, 2);
    if h < 14 {
      DivLowerBound(RAND_RANGE, h, 14);
    }
    DivUpperBound(RAND_RANGE, h, k);
  }

  /** The final & ~7: with 8 + q within the clip, rounding down to a multiple of 8 keeps it in [8, clipSize]. */
  lemma RoundedDown(clipSize: nat, draw: nat, h: nat, k: nat, q: nat)
    requires 16 < clipSize && h == clipSize / 2 && k == RAND_RANGE / h && k >= 2 && q == draw / k
    requires q + 8 <= 2 * h
    ensures 8 <= DiffSize(clipSize, draw) <= clipSize
    ensures DiffSize(clipSize, draw) % 8 == 0
  {
    var x := 8 + q;
    assert DiffSize(clipSize, draw) == (x / 8) * 8;
  }

  /**
   * The arithmetic core of DiffSizeFits: q * k < (k + 1) * h gives
   * q < h + h / k, which stays below 2h - 7 for the divisors k that occur.
   */
  lemma QuotientBound(h: nat, k: nat, q: nat)
    requires h >= 8 && k >= 2 && (h < 14 ==> k >= 14)
    requires q * k < (k + 1) * h
    ensures q + 8 <= 2 * h
  {
    if q + 8 > 2 * h {
      var p := h * k;
      MulMonotoneRight(k, 2 * h - 7, q);
      assert (2 * h - 7) * k == 2 * p - 7 * k;
      assert (k + 1) * h == p + h;
      assert p - 7 * k < h;
      assert p - 7 * k == k * (h - 7);
      if h >= 14 {
        MulMonotoneRight(h - 7, 2, k);
      } else {
        MulMonotoneRight(k, 1, h - 7);
      }
    }
  }

  lemma MulMonotoneRight(k: nat, a: nat, b: nat)
    requires a <= b
    ensures a * k <= b * k
  {
  }

  /** Ascending clip points, as std::sort leaves them. */
  ghost predicate Sorted(clip: seq<U64Val>)
  {
    forall i, j :: 0 <= i < j < |clip| ==> clip[i] <= clip[j]
  }

  /**
   * The clip points the loop keeps from index `from` on, with prevOffset =
   * `prev`: each point more than 16 sectors past the last one kept.
   */
  function Kept(clip: seq<U64Val>, from: nat, prev: nat): (r: seq<nat>)
    requires from <= |clip|
    ensures |r| <= |clip| - from
    decreases |clip| - from
  {
    if from == |clip| then []
    else if clip[from] - prev <= 16 then Kept(clip, from + 1, prev)
    else [clip[from]] + Kept(clip, from + 1, clip[from])
  }

  /** The kept points are clip points, and each lies more than 16 sectors past its predecessor. */
  lemma {:induction false} KeptSteps(clip: seq<U64Val>, from: nat, prev: nat)
    requires from <= |clip|
    ensures forall j :: 0 <= j < |Kept(clip, from, prev)| ==> Kept(clip, from, prev)[j] in clip
    ensures |Kept(clip, from, prev)| > 0 ==> Kept(clip, from, prev)[0] > prev + 16
    ensures forall j :: 0 < j < |Kept(clip, from, prev)| ==> Kept(clip, from, prev)[j] > Kept(clip, from, prev)[j - 1] + 16
    decreases |clip| - from
  {
    if from < |clip| {
      var prev1: nat := if clip[from] - prev <= 16 then prev else clip[from];
      var rest := Kept(clip, from + 1, prev1);
      KeptSteps(clip, from + 1, prev1);
      if clip[from] - prev > 16 {
        var ks := Kept(clip, from, prev);
        assert ks == [clip[from]] + rest;
        forall j | 0 <= j < |ks| ensures ks[j] in clip {
          if j > 0 {
            assert ks[j] == rest[j - 1];
          }
        }
        forall j | 0 < j < |ks| ensures ks[j] > ks[j - 1] + 16 {
          assert ks[j] == rest[j - 1];
          if j >= 2 {
            assert ks[j - 1] == rest[j - 2];
          }
        }
      }
    }
  }

  /** The kept points ascend strictly. */
  lemma KeptAscending(clip: seq<U64Val>, from: nat, prev: nat, i: nat, j: nat)
    requires from <= |clip|
    requires i < j < |Kept(clip, from, prev)|
    ensures Kept(clip, from, prev)[i] < Kept(clip, from, prev)[j]
    decreases j - i
  {
    KeptSteps(clip, from, prev);
    if i + 1 < j {
      KeptAscending(clip, from, prev, i, j - 1);
    }
  }

  /** All the kept points, not just neighbours, ascend strictly. */
  lemma KeptOrdered(clip: seq<U64Val>, prev: nat)
    ensures forall i, j :: 0 <= i < j < |Kept(clip, 0, prev)| ==> Kept(clip, 0, prev)[i] < Kept(clip, 0, prev)[j]
  {
    forall i, j | 0 <= i < j < |Kept(clip, 0, prev)|
      ensures Kept(clip, 0, prev)[i] < Kept(clip, 0, prev)[j]
    {
      KeptAscending(clip, 0, prev, i, j);
    }
  }

  /** One pass of the loop over the clip points: the point at inx is skipped, or moved to the kept points already done. */
  lemma KeptAdvance(clip: seq<U64Val>, inx: nat, prev: nat, done: seq<nat>, ks: seq<nat>)
    requires inx < |clip| && prev <= clip[inx]
    requires done + Kept(clip, inx, prev) == ks
    ensures clip[inx] - prev <= 16 ==> done + Kept(clip, inx + 1, prev) == ks
    ensures clip[inx] - prev > 16 ==> (done + [clip[inx]]) + Kept(clip, inx + 1, clip[inx]) == ks
  {
    if clip[inx] - prev > 16 {
      var rest := Kept(clip, inx + 1, clip[inx]);
      assert (done + [clip[inx]]) + rest == done + ([clip[inx]] + rest);
    }
  }

  /**
   * The j-th available range starts at the previous point (0 for the
   * first), the j-th diff range follows it and ends at points[j], and the
   * diff range has the size DiffSize draws for that clip: a multiple of 8
   * sectors, at least 8.
   */
  ghost predicate TileAt(avail: seq<SRange>, diff: seq<SRange>, points: seq<nat>, draws: seq<nat>, j: int)
  {
    0 <= j < |points| && j < |avail| && j < |diff| && j < |draws|
    && var prev := if j == 0 then 0 else points[j - 1];
       avail[j].sector == prev
       && avail[j].sector + avail[j].count == diff[j].sector
       && diff[j].sector + diff[j].count == points[j]
       && diff[j].count == DiffSize(points[j] - prev, draws[j])
       && diff[j].count >= 8 && diff[j].count % 8 == 0
  }

  /** The available and diff ranges tile [0, last point): one pair per point. */
  ghost predicate Tiles(avail: seq<SRange>, diff: seq<SRange>, points: seq<nat>, draws: seq<nat>)
  {
    |avail| == |points| && |diff| == |points| && |points| <= |draws|
    && forall j :: 0 <= j < |points| ==> TileAt(avail, diff, points, draws, j)
  }

  /** Appending the two ranges of one more clip keeps the tiling. */
  lemma TilesAppend(avail: seq<SRange>, diff: seq<SRange>, points: seq<nat>, draws: seq<nat>,
                    a: SRange, d: SRange, point: nat)
    requires Tiles(avail, diff, points, draws)
    requires |points| < |draws|
    requires var prev := if points == [] then 0 else points[|points| - 1];
             a.sector == prev && a.sector + a.count == d.sector && d.sector + d.count == point
             && d.count == DiffSize(point - prev, draws[|points|]) && d.count >= 8 && d.count % 8 == 0
    ensures Tiles(avail + [a], diff + [d], points + [point], draws)
  {
    var avail', diff', points' := avail + [a], diff + [d], points + [point];
    forall j | 0 <= j < |points'|
      ensures TileAt(avail', diff', points', draws, j)
    {
      if j < |points| {
        assert TileAt(avail, diff, points, draws, j);
        if j > 0 {
          assert points'[j - 1] == points[j - 1];
        }
      }
    }
  }

  /** Over ascending points, every diff range ends at or before every later available range starts. */
  lemma TilesOrdered(avail: seq<SRange>, diff: seq<SRange>, points: seq<nat>, draws: seq<nat>)
    requires Tiles(avail, diff, points, draws)
    requires forall i, j :: 0 <= i < j < |points| ==> points[i] < points[j]
    ensures forall i, j :: 0 <= i < j < |diff| ==> diff[i].sector + diff[i].count <= avail[j].sector
  {
    forall i, j | 0 <= i < j < |diff|
      ensures diff[i].sector + diff[i].count <= avail[j].sector
    {
      assert TileAt(avail, diff, points, draws, i) && TileAt(avail, diff, points, draws, j);
      if i < j - 1 {
        assert points[i] < points[j - 1];
      }
    }
  }

  /**
   * The state of the loop of GenerateRangeMap before clip point inx: the
   * points kept so far are `done`, with the rest of Kept still to come;
   * prev is the last of them (0 before the first); and the ranges emitted
   * so far tile up to it.
   */
  ghost predicate Progress(clip: seq<U64Val>, draws: seq<nat>, inx: nat, prev: nat, done: seq<nat>,
                           avail: seq<SRange>, diff: seq<SRange>)
  {
    inx <= |clip| && |done| <= inx
    && done + Kept(clip, inx, prev) == Kept(clip, 0, 0)
    && prev == (if done == [] then 0 else done[|done| - 1])
    && (inx < |clip| ==> prev <= clip[inx])
    && Tiles(avail, diff, done, draws)
  }

  lemma ProgressStart(clip: seq<U64Val>, draws: seq<nat>)
    ensures Progress(clip, draws, 0, 0, [], [], [])
  {
  }

  /** A clip of at most 16 sectors is skipped without moving prev. */
  lemma ProgressSkip(clip: seq<U64Val>, draws: seq<nat>, inx: nat, prev: nat, done: seq<nat>,
                     avail: seq<SRange>, diff: seq<SRange>)
    requires Sorted(clip)
    requires Progress(clip, draws, inx, prev, done, avail, diff)
    requires inx < |clip| && clip[inx] - prev <= 16
    ensures Progress(clip, draws, inx + 1, prev, done, avail, diff)
  {
    KeptAdvance(clip, inx, prev, done, Kept(clip, 0, 0));
    if inx + 1 < |clip| {
      assert clip[inx] <= clip[inx + 1];
    }
  }

  /** A longer clip is split into an available and a diff range and its point is kept. */
  lemma ProgressKeep(clip: seq<U64Val>, draws: seq<nat>, inx: nat, prev: nat, done: seq<nat>,
                     avail: seq<SRange>, diff: seq<SRange>)
    requires Sorted(clip)
    requires Progress(clip, draws, inx, prev, done, avail, diff)
    requires inx < |clip| && clip[inx] - prev > 16 && clip[inx] <= RAND_RANGE
    requires |done| < |draws| && draws[|done|] < RAND_RANGE
    ensures var point := clip[inx];
            var size := DiffSize(point - prev, draws[|done|]);
            8 <= size <= point - prev
            && Progress(clip, draws, inx + 1, point, done + [point],
                        avail + [SRange(prev, point - prev - size)], diff + [SRange(point - size, size)])
  {
    var point := clip[inx];
    var size := DiffSize(point - prev, draws[|done|]);
    KeptAdvance(clip, inx, prev, done, Kept(clip, 0, 0));
    DiffSizeFits(point - prev, draws[|done|]);
    TilesAppend(avail, diff, done, draws, SRange(prev, point - prev - size), SRange(point - size, size), point);
    if inx + 1 < |clip| {
      assert clip[inx] <= clip[inx + 1];
    }
  }

  /** After the last clip point the kept points are exactly Kept. */
  lemma ProgressEnd(clip: seq<U64Val>, draws: seq<nat>, prev: nat, done: seq<nat>, avail: seq<SRange>, diff: seq<SRange>)
    requires Progress(clip, draws, |clip|, prev, done, avail, diff)
    ensures done == Kept(clip, 0, 0) && Tiles(avail, diff, Kept(clip, 0, 0), draws)
  {
    assert done + [] == done;
  }

  /**
   * The second loop of GenerateRangeMap. `draws` are the values std::rand()
   * returns, one per kept clip, in order. Each kept clip [prev, point) is
   * split into an available range followed by a diff-storage range, the two
   * covering it exactly; the diff range is a multiple of 8 sectors; clips of
   * at most 16 sectors are skipped without moving prev; so the ranges tile
   * the device from sector 0 to the last kept point, in ascending order.
   */
  method GenerateRangeMap(clip: seq<U64Val>, draws: seq<nat>) returns (availableRanges: seq<SRange>,
                                                                      diffStorageRanges: seq<SRange>)
    requires Sorted(clip)
    requires forall i :: 0 <= i < |clip| ==> clip[i] <= RAND_RANGE
    requires |draws| >= |clip| && forall i :: 0 <= i < |draws| ==> draws[i] < RAND_RANGE
    ensures Tiles(availableRanges, diffStorageRanges, Kept(clip, 0, 0), draws)
    ensures forall i, j :: 0 <= i < j < |diffStorageRanges| ==>
              diffStorageRanges[i].sector + diffStorageRanges[i].count <= availableRanges[j].sector
  {
    availableRanges, diffStorageRanges := [], [];
    ghost var done: seq<nat> := [];
    var prevOffset: nat := 0;
    var kept := 0;
    var inx := 0;
    ProgressStart(clip, draws);
    while inx < |clip|
      invariant Progress(clip, draws, inx, prevOffset, done, availableRanges, diffStorageRanges)
      invariant kept == |done|
      decreases |clip| - inx
    {
      var currentOffset := clip[inx];
      var clipSize := currentOffset - prevOffset;
      if clipSize <= 16 {
        ProgressSkip(clip, draws, inx, prevOffset, done, availableRanges, diffStorageRanges);
        inx := inx + 1;
        continue;
      }
      var diffStoreRangeSize := DiffSize(clipSize, draws[kept]);
      ProgressKeep(clip, draws, inx, prevOffset, done, availableRanges, diffStorageRanges);
      availableRanges := availableRanges + [SRange(prevOffset, clipSize - diffStoreRangeSize)];
      diffStorageRanges := diffStorageRanges + [SRange(currentOffset - diffStoreRangeSize, diffStoreRangeSize)];
      done := done + [currentOffset];
      kept := kept + 1;
      prevOffset := currentOffset;
      inx := inx + 1;
    }
    ProgressEnd(clip, draws, prevOffset, done, availableRanges, diffStorageRanges);
    KeptOrdered(clip, 0);
    TilesOrdered(availableRanges, diffStorageRanges, done, draws);
  }
}
