// The changed-pixel count of compare_images (rpi/motion_detect.py:105-113):
// every test region is scanned column by column, and a cell counts when the
// green components of the two frames differ by more than the threshold.
// The recursive functions follow the scan's own order; FlaggedCells is an
// independent, set-based reading of the same count.

module ChangeCount {
  import opened Raster

  function Abs(n: int): nat
  {
    if n < 0 then -n else n
  }

  /** Cell (x, y) lies in both frames and its green difference exceeds threshold. */
  predicate Flagged(prev: Frame, cur: Frame, threshold: int, x: int, y: int)
  {
    0 <= x < |prev| && 0 <= x < |cur| && 0 <= y < |prev[x]| && 0 <= y < |cur[x]| &&
    Abs(cur[x][y].green - prev[x][y].green) > threshold
  }

  /** Length of the half-open range lo .. hi - 1 (xrange(lo, hi)). */
  function Span(lo: int, hi: int): nat
  {
    if lo <= hi then hi - lo else 0
  }

  /** Flagged cells of column x among rows y0 .. y1 - 1, in scan order. */
  function CountColumn(prev: Frame, cur: Frame, threshold: int, x: int, y0: int, y1: int): (n: nat)
    ensures n <= Span(y0, y1)
    decreases y1 - y0
  {
    if y1 <= y0 then 0
    else CountColumn(prev, cur, threshold, x, y0, y1 - 1) + (if Flagged(prev, cur, threshold, x, y1 - 1) then 1 else 0)
  }

  /** Flagged cells of columns x0 .. x1 - 1 and rows y0 .. y1 - 1, in scan order. */
  function CountRect(prev: Frame, cur: Frame, threshold: int, x0: int, x1: int, y0: int, y1: int): (n: nat)
    ensures n <= Span(x0, x1) * Span(y0, y1)
    decreases x1 - x0
  {
    if x1 <= x0 then 0
    else
      var n := CountRect(prev, cur, threshold, x0, x1 - 1, y0, y1) + CountColumn(prev, cur, threshold, x1 - 1, y0, y1);
      assert Span(x0, x1) * Span(y0, y1) == Span(x0, x1 - 1) * Span(y0, y1) + Span(y0, y1);
      n
  }

  /** Number of cells of r (1-based inclusive bounds) a test region scan counts. */
  function CountRegion(prev: Frame, cur: Frame, threshold: int, r: Region): (n: nat)
    ensures n <= Area(r)
  {
    CountRect(prev, cur, threshold, r.left - 1, r.right, r.top - 1, r.bottom)
  }

  /** Number of cells the scan of r visits. */
  function Area(r: Region): nat
  {
    Span(r.left - 1, r.right) * Span(r.top - 1, r.bottom)
  }

  /** Total cells of all regions, a region counted once per occurrence. */
  function TotalArea(regions: seq<Region>): nat
  {
    if regions == [] then 0 else TotalArea(regions[..|regions| - 1]) + Area(regions[|regions| - 1])
  }

  /**
   * changed_pixels after scanning the test regions in order: the sum of the
   * per-region counts, so a cell in two regions is counted twice.
   */
  function CountChanged(prev: Frame, cur: Frame, threshold: int, regions: seq<Region>): (n: nat)
    ensures n <= TotalArea(regions)
  {
    if regions == [] then 0
    else
      CountChanged(prev, cur, threshold, regions[..|regions| - 1])
      + CountRegion(prev, cur, threshold, regions[|regions| - 1])
  }

  // ---------------------------------------------------------------------
  // The set-based reference count

  /** The flagged 0-based cells of columns x0 .. x1 - 1 and rows y0 .. y1 - 1. */
  ghost function FlaggedCells(prev: Frame, cur: Frame, threshold: int, x0: int, x1: int, y0: int, y1: int): set<(int, int)>
  {
    set x, y | x0 <= x < x1 && y0 <= y < y1 && Flagged(prev, cur, threshold, x, y) :: (x, y)
  }

  /** The flagged cells of region r: (x, y) with left-1 <= x <= right-1 and top-1 <= y <= bottom-1. */
  ghost function RegionCells(prev: Frame, cur: Frame, threshold: int, r: Region): set<(int, int)>
  {
    FlaggedCells(prev, cur, threshold, r.left - 1, r.right, r.top - 1, r.bottom)
  }

  /** Sum over the regions, in order, of the number of their flagged cells. */
  ghost function SumOfRegionCells(prev: Frame, cur: Frame, threshold: int, regions: seq<Region>): nat
  {
    if regions == [] then 0
    else |RegionCells(prev, cur, threshold, regions[0])| + SumOfRegionCells(prev, cur, threshold, regions[1..])
  }

  lemma {:induction false} CountColumnIsCardinality(prev: Frame, cur: Frame, threshold: int, x: int, y0: int, y1: int)
    ensures CountColumn(prev, cur, threshold, x, y0, y1) == |FlaggedCells(prev, cur, threshold, x, x + 1, y0, y1)|
    decreases y1 - y0
  {
    if y1 <= y0 {
      assert FlaggedCells(prev, cur, threshold, x, x + 1, y0, y1) == {};
    } else {
      CountColumnIsCardinality(prev, cur, threshold, x, y0, y1 - 1);
      var before := FlaggedCells(prev, cur, threshold, x, x + 1, y0, y1 - 1);
      var last := if Flagged(prev, cur, threshold, x, y1 - 1) then {(x, y1 - 1)} else {};
      assert FlaggedCells(prev, cur, threshold, x, x + 1, y0, y1) == before + last;
      assert before * last == {};
    }
  }

  lemma {:induction false} CountRectIsCardinality(prev: Frame, cur: Frame, threshold: int, x0: int, x1: int, y0: int, y1: int)
    ensures CountRect(prev, cur, threshold, x0, x1, y0, y1) == |FlaggedCells(prev, cur, threshold, x0, x1, y0, y1)|
    decreases x1 - x0
  {
    if x1 <= x0 {
      assert FlaggedCells(prev, cur, threshold, x0, x1, y0, y1) == {};
    } else {
      CountRectIsCardinality(prev, cur, threshold, x0, x1 - 1, y0, y1);
      CountColumnIsCardinality(prev, cur, threshold, x1 - 1, y0, y1);
      var before := FlaggedCells(prev, cur, threshold, x0, x1 - 1, y0, y1);
      var column := FlaggedCells(prev, cur, threshold, x1 - 1, x1, y0, y1);
      assert FlaggedCells(prev, cur, threshold, x0, x1, y0, y1) == before + column;
      assert before * column == {};
    }
  }

  /** Scanning a sequence of regions adds up the scans of its parts. */
  lemma {:induction false} CountChangedAppend(prev: Frame, cur: Frame, threshold: int, a: seq<Region>, b: seq<Region>)
    ensures CountChanged(prev, cur, threshold, a + b)
         == CountChanged(prev, cur, threshold, a) + CountChanged(prev, cur, threshold, b)
    decreases |b|
  {
    if b != [] {
      var b' := b[..|b| - 1];
      assert (a + b)[..|a + b| - 1] == a + b';
      CountChangedAppend(prev, cur, threshold, a, b');
    } else {
      assert a + b == a;
    }
  }

  /**
   * The count is the sum, over the regions, of the number of 0-based cells
   * (x, y), left-1 <= x <= right-1, top-1 <= y <= bottom-1, whose green
   * difference exceeds the threshold.
   */
  lemma {:induction false} CountChangedIsSumOfRegionCells(prev: Frame, cur: Frame, threshold: int, regions: seq<Region>)
    ensures CountChanged(prev, cur, threshold, regions) == SumOfRegionCells(prev, cur, threshold, regions)
    decreases |regions|
  {
    if regions != [] {
      var r := regions[0];
      CountChangedAppend(prev, cur, threshold, [r], regions[1..]);
      assert [r] + regions[1..] == regions;
      assert [r][..0] == [];
      CountRectIsCardinality(prev, cur, threshold, r.left - 1, r.right, r.top - 1, r.bottom);
      CountChangedIsSumOfRegionCells(prev, cur, threshold, regions[1..]);
    }
  }

  /** A region listed twice has every flagged cell of it counted twice. */
  lemma RepeatedRegionCountedTwice(prev: Frame, cur: Frame, threshold: int, r: Region)
    ensures CountChanged(prev, cur, threshold, [r, r]) == 2 * |RegionCells(prev, cur, threshold, r)|
  {
    assert [r, r][..1] == [r];
    assert [r][..0] == [];
    CountRectIsCardinality(prev, cur, threshold, r.left - 1, r.right, r.top - 1, r.bottom);
  }

  // ---------------------------------------------------------------------
  // Identical frames and a raised threshold

  lemma {:induction false} IdenticalColumn(f: Frame, threshold: int, x: int, y0: int, y1: int)
    requires threshold >= 0
    ensures CountColumn(f, f, threshold, x, y0, y1) == 0
    decreases y1 - y0
  {
    if y0 < y1 {
      IdenticalColumn(f, threshold, x, y0, y1 - 1);
    }
  }

  lemma {:induction false} IdenticalRect(f: Frame, threshold: int, x0: int, x1: int, y0: int, y1: int)
    requires threshold >= 0
    ensures CountRect(f, f, threshold, x0, x1, y0, y1) == 0
    decreases x1 - x0
  {
    if x0 < x1 {
      IdenticalRect(f, threshold, x0, x1 - 1, y0, y1);
      IdenticalColumn(f, threshold, x1 - 1, y0, y1);
    }
  }

  /** Comparing a frame with itself counts nothing, for any threshold >= 0. */
  lemma {:induction false} IdenticalFramesCountZero(f: Frame, threshold: int, regions: seq<Region>)
    requires threshold >= 0
    ensures CountChanged(f, f, threshold, regions) == 0
    decreases |regions|
  {
    if regions != [] {
      var r := regions[|regions| - 1];
      IdenticalFramesCountZero(f, threshold, regions[..|regions| - 1]);
      IdenticalRect(f, threshold, r.left - 1, r.right, r.top - 1, r.bottom);
    }
  }

  lemma {:induction false} ThresholdMonotoneColumn(prev: Frame, cur: Frame, lo: int, hi: int, x: int, y0: int, y1: int)
    requires lo <= hi
    ensures CountColumn(prev, cur, hi, x, y0, y1) <= CountColumn(prev, cur, lo, x, y0, y1)
    decreases y1 - y0
  {
    if y0 < y1 {
      ThresholdMonotoneColumn(prev, cur, lo, hi, x, y0, y1 - 1);
    }
  }

  lemma {:induction false} ThresholdMonotoneRect(prev: Frame, cur: Frame, lo: int, hi: int, x0: int, x1: int, y0: int, y1: int)
    requires lo <= hi
    ensures CountRect(prev, cur, hi, x0, x1, y0, y1) <= CountRect(prev, cur, lo, x0, x1, y0, y1)
    decreases x1 - x0
  {
    if x0 < x1 {
      ThresholdMonotoneRect(prev, cur, lo, hi, x0, x1 - 1, y0, y1);
      ThresholdMonotoneColumn(prev, cur, lo, hi, x1 - 1, y0, y1);
    }
  }

  /** Raising the threshold, frames and regions fixed, never raises the count. */
  lemma {:induction false} ThresholdMonotone(prev: Frame, cur: Frame, lo: int, hi: int, regions: seq<Region>)
    requires lo <= hi
    ensures CountChanged(prev, cur, hi, regions) <= CountChanged(prev, cur, lo, regions)
    decreases |regions|
  {
    if regions != [] {
      var r := regions[|regions| - 1];
      ThresholdMonotone(prev, cur, lo, hi, regions[..|regions| - 1]);
      ThresholdMonotoneRect(prev, cur, lo, hi, r.left - 1, r.right, r.top - 1, r.bottom);
    }
  }

  // ---------------------------------------------------------------------
  // Order of the frames

  lemma {:induction false} SwapFramesColumn(a: Frame, b: Frame, threshold: int, x: int, y0: int, y1: int)
    ensures CountColumn(a, b, threshold, x, y0, y1) == CountColumn(b, a, threshold, x, y0, y1)
    decreases y1 - y0
  {
    if y0 < y1 {
      SwapFramesColumn(a, b, threshold, x, y0, y1 - 1);
    }
  }

  lemma {:induction false} SwapFramesRect(a: Frame, b: Frame, threshold: int, x0: int, x1: int, y0: int, y1: int)
    ensures CountRect(a, b, threshold, x0, x1, y0, y1) == CountRect(b, a, threshold, x0, x1, y0, y1)
    decreases x1 - x0
  {
    if x0 < x1 {
      SwapFramesRect(a, b, threshold, x0, x1 - 1, y0, y1);
      SwapFramesColumn(a, b, threshold, x1 - 1, y0, y1);
    }
  }

  /** The count does not depend on which frame is the previous one: reverting a change counts as a change. */
  lemma {:induction false} SwapFrames(a: Frame, b: Frame, threshold: int, regions: seq<Region>)
    ensures CountChanged(a, b, threshold, regions) == CountChanged(b, a, threshold, regions)
    decreases |regions|
  {
    if regions != [] {
      var r := regions[|regions| - 1];
      SwapFrames(a, b, threshold, regions[..|regions| - 1]);
      SwapFramesRect(a, b, threshold, r.left - 1, r.right, r.top - 1, r.bottom);
    }
  }
}
