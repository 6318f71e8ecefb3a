// MotionDetector (rpi/motion_detect.py:33-165): the stored configuration,
// the previous frame kept between calls, and compare_images.

module Detector {
  import opened Raster
  import opened ChangeCount
  import opened Overlay

  /** The second thing compare_images returns. */
  datatype Shown =
    | Nothing                          // no debug image (verbose <= 1)
    | TheNewImage                      // the first call hands the new image back
    | Debug(overlay: array2<Pixel>)    // the debug image (verbose > 1)

  /** The region that covers a width x height frame: [[1, width], [1, height]]. */
  function WholeFrame(width: int, height: int): Region
  {
    Region(1, width, 1, height)
  }

  /**
   * The test regions in force: the given list, or the whole frame when none
   * (or an empty list) is given.
   */
  function SelectRegions(width: int, height: int, testBorders: Option<seq<Region>>): (regions: seq<Region>)
    ensures regions != []
    ensures testBorders.Some? && testBorders.value != [] ==> regions == testBorders.value
    ensures testBorders.None? || testBorders.value == [] ==>
              |regions| == 1 &&
              forall x, y :: 0 <= x < width && 0 <= y < height ==> InRegion(regions[0], x, y)
    ensures width >= 1 && height >= 1 && (testBorders.Some? ==> ValidRegions(testBorders.value, width, height)) ==>
              ValidRegions(regions, width, height)
  {
    if testBorders.None? || testBorders.value == [] then [WholeFrame(width, height)]
    else testBorders.value
  }

  /**
   * The default region is never drawable with motion: its alert column lies
   * one past the last column, so the alert border cannot fit the frame.
   */
  lemma WholeFrameAlertLeavesFrame(width: int, height: int)
    ensures !AlertFits(SelectRegions(width, height, None)[0], width, height)
  {
  }

  /**
   * The scan of one test region (lines 107-116): visits its cells column by
   * column, counts the flagged ones and, when a debug buffer is given,
   * paints each flagged cell ChangedColor.
   */
  method ScanRegion(prev: Frame, cur: Frame, threshold: int, r: Region,
                    width: int, height: int, debugBuf: array2?<Pixel>) returns (count: int)
    requires IsFrame(prev, width, height) && IsFrame(cur, width, height)
    requires ValidRegion(r, width, height)
    requires debugBuf != null ==> debugBuf.Length0 == width && debugBuf.Length1 == height
    modifies debugBuf
    ensures count == CountRegion(prev, cur, threshold, r)
    ensures debugBuf != null ==>
              forall p, q :: 0 <= p < width && 0 <= q < height ==>
                debugBuf[p, q] == if InRegion(r, p, q) && Flagged(prev, cur, threshold, p, q) then ChangedColor else old(debugBuf[p, q])
  {
    count := 0;
    var x := r.left - 1;
    while x < r.right
      invariant r.left - 1 <= x <= r.right
      invariant count == CountRect(prev, cur, threshold, r.left - 1, x, r.top - 1, r.bottom)
      invariant debugBuf != null ==>
                  forall p, q :: 0 <= p < width && 0 <= q < height ==>
                    debugBuf[p, q] == if r.left - 1 <= p < x && r.top - 1 <= q < r.bottom && Flagged(prev, cur, threshold, p, q)
                                      then ChangedColor else old(debugBuf[p, q])
    {
      var y := r.top - 1;
      while y < r.bottom
        invariant r.top - 1 <= y <= r.bottom
        invariant count == CountRect(prev, cur, threshold, r.left - 1, x, r.top - 1, r.bottom)
                           + CountColumn(prev, cur, threshold, x, r.top - 1, y)
        invariant debugBuf != null ==>
                    forall p, q :: 0 <= p < width && 0 <= q < height ==>
                      debugBuf[p, q] == if ((r.left - 1 <= p < x && r.top - 1 <= q < r.bottom) || (p == x && r.top - 1 <= q < y))
                                           && Flagged(prev, cur, threshold, p, q)
                                        then ChangedColor else old(debugBuf[p, q])
      {
        // Only the green channel is compared.
        var pixdiff := Abs(cur[x][y].green - prev[x][y].green);
        if pixdiff > threshold {
          count := count + 1;
          if debugBuf != null {
            debugBuf[x, y] := ChangedColor;
          }
        }
        y := y + 1;
      }
      x := x + 1;
    }
  }

  /**
   * The first loop nest of compare_images (lines 105-116): scans the regions
   * in order, adding up their counts, and marks every flagged cell of every
   * region in the debug buffer when there is one.
   */
  method ScanRegions(prev: Frame, cur: Frame, threshold: int, regions: seq<Region>,
                     width: int, height: int, debugBuf: array2?<Pixel>) returns (count: int)
    requires IsFrame(prev, width, height) && IsFrame(cur, width, height)
    requires ValidRegions(regions, width, height)
    requires debugBuf != null ==> debugBuf.Length0 == width && debugBuf.Length1 == height
    modifies debugBuf
    ensures count == CountChanged(prev, cur, threshold, regions)
    ensures debugBuf != null ==>
              forall x, y :: 0 <= x < width && 0 <= y < height ==>
                debugBuf[x, y] == if MarkedChanged(prev, cur, threshold, regions, x, y) then ChangedColor else old(debugBuf[x, y])
  {
    count := 0;
    var i := 0;
    while i < |regions|
      invariant 0 <= i <= |regions|
      invariant count == CountChanged(prev, cur, threshold, regions[..i])
      invariant debugBuf != null ==>
                  forall p, q :: 0 <= p < width && 0 <= q < height ==>
                    debugBuf[p, q] == if MarkedChanged(prev, cur, threshold, regions[..i], p, q) then ChangedColor else old(debugBuf[p, q])
    {
      assert ValidRegion(regions[i], width, height);
      var n := ScanRegion(prev, cur, threshold, regions[i], width, height, debugBuf);
      count := count + n;
      assert regions[..i + 1][..i] == regions[..i];
      i := i + 1;
    }
    assert regions[..|regions|] == regions;
  }

  class MotionDetector {
    const width: int
    const height: int
    const threshold: int
    const sensitivity: int
    const verbose: int
    const regions: seq<Region>
    /** The previous frame's pixels; None until the first call. */
    var bufold: Option<Frame>

    ghost predicate Valid()
      reads this
    {
      width >= 1 && height >= 1 &&
      ValidRegions(regions, width, height) &&
      (bufold.Some? ==> IsFrame(bufold.value, width, height))
    }

    /** Stores the configuration; no previous frame yet (lines 34-82). */
    constructor (width: int, height: int, threshold: int, sensitivity: int,
                 testBorders: Option<seq<Region>>, verbose: int)
      requires width >= 1 && height >= 1
      requires testBorders.Some? ==> ValidRegions(testBorders.value, width, height)
      ensures Valid()
      ensures this.width == width && this.height == height
      ensures this.threshold == threshold && this.sensitivity == sensitivity && this.verbose == verbose
      ensures regions == SelectRegions(width, height, testBorders)
      ensures bufold == None
    {
      this.width := width;
      this.height := height;
      this.threshold := threshold;
      this.sensitivity := sensitivity;
      this.verbose := verbose;
      bufold := None;
      regions := SelectRegions(width, height, testBorders);
    }

    /**
     * compare_images (lines 84-147, 165). The first call only stores the frame
     * and reports no change. Every later call counts the changed cells of the
     * regions against the stored frame, declares motion when the count is
     * above the sensitivity, draws the debug overlay when verbose > 1, and
     * stores the new frame. The alert border is written without an edge
     * check, so an overlay drawn with motion needs it to fit the frame.
     */
    method CompareImages(newImage: Frame) returns (changed: bool, count: int, shown: Shown)
      requires Valid()
      requires IsFrame(newImage, width, height)
      requires bufold.Some? && verbose > 1 && CountChanged(bufold.value, newImage, threshold, regions) > sensitivity ==>
                 forall k :: 0 <= k < |regions| ==> AlertFits(regions[k], width, height)
      modifies this
      ensures Valid()
      ensures bufold == Some(newImage)
      ensures old(bufold).None? ==> !changed && count == 0 && shown == TheNewImage
      ensures old(bufold).Some? ==> count == CountChanged(old(bufold).value, newImage, threshold, regions)
      ensures old(bufold).Some? ==> changed == (count > sensitivity)
      ensures old(bufold).Some? ==> if verbose > 1 then shown.Debug? else shown == Nothing
      ensures shown.Debug? ==>
                fresh(shown.overlay) &&
                shown.overlay.Length0 == width && shown.overlay.Length1 == height &&
                forall x, y :: 0 <= x < width && 0 <= y < height ==>
                  shown.overlay[x, y] == OverlayPixel(old(bufold).value, newImage, threshold, regions, changed, x, y)
    {
      if bufold.None? {
        bufold := Some(newImage);
        return false, 0, TheNewImage;
      }
      var prev := bufold.value;
      var debugBuf: array2?<Pixel> := null;
      if verbose > 1 {
        // A copy of the new image.
        debugBuf := new Pixel[width, height]((x, y) requires 0 <= x < |newImage| && 0 <= y < |newImage[x]| => newImage[x][y]);
      }
      count := ScanRegions(prev, newImage, threshold, regions, width, height, debugBuf);
      changed := count > sensitivity;
      if debugBuf != null {
        PaintRegions(debugBuf, regions, changed);
        shown := Debug(debugBuf);
      } else {
        shown := Nothing;
      }
      bufold := Some(newImage);
    }
  }

  /** Comparing a frame with an identical one never declares motion when threshold and sensitivity are >= 0. */
  lemma IdenticalFramesNoMotion(f: Frame, threshold: int, sensitivity: int, regions: seq<Region>)
    requires threshold >= 0 && sensitivity >= 0
    ensures !(CountChanged(f, f, threshold, regions) > sensitivity)
  {
    IdenticalFramesCountZero(f, threshold, regions);
  }
}

module Scenario {
  import opened Raster
  import opened ChangeCount
  import opened Detector

  /** A 4 x 4 frame whose green component is 100 everywhere but at (1, 1) and (2, 3), where it is g. */
  function Sample(g: int): Frame
  {
    seq(4, x => seq(4, y => if (x == 1 && y == 1) || (x == 2 && y == 3) then RGB(0, g, 0) else RGB(0, 100, 0)))
  }

  lemma ColumnCounts()
    ensures CountColumn(Sample(100), Sample(200), 30, 0, 0, 4) == 0
    ensures CountColumn(Sample(100), Sample(200), 30, 1, 0, 4) == 1
    ensures CountColumn(Sample(100), Sample(200), 30, 2, 0, 4) == 1
    ensures CountColumn(Sample(100), Sample(200), 30, 3, 0, 4) == 0
  {
  }

  /**
   * Default region on a 4 x 4 frame, threshold 30: two pixels moving from
   * green 100 to 200 count 2 (motion for sensitivity 1, none for 2), and
   * moving back counts 2 again.
   */
  lemma WholeFrameCount(a: Frame, b: Frame)
    requires CountColumn(a, b, 30, 0, 0, 4) == 0 && CountColumn(a, b, 30, 1, 0, 4) == 1
    requires CountColumn(a, b, 30, 2, 0, 4) == 1 && CountColumn(a, b, 30, 3, 0, 4) == 0
    ensures CountChanged(a, b, 30, [WholeFrame(4, 4)]) == 2
  {
    assert CountRect(a, b, 30, 0, 2, 0, 4) == 1;
    assert CountRect(a, b, 30, 0, 4, 0, 4) == 2;
    assert [WholeFrame(4, 4)][..0] == [];
  }

  lemma TwoPixelScenario()
    ensures CountChanged(Sample(100), Sample(200), 30, SelectRegions(4, 4, None)) == 2
    ensures CountChanged(Sample(200), Sample(100), 30, SelectRegions(4, 4, None)) == 2
  {
    ColumnCounts();
    WholeFrameCount(Sample(100), Sample(200));
    SwapFrames(Sample(100), Sample(200), 30, SelectRegions(4, 4, None));
  }
}
