// The debug overlay of compare_images (rpi/motion_detect.py:97-103,
// 114-116, 120-137): a copy of the new frame on which flagged cells are
// painted ChangedColor, then, region after region, the region's edges
// RegionColor and, when motion was declared, the cells just outside it
// AlertColor. A later region's paint overwrites an earlier one's.

module Overlay {
  import opened Raster
  import opened ChangeCount

  /** Cell (x, y) was flagged while scanning one of the regions. */
  predicate MarkedChanged(prev: Frame, cur: Frame, threshold: int, regions: seq<Region>, x: int, y: int)
  {
    regions != [] &&
    (MarkedChanged(prev, cur, threshold, regions[..|regions| - 1], x, y) ||
     (InRegion(regions[|regions| - 1], x, y) && Flagged(prev, cur, threshold, x, y)))
  }

  /** Cell (x, y) is on the one-pixel edge of r: its first or last column or row. */
  predicate OnEdge(r: Region, x: int, y: int)
  {
    InRegion(r, x, y) &&
    (x == r.left - 1 || x == r.right - 1 || y == r.top - 1 || y == r.bottom - 1)
  }

  /**
   * Cell (x, y) is on the alert border of r: the row just above and the row
   * just below r (both drawn only when top > 1), the column just right of r,
   * and the column just left of r (drawn only when left > 1).
   */
  predicate OnOuterBorder(r: Region, x: int, y: int)
  {
    (r.top > 1 && r.left - 1 <= x < r.right && (y == r.top - 2 || y == r.bottom)) ||
    (r.top - 1 <= y < r.bottom && (x == r.right || (r.left > 1 && x == r.left - 2)))
  }

  /** The paint region r leaves on cell (x, y), if any. */
  function Mark(r: Region, changed: bool, x: int, y: int): Option<Pixel>
  {
    if OnEdge(r, x, y) then Some(RegionColor)
    else if changed && OnOuterBorder(r, x, y) then Some(AlertColor)
    else None
  }

  /**
   * Cell (x, y) after the regions have painted their borders over base:
   * the last region that paints the cell decides its colour.
   */
  function Decorate(regions: seq<Region>, changed: bool, base: Pixel, x: int, y: int): (p: Pixel)
    ensures p == base || p == RegionColor || (changed && p == AlertColor)
  {
    if regions == [] then base
    else Mark(regions[|regions| - 1], changed, x, y).GetOr(Decorate(regions[..|regions| - 1], changed, base, x, y))
  }

  /** The overlay's cell (x, y): the new frame, flagged cells marked, borders drawn on top. */
  function OverlayPixel(prev: Frame, cur: Frame, threshold: int, regions: seq<Region>, changed: bool, x: int, y: int): Pixel
    requires 0 <= x < |cur| && 0 <= y < |cur[x]|
  {
    var base := if MarkedChanged(prev, cur, threshold, regions, x, y) then ChangedColor else cur[x][y];
    Decorate(regions, changed, base, x, y)
  }

  /** The cells one step outside r that the alert border writes lie inside a width x height frame. */
  predicate AlertFits(r: Region, width: int, height: int)
  {
    r.right < width && (r.top > 1 ==> r.bottom < height)
  }

  // ---------------------------------------------------------------------
  // What the overlay shows

  /** A cell is marked changed exactly when it is flagged and some region's scan visits it. */
  lemma {:induction false} MarkedChangedIff(prev: Frame, cur: Frame, threshold: int, regions: seq<Region>, x: int, y: int)
    ensures MarkedChanged(prev, cur, threshold, regions, x, y)
        <==> Flagged(prev, cur, threshold, x, y) && exists k :: 0 <= k < |regions| && InRegion(regions[k], x, y)
    decreases |regions|
  {
    if regions != [] {
      var init := regions[..|regions| - 1];
      MarkedChangedIff(prev, cur, threshold, init, x, y);
      if exists k :: 0 <= k < |regions| && InRegion(regions[k], x, y) {
        var k :| 0 <= k < |regions| && InRegion(regions[k], x, y);
        if k < |init| {
          assert InRegion(init[k], x, y);
        }
      }
      if exists k :: 0 <= k < |init| && InRegion(init[k], x, y) {
        var k :| 0 <= k < |init| && InRegion(init[k], x, y);
        assert InRegion(regions[k], x, y);
      }
    }
  }

  /** Borders leave a cell that no region paints as it was. */
  lemma {:induction false} DecorateUnpainted(regions: seq<Region>, changed: bool, base: Pixel, x: int, y: int)
    requires forall k :: 0 <= k < |regions| ==> Mark(regions[k], changed, x, y).None?
    ensures Decorate(regions, changed, base, x, y) == base
    decreases |regions|
  {
    if regions != [] {
      var init := regions[..|regions| - 1];
      assert forall k :: 0 <= k < |init| ==> init[k] == regions[k];
      DecorateUnpainted(init, changed, base, x, y);
    }
  }

  /**
   * A cell off every region's edge and, when motion was declared, off every
   * alert border shows ChangedColor when some scan flagged it and the new
   * frame's pixel otherwise.
   */
  lemma OverlayOffBorders(prev: Frame, cur: Frame, threshold: int, regions: seq<Region>, changed: bool, x: int, y: int)
    requires 0 <= x < |cur| && 0 <= y < |cur[x]|
    requires forall k :: 0 <= k < |regions| ==> !OnEdge(regions[k], x, y) && !(changed && OnOuterBorder(regions[k], x, y))
    ensures OverlayPixel(prev, cur, threshold, regions, changed, x, y)
         == if Flagged(prev, cur, threshold, x, y) && exists k :: 0 <= k < |regions| && InRegion(regions[k], x, y)
            then ChangedColor else cur[x][y]
  {
    MarkedChangedIff(prev, cur, threshold, regions, x, y);
    var base := if MarkedChanged(prev, cur, threshold, regions, x, y) then ChangedColor else cur[x][y];
    DecorateUnpainted(regions, changed, base, x, y);
  }

  /** A cell outside every region and every alert border keeps the new frame's pixel. */
  lemma OverlayOutsideRegions(prev: Frame, cur: Frame, threshold: int, regions: seq<Region>, changed: bool, x: int, y: int)
    requires 0 <= x < |cur| && 0 <= y < |cur[x]|
    requires forall k :: 0 <= k < |regions| ==> !InRegion(regions[k], x, y) && !OnOuterBorder(regions[k], x, y)
    ensures OverlayPixel(prev, cur, threshold, regions, changed, x, y) == cur[x][y]
  {
    OverlayOffBorders(prev, cur, threshold, regions, changed, x, y);
  }

  /** Without motion, every cell on some region's edge is RegionColor. */
  lemma {:induction false} EdgesWithoutMotion(regions: seq<Region>, base: Pixel, x: int, y: int)
    requires exists k :: 0 <= k < |regions| && OnEdge(regions[k], x, y)
    ensures Decorate(regions, false, base, x, y) == RegionColor
    decreases |regions|
  {
    var init := regions[..|regions| - 1];
    if !OnEdge(regions[|regions| - 1], x, y) {
      var k :| 0 <= k < |regions| && OnEdge(regions[k], x, y);
      assert OnEdge(init[k], x, y);
      EdgesWithoutMotion(init, base, x, y);
    }
  }

  /**
   * With motion declared, the last region's alert border shows: the cell just
   * right of its top row lies outside it and is AlertColor, provided that
   * column is inside the frame.
   */
  lemma AlertBorderShown(prev: Frame, cur: Frame, threshold: int, regions: seq<Region>, width: int, height: int)
    requires IsFrame(cur, width, height)
    requires regions != [] && ValidRegion(regions[|regions| - 1], width, height)
    requires AlertFits(regions[|regions| - 1], width, height)
    ensures exists x, y :: 0 <= x < width && 0 <= y < height &&
              !InRegion(regions[|regions| - 1], x, y) &&
              OverlayPixel(prev, cur, threshold, regions, true, x, y) == AlertColor
  {
    var r := regions[|regions| - 1];
    assert !InRegion(r, r.right, r.top - 1);
    assert OverlayPixel(prev, cur, threshold, regions, true, r.right, r.top - 1) == AlertColor;
  }

  // ---------------------------------------------------------------------
  // Painting in place

  /** Paint of the column loop over x = left-1 .. xEnd-1 (lines 124-130). */
  function RowMark(r: Region, changed: bool, xEnd: int, x: int, y: int): Option<Pixel>
  {
    if r.left - 1 <= x < xEnd then
      if y == r.top - 1 || y == r.bottom - 1 then Some(RegionColor)
      else if changed && r.top > 1 && (y == r.top - 2 || y == r.bottom) then Some(AlertColor)
      else None
    else None
  }

  /** Paint of the row loop over y = top-1 .. yEnd-1 (lines 131-137). */
  function ColumnMark(r: Region, changed: bool, yEnd: int, x: int, y: int): Option<Pixel>
  {
    if r.top - 1 <= y < yEnd then
      if x == r.left - 1 || x == r.right - 1 then Some(RegionColor)
      else if changed && (x == r.right || (r.left > 1 && x == r.left - 2)) then Some(AlertColor)
      else None
    else None
  }

  /** The two loops of one region together leave exactly the paint Mark describes. */
  lemma MarkIsBothLoops(r: Region, changed: bool, base: Pixel, x: int, y: int)
    requires r.left <= r.right && r.top <= r.bottom
    ensures Mark(r, changed, x, y).GetOr(base)
         == ColumnMark(r, changed, r.bottom, x, y).GetOr(RowMark(r, changed, r.right, x, y).GetOr(base))
  {
  }

  /**
   * Draws the borders of every region over buf, in order: lines 123-137.
   * Every cell ends as Decorate says, starting from what buf held before.
   */
  method PaintRegions(buf: array2<Pixel>, regions: seq<Region>, changed: bool)
    requires ValidRegions(regions, buf.Length0, buf.Length1)
    requires changed ==> forall k :: 0 <= k < |regions| ==> AlertFits(regions[k], buf.Length0, buf.Length1)
    modifies buf
    ensures forall x, y :: 0 <= x < buf.Length0 && 0 <= y < buf.Length1 ==>
              buf[x, y] == Decorate(regions, changed, old(buf[x, y]), x, y)
  {
    var i := 0;
    while i < |regions|
      invariant 0 <= i <= |regions|
      invariant forall x, y :: 0 <= x < buf.Length0 && 0 <= y < buf.Length1 ==>
                  buf[x, y] == Decorate(regions[..i], changed, old(buf[x, y]), x, y)
    {
      var r := regions[i];
      assert ValidRegion(r, buf.Length0, buf.Length1);
      var x := r.left - 1;
      while x < r.right
        invariant r.left - 1 <= x <= r.right
        invariant forall p, q :: 0 <= p < buf.Length0 && 0 <= q < buf.Length1 ==>
                    buf[p, q] == RowMark(r, changed, x, p, q).GetOr(Decorate(regions[..i], changed, old(buf[p, q]), p, q))
      {
        buf[x, r.top - 1] := RegionColor;
        buf[x, r.bottom - 1] := RegionColor;
        if changed {
          if r.top > 1 {
            buf[x, r.top - 2] := AlertColor;
            buf[x, r.bottom] := AlertColor;
          }
        }
        x := x + 1;
      }
      var y := r.top - 1;
      while y < r.bottom
        invariant r.top - 1 <= y <= r.bottom
        invariant forall p, q :: 0 <= p < buf.Length0 && 0 <= q < buf.Length1 ==>
                    buf[p, q] == ColumnMark(r, changed, y, p, q).GetOr(
                                   RowMark(r, changed, r.right, p, q).GetOr(Decorate(regions[..i], changed, old(buf[p, q]), p, q)))
      {
        buf[r.left - 1, y] := RegionColor;
        buf[r.right - 1, y] := RegionColor;
        if changed {
          buf[r.right, y] := AlertColor;
          if r.left > 1 {
            buf[r.left - 2, y] := AlertColor;
          }
        }
        y := y + 1;
      }
      forall p, q | 0 <= p < buf.Length0 && 0 <= q < buf.Length1
        ensures buf[p, q] == Decorate(regions[..i + 1], changed, old(buf[p, q]), p, q)
      {
        assert regions[..i + 1][..i] == regions[..i];
        MarkIsBothLoops(r, changed, Decorate(regions[..i], changed, old(buf[p, q]), p, q), p, q);
      }
      i := i + 1;
    }
    assert regions[..|regions|] == regions;
  }
}
