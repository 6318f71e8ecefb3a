// Frames, pixels, test regions and marker colours shared by the motion
// detector (rpi/motion_detect.py).

module Raster {

  datatype Option<T> = None | Some(value: T)
  {
    function GetOr(default: T): T
    {
      if Some? then value else default
    }
  }

  /** One RGB sample; only the green component takes part in comparisons. */
  datatype Pixel = RGB(red: int, green: int, blue: int)

  /** Colour of a pixel found changed in the debug overlay. */
  const ChangedColor := RGB(0, 255, 0)
  /** Colour of the edges of every test region in the debug overlay. */
  const RegionColor := RGB(0, 0, 255)
  /** Colour of the border drawn outside every test region when motion is declared. */
  const AlertColor := RGB(255, 255, 255)

  /**
   * A pixel buffer, addressed as the image library does: frame[x][y],
   * x the column (0-based, below the width), y the row (below the height).
   */
  type Frame = seq<seq<Pixel>>

  predicate IsFrame(f: Frame, width: int, height: int)
  {
    |f| == width && forall x :: 0 <= x < |f| ==> |f[x]| == height
  }

  /**
   * A test region [[left, right], [top, bottom]]: 1-based, inclusive
   * bounds, columns left..right and rows top..bottom.
   */
  datatype Region = Region(left: int, right: int, top: int, bottom: int)

  /** The bounds a test region must keep: 1 <= min <= max <= dimension. */
  predicate ValidRegion(r: Region, width: int, height: int)
  {
    1 <= r.left <= r.right <= width && 1 <= r.top <= r.bottom <= height
  }

  predicate ValidRegions(regions: seq<Region>, width: int, height: int)
  {
    forall k :: 0 <= k < |regions| ==> ValidRegion(regions[k], width, height)
  }

  /** Whether the 0-based cell (x, y) is one of the cells the scan visits for r. */
  predicate InRegion(r: Region, x: int, y: int)
  {
    r.left - 1 <= x < r.right && r.top - 1 <= y < r.bottom
  }
}
