# Frame-difference motion detector

A Dafny model of `MotionDetector` from `rpi/motion_detect.py`: a camera
poller keeps the previous low-resolution frame and, for every new frame,
counts the pixels whose green component changed by more than `threshold`
inside a list of test regions, declares motion when that count exceeds
`sensitivity`, and, when `verbose > 1`, paints a debug image showing the
changed pixels, the region edges and (on motion) an alert border.

Files:

- `raster.dfy` (module `Raster`): pixels, frames (`seq<seq<Pixel>>`,
  addressed `frame[x][y]` as the image library does), test regions with
  1-based inclusive bounds `[[left, right], [top, bottom]]`, the marker
  colours.
- `change_count.dfy` (module `ChangeCount`): the changed-pixel count as
  recursive functions in scan order, a set-based reference reading of the
  same count, and the lemmas about it.
- `overlay.dfy` (module `Overlay`): the debug image cell by cell
  (`OverlayPixel`), the in-place border painting loop, and lemmas on what
  the image shows.
- `detector.dfy` (modules `Detector`, `Scenario`): the `MotionDetector`
  class, with its constant configuration and the previous frame `bufold`,
  the scanning loop, `CompareImages`, and a worked 4 x 4 example.

`CompareImages` is proved against the specification functions:
its count is `CountChanged`, `changed` is `count > sensitivity`, its debug
image is a fresh array whose every cell is `OverlayPixel`, and `bufold`
holds the new frame afterwards. The first call only stores the frame.

The model follows the code as written, including where a cleaner design would differ:

- The code has no dimension check; both frames having the configured size
  is a precondition, not a `DimensionMismatch` error.
- Region bounds are not validated on construction; the constructor requires
  `1 <= min <= max <= dimension`, as the docstring (lines 45-47) demands.
- The alert border is not clipped at the frame edge: the column right of a
  region is written unconditionally (line 135) and the row below a region is
  guarded by `top > 1` (line 128), not by the frame height (line 130). A
  write outside the image raises an error, so `CompareImages` requires the
  alert border to fit whenever an overlay is drawn with motion. The default
  whole-frame region never fits (`WholeFrameAlertLeavesFrame`).
- The first call returns the new image itself as its second result, not
  "no overlay" (line 93); the model returns `TheNewImage`.
- The count is not returned by the code (it is only printed, line 145); the
  model returns it as an extra result.
- `threshold` and `sensitivity` may be any integer.

## Model

| member | source | states |
|---|---|---|
| `Detector.SelectRegions` | rpi/motion_detect.py:77-82 | no or empty test borders give one region covering every cell of the frame; otherwise the given list unchanged; valid inputs give valid regions |
| `Detector.MotionDetector.constructor` | rpi/motion_detect.py:34-82 | stores width, height, threshold, sensitivity, verbose and the selected regions; no previous frame |
| `Detector.MotionDetector.CompareImages` | rpi/motion_detect.py:84-147 | first call: stores the frame, returns no change and the image itself; later calls: count is `CountChanged` against the stored frame, `changed` iff count > sensitivity, a fresh overlay equal to `OverlayPixel` everywhere iff verbose > 1, and the new frame stored whatever the outcome |
| `Detector.ScanRegions` | rpi/motion_detect.py:105-116 | the loop nest's counter equals `CountChanged`; the debug buffer gets `ChangedColor` exactly on cells flagged in some region, all others untouched |
| `Detector.ScanRegion` | rpi/motion_detect.py:107-116 | one region's scan counts `CountRegion` and marks exactly its flagged cells |
| `ChangeCount.CountChanged` | rpi/motion_detect.py:105-113 | the count never exceeds the total number of cells the regions' scans visit |
| `ChangeCount.CountRegion` | rpi/motion_detect.py:107-113 | one region's count never exceeds its area |
| `ChangeCount.CountChangedIsSumOfRegionCells` | rpi/motion_detect.py:105-113 | the count is the sum over regions of the number of 0-based cells left-1..right-1 x top-1..bottom-1 whose green difference exceeds threshold |
| `ChangeCount.CountChangedAppend` | rpi/motion_detect.py:106 | scanning a list of regions adds up the scans of its parts |
| `ChangeCount.RepeatedRegionCountedTwice` | rpi/motion_detect.py:106-113 | a region listed twice counts each of its flagged cells twice (overlaps are counted once per region) |
| `ChangeCount.IdenticalFramesCountZero` | rpi/motion_detect.py:111-113 | a frame compared with itself counts 0 for every threshold >= 0 |
| `ChangeCount.ThresholdMonotone` | rpi/motion_detect.py:111-113 | raising the threshold with frames and regions fixed never raises the count |
| `ChangeCount.SwapFrames` | rpi/motion_detect.py:111 | the count is the same with previous and new frame exchanged |
| `Detector.IdenticalFramesNoMotion` | rpi/motion_detect.py:111-118 | identical frames never give `changed` when threshold >= 0 and sensitivity >= 0 |
| `Scenario.TwoPixelScenario` | rpi/motion_detect.py:105-118 | 4 x 4 frame, default region, threshold 30: two pixels going 100 -> 200 count 2, and going back count 2 |
| `Overlay.Decorate` | rpi/motion_detect.py:120-137 | after border painting a cell keeps its colour or is `RegionColor`, or `AlertColor` only when motion was declared |
| `Overlay.PaintRegions` | rpi/motion_detect.py:120-137 | the in-place loops leave every cell as `Decorate` says: region edges blue, alert border white on motion, later regions over earlier ones |
| `Overlay.MarkedChangedIff` | rpi/motion_detect.py:114-116 | a cell is painted `ChangedColor` by the scan iff it is flagged and inside some region |
| `Overlay.OverlayOffBorders` | rpi/motion_detect.py:97-137 | a cell on no region edge and no drawn alert border shows `ChangedColor` if flagged in some region, else the new frame's pixel |
| `Overlay.OverlayOutsideRegions` | rpi/motion_detect.py:99-137 | a cell outside every region and every alert border keeps the new frame's pixel |
| `Overlay.EdgesWithoutMotion` | rpi/motion_detect.py:123-133 | without motion every cell on some region's edge is `RegionColor`, overwriting changed marks |
| `Overlay.AlertBorderShown` | rpi/motion_detect.py:127-137 | with motion, a cell outside the last region shows `AlertColor` when its right column fits the frame |
| `Detector.WholeFrameAlertLeavesFrame` | rpi/motion_detect.py:135 | the default region's alert column lies outside the frame |

## Left out

- Snapshot capture on motion (lines 149-164): directory writability probing, clock-based file names and the camera call are file system, clock and device side effects.
- The `full_res`, `localdir` and `remotedir` settings (lines 71-73): used only by the snapshot capture.
- Printing the count under `verbose` (lines 142-145): output only.
- The `__main__` polling loop (lines 167-198): camera input and sleeping.
- Image library details: `load`, `copy` and the truthiness test on the pixel access object are modelled as a value frame, an array copy and "previous frame absent".
- Red and blue components are carried but never compared, as in the code.
- Concurrent use: the detector is single-threaded state, as in the code.
