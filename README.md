# Full-page capture: tile geometry and capture-stitch driver

This project models the full-page screenshot routine of a browser extension's
content script (`captureFullPage` in `content.js`). The routine measures the page
and the viewport. It cuts the page into a grid of viewport-sized tiles, then walks
the grid in row-major order. For each tile it scrolls the window to the tile's
origin, captures the tile and draws it into a canvas the size of the page. When
the walk ends, it scrolls the window back to where it was and encodes the canvas.

The model has five modules:

- `Geometry` (geometry.dfy) covers the page extent (largest of five DOM
  measurements), the grid size (`Math.ceil` as integer ceiling division), tile
  origins and clipped extents. It proves that the tiles partition the canvas and
  that the last tile ends on the page edge.
- `Walk` (walk.dfy) covers the cursor `(x, y)` and its row-major step with
  wrap-around. It proves that the walk stops after exactly `Steps` tiles and
  visits every tile once, in order.
- `Raster` (raster.dfy) covers pixels, images and `drawImage` as an in-place
  method over a 2-D array.
- `Stitch` (stitch.dfy) covers the requests sent to the capture primitive and
  the pixel-level specification `Painted` of what a run draws. It also covers the
  trace of scroll and capture actions, and lemmas that each composite pixel comes
  from its own tile.
- `Driver` (driver.dfy) covers the class `FullPageCapture`. It holds the canvas,
  the scroll position, the saved offset, the cursor and `capturedScreens`. Its
  `Run` loop replaces the callback chain `captureNext`/`captureScreen`. The
  top-level method `CaptureFullPage` covers setup and its one rejection path.

The capture primitive is a parameter `camera: Request -> Capture`. Which
primitive is used (html2canvas, or a screenshot of the visible tab relayed by the
background script) is a parameter `engine`. An answer is one of three:

- `Delivered(image, tainted)`: the image is drawn at the tile's origin. The flag
  `tainted` says whether the image holds cross-origin content. html2canvas is
  called with `allowTaint: true` (content.js:72), so a render may be tainted,
  and drawing it taints the canvas.
- `Failed`: html2canvas rejected, or the reply carried no image. The callback
  still runs and the tile is left undrawn.
- `Stalled`: any answer that never reaches the callback. This covers an
  html2canvas promise that never settles (content.js:66-79), an image whose load
  event never fires, and a load handler that throws before it calls back
  (content.js:87-90). The run then neither restores the scroll position nor
  settles.

Behaviour of the code worth knowing:

- A failed tile capture does not abort the run.
- There is no shortcut for a page that fits in one viewport: such a page is
  captured as a 1x1 grid by the same walk.
- The viewport size is not checked. A positive viewport is a precondition of the
  model; see "## Left out" for what the code does with a zero viewport.
- The only rejection is the synchronous exception in setup, which happens when
  the document has no body. That path does not scroll.
- The final `canvas.toDataURL` (content.js:108) throws on a tainted canvas. In a
  run with at least one tile it runs inside the 50 ms timer callback
  (content.js:124), outside the `try` of setup, so the exception is uncaught.
  The scroll offset has already been restored (content.js:105), but the promise
  never settles. The model's outcome for this is `Uncaught`.
- A width of zero is allowed, as the code allows it. With no columns the cursor
  still takes one step per row (`x + 1 >= 0` always wraps). A run then captures
  `numScreensY` times while `totalScreens` is 0. `Walk.Steps` accounts for this.

## Model

| member | source | states |
|---|---|---|
| `Geometry.PageWidth` | content.js:26-32 | the page width is at least each of the five width measurements and equals one of them |
| `Geometry.PageHeight` | content.js:34-40 | the page height is at least each of the five height measurements and equals one of them |
| `Geometry.CeilDiv` | content.js:52-53 | the strip count covers the page (`q*b >= a`), is not one too many (`q*b < a+b`), and is zero exactly when the page extent is zero (so at least 1 for a non-empty page) |
| `Geometry.Columns` | content.js:52 | the column count is the least number of viewport-wide columns covering the page width (`n*vw >= pw`, `n*vw < pw + vw`), and at least 1 exactly when the page has width |
| `Geometry.Rows` | content.js:53 | the row count is the least number of viewport-high rows covering the page height, and at least 1 exactly when the page has height |
| `Geometry.Origin` | content.js:60-68 | the scroll and draw origin of strip i: strip 0 starts at 0 and the next strip starts one viewport further |
| `Geometry.ClipExtent` | content.js:69-70 | the clipped extent is the smaller of the viewport and the page left after the strip's origin |
| `Geometry.CeilDivIsLeast` | content.js:52-53 | no smaller strip count covers the page, so the count is `ceil(a/b)` |
| `Geometry.StripBounds` | content.js:69-70 | for every strip index in the grid, `min(viewport, page - i*viewport)` is positive, at most the viewport, and the strip ends inside the page |
| `Geometry.OwnerInGrid` | content.js:52-53 | the strip `p / viewport` that contains a page coordinate is inside the grid |
| `Geometry.StripPartition` | content.js:67-70 | a page coordinate lies in a grid strip if and only if that strip is number `p / viewport`: no gaps, no overlaps |
| `Geometry.LastStripEndsAtEdge` | content.js:52-70 | the last strip of a non-empty page ends exactly at the page edge |
| `Geometry.TileRectBounds` | content.js:66-70 | every tile rectangle of the grid has positive width and height no larger than the viewport and lies inside the `pageWidth x pageHeight` canvas |
| `Geometry.TilesPartitionCanvas` | content.js:48-74 | every canvas pixel `(c, r)` lies in tile `(c / viewportWidth, r / viewportHeight)`, which is in the grid, and in no other tile |
| `Geometry.LastTileEndsAtPageEdge` | content.js:48-70 | the last column ends at `pageWidth` and the last row at `pageHeight` |
| `Walk.Next` | content.js:116-122 | from a tile of the grid, the cursor moves to the next row-major position and its column stays inside the grid |
| `Walk.CursorIndex` | content.js:116-122 | after k advances from (0, 0) the cursor is the tile whose row-major position is k, and its column is inside the grid |
| `Walk.CursorAtIndex` | content.js:116-129 | starting from (0, 0), the walk reaches each tile `(x, y)` at step `y*columns + x` |
| `Walk.WalkStopsAfterSteps` | content.js:102-122 | the stop test `y >= numScreensY` first holds after exactly `Steps(columns, rows)` advances, which is `columns*rows` when there is a column |
| `Walk.VisitsEveryTileOnce` | content.js:102-129 | every step of the walk lands in the grid, no tile is visited twice, and every tile is visited |
| `Walk.RowMajorOrder` | content.js:116-122 | an earlier step is on an earlier row, or on the same row further left |
| `Raster.DrawStaysInTile` | content.js:66-88 | an image no larger than the viewport, drawn at a tile's origin, touches only pixels of that tile's clipped rectangle |
| `Raster.DrawImage` | content.js:74 | drawing writes the image's pixels where the image overlaps the canvas and leaves every other pixel unchanged |
| `Stitch.TileRequest` | content.js:64-96 | with html2canvas the request is the tile's clipped rectangle (origin, clipped width and height); otherwise it is a visible-tab capture with the window at the tile's origin |
| `Stitch.Tainted` | content.js:72-74 | the canvas is tainted after n steps exactly when one of those steps drew a tainted image |
| `Stitch.StepPixel` | content.js:73-94 | one step changes a canvas pixel only when that step's capture delivered an image covering the pixel; a failed or stalled capture leaves it |
| `Stitch.Painted` | content.js:46-94 | the pixel after n steps, starting from the transparent canvas; a pixel stays transparent when none of the n captures delivered an image |
| `Stitch.Composite` | content.js:48-49 | the composite is `pageHeight` rows of `pageWidth` pixels, all transparent when no capture delivered an image |
| `Stitch.TraceHasStep` | content.js:59-70 | in the trace of a run, the capture request for step k comes right after the scroll to tile k's origin and after all earlier steps' actions |
| `Stitch.OwnerStepInWalk` | content.js:102-129 | the tile that owns a canvas pixel is visited by the walk, at step `OwnerStep` |
| `Stitch.DrawnOnlyFromEarlierOrOwnTile` | content.js:74-88 | an image drawn at a tile's origin only reaches pixels owned by that tile or by tiles later in the walk |
| `Stitch.LaterTilesLeavePixel` | content.js:74-125 | steps after a pixel's own tile never change that pixel, whatever size their images have |
| `Stitch.CompositeTakesOwnTile` | content.js:59-109 | if a pixel's own tile delivered an image covering it, the composite holds that image's pixel at the same offset within the tile, whatever other tiles delivered |
| `Stitch.EarlierTilesLeavePixel` | content.js:74-94 | with images no larger than the viewport, a pixel is still transparent before its own tile's step |
| `Stitch.CompositeIsStitchedTiles` | content.js:74-109 | with images no larger than the viewport, each composite pixel is its own tile's image pixel where that image covers it, and is transparent where the tile's capture failed |
| `Driver.MeasuredExtent` | content.js:26-43 | the viewport is the window's inner size, and the page is at least as large as the scrollable content of the body and of the document element |
| `Driver.FullPageCapture.constructor` | content.js:20-56 | setup saves the scroll offset, allocates a clean, transparent `pageWidth x pageHeight` canvas, computes the grid and starts at (0, 0) with nothing captured |
| `Driver.FullPageCapture.CaptureScreen` | content.js:59-99 | scrolls to the cursor tile's origin and issues that tile's request. Draws the delivered image at the origin, which leaves the canvas clean only if it was clean and the image is untainted, or leaves the canvas unchanged on a failed capture. Continues unless the answer stalls |
| `Driver.FullPageCapture.Advance` | content.js:113-125 | counts the captured tile and moves the cursor to `(x+1, y)`, or to `(0, y+1)` when `x+1 >= numScreensX` |
| `Driver.FullPageCapture.Encode` | content.js:108 | encoding fails exactly when the canvas is tainted; otherwise the encoded image has the canvas's size and its pixels |
| `Driver.FullPageCapture.Finish` | content.js:103-110 | scrolls back to the saved offset, then encodes the canvas |
| `Driver.FullPageCapture.Run` | content.js:101-129 | the run resolves exactly when no answer stalls and no tainted image was drawn, and it then returns the specified composite. It stays pending exactly when an answer stalls, which leaves the window at that tile's origin. When no answer stalls, the run has captured `Steps` tiles (`totalScreens` when there is a column), has restored the original scroll offset, and has scrolled to each tile's origin before requesting it and before the final encode. If the canvas is then tainted, the encode throws uncaught after at least one tile. On every exit the canvas holds `Painted` for the steps taken |
| `Driver.CaptureFullPage` | content.js:18-135 | rejects exactly when the document has no body, without scrolling. Resolves exactly when no answer stalls and no tainted image was drawn, with the composite and the window at its original offset. When no answer stalls but a tainted image was drawn, the encode throws uncaught and the window is back at its original offset. When an answer stalls, the window stays at the origin of the first stalled tile |

## Left out

- The message listener that starts a capture and sends back the data URL or the
  error message (content.js:6-16), and the popup, background script and
  icon-generation script. These are messaging, UI, HTTP and file I/O.
- The 100 ms and 50 ms settle delays are left out. They only order the steps in
  time, which the loop already does.
- The capture primitive (html2canvas rendering, `chrome.tabs.captureVisibleTab`
  relayed by the background script, and image decoding) is an arbitrary function
  from request to answer. The model does not relate the image content to the
  page.
- The browser clamps `window.scrollTo` to the scrollable range. The model takes
  the window's scroll position to be the requested target. In the code, on the
  visible-tab path, the screenshot of a partial last row or column is taken at
  the clamped offset but drawn at the unclamped tile origin, so it lands
  shifted. The model does not relate image content to the page, so it does not
  show this shift.
- `Raster.Drawn` models `drawImage` as an opaque overwrite. Alpha blending of
  translucent pixels (source-over compositing) is not modelled.
- Image sizes in device pixels are not modelled. A delivered image may have any
  size, and the lemmas about stitched pixels state which sizes they need.
- `Driver.FullPageCapture.Encode` gives the canvas's pixel grid in place of the
  PNG data URL. The PNG encoding is not modelled. Its only failure modelled is
  the security error on a tainted canvas.
- Which images are tainted is decided by the capture parameter. In the code only
  an html2canvas render can be tainted; a visible-tab screenshot is a data URL
  and never is. The model does not restrict the parameter to that.
- `Math.ceil` over floating-point numbers is modelled as integer ceiling
  division. DOM sizes are non-negative integers. Fractional scroll offsets are
  not modelled.
- Limits on canvas size are not modelled: the browser may fail to allocate a
  very large canvas.
- `Driver.CaptureFullPage` requires a positive `innerWidth` and `innerHeight`,
  and so do `Geometry.ValidViewport` and `Driver.FullPageCapture.Run`. The code
  does not check for zero. With a zero viewport `Math.ceil(pageWidth / 0)` is
  Infinity, or NaN when the page extent is also 0, so the stop tests
  `nextX >= numScreensX` (content.js:119) and `y >= numScreensY` (content.js:103)
  never hold. The code then scrolls and captures forever and its promise never
  settles. The model does not capture this non-terminating run: the termination
  measure of `Run`'s loop depends on excluding it.
- A run that never settles is modelled as stopping. `Pending` stops at the
  stalled tile and `Uncaught` stops after the failed encode. In the page the
  promise simply never settles.
