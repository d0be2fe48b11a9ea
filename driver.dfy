/** The capture-stitch driver: one run of the full-page capture, from the
    measurements to the encoded composite. The callback chain of the page
    script (capture a tile, then schedule the next) is a single loop here;
    the settle delays between steps have no effect on the model. */
module Driver {
  import opened Geometry
  import opened Walk
  import opened Raster
  import opened Stitch

  datatype Option<T> = None | Some(value: T)

  /** What the window reports when a run starts. */
  datatype Window = Window(innerWidth: nat, innerHeight: nat, scrollX: int, scrollY: int)

  /** The document's body (absent while the document has none) and its root element. */
  datatype Document = Document(body: Option<Box>, root: Box)

  /** How a run ends. `Rejected`: setup threw before any tile work.
      `Resolved`: the encoded composite. `Pending`: a capture answer never
      arrived, so the run never settles. `Uncaught`: the final encode threw
      inside a timer callback, where nothing catches it, so the run never
      settles although the scroll offset was already restored. */
  datatype Outcome = Rejected | Resolved(pixels: seq<seq<Pixel>>) | Pending | Uncaught

  /** The extent read at setup: the viewport is the window's inner size and
      the page is at least as large as the scrollable content of both the body
      and the document element. */
  function MeasuredExtent(win: Window, body: Box, root: Box): (e: Extent)
    ensures e.viewportWidth == win.innerWidth && e.viewportHeight == win.innerHeight
    ensures e.pageWidth >= body.scrollWidth && e.pageWidth >= root.scrollWidth
    ensures e.pageHeight >= body.scrollHeight && e.pageHeight >= root.scrollHeight
  {
    Extent(PageWidth(body, root), PageHeight(body, root), win.innerWidth, win.innerHeight)
  }

  /** The state of one run: the composite canvas and whether it is still
      clean (no tainted image drawn on it), the window's scroll position, the
      offset saved at the start, the cursor and the number of tiles captured
      so far. */
  class FullPageCapture {
    const extent: Extent
    const engine: Engine
    const camera: Camera
    const original: Offset
    const canvas: array2<Pixel>
    const numScreensX: nat
    const numScreensY: nat
    const totalScreens: nat
    var clean: bool
    var scroll: Offset
    var x: nat
    var y: nat
    var capturedScreens: nat
    /** Every scroll, capture request and encoding so far, in order. */
    ghost var events: seq<Event>

    ghost predicate Valid()
      reads this
    {
      && ValidViewport(extent)
      && canvas.Length0 == extent.pageHeight && canvas.Length1 == extent.pageWidth
      && numScreensX == Columns(extent) && numScreensY == Rows(extent)
      && totalScreens == numScreensX * numScreensY
      && capturedScreens <= Steps(numScreensX, numScreensY)
      && (x, y) == Cursor(capturedScreens, numScreensX)
      && NoStallBefore(extent, engine, camera, capturedScreens)
    }

    /** The canvas holds what the tiles captured so far have drawn, and is
        clean exactly when none of them drew a tainted image. */
    ghost predicate Stitched()
      reads this, canvas
      requires Valid()
    {
      && clean == !Tainted(extent, engine, camera, capturedScreens)
      && forall r, c :: 0 <= r < canvas.Length0 && 0 <= c < canvas.Length1 ==>
        canvas[r, c] == Painted(extent, engine, camera, capturedScreens, c, r)
    }

    /** Setup: save the scroll offset, allocate a transparent canvas the size
        of the page and compute the grid. */
    constructor (extent: Extent, original: Offset, engine: Engine, camera: Camera)
      requires ValidViewport(extent)
      ensures Valid() && Stitched() && fresh(canvas)
      ensures this.extent == extent && this.original == original
      ensures this.engine == engine && this.camera == camera
      ensures scroll == original && (x, y) == (0, 0) && capturedScreens == 0 && events == []
      ensures clean
    {
      this.extent := extent;
      this.engine := engine;
      this.camera := camera;
      this.original := original;
      canvas := new Pixel[extent.pageHeight, extent.pageWidth]((r, c) => Transparent);
      numScreensX := CeilDiv(extent.pageWidth, extent.viewportWidth);
      numScreensY := CeilDiv(extent.pageHeight, extent.viewportHeight);
      totalScreens := CeilDiv(extent.pageWidth, extent.viewportWidth) * CeilDiv(extent.pageHeight, extent.viewportHeight);
      clean := true;
      scroll := original;
      x, y := 0, 0;
      capturedScreens := 0;
      events := [];
    }

    /** Capture the tile under the cursor: scroll to its origin, request it
        and draw the answer at that origin, which taints the canvas when the
        image is tainted. Returns whether the callback that continues the run
        is called; a failed capture still calls it and leaves the canvas as it
        was. */
    method CaptureScreen() returns (called: bool)
      requires Valid() && y < numScreensY
      modifies this`scroll, this`events, this`clean, canvas
      ensures Valid()
      ensures clean == (old(clean) && !TaintsAt(extent, engine, camera, capturedScreens))
      ensures scroll == TileOrigin(extent, x, y)
      ensures events == old(events) + StepEvents(extent, engine, capturedScreens)
      ensures called == !StallsAt(extent, engine, camera, capturedScreens)
      ensures forall r, c :: 0 <= r < canvas.Length0 && 0 <= c < canvas.Length1 ==>
                canvas[r, c] == StepPixel(extent, engine, camera, capturedScreens, old(canvas[r, c]), c, r)
    {
      scroll := TileOrigin(extent, x, y);
      var request := TileRequest(extent, engine, x, y);
      events := events + [Scrolled(scroll), Requested(request)];
      match camera(request)
      case Delivered(img, tainted) =>
        DrawImage(canvas, img, Origin(x, extent.viewportWidth), Origin(y, extent.viewportHeight));
        if tainted {
          clean := false;
        }
        called := true;
      case Failed =>
        called := true;
      case Stalled =>
        called := false;
    }

    /** The callback: count the tile and move the cursor in row-major order. */
    method Advance()
      requires Valid() && y < numScreensY
      requires !StallsAt(extent, engine, camera, capturedScreens)
      modifies this`x, this`y, this`capturedScreens
      ensures Valid()
      ensures capturedScreens == old(capturedScreens) + 1
      ensures (x, y) == Next(old(x), old(y), numScreensX)
    {
      WalkStopsAfterSteps(numScreensX, numScreensY, capturedScreens);
      capturedScreens := capturedScreens + 1;
      var nextX, nextY := x + 1, y;
      if nextX >= numScreensX {
        nextX := 0;
        nextY := nextY + 1;
      }
      x, y := nextX, nextY;
    }

    /** The canvas as an image, row by row, or `None` when the encoder
        throws because the canvas is tainted. The PNG encoding itself is not
        modelled: the encoded value is the pixel grid. */
    function Encode(): (encoded: Option<seq<seq<Pixel>>>)
      reads this`clean, canvas
      ensures encoded.None? <==> !clean
      ensures encoded.Some? ==>
                |encoded.value| == canvas.Length0 &&
                forall r :: 0 <= r < canvas.Length0 ==>
                  |encoded.value[r]| == canvas.Length1 &&
                  forall c :: 0 <= c < canvas.Length1 ==> encoded.value[r][c] == canvas[r, c]
    {
      if !clean then None
      else Some(seq(canvas.Length0, (r: int) reads canvas requires 0 <= r < canvas.Length0 =>
        seq(canvas.Length1, (c: int) reads canvas requires 0 <= c < canvas.Length1 => canvas[r, c])))
    }

    /** End of the walk: scroll back to the saved offset, then encode. */
    method Finish() returns (encoded: Option<seq<seq<Pixel>>>)
      requires Valid()
      modifies this`scroll, this`events
      ensures Valid()
      ensures scroll == original
      ensures events == old(events) + [Scrolled(original), Encoded]
      ensures encoded == Encode()
    {
      scroll := original;
      events := events + [Scrolled(original)];
      encoded := Encode();
      events := events + [Encoded];
    }

    /** The whole walk, from the top-left tile until the row index reaches
        the number of rows. */
    method Run() returns (outcome: Outcome)
      requires Valid() && Stitched()
      requires capturedScreens == 0 && events == []
      modifies this, canvas
      ensures Valid() && Stitched()
      ensures outcome.Resolved? || outcome.Pending? || outcome.Uncaught?
      ensures outcome.Pending? <==> !NoStallBefore(extent, engine, camera, Steps(numScreensX, numScreensY))
      ensures outcome.Resolved? <==>
                NoStallBefore(extent, engine, camera, Steps(numScreensX, numScreensY)) &&
                !Tainted(extent, engine, camera, Steps(numScreensX, numScreensY))
      ensures !outcome.Pending? ==>
                && capturedScreens == Steps(numScreensX, numScreensY)
                && (numScreensX > 0 ==> capturedScreens == totalScreens)
                && y >= numScreensY
                && scroll == original
                && events == Trace(extent, engine, capturedScreens) + [Scrolled(original), Encoded]
      ensures outcome.Resolved? ==> outcome.pixels == Composite(extent, engine, camera)
      ensures outcome.Uncaught? ==> capturedScreens > 0
      ensures outcome.Pending? ==>
                && capturedScreens < Steps(numScreensX, numScreensY)
                && StallsAt(extent, engine, camera, capturedScreens)
                && scroll == TileOrigin(extent, x, y)
                && events == Trace(extent, engine, capturedScreens + 1)
    {
      while y < numScreensY
        invariant Valid() && Stitched()
        invariant events == Trace(extent, engine, capturedScreens)
        // This measure exists only because the viewport is positive: with a
        // zero viewport the grid counts are not finite and the walk never stops.
        decreases Steps(numScreensX, numScreensY) - capturedScreens
      {
        WalkStopsAfterSteps(numScreensX, numScreensY, capturedScreens);
        var called := CaptureScreen();
        if !called {
          return Pending;
        }
        Advance();
      }
      WalkStopsAfterSteps(numScreensX, numScreensY, capturedScreens);
      var encoded := Finish();
      if encoded.None? {
        return Uncaught;
      }
      var pixels := encoded.value;
      ghost var composite := Composite(extent, engine, camera);
      forall r | 0 <= r < |pixels| ensures pixels[r] == composite[r] {
        assert |pixels[r]| == |composite[r]|;
      }
      outcome := Resolved(pixels);
    }
  }

  /** One full-page capture: read the scroll offset and the page and
      viewport sizes, build the composite tile by tile, restore the scroll
      offset and encode; the encode throws, uncaught, when a tainted image was
      drawn. Returns the outcome and the window's scroll offset
      when the run stops. */
  method CaptureFullPage(win: Window, doc: Document, engine: Engine, camera: Camera)
    returns (outcome: Outcome, scroll: Offset)
    requires win.innerWidth > 0 && win.innerHeight > 0
    ensures outcome.Rejected? <==> doc.body.None?
    ensures outcome.Rejected? ==> scroll == Offset(win.scrollX, win.scrollY)
    ensures doc.body.Some? ==>
              var e := MeasuredExtent(win, doc.body.value, doc.root);
              var n := Steps(Columns(e), Rows(e));
              && (outcome.Pending? <==> !NoStallBefore(e, engine, camera, n))
              && (outcome.Resolved? <==> NoStallBefore(e, engine, camera, n) && !Tainted(e, engine, camera, n))
              && (outcome.Resolved? ==>
                    outcome.pixels == Composite(e, engine, camera) && scroll == Offset(win.scrollX, win.scrollY))
              && (outcome.Uncaught? ==>
                    NoStallBefore(e, engine, camera, n) && Tainted(e, engine, camera, n) &&
                    scroll == Offset(win.scrollX, win.scrollY))
              && (outcome.Pending? ==>
                    exists k :: 0 <= k < n && StallsAt(e, engine, camera, k) && NoStallBefore(e, engine, camera, k) &&
                      scroll == TileOrigin(e, TileAt(e, k).0, TileAt(e, k).1))
  {
    var original := Offset(win.scrollX, win.scrollY);
    if doc.body.None? {
      // Reading the body's size throws; the promise is rejected with no scroll.
      return Rejected, original;
    }
    var e := MeasuredExtent(win, doc.body.value, doc.root);
    var run := new FullPageCapture(e, original, engine, camera);
    outcome := run.Run();
    scroll := run.scroll;
    if outcome.Pending? {
      assert StallsAt(e, engine, camera, run.capturedScreens);
    }
  }
}
