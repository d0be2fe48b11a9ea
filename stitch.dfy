/** What one run of the full-page capture requests, draws and leaves on the
    composite, stated as functions of the page extent and of the capture
    primitive's answers. The driver in module Driver is proved against these. */
module Stitch {
  import opened Geometry
  import opened Walk
  import opened Raster

  /** Which capture primitive the page has: the html2canvas renderer when it
      is loaded, otherwise a screenshot of the visible tab. */
  datatype Engine = Html2Canvas | VisibleTab

  /** One request to the capture primitive. `Render` asks html2canvas for
      the page region (x, y, width, height); `Screenshot` asks for the visible
      tab while the window is scrolled to (scrollX, scrollY). */
  datatype Request =
    | Render(x: int, y: int, width: int, height: int)
    | Screenshot(scrollX: int, scrollY: int)

  /** The answer to one request. `Delivered` is an image to draw; `tainted`
      says whether it carries cross-origin content (html2canvas is allowed to
      render it), which taints the canvas it is drawn on. `Failed` is a
      rejected render or a reply without an image: the run goes on without
      drawing. `Stalled` is any answer that never reaches the callback (a
      render that never settles, an image whose load event never fires, or a
      load handler that throws before calling back): the run never finishes. */
  datatype Capture = Delivered(image: Image, tainted: bool) | Failed | Stalled

  /** The capture primitive, as the answers it would give to each request. */
  type Camera = Request -> Capture

  datatype Offset = Offset(x: int, y: int)

  /** The observable actions of a run, in order. */
  datatype Event = Scrolled(to: Offset) | Requested(request: Request) | Encoded

  /** The tile captured at step k of the walk. */
  function TileAt(e: Extent, k: nat): (nat, nat)
    requires ValidViewport(e)
  {
    Cursor(k, Columns(e))
  }

  /** Where the window is scrolled before tile (col, row) is captured. */
  function TileOrigin(e: Extent, col: nat, row: nat): Offset {
    Offset(Origin(col, e.viewportWidth), Origin(row, e.viewportHeight))
  }

  /** The request made for tile (col, row): html2canvas is asked for the
      tile's clipped rectangle; otherwise the visible tab is captured while
      the window is scrolled to the tile's origin. */
  function TileRequest(e: Extent, engine: Engine, col: nat, row: nat): (q: Request)
    ensures q.Render? <==> engine == Html2Canvas
    ensures q.Render? ==> Rect(q.x, q.y, q.width, q.height) == TileRect(e, col, row)
    ensures q.Screenshot? ==> Offset(q.scrollX, q.scrollY) == TileOrigin(e, col, row)
  {
    match engine
    case Html2Canvas =>
      Render(Origin(col, e.viewportWidth), Origin(row, e.viewportHeight),
             ClipExtent(col, e.viewportWidth, e.pageWidth),
             ClipExtent(row, e.viewportHeight, e.pageHeight))
    case VisibleTab =>
      Screenshot(Origin(col, e.viewportWidth), Origin(row, e.viewportHeight))
  }

  function AnswerAt(e: Extent, engine: Engine, camera: Camera, k: nat): Capture
    requires ValidViewport(e)
  {
    var (col, row) := TileAt(e, k);
    camera(TileRequest(e, engine, col, row))
  }

  predicate StallsAt(e: Extent, engine: Engine, camera: Camera, k: nat)
    requires ValidViewport(e)
  {
    AnswerAt(e, engine, camera, k).Stalled?
  }

  /** Whether step k draws an image that taints the canvas. */
  predicate TaintsAt(e: Extent, engine: Engine, camera: Camera, k: nat)
    requires ValidViewport(e)
  {
    AnswerAt(e, engine, camera, k).Delivered? && AnswerAt(e, engine, camera, k).tainted
  }

  /** Whether the canvas is tainted after the first n steps: it starts clean
      and stays tainted once a tainted image has been drawn on it. */
  function Tainted(e: Extent, engine: Engine, camera: Camera, n: nat): (t: bool)
    requires ValidViewport(e)
    ensures t <==> exists k :: 0 <= k < n && TaintsAt(e, engine, camera, k)
  {
    n > 0 && (Tainted(e, engine, camera, n - 1) || TaintsAt(e, engine, camera, n - 1))
  }

  predicate NoStallBefore(e: Extent, engine: Engine, camera: Camera, n: nat)
    requires ValidViewport(e)
  {
    forall k :: 0 <= k < n ==> !StallsAt(e, engine, camera, k)
  }

  /** Canvas pixel (c, r) after step k of the walk, given its value before:
      it changes only when step k's capture delivered an image that covers it. */
  function StepPixel(e: Extent, engine: Engine, camera: Camera, k: nat, before: Pixel, c: int, r: int): (p: Pixel)
    requires ValidViewport(e)
    ensures p == before || (AnswerAt(e, engine, camera, k).Delivered? &&
                            Covers(AnswerAt(e, engine, camera, k).image,
                                   Origin(TileAt(e, k).0, e.viewportWidth), Origin(TileAt(e, k).1, e.viewportHeight), c, r))
  {
    var (col, row) := TileAt(e, k);
    match AnswerAt(e, engine, camera, k)
    case Delivered(img, _) => Drawn(before, img, Origin(col, e.viewportWidth), Origin(row, e.viewportHeight), c, r)
    case _ => before
  }

  /** Canvas pixel (c, r) after the first n steps of the walk, starting from
      a transparent canvas: a pixel no delivered image has reached is still
      transparent. */
  function Painted(e: Extent, engine: Engine, camera: Camera, n: nat, c: int, r: int): (p: Pixel)
    requires ValidViewport(e)
    ensures (forall k :: 0 <= k < n ==> !AnswerAt(e, engine, camera, k).Delivered?) ==> p == Transparent
  {
    if n == 0 then Transparent
    else StepPixel(e, engine, camera, n - 1, Painted(e, engine, camera, n - 1, c, r), c, r)
  }

  /** The composite a completed run encodes, row by row: an image the size
      of the page, transparent when no capture delivered an image. */
  function Composite(e: Extent, engine: Engine, camera: Camera): (img: seq<seq<Pixel>>)
    requires ValidViewport(e)
    ensures |img| == e.pageHeight
    ensures forall r :: 0 <= r < |img| ==> |img[r]| == e.pageWidth
    ensures (forall k :: 0 <= k < Steps(Columns(e), Rows(e)) ==> !AnswerAt(e, engine, camera, k).Delivered?) ==>
              forall r, c :: 0 <= r < e.pageHeight && 0 <= c < e.pageWidth ==> img[r][c] == Transparent
  {
    var n := Steps(Columns(e), Rows(e));
    seq(e.pageHeight, r => seq(e.pageWidth, c => Painted(e, engine, camera, n, c, r)))
  }

  /** The actions of step k: scroll to the tile's origin, then request it. */
  function StepEvents(e: Extent, engine: Engine, k: nat): seq<Event>
    requires ValidViewport(e)
  {
    var (col, row) := TileAt(e, k);
    [Scrolled(TileOrigin(e, col, row)), Requested(TileRequest(e, engine, col, row))]
  }

  /** The actions of the first n steps. */
  function Trace(e: Extent, engine: Engine, n: nat): seq<Event>
    requires ValidViewport(e)
  {
    if n == 0 then [] else Trace(e, engine, n - 1) + StepEvents(e, engine, n - 1)
  }

  /** Each step's actions appear, in place and in order, in every longer
      trace: the capture of step k is requested right after the window is
      scrolled to tile k's origin, and after everything steps 0..k-1 did. */
  lemma {:induction false} TraceHasStep(e: Extent, engine: Engine, k: nat, n: nat)
    requires ValidViewport(e) && k < n
    ensures |Trace(e, engine, n)| == 2 * n
    ensures Trace(e, engine, k + 1) <= Trace(e, engine, n)
    ensures var (col, row) := TileAt(e, k);
            Trace(e, engine, n)[2 * k] == Scrolled(TileOrigin(e, col, row)) &&
            Trace(e, engine, n)[2 * k + 1] == Requested(TileRequest(e, engine, col, row))
  {
    if k + 1 < n {
      TraceHasStep(e, engine, k, n - 1);
    } else {
      TraceLength(e, engine, k);
    }
  }

  lemma {:induction false} TraceLength(e: Extent, engine: Engine, n: nat)
    requires ValidViewport(e)
    ensures |Trace(e, engine, n)| == 2 * n
  {
    if n > 0 {
      TraceLength(e, engine, n - 1);
    }
  }

  /** The tile that owns canvas pixel (c, r), and its step in the walk. */
  function Owner(e: Extent, c: nat, r: nat): (nat, nat)
    requires ValidViewport(e)
  {
    (c / e.viewportWidth, r / e.viewportHeight)
  }

  function OwnerStep(e: Extent, c: nat, r: nat): nat
    requires ValidViewport(e)
  {
    StepIndex(c / e.viewportWidth, r / e.viewportHeight, Columns(e))
  }

  /** The owner of a canvas pixel is a tile of the grid, captured at step
      OwnerStep of the walk. */
  lemma OwnerStepInWalk(e: Extent, c: nat, r: nat)
    requires ValidViewport(e) && c < e.pageWidth && r < e.pageHeight
    ensures OwnerStep(e, c, r) < Steps(Columns(e), Rows(e))
    ensures TileAt(e, OwnerStep(e, c, r)) == Owner(e, c, r)
  {
    TilesPartitionCanvas(e, 0, 0, c, r);
    VisitsEveryTileOnce(Columns(e), Rows(e));
  }

  /** An image drawn at the origin of a tile can only reach pixels whose
      owner is that tile or comes after it in the walk, since images extend
      right and down from their origin. */
  lemma DrawnOnlyFromEarlierOrOwnTile(e: Extent, k: nat, img: Image, c: nat, r: nat)
    requires ValidViewport(e) && c < e.pageWidth && r < e.pageHeight
    requires var (col, row) := TileAt(e, k);
             Covers(img, Origin(col, e.viewportWidth), Origin(row, e.viewportHeight), c, r)
    ensures k <= OwnerStep(e, c, r)
  {
    var (col, row) := TileAt(e, k);
    var (oc, or) := Owner(e, c, r);
    TilesPartitionCanvas(e, 0, 0, c, r);
    CursorIndex(k, Columns(e));
    FloorDivBound(col, e.viewportWidth, c);
    FloorDivBound(row, e.viewportHeight, r);
    IndexMonotone(Columns(e), col, row, oc, or);
  }

  /** Steps after a pixel's own tile never change it. */
  lemma {:induction false} LaterTilesLeavePixel(e: Extent, engine: Engine, camera: Camera, n: nat, c: nat, r: nat)
    requires ValidViewport(e) && c < e.pageWidth && r < e.pageHeight
    requires OwnerStep(e, c, r) < n
    ensures Painted(e, engine, camera, n, c, r) == Painted(e, engine, camera, OwnerStep(e, c, r) + 1, c, r)
  {
    if n > OwnerStep(e, c, r) + 1 {
      LaterTilesLeavePixel(e, engine, camera, n - 1, c, r);
      var (col, row) := TileAt(e, n - 1);
      match AnswerAt(e, engine, camera, n - 1)
      case Delivered(img, _) =>
        if Covers(img, Origin(col, e.viewportWidth), Origin(row, e.viewportHeight), c, r) {
          DrawnOnlyFromEarlierOrOwnTile(e, n - 1, img, c, r);
        }
      case _ =>
    }
  }

  /** Stitching is correct wherever the owning tile was captured: if the
      capture for a pixel's tile delivered an image that covers the pixel
      (any image at least as large as the tile's clipped extent does), the
      composite holds that image's pixel at the same offset within the tile,
      whatever the other tiles delivered. */
  lemma CompositeTakesOwnTile(e: Extent, engine: Engine, camera: Camera, c: nat, r: nat)
    requires ValidViewport(e) && c < e.pageWidth && r < e.pageHeight
    requires var (col, row) := Owner(e, c, r);
             var answer := camera(TileRequest(e, engine, col, row));
             answer.Delivered? &&
             Covers(answer.image, Origin(col, e.viewportWidth), Origin(row, e.viewportHeight), c, r)
    ensures var (col, row) := Owner(e, c, r);
            var img := camera(TileRequest(e, engine, col, row)).image;
            |Composite(e, engine, camera)| == e.pageHeight &&
            |Composite(e, engine, camera)[r]| == e.pageWidth &&
            Composite(e, engine, camera)[r][c] ==
              img.rows[r - Origin(row, e.viewportHeight)][c - Origin(col, e.viewportWidth)]
  {
    OwnerStepInWalk(e, c, r);
    LaterTilesLeavePixel(e, engine, camera, Steps(Columns(e), Rows(e)), c, r);
  }

  /** Whether every image the camera delivers for a tile of the grid is no
      larger than the viewport. */
  predicate ViewportSized(e: Extent, engine: Engine, camera: Camera)
    requires ValidViewport(e)
  {
    forall col, row :: 0 <= col < Columns(e) && 0 <= row < Rows(e) ==>
      var answer := camera(TileRequest(e, engine, col, row));
      answer.Delivered? ==> answer.image.width <= e.viewportWidth && answer.image.height <= e.viewportHeight
  }

  /** With viewport-sized images, steps before a pixel's own tile leave it
      transparent. */
  lemma {:induction false} EarlierTilesLeavePixel(e: Extent, engine: Engine, camera: Camera, n: nat, c: nat, r: nat)
    requires ValidViewport(e) && c < e.pageWidth && r < e.pageHeight
    requires ViewportSized(e, engine, camera)
    requires n <= OwnerStep(e, c, r)
    ensures Painted(e, engine, camera, n, c, r) == Transparent
  {
    if n > 0 {
      EarlierTilesLeavePixel(e, engine, camera, n - 1, c, r);
      OwnerStepInWalk(e, c, r);
      var (col, row) := TileAt(e, n - 1);
      match AnswerAt(e, engine, camera, n - 1)
      case Delivered(img, _) =>
        if Covers(img, Origin(col, e.viewportWidth), Origin(row, e.viewportHeight), c, r) {
          WalkStopsAfterSteps(Columns(e), Rows(e), n - 1);
          CursorIndex(n - 1, Columns(e));
          DrawStaysInTile(e, col, row, img, c, r);
          TilesPartitionCanvas(e, col, row, c, r);
          assert false;
        }
      case _ =>
    }
  }

  /** With viewport-sized images the composite is exactly the stitched
      tiles: each pixel holds its own tile's image pixel where that image
      covers it, and stays transparent where its tile's capture failed or
      delivered a smaller image. */
  lemma CompositeIsStitchedTiles(e: Extent, engine: Engine, camera: Camera, c: nat, r: nat)
    requires ValidViewport(e) && c < e.pageWidth && r < e.pageHeight
    requires ViewportSized(e, engine, camera)
    ensures var (col, row) := Owner(e, c, r);
            var answer := camera(TileRequest(e, engine, col, row));
            var (dx, dy) := (Origin(col, e.viewportWidth), Origin(row, e.viewportHeight));
            |Composite(e, engine, camera)| == e.pageHeight &&
            |Composite(e, engine, camera)[r]| == e.pageWidth &&
            Composite(e, engine, camera)[r][c] ==
              if answer.Delivered? && Covers(answer.image, dx, dy, c, r)
              then answer.image.rows[r - dy][c - dx]
              else Transparent
  {
    OwnerStepInWalk(e, c, r);
    LaterTilesLeavePixel(e, engine, camera, Steps(Columns(e), Rows(e)), c, r);
    EarlierTilesLeavePixel(e, engine, camera, OwnerStep(e, c, r), c, r);
  }
}
