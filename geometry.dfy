/** Tile geometry of a full-page capture: the page extent, the size of the
    tile grid and the clipped rectangle of every tile. Everything here is a
    pure function of the measurements taken once at the start of a run. */
module Geometry {

  /** The layout metrics the capture reads from one DOM element. */
  datatype Box = Box(
    scrollWidth: nat, offsetWidth: nat, clientWidth: nat,
    scrollHeight: nat, offsetHeight: nat, clientHeight: nat)

  /** Page and viewport extents, in CSS pixels. */
  datatype Extent = Extent(pageWidth: nat, pageHeight: nat, viewportWidth: nat, viewportHeight: nat)

  /** The page has no guard against an empty viewport; every grid
      computation assumes a positive one. */
  predicate ValidViewport(e: Extent) {
    e.viewportWidth > 0 && e.viewportHeight > 0
  }

  function Max(a: int, b: int): int { if a < b then b else a }

  function Min(a: int, b: int): int { if a < b then a else b }

  /** Width of the page: the largest of five width measurements of the body
      and the document element. */
  function PageWidth(body: Box, root: Box): (w: nat)
    ensures w >= body.scrollWidth && w >= body.offsetWidth && w >= root.clientWidth
    ensures w >= root.scrollWidth && w >= root.offsetWidth
    ensures w == body.scrollWidth || w == body.offsetWidth || w == root.clientWidth
         || w == root.scrollWidth || w == root.offsetWidth
  {
    Max(Max(Max(Max(body.scrollWidth, body.offsetWidth), root.clientWidth), root.scrollWidth), root.offsetWidth)
  }

  /** Height of the page: the largest of five height measurements. */
  function PageHeight(body: Box, root: Box): (h: nat)
    ensures h >= body.scrollHeight && h >= body.offsetHeight && h >= root.clientHeight
    ensures h >= root.scrollHeight && h >= root.offsetHeight
    ensures h == body.scrollHeight || h == body.offsetHeight || h == root.clientHeight
         || h == root.scrollHeight || h == root.offsetHeight
  {
    Max(Max(Max(Max(body.scrollHeight, body.offsetHeight), root.clientHeight), root.scrollHeight), root.offsetHeight)
  }

  /** `Math.ceil(a / b)` on non-negative integers: the number of b-wide
      strips needed to cover a pixels. */
  function CeilDiv(a: nat, b: nat): (q: nat)
    requires b > 0
    ensures q * b >= a
    ensures q * b < a + b
    ensures q == 0 <==> a == 0
  {
    var n := a + b - 1;
    assert n == (n / b) * b + n % b;
    n / b
  }

  lemma MulMonotone(i: nat, j: nat, v: nat)
    requires i <= j
    ensures i * v <= j * v
  {
    assert j * v == i * v + (j - i) * v;
  }

  /** A strip whose origin is at or before a lies at or before a's strip. */
  lemma FloorDivBound(i: nat, v: nat, a: nat)
    requires v > 0 && i * v <= a
    ensures i <= a / v
  {
    assert a == (a / v) * v + a % v;
    if a / v < i {
      MulMonotone(a / v + 1, i, v);
    }
  }

  /** No smaller strip count covers the page: CeilDiv is the least such count. */
  lemma CeilDivIsLeast(a: nat, b: nat, k: nat)
    requires b > 0 && k * b >= a
    ensures CeilDiv(a, b) <= k
  {
    var q := CeilDiv(a, b);
    if q > k {
      MulMonotone(k + 1, q, b);
    }
  }

  /** Number of tile columns: enough viewport-wide columns to cover the
      page width, and not one more; at least one for a non-empty page. */
  function Columns(e: Extent): (n: nat)
    requires ValidViewport(e)
    ensures n * e.viewportWidth >= e.pageWidth && n * e.viewportWidth < e.pageWidth + e.viewportWidth
    ensures n >= 1 <==> e.pageWidth >= 1
  {
    CeilDiv(e.pageWidth, e.viewportWidth)
  }

  /** Number of tile rows, likewise for the page height. */
  function Rows(e: Extent): (n: nat)
    requires ValidViewport(e)
    ensures n * e.viewportHeight >= e.pageHeight && n * e.viewportHeight < e.pageHeight + e.viewportHeight
    ensures n >= 1 <==> e.pageHeight >= 1
  {
    CeilDiv(e.pageHeight, e.viewportHeight)
  }

  /** Scroll and draw origin of the i-th strip along one axis: strips start
      at 0 and the next strip starts one viewport further. */
  function Origin(i: nat, viewport: nat): (o: nat)
    ensures i == 0 ==> o == 0
    ensures o + viewport == (i + 1) * viewport
  {
    i * viewport
  }

  /** Extent of the i-th strip, clipped so that it does not run past the
      page: the smaller of the viewport and what is left of the page. */
  function ClipExtent(i: nat, viewport: nat, page: nat): (w: int)
    ensures w <= viewport && w <= page - Origin(i, viewport)
    ensures w == viewport || w == page - Origin(i, viewport)
  {
    Min(viewport, page - Origin(i, viewport))
  }

  /** Whether coordinate p lies in the i-th strip. */
  predicate InStrip(i: nat, viewport: nat, page: nat, p: int) {
    Origin(i, viewport) <= p < Origin(i, viewport) + ClipExtent(i, viewport, page)
  }

  /** Every strip of the grid is non-empty, no wider than the viewport and
      lies inside the page. */
  lemma StripBounds(i: nat, viewport: nat, page: nat)
    requires viewport > 0 && i < CeilDiv(page, viewport)
    ensures 0 < ClipExtent(i, viewport, page) <= viewport
    ensures Origin(i, viewport) + ClipExtent(i, viewport, page) <= page
  {
    MulMonotone(i + 1, CeilDiv(page, viewport), viewport);
  }

  /** The strip that owns coordinate p, namely p / viewport, is inside the grid. */
  lemma OwnerInGrid(viewport: nat, page: nat, p: nat)
    requires viewport > 0 && p < page
    ensures p / viewport < CeilDiv(page, viewport)
  {
    var d, q := p / viewport, CeilDiv(page, viewport);
    assert p == d * viewport + p % viewport;
    if q <= d {
      MulMonotone(q, d, viewport);
    }
  }

  /** One-dimensional partition: a coordinate of the page lies in exactly
      one strip of the grid, the one numbered p / viewport. */
  lemma StripPartition(i: nat, viewport: nat, page: nat, p: nat)
    requires viewport > 0 && i < CeilDiv(page, viewport) && p < page
    ensures InStrip(i, viewport, page, p) <==> i == p / viewport
  {
    var d := p / viewport;
    var o := Origin(i, viewport);
    assert p == d * viewport + p % viewport;
    assert (i + 1) * viewport == o + viewport;
    assert (d + 1) * viewport == d * viewport + viewport;
    if InStrip(i, viewport, page, p) {
      if i < d {
        MulMonotone(i + 1, d, viewport);
      } else if d < i {
        MulMonotone(d + 1, i, viewport);
      }
    }
  }

  /** The last strip ends exactly on the page edge. */
  lemma LastStripEndsAtEdge(viewport: nat, page: nat)
    requires viewport > 0 && page > 0
    ensures var n := CeilDiv(page, viewport);
            n >= 1 && Origin(n - 1, viewport) + ClipExtent(n - 1, viewport, page) == page
  {
    var n := CeilDiv(page, viewport);
    assert Origin(n - 1, viewport) == n * viewport - viewport;
  }

  /** The destination rectangle of tile (col, row) on the composite. */
  datatype Rect = Rect(left: int, top: int, width: int, height: int)

  function TileRect(e: Extent, col: nat, row: nat): Rect {
    Rect(Origin(col, e.viewportWidth), Origin(row, e.viewportHeight),
         ClipExtent(col, e.viewportWidth, e.pageWidth),
         ClipExtent(row, e.viewportHeight, e.pageHeight))
  }

  predicate InRect(rect: Rect, c: int, r: int) {
    rect.left <= c < rect.left + rect.width && rect.top <= r < rect.top + rect.height
  }

  /** Every tile of the grid has a positive extent no larger than the
      viewport and lies inside the pageWidth × pageHeight canvas. */
  lemma TileRectBounds(e: Extent, col: nat, row: nat)
    requires ValidViewport(e) && col < Columns(e) && row < Rows(e)
    ensures var t := TileRect(e, col, row);
            0 < t.width <= e.viewportWidth && 0 < t.height <= e.viewportHeight &&
            0 <= t.left && t.left + t.width <= e.pageWidth &&
            0 <= t.top && t.top + t.height <= e.pageHeight
  {
    StripBounds(col, e.viewportWidth, e.pageWidth);
    StripBounds(row, e.viewportHeight, e.pageHeight);
  }

  /** The tile rectangles partition the canvas: every canvas pixel (c, r)
      lies in the tile (c / viewportWidth, r / viewportHeight), which is in
      the grid, and in no other tile. */
  lemma TilesPartitionCanvas(e: Extent, col: nat, row: nat, c: nat, r: nat)
    requires ValidViewport(e) && c < e.pageWidth && r < e.pageHeight
    ensures c / e.viewportWidth < Columns(e) && r / e.viewportHeight < Rows(e)
    ensures col < Columns(e) && row < Rows(e) ==>
              (InRect(TileRect(e, col, row), c, r) <==>
               col == c / e.viewportWidth && row == r / e.viewportHeight)
  {
    OwnerInGrid(e.viewportWidth, e.pageWidth, c);
    OwnerInGrid(e.viewportHeight, e.pageHeight, r);
    if col < Columns(e) && row < Rows(e) {
      StripPartition(col, e.viewportWidth, e.pageWidth, c);
      StripPartition(row, e.viewportHeight, e.pageHeight, r);
    }
  }

  /** The last column and the last row end exactly on the page edges. */
  lemma LastTileEndsAtPageEdge(e: Extent)
    requires ValidViewport(e) && e.pageWidth > 0 && e.pageHeight > 0
    ensures Columns(e) >= 1 && Rows(e) >= 1
    ensures var t := TileRect(e, Columns(e) - 1, Rows(e) - 1);
            t.left + t.width == e.pageWidth && t.top + t.height == e.pageHeight
  {
    LastStripEndsAtEdge(e.viewportWidth, e.pageWidth);
    LastStripEndsAtEdge(e.viewportHeight, e.pageHeight);
  }
}
