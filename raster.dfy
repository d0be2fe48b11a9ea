/** Pixels, captured images and the canvas `drawImage` operation that the
    capture uses to blit a tile into the composite. */
module Raster {
  import opened Geometry

  /** A packed RGBA value. A freshly allocated canvas is transparent black. */
  type Pixel = int

  const Transparent: Pixel := 0

  /** A raster image given row by row. */
  datatype Bitmap = Bitmap(width: nat, height: nat, rows: seq<seq<Pixel>>)

  predicate Rectangular(b: Bitmap) {
    |b.rows| == b.height && forall i :: 0 <= i < |b.rows| ==> |b.rows[i]| == b.width
  }

  type Image = b: Bitmap | Rectangular(b) witness Bitmap(0, 0, [])

  /** Whether an image drawn with its top-left corner at (dx, dy) covers
      canvas pixel (c, r). */
  predicate Covers(img: Image, dx: int, dy: int, c: int, r: int) {
    dx <= c < dx + img.width && dy <= r < dy + img.height
  }

  /** Canvas pixel (c, r) after drawing img at (dx, dy) over a canvas where
      that pixel was `before`: the image pixel under it where the image
      covers it, `before` elsewhere. Opaque source-over drawing is assumed. */
  function Drawn(before: Pixel, img: Image, dx: int, dy: int, c: int, r: int): Pixel {
    if Covers(img, dx, dy, c, r) then img.rows[r - dy][c - dx] else before
  }

  /** An image drawn at a tile's origin covers only pixels of that tile's
      clipped rectangle, as long as the image is no larger than the viewport. */
  lemma DrawStaysInTile(e: Extent, col: nat, row: nat, img: Image, c: int, r: int)
    requires ValidViewport(e) && col < Columns(e) && row < Rows(e)
    requires img.width <= e.viewportWidth && img.height <= e.viewportHeight
    requires 0 <= c < e.pageWidth && 0 <= r < e.pageHeight
    requires Covers(img, Origin(col, e.viewportWidth), Origin(row, e.viewportHeight), c, r)
    ensures InRect(TileRect(e, col, row), c, r)
  {
    assert (col + 1) * e.viewportWidth == Origin(col, e.viewportWidth) + e.viewportWidth;
    assert (row + 1) * e.viewportHeight == Origin(row, e.viewportHeight) + e.viewportHeight;
  }

  /** `ctx.drawImage(img, dx, dy)`: copies the image onto the canvas at
      (dx, dy); the part that falls outside the canvas is dropped. The canvas
      is indexed [row, column]. */
  method DrawImage(canvas: array2<Pixel>, img: Image, dx: int, dy: int)
    modifies canvas
    ensures forall r, c :: 0 <= r < canvas.Length0 && 0 <= c < canvas.Length1 ==>
              canvas[r, c] == Drawn(old(canvas[r, c]), img, dx, dy, c, r)
  {
    var top, bottom := Max(dy, 0), Min(dy + img.height, canvas.Length0);
    var left, right := Max(dx, 0), Min(dx + img.width, canvas.Length1);
    var r := top;
    while r < bottom
      invariant top <= r && (r <= bottom || r == top)
      invariant forall i, j :: 0 <= i < canvas.Length0 && 0 <= j < canvas.Length1 ==>
                  canvas[i, j] == (if i < r then Drawn(old(canvas[i, j]), img, dx, dy, j, i) else old(canvas[i, j]))
    {
      var c := left;
      while c < right
        invariant left <= c && (c <= right || c == left)
        invariant forall i, j :: 0 <= i < canvas.Length0 && 0 <= j < canvas.Length1 ==>
                    canvas[i, j] == (if i < r || (i == r && j < c) then Drawn(old(canvas[i, j]), img, dx, dy, j, i)
                                     else old(canvas[i, j]))
      {
        canvas[r, c] := img.rows[r - dy][c - dx];
        c := c + 1;
      }
      r := r + 1;
    }
  }
}
