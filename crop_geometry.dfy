/**
 * The coordinate arithmetic of the capture page (src/capture/index.tsx):
 * pointer positions relative to the annotation canvas, the display-to-canvas
 * pen mapping of `startDrawing`/`draw`, the crop rectangle of
 * `getMergedImageUri`, and where `drawImage` puts a pixel of its source.
 *
 * Coordinates are `real`: the source computes them in floating point, which
 * the model does not round.
 */
module CropGeometry {
  import opened Wrappers

  datatype Point = Point(x: real, y: real)

  /** `getBoundingClientRect()` of the annotation canvas. */
  datatype Box = Box(left: real, top: real, width: real, height: real)

  /** A rectangle `x, y, w, h` in the pixels of some image. */
  datatype Rect = Rect(x: real, y: real, w: real, h: real)

  /** The screenshot element: natural size and displayed size (`img.width`, `img.height`). */
  datatype Picture = Picture(naturalWidth: real, naturalHeight: real, width: real, height: real)

  function Min(a: real, b: real): real {
    if a <= b then a else b
  }

  function Max(a: real, b: real): real {
    if a <= b then b else a
  }

  function Abs(a: real): real {
    if a < 0.0 then -a else a
  }

  /** `clientX - rect.left`, `clientY - rect.top`: where the crop handlers record a point. */
  function Local(client: Point, box: Box): Point {
    Point(client.x - box.left, client.y - box.top)
  }

  /** The pen position on the canvas: `(clientX - rect.left) * (canvas.width / rect.width)`, and the same for y. */
  function PenPoint(client: Point, box: Box, canvasW: real, canvasH: real): Point
    requires box.width != 0.0 && box.height != 0.0
  {
    Point((client.x - box.left) * (canvasW / box.width), (client.y - box.top) * (canvasH / box.height))
  }

  /** The left and top edges of the box map to 0, the right and bottom edges to the canvas size. */
  lemma PenEdges(box: Box, canvasW: real, canvasH: real)
    requires box.width != 0.0 && box.height != 0.0
    ensures PenPoint(Point(box.left, box.top), box, canvasW, canvasH) == Point(0.0, 0.0)
    ensures PenPoint(Point(box.left + box.width, box.top + box.height), box, canvasW, canvasH) == Point(canvasW, canvasH)
  {
  }

  /** A pointer inside the box draws inside the canvas. */
  lemma PenInside(client: Point, box: Box, canvasW: real, canvasH: real)
    requires box.width > 0.0 && box.height > 0.0 && canvasW >= 0.0 && canvasH >= 0.0
    requires box.left <= client.x <= box.left + box.width
    requires box.top <= client.y <= box.top + box.height
    ensures var p := PenPoint(client, box, canvasW, canvasH);
            0.0 <= p.x <= canvasW && 0.0 <= p.y <= canvasH
  {
    var p := PenPoint(client, box, canvasW, canvasH);
    var sx, sy := canvasW / box.width, canvasH / box.height;
    assert 0.0 <= client.x - box.left <= box.width;
    assert 0.0 <= sx && 0.0 <= sy;
    assert p.x <= box.width * sx == canvasW;
    assert p.y <= box.height * sy == canvasH;
  }

  /** The mapping loses nothing: the client position is recovered from the pen position. */
  lemma PenRoundTrip(client: Point, box: Box, canvasW: real, canvasH: real)
    requires box.width != 0.0 && box.height != 0.0 && canvasW != 0.0 && canvasH != 0.0
    ensures var p := PenPoint(client, box, canvasW, canvasH);
            client == Point(box.left + p.x * (box.width / canvasW), box.top + p.y * (box.height / canvasH))
  {
    var p := PenPoint(client, box, canvasW, canvasH);
    assert (canvasW / box.width) * (box.width / canvasW) == 1.0;
    assert (canvasH / box.height) * (box.height / canvasH) == 1.0;
    assert p.x * (box.width / canvasW) == (client.x - box.left) * ((canvasW / box.width) * (box.width / canvasW));
    assert p.y * (box.height / canvasH) == (client.y - box.top) * ((canvasH / box.height) * (box.height / canvasH));
  }

  /** The dashed box drawn on screen while cropping (`left`, `top`, `width`, `height` of the overlay div). */
  function SelectionBox(start: Point, end: Point): Rect {
    Rect(Min(start.x, end.x), Min(start.y, end.y), Abs(end.x - start.x), Abs(end.y - start.y))
  }

  /**
   * The crop rectangle of `getMergedImageUri`, in natural pixels: the whole
   * image without a selection, else the min/max-normalised selection scaled
   * by natural over displayed size.
   */
  function CropRect(start: Option<Point>, end: Option<Point>, pic: Picture): Rect
    requires start.Some? && end.Some? ==> pic.width != 0.0 && pic.height != 0.0
  {
    if start.Some? && end.Some? then
      var scaleX := pic.naturalWidth / pic.width;
      var scaleY := pic.naturalHeight / pic.height;
      var x1 := Min(start.value.x, end.value.x) * scaleX;
      var y1 := Min(start.value.y, end.value.y) * scaleY;
      var x2 := Max(start.value.x, end.value.x) * scaleX;
      var y2 := Max(start.value.y, end.value.y) * scaleY;
      Rect(x1, y1, x2 - x1, y2 - y1)
    else
      Rect(0.0, 0.0, pic.naturalWidth, pic.naturalHeight)
  }

  /** Without a selection the whole natural image is kept. */
  lemma NoSelectionKeepsAll(start: Option<Point>, end: Option<Point>, pic: Picture)
    requires start.None? || end.None?
    ensures CropRect(start, end, pic) == Rect(0.0, 0.0, pic.naturalWidth, pic.naturalHeight)
  {
  }

  /** The crop rectangle is the selection box on screen, scaled to natural pixels. */
  lemma CropIsScaledSelection(start: Point, end: Point, pic: Picture)
    requires pic.width > 0.0 && pic.height > 0.0 && pic.naturalWidth >= 0.0 && pic.naturalHeight >= 0.0
    ensures var sel := SelectionBox(start, end);
            var scaleX := pic.naturalWidth / pic.width;
            var scaleY := pic.naturalHeight / pic.height;
            CropRect(Some(start), Some(end), pic) == Rect(sel.x * scaleX, sel.y * scaleY, sel.w * scaleX, sel.h * scaleY)
  {
    var scaleX := pic.naturalWidth / pic.width;
    var scaleY := pic.naturalHeight / pic.height;
    assert (Max(start.x, end.x) - Min(start.x, end.x)) * scaleX == Max(start.x, end.x) * scaleX - Min(start.x, end.x) * scaleX;
    assert (Max(start.y, end.y) - Min(start.y, end.y)) * scaleY == Max(start.y, end.y) * scaleY - Min(start.y, end.y) * scaleY;
  }

  /** Width and height are never negative, and dragging either way gives the same rectangle. */
  lemma CropNormalised(start: Option<Point>, end: Option<Point>, pic: Picture)
    requires pic.width > 0.0 && pic.height > 0.0 && pic.naturalWidth >= 0.0 && pic.naturalHeight >= 0.0
    ensures CropRect(start, end, pic).w >= 0.0 && CropRect(start, end, pic).h >= 0.0
    ensures CropRect(start, end, pic) == CropRect(end, start, pic)
  {
    if start.Some? && end.Some? {
      var scaleX := pic.naturalWidth / pic.width;
      var scaleY := pic.naturalHeight / pic.height;
      assert scaleX >= 0.0 && scaleY >= 0.0;
      var a, b := start.value, end.value;
      assert Max(a.x, b.x) * scaleX - Min(a.x, b.x) * scaleX == (Max(a.x, b.x) - Min(a.x, b.x)) * scaleX;
      assert Max(a.y, b.y) * scaleY - Min(a.y, b.y) * scaleY == (Max(a.y, b.y) - Min(a.y, b.y)) * scaleY;
    }
  }

  /** A selection made on the displayed image crops inside the natural image. */
  lemma CropInsideImage(start: Point, end: Point, pic: Picture)
    requires pic.width > 0.0 && pic.height > 0.0 && pic.naturalWidth >= 0.0 && pic.naturalHeight >= 0.0
    requires 0.0 <= start.x <= pic.width && 0.0 <= end.x <= pic.width
    requires 0.0 <= start.y <= pic.height && 0.0 <= end.y <= pic.height
    ensures var r := CropRect(Some(start), Some(end), pic);
            0.0 <= r.x && r.x + r.w <= pic.naturalWidth && 0.0 <= r.y && r.y + r.h <= pic.naturalHeight
  {
    var scaleX := pic.naturalWidth / pic.width;
    var scaleY := pic.naturalHeight / pic.height;
    assert scaleX >= 0.0 && scaleY >= 0.0;
    assert Max(start.x, end.x) * scaleX <= pic.width * scaleX == pic.naturalWidth;
    assert Max(start.y, end.y) * scaleY <= pic.height * scaleY == pic.naturalHeight;
  }

  /**
   * Where `drawImage(source, src.x, src.y, src.w, src.h, dst.x, dst.y, dst.w, dst.h)`
   * puts the source pixel at `p`: the affine map taking `src` onto `dst`.
   */
  function DrawMap(src: Rect, dst: Rect, p: Point): Point
    requires src.w != 0.0 && src.h != 0.0
  {
    Point(dst.x + (p.x - src.x) * (dst.w / src.w), dst.y + (p.y - src.y) * (dst.h / src.h))
  }

  /** The destination of both `drawImage` calls of `getMergedImageUri`: the crop-sized output canvas. */
  function Output(crop: Rect): Rect {
    Rect(0.0, 0.0, crop.w, crop.h)
  }

  /** The natural-pixel position of the screenshot under the annotation-canvas point `p`. */
  function Native(p: Point, pic: Picture): Point
    requires pic.width != 0.0 && pic.height != 0.0
  {
    Point(p.x * (pic.naturalWidth / pic.width), p.y * (pic.naturalHeight / pic.height))
  }

  /**
   * As written, the annotation canvas (sized to the displayed image) is cut
   * with the same natural-pixel rectangle as the screenshot.
   */
  function OverlaySourceAsWritten(start: Option<Point>, end: Option<Point>, pic: Picture): Rect
    requires start.Some? && end.Some? ==> pic.width != 0.0 && pic.height != 0.0
  {
    CropRect(start, end, pic)
  }

  /** The screenshot used below: twice its displayed size, no selection. */
  function DoubleSize(): Picture {
    Picture(200.0, 200.0, 100.0, 100.0)
  }

  lemma DoubleSizeCrop()
    ensures CropRect(None, None, DoubleSize()) == Rect(0.0, 0.0, 200.0, 200.0)
    ensures forall q: Point :: DrawMap(Rect(0.0, 0.0, 200.0, 200.0), Output(Rect(0.0, 0.0, 200.0, 200.0)), q) == q
  {
    assert 200.0 / 200.0 == 1.0;
  }

  /**
   * A screenshot at twice its displayed size, no selection: an annotation
   * at (10, 10) on the canvas lands at (10, 10) in the result, while the
   * screenshot pixel under it lands at (20, 20).
   */
  lemma OverlayMisplacedAsWritten()
    ensures var crop := CropRect(None, None, DoubleSize());
            DrawMap(OverlaySourceAsWritten(None, None, DoubleSize()), Output(crop), Point(10.0, 10.0)) == Point(10.0, 10.0) &&
            DrawMap(crop, Output(crop), Native(Point(10.0, 10.0), DoubleSize())) == Point(20.0, 20.0)
  {
    DoubleSizeCrop();
    assert 200.0 / 100.0 == 2.0;
    assert Native(Point(10.0, 10.0), DoubleSize()) == Point(20.0, 20.0);
  }

  /**
   * The annotation canvas cut in its own (displayed) pixels: the selection
   * box, or the whole displayed image without a selection.
   */
  function OverlaySource(start: Option<Point>, end: Option<Point>, pic: Picture): Rect {
    if start.Some? && end.Some? then SelectionBox(start.value, end.value)
    else Rect(0.0, 0.0, pic.width, pic.height)
  }

  /** Scaling by `b / a` undoes a division by `a`. */
  lemma ScaleBack(a: real, b: real)
    requires a != 0.0
    ensures a * (b / a) == b
  {
  }

  /**
   * One axis of the alignment: cutting `w` display pixels from `s` onto
   * `cw == w * k` output pixels, or `cw` natural pixels from `cs == s * k`,
   * moves `p` and `q == p * k` to the same place.
   */
  lemma AxisAligned(p: real, s: real, w: real, k: real, q: real, cs: real, cw: real)
    requires w != 0.0 && k > 0.0
    requires q == p * k && cs == s * k && cw == w * k
    ensures cw != 0.0
    ensures 0.0 + (p - s) * (cw / w) == 0.0 + (q - cs) * (cw / cw)
  {
    assert cw / w == k;
    assert cw / cw == 1.0;
    assert (q - cs) * 1.0 == (p - s) * k;
  }

  /** `r` scaled by `kx` across and `ky` down. */
  function Scaled(r: Rect, kx: real, ky: real): Rect {
    Rect(r.x * kx, r.y * ky, r.w * kx, r.h * ky)
  }

  /**
   * Cutting `src` onto the output, or its scaled copy, moves `p` and its
   * scaled copy to the same place.
   */
  lemma ScaledAligned(src: Rect, kx: real, ky: real, p: Point, crop: Rect, q: Point)
    requires src.w != 0.0 && src.h != 0.0 && kx > 0.0 && ky > 0.0
    requires crop == Scaled(src, kx, ky) && q == Point(p.x * kx, p.y * ky)
    ensures crop.w != 0.0 && crop.h != 0.0
    ensures DrawMap(src, Output(crop), p) == DrawMap(crop, Output(crop), q)
  {
    AxisAligned(p.x, src.x, src.w, kx, q.x, crop.x, crop.w);
    AxisAligned(p.y, src.y, src.h, ky, q.y, crop.y, crop.h);
  }

  /** The alignment with a selection: the overlay is cut along the selection box. */
  lemma SelectionAligned(start: Point, end: Point, pic: Picture, p: Point)
    requires pic.width > 0.0 && pic.height > 0.0 && pic.naturalWidth > 0.0 && pic.naturalHeight > 0.0
    requires SelectionBox(start, end).w != 0.0 && SelectionBox(start, end).h != 0.0
    ensures var crop := CropRect(Some(start), Some(end), pic);
            crop.w != 0.0 && crop.h != 0.0 &&
            DrawMap(SelectionBox(start, end), Output(crop), p) == DrawMap(crop, Output(crop), Native(p, pic))
  {
    CropIsScaledSelection(start, end, pic);
    ScaledAligned(SelectionBox(start, end), pic.naturalWidth / pic.width, pic.naturalHeight / pic.height,
                  p, CropRect(Some(start), Some(end), pic), Native(p, pic));
  }

  /** The alignment without a selection: the whole overlay onto the whole screenshot. */
  lemma WholeAligned(pic: Picture, p: Point)
    requires pic.width > 0.0 && pic.height > 0.0 && pic.naturalWidth > 0.0 && pic.naturalHeight > 0.0
    ensures var crop := Rect(0.0, 0.0, pic.naturalWidth, pic.naturalHeight);
            DrawMap(Rect(0.0, 0.0, pic.width, pic.height), Output(crop), p) == DrawMap(crop, Output(crop), Native(p, pic))
  {
    var kx, ky := pic.naturalWidth / pic.width, pic.naturalHeight / pic.height;
    ScaleBack(pic.width, pic.naturalWidth);
    ScaleBack(pic.height, pic.naturalHeight);
    var src := Rect(0.0, 0.0, pic.width, pic.height);
    assert Rect(0.0, 0.0, pic.naturalWidth, pic.naturalHeight) == Scaled(src, kx, ky);
    ScaledAligned(src, kx, ky, p, Rect(0.0, 0.0, pic.naturalWidth, pic.naturalHeight), Native(p, pic));
  }

  /**
   * With the overlay cut in displayed pixels, every annotation lands on the
   * output exactly where the screenshot pixel under it lands.
   */
  lemma OverlayAligned(start: Option<Point>, end: Option<Point>, pic: Picture, p: Point)
    requires pic.width > 0.0 && pic.height > 0.0 && pic.naturalWidth > 0.0 && pic.naturalHeight > 0.0
    requires OverlaySource(start, end, pic).w != 0.0 && OverlaySource(start, end, pic).h != 0.0
    ensures CropRect(start, end, pic).w != 0.0 && CropRect(start, end, pic).h != 0.0
    ensures var crop := CropRect(start, end, pic);
            DrawMap(OverlaySource(start, end, pic), Output(crop), p) == DrawMap(crop, Output(crop), Native(p, pic))
  {
    if start.Some? && end.Some? {
      SelectionAligned(start.value, end.value, pic, p);
    } else {
      WholeAligned(pic, p);
    }
  }
}
