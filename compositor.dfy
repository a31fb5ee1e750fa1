/**
 * Stitching and the final crop of the full-page capture (the "Stitching"
 * and "Final Crop" blocks of `performScrollCapture` in src/content/index.ts).
 *
 * A canvas is a sequence of rows, top to bottom, one per device pixel.
 * Every capture is drawn with its top row at `y * dpr`, where `y` is the
 * offset read back from the scroller; drawing replaces the covered rows and
 * anything below the canvas is clipped.  The final canvas keeps the first
 * `maxCapturedY * dpr` rows of the working canvas.
 */
module Compositor {
  import opened CaptureDriver

  /** A capture placed at `shot.y * dpr` covers canvas row `p`. */
  predicate Covers(shot: Shot, dpr: nat, p: int) {
    shot.y * dpr <= p < shot.y * dpr + |shot.image|
  }

  /** `drawImage` of one image with its top row at `offset`, clipped to the canvas. */
  function Paint(canvas: seq<Row>, img: Image, offset: int): seq<Row> {
    seq(|canvas|, p requires 0 <= p < |canvas| =>
      if offset <= p < offset + |img| then img[p - offset] else canvas[p])
  }

  /** The working canvas after the captures are drawn in recorded order. */
  function Stitched(canvas: seq<Row>, shots: seq<Shot>, dpr: nat): (c: seq<Row>)
    ensures |c| == |canvas|
  {
    if shots == [] then canvas
    else
      var last := shots[|shots| - 1];
      Paint(Stitched(canvas, shots[..|shots| - 1], dpr), last.image, last.y * dpr)
  }

  /**
   * Later captures win: a row covered by capture `j` and by no later one
   * shows capture `j`'s row.
   */
  lemma {:induction false} LaterCaptureWins(canvas: seq<Row>, shots: seq<Shot>, dpr: nat, j: nat, p: int)
    requires 0 <= p < |canvas| && j < |shots|
    requires Covers(shots[j], dpr, p)
    requires forall i :: j < i < |shots| ==> !Covers(shots[i], dpr, p)
    ensures Stitched(canvas, shots, dpr)[p] == shots[j].image[p - shots[j].y * dpr]
    decreases |shots|
  {
    var init := shots[..|shots| - 1];
    if j < |shots| - 1 {
      assert !Covers(shots[|shots| - 1], dpr, p);
      assert init[j] == shots[j];
      forall i | j < i < |init|
        ensures !Covers(init[i], dpr, p)
      {
        assert init[i] == shots[i];
      }
      LaterCaptureWins(canvas, init, dpr, j, p);
    }
  }

  /** A row no capture covers keeps what the canvas held before stitching. */
  lemma {:induction false} UncoveredRowKept(canvas: seq<Row>, shots: seq<Shot>, dpr: nat, p: int)
    requires 0 <= p < |canvas|
    requires forall i :: 0 <= i < |shots| ==> !Covers(shots[i], dpr, p)
    ensures Stitched(canvas, shots, dpr)[p] == canvas[p]
    decreases |shots|
  {
    if shots != [] {
      var init := shots[..|shots| - 1];
      assert !Covers(shots[|shots| - 1], dpr, p);
      forall i | 0 <= i < |init|
        ensures !Covers(init[i], dpr, p)
      {
        assert init[i] == shots[i];
      }
      UncoveredRowKept(canvas, init, dpr, p);
    }
  }

  /**
   * The final canvas: the first `height` rows of the working canvas; rows
   * past its end stay transparent.
   */
  function Cropped(canvas: seq<Row>, height: nat): (c: seq<Row>)
    ensures |c| == height
    ensures forall p :: 0 <= p < height ==> c[p] == if p < |canvas| then canvas[p] else Transparent
  {
    if height <= |canvas| then canvas[..height]
    else canvas + seq(height - |canvas|, _ => Transparent)
  }

  /** One `drawImage` call, row by row. */
  method DrawImage(canvas: array<Row>, img: Image, offset: int)
    modifies canvas
    ensures canvas[..] == Paint(old(canvas[..]), img, offset)
  {
    for j := 0 to |img|
      invariant forall p :: 0 <= p < canvas.Length ==>
        canvas[p] == if offset <= p < offset + j then img[p - offset] else old(canvas[p])
    {
      if 0 <= offset + j < canvas.Length {
        canvas[offset + j] := img[j];
      }
    }
  }

  /** `for (const capture of captures) context.drawImage(...)`. */
  method DrawShots(canvas: array<Row>, shots: seq<Shot>, dpr: nat)
    modifies canvas
    ensures canvas[..] == Stitched(old(canvas[..]), shots, dpr)
  {
    for i := 0 to |shots|
      invariant canvas[..] == Stitched(old(canvas[..]), shots[..i], dpr)
    {
      assert shots[..i + 1][..i] == shots[..i];
      DrawImage(canvas, shots[i].image, shots[i].y * dpr);
    }
    assert shots[..|shots|] == shots;
  }
}
