/**
 * `performScrollCapture` in src/content/index.ts, end to end: resolve the
 * scroll target, hand a PDF off, size the working canvas, collect the fixed
 * chrome, run the capture loop, stitch the captures and crop the result to
 * the lowest captured row.
 *
 * The browser's page is the `Page` the caller passes in (its largest scroll
 * offset, the scroll height read on the final step, and the inline
 * visibilities of the elements of `d`, in document order).
 */
module FullPageCapture {
  import opened Wrappers
  import opened Resolver
  import opened FixedChrome
  import opened CaptureDriver
  import opened Compositor

  /** The final canvas: its width and its rows. */
  datatype Composite = Composite(width: int, rows: seq<Row>)

  datatype Outcome =
    | PdfHandOff                    // the PDF branch hands the file to the result page instead
    | CaptureFailed(error: string)  // the primitive answered with an error
    | Captured(image: Composite)

  /**
   * Outside a PDF, the scroller the resolver picks has a viewport taller
   * than the stuck tolerance and a content height that is not negative.
   */
  ghost predicate Measurable(d: Document) {
    forall s :: Resolves(d, s) ==> d.isPdf || (s.height >= 0 && s.viewHeight > StuckTolerance)
  }

  /** A working canvas of `rows` rows, all transparent. */
  function TransparentRows(rows: int): (c: seq<Row>)
    ensures |c| == if rows < 0 then 0 else rows
    ensures forall p :: 0 <= p < |c| ==> c[p] == Transparent
  {
    if rows <= 0 then [] else TransparentRows(rows - 1) + [Transparent]
  }

  /**
   * The whole capture.  A PDF is handed off untouched.  Otherwise the outcome
   * is that of the loop on the resolved scroller (`Sweep`): its error, or the
   * captures drawn at `y * dpr` onto a blank canvas `(height + 2000) * dpr`
   * rows tall, cropped to `maxCapturedY * dpr` rows and `fullWidth * dpr`
   * wide.  The inline visibilities are restored either way; the scroll
   * offset is reset to 0 on success and left where the failed step
   * scrolled to on an error.
   */
  method PerformScrollCapture(d: Document, page: Page, dpr: nat, fullWidth: int, capture: CapturePrimitive)
    returns (outcome: Outcome, scroller: Scroller, fixed: seq<Saved>)
    requires Measurable(d) && dpr > 0 && 0 <= page.maxScroll
    requires |page.visibility| == |d.elements|
    modifies page
    ensures Resolves(d, scroller)
    ensures page.visibility == old(page.visibility)
    ensures d.isPdf ==> outcome == PdfHandOff && page.scrollTop == old(page.scrollTop)
    ensures !d.isPdf ==>
      CollectedFrom(d, old(page.visibility), scroller.element, fixed) &&
      var run := Run(scroller.height, scroller.viewHeight, page.maxScroll, page.bottomHeight,
                     old(page.visibility), fixed, capture);
      ValidRun(run) &&
      match Sweep(run, 0, 0)
      case Failure(e) =>
        outcome == CaptureFailed(e) && page.scrollTop == Clamp(Target(run, FailedAt(run, 0, 0)), page.maxScroll)
      case Success(shots) =>
        page.scrollTop == 0 &&
        outcome == Captured(Composite(fullWidth * dpr,
          Cropped(Stitched(TransparentRows((scroller.height + CanvasSlack) * dpr), shots, dpr),
                  MaxBottom(shots, scroller.viewHeight) * dpr)))
  {
    scroller := Resolve(d);
    if d.isPdf {
      return PdfHandOff, scroller, [];
    }
    assert scroller.height >= 0 && scroller.viewHeight > StuckTolerance;
    var fullHeight := scroller.height;
    var viewportHeight := scroller.viewHeight;

    var canvas := new Row[(fullHeight + CanvasSlack) * dpr](_ => Transparent);
    assert canvas[..] == TransparentRows((fullHeight + CanvasSlack) * dpr);

    fixed := Collect(d, page.visibility, scroller.element);

    ghost var run := page.RunOf(fullHeight, viewportHeight, fixed, capture);
    var result, maxCapturedY := page.CaptureSteps(fullHeight, viewportHeight, fixed, capture);
    assert result == Sweep(run, 0, 0);
    if result.Failure? {
      assert page.scrollTop == Clamp(Target(run, FailedAt(run, 0, 0)), page.maxScroll);
      return CaptureFailed(result.error), scroller, fixed;
    }

    DrawShots(canvas, result.value, dpr);
    var rows := Cropped(canvas[..], maxCapturedY * dpr);
    outcome := Captured(Composite(fullWidth * dpr, rows));
  }
}
