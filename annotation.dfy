/**
 * The annotation state of the capture page (`CaptureResult` in
 * src/capture/index.tsx): the undo history of the overlay canvas, the pen
 * and crop modes, the crop drag and the pen strokes.
 *
 * The overlay canvas is modelled by what has been stroked on it, one
 * straight segment per `lineTo`; a snapshot (`getImageData`) is that list,
 * and `putImageData` puts a snapshot back.  The handlers run one after the
 * other, each seeing the state the previous one left.
 */
module Annotation {
  import opened Wrappers
  import opened CropGeometry

  /** One `lineTo` + `stroke` on the overlay, in canvas pixels. */
  datatype Segment = Segment(from: Point, to: Point)

  /** The overlay's pixels, as the segments stroked on it. */
  type Snapshot = seq<Segment>

  /** The cleared overlay. */
  const Blank: Snapshot := []

  /** The part of the component the undo machinery reads and writes. */
  datatype Timeline = Timeline(history: seq<Snapshot>, step: int, overlay: Snapshot)

  /** The step is -1 ("nothing") or an index into the history. */
  predicate InRange(t: Timeline) {
    -1 <= t.step < |t.history|
  }

  /** What the overlay shows at a step: the snapshot there, or the cleared canvas at -1. */
  function Shown(history: seq<Snapshot>, step: int): Snapshot
    requires -1 <= step < |history|
  {
    if step < 0 then Blank else history[step]
  }

  /** Between strokes the overlay shows exactly the current step. */
  predicate Synced(t: Timeline)
    requires InRange(t)
  {
    t.overlay == Shown(t.history, t.step)
  }

  /** `saveHistory`: drop everything after the current step and push the overlay. */
  function Saved(t: Timeline): Timeline
    requires InRange(t)
  {
    Timeline(t.history[..t.step + 1] + [t.overlay], t.step + 1, t.overlay)
  }

  /** `undo`: step back one snapshot, or from step 0 to the cleared canvas; nothing at -1. */
  function Undone(t: Timeline): Timeline
    requires InRange(t)
  {
    if t.step > 0 then Timeline(t.history, t.step - 1, t.history[t.step - 1])
    else if t.step == 0 then Timeline(t.history, -1, Blank)
    else t
  }

  /** The Clear All button: clear the overlay and go to step -1, keeping the history array. */
  function Cleared(t: Timeline): Timeline {
    Timeline(t.history, -1, Blank)
  }

  /** After the screenshot loads: the history reset and the blank canvas saved. */
  function Loaded(): Timeline {
    Saved(Timeline([], -1, Blank))
  }

  /** A whole stroke: its segments drawn, then `saveHistory` from `stopDrawing`. */
  function Stroked(t: Timeline, stroke: seq<Segment>): Timeline
    requires InRange(t)
  {
    Saved(Timeline(t.history, t.step, t.overlay + stroke))
  }

  /** The strokes drawn one after the other. */
  function Strokes(t: Timeline, strokes: seq<seq<Segment>>): (r: Timeline)
    requires InRange(t)
    ensures InRange(r)
    decreases |strokes|
  {
    if strokes == [] then t
    else Strokes(Stroked(t, strokes[0]), strokes[1..])
  }

  /** `n` presses of Undo. */
  function UndoN(t: Timeline, n: nat): (r: Timeline)
    requires InRange(t)
    ensures InRange(r)
    decreases n
  {
    if n == 0 then t else UndoN(Undone(t), n - 1)
  }

  /**
   * Saving keeps the history up to the current step, pushes the overlay
   * after it and makes it the current step, the last one.
   */
  lemma SaveKeepsPrefix(t: Timeline)
    requires InRange(t)
    ensures var r := Saved(t);
            InRange(r) && Synced(r) &&
            r.history[..t.step + 1] == t.history[..t.step + 1] &&
            |r.history| == t.step + 2 && r.step == |r.history| - 1 &&
            r.history[r.step] == t.overlay
  {
    var r := Saved(t);
    assert r.history[..t.step + 1] == t.history[..t.step + 1];
  }

  /**
   * Undo never changes the history; above step 0 it moves one step back and
   * shows that snapshot, at 0 it shows the cleared canvas at -1, at -1 it
   * does nothing.  It keeps the overlay in step with the history.
   */
  lemma UndoKeepsHistory(t: Timeline)
    requires InRange(t)
    ensures var r := Undone(t);
            InRange(r) && Synced(r) == (t.step >= 0 || Synced(t)) &&
            r.history == t.history &&
            r.step == (if t.step >= 0 then t.step - 1 else -1) &&
            (t.step >= 0 ==> r.overlay == Shown(t.history, t.step - 1))
  {
  }

  /** Undo at -1 is a no-op however often it is pressed. */
  lemma {:induction false} UndoAtBottom(t: Timeline, n: nat)
    requires InRange(t) && t.step == -1
    ensures UndoN(t, n) == t
  {
    if n > 0 {
      UndoAtBottom(Undone(t), n - 1);
    }
  }

  /** Clear All followed by a save leaves one snapshot, the blank canvas, at step 0. */
  lemma ClearThenSave(t: Timeline)
    ensures Saved(Cleared(t)) == Timeline([Blank], 0, Blank)
  {
    assert Cleared(t).history[..0] == [];
  }

  /** A stroke after an undo drops the undone snapshot: nothing past the new step survives. */
  lemma SaveAfterUndoTruncates(t: Timeline, stroke: seq<Segment>)
    requires InRange(t) && t.step > 0
    ensures var r := Stroked(Undone(t), stroke);
            |r.history| == t.step + 1 && r.history[..t.step] == t.history[..t.step] &&
            r.history[t.step] == t.history[t.step - 1] + stroke
  {
    var r := Stroked(Undone(t), stroke);
    assert r.history[..t.step] == t.history[..t.step];
  }

  /**
   * Strokes from a synced state push one snapshot each on top of the
   * current step, leaving the history up to that step alone.
   */
  lemma {:induction false} StrokesPush(t: Timeline, strokes: seq<seq<Segment>>)
    requires InRange(t) && Synced(t)
    ensures var r := Strokes(t, strokes);
            Synced(r) && r.step == t.step + |strokes| &&
            (strokes != [] ==> |r.history| == r.step + 1) &&
            r.history[..t.step + 1] == t.history[..t.step + 1]
    decreases |strokes|
  {
    if strokes != [] {
      var s := Stroked(t, strokes[0]);
      SaveKeepsPrefix(Timeline(t.history, t.step, t.overlay + strokes[0]));
      StrokesPush(s, strokes[1..]);
      var r := Strokes(t, strokes);
      assert r.history[..t.step + 1] == r.history[..s.step + 1][..t.step + 1];
    }
  }

  /**
   * Undo walks back through a stack whose top is the current step: after
   * `k` undos the history is unchanged, the step is `k` lower and the
   * overlay shows it.
   */
  lemma {:induction false} UndosWalkBack(t: Timeline, k: nat)
    requires InRange(t) && Synced(t) && k <= t.step + 1
    ensures var r := UndoN(t, k);
            r.history == t.history && r.step == t.step - k && Synced(r)
    decreases k
  {
    if k > 0 {
      UndoKeepsHistory(t);
      UndosWalkBack(Undone(t), k - 1);
    }
  }

  /**
   * The undo stack is last in, first out: from the freshly loaded canvas,
   * `n` strokes then `n` undos give the blank canvas at step 0 with every
   * stroke still on the history; one more undo gives the cleared canvas at
   * -1, and any further undo changes nothing.
   */
  lemma LastInFirstOut(strokes: seq<seq<Segment>>, extra: nat)
    ensures var drawn := Strokes(Loaded(), strokes);
            |drawn.history| == |strokes| + 1 &&
            UndoN(drawn, |strokes|) == Timeline(drawn.history, 0, Blank) &&
            UndoN(drawn, |strokes| + 1 + extra) == Timeline(drawn.history, -1, Blank)
  {
    var t := Loaded();
    assert t == Timeline([Blank], 0, Blank);
    StrokesPush(t, strokes);
    var drawn := Strokes(t, strokes);
    UndosWalkBack(drawn, |strokes|);
    UndosWalkBack(drawn, |strokes| + 1);
    assert drawn.history[..1] == [Blank];
    UndoNSplit(drawn, |strokes| + 1, extra);
    UndoAtBottom(UndoN(drawn, |strokes| + 1), extra);
  }

  /** `m + n` undos are `m` undos and then `n` more. */
  lemma {:induction false} UndoNSplit(t: Timeline, m: nat, n: nat)
    requires InRange(t)
    ensures UndoN(t, m + n) == UndoN(UndoN(t, m), n)
    decreases m
  {
    if m > 0 {
      UndoNSplit(Undone(t), m - 1, n);
    }
  }

  /**
   * The component's state.  Snapshots are the overlay's content; `penAt` is
   * the current point of the canvas path (`moveTo`/`lineTo`), `None` before
   * any; `canvasW`/`canvasH` are the overlay canvas's pixel size.
   */
  class CaptureResult {
    var history: seq<Snapshot>
    var historyStep: int
    var overlay: Snapshot
    var isDrawing: bool
    var isPenActive: bool
    var isCropActive: bool
    var isCropping: bool
    var cropStart: Option<Point>
    var cropEnd: Option<Point>
    var penAt: Option<Point>
    var canvasW: real
    var canvasH: real

    /** The undo part of the state. */
    function State(): Timeline
      reads this
    {
      Timeline(history, historyStep, overlay)
    }

    /**
     * What every handler keeps: the step stays in range, the overlay shows
     * the current step except in the middle of a stroke, pen and crop mode
     * exclude each other, and the crop corners are set together.
     */
    predicate Valid()
      reads this
    {
      InRange(State()) && (!isDrawing ==> Synced(State())) &&
      !(isPenActive && isCropActive) &&
      cropStart.Some? == cropEnd.Some?
    }

    /** The first render: empty history at step -1, nothing selected, no mode. */
    constructor ()
      ensures Valid()
      ensures State() == Timeline([], -1, Blank)
      ensures !isDrawing && !isPenActive && !isCropActive && !isCropping
      ensures cropStart.None? && cropEnd.None? && penAt.None?
    {
      history := [];
      historyStep := -1;
      overlay := Blank;
      isDrawing := false;
      isPenActive := false;
      isCropActive := false;
      isCropping := false;
      cropStart := None;
      cropEnd := None;
      penAt := None;
      canvasW := 0.0;
      canvasH := 0.0;
    }

    /**
     * `img.onload`: size the overlay to the displayed image, clear it, reset
     * the history and save the blank canvas.  Setting the canvas width resets
     * the 2D context, so any current path is dropped.
     */
    method OnImageLoad(width: real, height: real)
      requires Valid()
      modifies this
      ensures Valid()
      ensures State() == Loaded() && canvasW == width && canvasH == height
      ensures isDrawing == old(isDrawing) && isPenActive == old(isPenActive) && isCropActive == old(isCropActive)
      ensures isCropping == old(isCropping) && cropStart == old(cropStart) && cropEnd == old(cropEnd) && penAt.None?
    {
      canvasW := width;
      canvasH := height;
      overlay := Blank;
      history := [];
      historyStep := -1;
      penAt := None;
      SaveHistory();
    }

    /** `saveHistory`. */
    method SaveHistory()
      requires InRange(State())
      modifies this
      ensures State() == Saved(old(State()))
      ensures InRange(State()) && Synced(State())
      ensures isDrawing == old(isDrawing) && isPenActive == old(isPenActive) && isCropActive == old(isCropActive)
      ensures isCropping == old(isCropping) && cropStart == old(cropStart) && cropEnd == old(cropEnd)
      ensures penAt == old(penAt) && canvasW == old(canvasW) && canvasH == old(canvasH)
    {
      SaveKeepsPrefix(State());
      var newHistory := history[..historyStep + 1];
      newHistory := newHistory + [overlay];
      history := newHistory;
      historyStep := |newHistory| - 1;
    }

    /** `undo`, from the button or Ctrl+Z. */
    method Undo()
      requires Valid()
      modifies this
      ensures Valid()
      ensures State() == Undone(old(State()))
      ensures isDrawing == old(isDrawing) && isPenActive == old(isPenActive) && isCropActive == old(isCropActive)
      ensures isCropping == old(isCropping) && cropStart == old(cropStart) && cropEnd == old(cropEnd)
      ensures penAt == old(penAt) && canvasW == old(canvasW) && canvasH == old(canvasH)
    {
      UndoKeepsHistory(State());
      if historyStep > 0 {
        var step := historyStep - 1;
        overlay := history[step];
        historyStep := step;
      } else if historyStep == 0 {
        overlay := Blank;
        historyStep := -1;
      }
    }

    /** The Clear All button. */
    method ClearAll()
      requires Valid()
      modifies this
      ensures Valid()
      ensures State() == Cleared(old(State()))
      ensures isDrawing == old(isDrawing) && isPenActive == old(isPenActive) && isCropActive == old(isCropActive)
      ensures isCropping == old(isCropping) && cropStart == old(cropStart) && cropEnd == old(cropEnd)
      ensures penAt == old(penAt) && canvasW == old(canvasW) && canvasH == old(canvasH)
    {
      overlay := Blank;
      historyStep := -1;
    }

    /** The pen button: flip pen mode and leave crop mode. */
    method TogglePen()
      requires Valid()
      modifies this
      ensures Valid()
      ensures isPenActive == !old(isPenActive) && !isCropActive
      ensures State() == old(State()) && isDrawing == old(isDrawing) && isCropping == old(isCropping)
      ensures cropStart == old(cropStart) && cropEnd == old(cropEnd) && penAt == old(penAt)
      ensures canvasW == old(canvasW) && canvasH == old(canvasH)
    {
      isPenActive := !isPenActive;
      isCropActive := false;
    }

    /**
     * The crop button: flip crop mode and leave pen mode; turning crop on
     * forgets the previous selection, turning it off keeps it.
     */
    method ToggleCrop()
      requires Valid()
      modifies this
      ensures Valid()
      ensures isCropActive == !old(isCropActive) && !isPenActive
      ensures isCropActive ==> cropStart.None? && cropEnd.None?
      ensures !isCropActive ==> cropStart == old(cropStart) && cropEnd == old(cropEnd)
      ensures State() == old(State()) && isDrawing == old(isDrawing) && isCropping == old(isCropping)
      ensures penAt == old(penAt) && canvasW == old(canvasW) && canvasH == old(canvasH)
    {
      var wasActive := isCropActive;
      isCropActive := !isCropActive;
      isPenActive := false;
      if !wasActive {
        cropStart := None;
        cropEnd := None;
      }
    }

    /** `startCrop`: in crop mode, start dragging with both corners at the pointer. */
    method StartCrop(client: Point, box: Box)
      requires Valid()
      modifies this
      ensures Valid()
      ensures old(isCropActive) ==>
        isCropping && cropStart == Some(Local(client, box)) && cropEnd == Some(Local(client, box))
      ensures !old(isCropActive) ==> isCropping == old(isCropping) && cropStart == old(cropStart) && cropEnd == old(cropEnd)
      ensures State() == old(State()) && isDrawing == old(isDrawing) && isPenActive == old(isPenActive)
      ensures isCropActive == old(isCropActive) && penAt == old(penAt) && canvasW == old(canvasW) && canvasH == old(canvasH)
    {
      if !isCropActive {
        return;
      }
      isCropping := true;
      var p := Local(client, box);
      cropStart := Some(p);
      cropEnd := Some(p);
    }

    /** `doCrop`: while dragging, only the moving corner follows the pointer. */
    method DoCrop(client: Point, box: Box)
      requires Valid()
      modifies this
      ensures Valid()
      ensures old(isCropping) && old(cropStart).Some? ==> cropEnd == Some(Local(client, box))
      ensures !(old(isCropping) && old(cropStart).Some?) ==> cropEnd == old(cropEnd)
      ensures cropStart == old(cropStart) && isCropping == old(isCropping)
      ensures State() == old(State()) && isDrawing == old(isDrawing) && isPenActive == old(isPenActive)
      ensures isCropActive == old(isCropActive) && penAt == old(penAt) && canvasW == old(canvasW) && canvasH == old(canvasH)
    {
      if !isCropping || cropStart.None? {
        return;
      }
      cropEnd := Some(Local(client, box));
    }

    /** `endCrop`: stop dragging; the selection stays. */
    method EndCrop()
      requires Valid()
      modifies this
      ensures Valid()
      ensures !isCropping && cropStart == old(cropStart) && cropEnd == old(cropEnd)
      ensures State() == old(State()) && isDrawing == old(isDrawing) && isPenActive == old(isPenActive)
      ensures isCropActive == old(isCropActive) && penAt == old(penAt) && canvasW == old(canvasW) && canvasH == old(canvasH)
    {
      if isCropping {
        isCropping := false;
      }
    }

    /** `startDrawing`: in pen mode, begin a path at the pointer, scaled to canvas pixels. */
    method StartDrawing(client: Point, box: Box)
      requires Valid() && (isPenActive ==> box.width != 0.0 && box.height != 0.0)
      modifies this
      ensures Valid()
      ensures old(isPenActive) ==> isDrawing && penAt == Some(PenPoint(client, box, canvasW, canvasH))
      ensures !old(isPenActive) ==> isDrawing == old(isDrawing) && penAt == old(penAt)
      ensures State() == old(State()) && isPenActive == old(isPenActive) && isCropActive == old(isCropActive)
      ensures isCropping == old(isCropping) && cropStart == old(cropStart) && cropEnd == old(cropEnd)
      ensures canvasW == old(canvasW) && canvasH == old(canvasH)
    {
      if !isPenActive {
        return;
      }
      isDrawing := true;
      penAt := Some(PenPoint(client, box, canvasW, canvasH));
    }

    /**
     * `draw`: while drawing in pen mode, stroke a segment from the current
     * point to the pointer; with no current point `lineTo` only moves there.
     */
    method Draw(client: Point, box: Box)
      requires Valid() && (isDrawing && isPenActive ==> box.width != 0.0 && box.height != 0.0)
      modifies this
      ensures Valid()
      ensures if old(isDrawing) && old(isPenActive) then
          var p := PenPoint(client, box, canvasW, canvasH);
          penAt == Some(p) &&
          overlay == old(overlay) + (if old(penAt).Some? then [Segment(old(penAt).value, p)] else [])
        else
          penAt == old(penAt) && overlay == old(overlay)
      ensures history == old(history) && historyStep == old(historyStep)
      ensures isDrawing == old(isDrawing) && isPenActive == old(isPenActive) && isCropActive == old(isCropActive)
      ensures isCropping == old(isCropping) && cropStart == old(cropStart) && cropEnd == old(cropEnd)
      ensures canvasW == old(canvasW) && canvasH == old(canvasH)
    {
      if !isDrawing || !isPenActive {
        return;
      }
      var p := PenPoint(client, box, canvasW, canvasH);
      if penAt.Some? {
        overlay := overlay + [Segment(penAt.value, p)];
      }
      penAt := Some(p);
    }

    /** `stopDrawing`: end the stroke and save it as a new step. */
    method StopDrawing()
      requires Valid()
      modifies this
      ensures Valid()
      ensures old(isDrawing) ==> !isDrawing && State() == Saved(old(State()))
      ensures !old(isDrawing) ==> isDrawing == old(isDrawing) && State() == old(State())
      ensures isPenActive == old(isPenActive) && isCropActive == old(isCropActive)
      ensures isCropping == old(isCropping) && cropStart == old(cropStart) && cropEnd == old(cropEnd)
      ensures penAt == old(penAt) && canvasW == old(canvasW) && canvasH == old(canvasH)
    {
      if isDrawing {
        isDrawing := false;
        SaveHistory();
      }
    }

    /**
     * Mouse or touch down on the overlay: `startCrop` in crop mode,
     * `startDrawing` otherwise.  The pen scaling divides by the box size.
     */
    method PointerDown(client: Point, box: Box)
      requires Valid() && (!isCropActive && isPenActive ==> box.width != 0.0 && box.height != 0.0)
      modifies this
      ensures Valid()
      ensures old(isCropActive) ==>
        isCropping && cropStart == Some(Local(client, box)) && cropEnd == Some(Local(client, box)) &&
        isDrawing == old(isDrawing) && penAt == old(penAt)
      ensures !old(isCropActive) && old(isPenActive) ==>
        isDrawing && penAt == Some(PenPoint(client, box, canvasW, canvasH))
      ensures !old(isCropActive) && !old(isPenActive) ==> isDrawing == old(isDrawing) && penAt == old(penAt)
      ensures !old(isCropActive) ==> isCropping == old(isCropping) && cropStart == old(cropStart) && cropEnd == old(cropEnd)
      ensures State() == old(State()) && isPenActive == old(isPenActive) && isCropActive == old(isCropActive)
      ensures canvasW == old(canvasW) && canvasH == old(canvasH)
    {
      if isCropActive {
        StartCrop(client, box);
      } else {
        StartDrawing(client, box);
      }
    }

    /** Mouse or touch move on the overlay: `doCrop` in crop mode, `draw` otherwise. */
    method PointerMove(client: Point, box: Box)
      requires Valid() && (!isCropActive && isDrawing && isPenActive ==> box.width != 0.0 && box.height != 0.0)
      modifies this
      ensures Valid()
      ensures old(isCropActive) ==>
        (if old(isCropping) && old(cropStart).Some? then cropEnd == Some(Local(client, box)) else cropEnd == old(cropEnd)) &&
        overlay == old(overlay) && penAt == old(penAt)
      ensures !old(isCropActive) ==>
        cropEnd == old(cropEnd) &&
        if old(isDrawing) && old(isPenActive) then
          var p := PenPoint(client, box, canvasW, canvasH);
          penAt == Some(p) &&
          overlay == old(overlay) + (if old(penAt).Some? then [Segment(old(penAt).value, p)] else [])
        else
          penAt == old(penAt) && overlay == old(overlay)
      ensures history == old(history) && historyStep == old(historyStep)
      ensures isDrawing == old(isDrawing) && isPenActive == old(isPenActive) && isCropActive == old(isCropActive)
      ensures isCropping == old(isCropping) && cropStart == old(cropStart)
      ensures canvasW == old(canvasW) && canvasH == old(canvasH)
    {
      if isCropActive {
        DoCrop(client, box);
      } else {
        Draw(client, box);
      }
    }

    /** Mouse up, mouse leave or touch end on the overlay: `endCrop` in crop mode, `stopDrawing` otherwise. */
    method PointerUp()
      requires Valid()
      modifies this
      ensures Valid()
      ensures old(isCropActive) ==> !isCropping && State() == old(State()) && isDrawing == old(isDrawing)
      ensures !old(isCropActive) && old(isDrawing) ==> !isDrawing && State() == Saved(old(State()))
      ensures !old(isCropActive) && !old(isDrawing) ==> !isDrawing && State() == old(State())
      ensures !old(isCropActive) ==> isCropping == old(isCropping)
      ensures cropStart == old(cropStart) && cropEnd == old(cropEnd)
      ensures isPenActive == old(isPenActive) && isCropActive == old(isCropActive)
      ensures penAt == old(penAt) && canvasW == old(canvasW) && canvasH == old(canvasH)
    {
      if isCropActive {
        EndCrop();
      } else {
        StopDrawing();
      }
    }
  }
}
