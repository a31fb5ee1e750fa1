# NaviLens full-page capture and annotation, modelled in Dafny

NaviLens is a browser extension that takes a screenshot of a whole web page
and lets the user crop it and draw on it before sharing. This project models
two parts of it and proves properties of each.

- **The scroll capture** (`performScrollCapture` in src/content/index.ts) has
  several stages:
  - It picks the element that scrolls, either the window or the largest
    scrollable inner element.
  - A PDF is handed off instead of being captured.
  - Fixed and sticky elements (the "chrome") are collected and hidden after
    the first screen, then their own inline visibility is restored.
  - The page is walked one viewport at a time. Each capture is placed at the
    offset read back from the scroller, not the offset requested.
  - The captures are stitched onto an oversized canvas, and the result is cut
    to the lowest captured row.
- **`dataURItoBlob`** splits a `data:` URI and decodes it into bytes and a MIME
  type.
- **The capture page** (`CaptureResult` in src/capture/index.tsx) covers:
  - the linear undo history of the annotation canvas (save, undo, Clear All);
  - the pen and crop modes and the crop drag;
  - the pen's display-to-canvas coordinate mapping;
  - the crop rectangle used when the screenshot and the annotations are merged.

Each stateful part is a class, and each method is proved against a pure
specification:
- `CaptureDriver.Page` against `Sweep`;
- `Compositor.DrawShots` against `Stitched`;
- `Annotation.CaptureResult` against `Saved`, `Undone` and `Cleared` on a
  `Timeline`.

The properties are proved as lemmas about those functions.

Modules, one per file: `Wrappers`, `Resolver`, `FixedChrome`, `CaptureDriver`,
`Compositor`, `FullPageCapture`, `DataUri`, `CropGeometry`, `Annotation`.

Where the outside world comes in, it is a parameter:
- The tab screenshot (`chrome.runtime.sendMessage({type: 'CAPTURE_VISIBLE_TAB'})`)
  is a function from (call number, scroll offset on screen, inline visibilities
  of the page's elements) to an image or an error.
- `atob` is a function from string to an optional string.
- The document is a value: content type, heights, and one record per element
  with its computed style and box.
- The browser's clamping of `scrollTo` is `CaptureDriver.Clamp` against the
  scroller's largest offset.

## Model

| member | source | states |
|---|---|---|
| Resolver.Resolve | src/content/index.ts:224-281 | A PDF, or a document noticeably taller than the window whose body and root do not hide overflow, gives the window with its scroll height and inner height. Otherwise the result is the first scrollable element of largest area above 50000 with its own scroll and client height, or the window when there is none. |
| Resolver.ResolvesUnique | src/content/index.ts:247-275 | The resolution is a function of the document: two results that both meet its definition are equal. |
| FixedChrome.Collect | src/content/index.ts:362-376 | The collected list holds exactly the fixed or sticky, displayed, visible, non-transparent elements other than the scroller. They are in document order, each saved with the inline visibility it had. |
| FixedChrome.ScrollerNeverCollected | src/content/index.ts:370-372 | The scroller itself is never in the collected list. |
| FixedChrome.SameIndicesSameList | src/content/index.ts:362-376 | Two ordered, saved lists over the same elements are the same list. |
| FixedChrome.CollectedUnique | src/content/index.ts:362-376 | Collection is deterministic: any two lists meeting its definition are equal. |
| FixedChrome.ToggledAt | src/content/index.ts:378-382 | `toggleFixedElements(hide)` sets each collected element to "hidden", or back to its saved value, and leaves every other element alone. |
| FixedChrome.RestoreAfterHide | src/content/index.ts:378-382 | Hiding then showing gives back the page's original inline visibilities. |
| FixedChrome.RestoreWhenShown | src/content/index.ts:378-382 | Showing chrome that was never hidden changes nothing. |
| FixedChrome.HideIdempotent | src/content/index.ts:378-382 | Hiding twice is hiding once. |
| CaptureDriver.StepAt | src/content/index.ts:389-486 | One pass of the loop body. Whenever the loop goes on, the next start is below the estimate and at least `viewportHeight - 10` below this one (the termination measure). The request and the read-back offset are those of the scroll. |
| CaptureDriver.MaxBottomSnoc | src/content/index.ts:465-468 | Recording a capture raises `maxCapturedY` to its bottom exactly when that bottom is lower. |
| CaptureDriver.MaxBottomIsMaximum | src/content/index.ts:356-468 | `maxCapturedY` is the maximum of `y + viewportHeight` over the captures: no capture ends below it, and one ends exactly there unless it is 0. |
| CaptureDriver.SweepIsTrace | src/content/index.ts:389-486 | The run succeeds with a list of captures exactly when every capture is the primitive's answer at its step's start, and the loop breaks after the last and only the last. |
| CaptureDriver.SweepOffsets | src/content/index.ts:416-431 | Each capture is placed at the read-back offset, which is its request clamped to the scroller's range. Each later request comes from the previous read-back offset plus the viewport. |
| CaptureDriver.SweepStopsWhenPinned | src/content/index.ts:477-482 | A final scroll, or a capture read back more than 10 pixels above its request, ends the run. |
| CaptureDriver.ShortPage | src/content/index.ts:397-405 | When the viewport covers the estimate, the run takes one capture and requests the scroller's scroll height. |
| CaptureDriver.ChromeOnlyAtTop | src/content/index.ts:405-415 | In a run from the top, the chrome is on screen for the first capture and hidden for every later one. |
| CaptureDriver.SweepLength | src/content/index.ts:477-485 | Termination bound: `(captures - 1) * (viewportHeight - 10)` never exceeds the estimate. |
| CaptureDriver.SweepHonoured | src/content/index.ts:396-485 | When the scroller can reach the estimate, the captures start `viewportHeight` apart from the start. Their number is the estimate over the viewport, rounded up. |
| CaptureDriver.TallPageScenario | src/content/index.ts:389-486 | A 3000-pixel page in a 1000-pixel viewport whose scroller stops at 2000 gives captures at 0, 1000 and 2000. The last asked for 3000. |
| CaptureDriver.Page.ScrollTo | src/content/index.ts:419-423 | The scroll offset becomes the request clamped to `[0, maxScroll]`. |
| CaptureDriver.Page.ToggleFixed | src/content/index.ts:378-382 | The page's inline visibilities become `Toggled` of the old ones. |
| CaptureDriver.Page.SuppressFor | src/content/index.ts:405-415 | The visibilities become those on screen for the step: chrome hidden below the top and shown at the top. The hidden flag records which. The scroll offset is unchanged. |
| CaptureDriver.Page.RestoreFixed | src/content/index.ts:489-489 | After a run that hid the chrome, the page's original visibilities are back. |
| CaptureDriver.Page.TakeStep | src/content/index.ts:391-485 | One loop pass on the page is `StepAt` of the run. It leaves the scroller at the pass's request, clamped to the scroller's range, and the chrome as `Screen` shows it. |
| CaptureDriver.Page.CaptureSteps | src/content/index.ts:355-495 | The loop on the page returns `Sweep` of the run from the top, and on success `maxCapturedY` of its captures. For every answer the capture primitive gives, visibilities are restored. On success the scroll offset is back at 0. On an error it stays where the failing pass scrolled to (`FailedAt`). |
| CaptureDriver.FailedAtAborts | src/content/index.ts:446-453 | A failed run failed at `FailedAt`: the pass starting there is the one whose capture answered the run's error. |
| CaptureDriver.SmallViewportStalls | src/content/index.ts:396-485 | With a 10-pixel viewport, a 1000-pixel estimate and a scroller that stops at 100, the pass starting at 110 does not break and the next pass starts at 110 again. |
| Compositor.LaterCaptureWins | src/content/index.ts:503-515 | A canvas row covered by a capture and by no later one shows that capture's row. |
| Compositor.UncoveredRowKept | src/content/index.ts:503-515 | A row no capture covers keeps its earlier content. |
| Compositor.Cropped | src/content/index.ts:517-526 | The final canvas has exactly the requested height. It shows the working canvas's rows, and is transparent below the working canvas. |
| Compositor.DrawImage | src/content/index.ts:507-511 | One `drawImage` replaces exactly the rows the image covers, clipped to the canvas. |
| Compositor.DrawShots | src/content/index.ts:503-514 | Drawing the captures in order leaves `Stitched` of the old canvas. |
| FullPageCapture.TransparentRows | src/content/index.ts:351-352 | The working canvas starts with the requested number of rows, all transparent. |
| FullPageCapture.PerformScrollCapture | src/content/index.ts:218-526 | A PDF is handed off untouched. Otherwise the outcome is the error of the run, or the captures stitched at `y * dpr` onto a `(height + 2000) * dpr` canvas and cut to `maxCapturedY * dpr`. For every answer the capture primitive gives, visibilities are restored. On success the scroll offset is 0, and on an error it stays where the failing pass scrolled to. |
| DataUri.SplitParts | src/content/index.ts:636-637 | `split` gives at least one part, and no part contains the separator. |
| DataUri.SplitFirst | src/content/index.ts:636-637 | The first part is the longest separator-free prefix: it ends just before the first separator, or is the whole string when there is none. There is a second part exactly when the separator occurs. |
| DataUri.SplitJoin | src/content/index.ts:636-637 | Joining the parts of a split with the separator gives the string back. |
| DataUri.JoinSplit | src/content/index.ts:636-637 | Splitting a join of separator-free parts gives the parts back. |
| DataUri.ParseBuiltUri | src/content/index.ts:636-637 | A URI built as `data:<mime>;base64,<payload>` is read back as that MIME type and that payload. |
| DataUri.BlobType | src/content/index.ts:643 | The type the Blob constructor keeps is the given type up to ASCII case, printable and without upper-case letters. It is empty exactly when the given type is empty or holds a character outside U+0020 to U+007E. |
| DataUri.BlobTypeFixed | src/content/index.ts:643 | A type is kept unchanged exactly when it is printable and has no upper-case letter. |
| DataUri.BlobTypeIdempotent | src/content/index.ts:643 | Normalising a type twice is normalising it once. |
| DataUri.MixedCaseType | src/content/index.ts:643 | `Image/PNG` is kept as `image/png`. |
| DataUri.BuiltUriType | src/content/index.ts:636-643 | For a URI built from a printable lower-case MIME type, such as `canvas.toDataURL`'s `image/png`, the blob's type is that MIME type. |
| DataUri.DataUriToBlob | src/content/index.ts:635-644 | `atob` failing gives an error first, and a header without ':' gives an error next. Otherwise the blob's type is the header's MIME type as the Blob constructor normalises it, and there is one byte per decoded character: its code modulo 256. |
| CropGeometry.PenEdges | src/capture/index.tsx:162-169 | The canvas box's top-left maps to (0, 0) and its bottom-right to the canvas size. |
| CropGeometry.PenInside | src/capture/index.tsx:183-189 | A pointer inside the box draws inside the canvas. |
| CropGeometry.PenRoundTrip | src/capture/index.tsx:165-169 | The pen mapping is invertible: the pointer position is recovered from the pen position. |
| CropGeometry.NoSelectionKeepsAll | src/capture/index.tsx:214-214 | Without both crop corners the crop is the whole natural image. |
| CropGeometry.CropIsScaledSelection | src/capture/index.tsx:213-229 | The crop rectangle is the dashed selection box drawn on screen, scaled by natural over displayed size. |
| CropGeometry.CropNormalised | src/capture/index.tsx:220-228 | Width and height are never negative, and swapping the corners gives the same rectangle. |
| CropGeometry.CropInsideImage | src/capture/index.tsx:216-229 | A selection made on the displayed image crops inside the natural image. |
| CropGeometry.OverlayMisplacedAsWritten | src/capture/index.tsx:238-240 | As written, a screenshot shown at half its natural size puts an annotation drawn at (10, 10) at (10, 10) in the output. The screenshot pixel under it goes to (20, 20). |
| CropGeometry.OverlayAligned | src/capture/index.tsx:238-240 | With the annotation canvas cut in its own displayed pixels, every annotation lands where the screenshot pixel under it lands, with or without a selection. |
| Annotation.SaveKeepsPrefix | src/capture/index.tsx:76-80 | Saving keeps the history up to the step and pushes the overlay after it. That snapshot becomes the current and last step. |
| Annotation.UndoKeepsHistory | src/capture/index.tsx:83-100 | Undo never changes the history. Above 0 it steps back and shows that snapshot. At 0 it goes to -1 with a cleared canvas. At -1 it does nothing. |
| Annotation.UndoAtBottom | src/capture/index.tsx:92-100 | Any number of undos at -1 change nothing. |
| Annotation.ClearThenSave | src/capture/index.tsx:426-431 | Clear All then a save leaves a one-element history holding the blank canvas at step 0. |
| Annotation.SaveAfterUndoTruncates | src/capture/index.tsx:76-80 | A stroke after an undo drops the undone snapshot. |
| Annotation.StrokesPush | src/capture/index.tsx:193-199 | Each stroke pushes one snapshot on top of the current step and keeps the history below it. |
| Annotation.UndosWalkBack | src/capture/index.tsx:83-100 | `k` undos from a synced state lower the step by `k` and show that snapshot, with the history unchanged. |
| Annotation.LastInFirstOut | src/capture/index.tsx:55-100 | From the loaded canvas, `n` strokes then `n` undos give the blank canvas at step 0. One more undo gives -1, and further undos change nothing. |
| Annotation.CaptureResult.constructor | src/capture/index.tsx:34-47 | Empty history at step -1, no mode, no selection. |
| Annotation.CaptureResult.OnImageLoad | src/capture/index.tsx:55-64 | The overlay is sized to the displayed image and cleared, and resizing the canvas drops the current path. The history becomes the one blank snapshot at step 0. |
| Annotation.CaptureResult.SaveHistory | src/capture/index.tsx:69-81 | The undo state becomes `Saved` of the old one, and nothing else changes. |
| Annotation.CaptureResult.Undo | src/capture/index.tsx:83-100 | The undo state becomes `Undone` of the old one, keeping the invariant. |
| Annotation.CaptureResult.ClearAll | src/capture/index.tsx:426-431 | The overlay is cleared and the step goes to -1. The history array is kept. |
| Annotation.CaptureResult.TogglePen | src/capture/index.tsx:353-357 | Pen mode flips and crop mode turns off. |
| Annotation.CaptureResult.ToggleCrop | src/capture/index.tsx:364-372 | Crop mode flips and pen mode turns off. Turning crop on forgets the selection, and turning it off keeps it. |
| Annotation.CaptureResult.StartCrop | src/capture/index.tsx:115-129 | In crop mode, dragging starts with both corners at the pointer, relative to the canvas box. Outside crop mode nothing changes. |
| Annotation.CaptureResult.DoCrop | src/capture/index.tsx:131-145 | While dragging with a start corner, only the end corner follows the pointer. |
| Annotation.CaptureResult.EndCrop | src/capture/index.tsx:147-151 | Dragging stops and the selection stays. |
| Annotation.CaptureResult.StartDrawing | src/capture/index.tsx:154-174 | In pen mode a path begins at the scaled pointer position. With the pen off nothing changes, whatever the box. |
| Annotation.CaptureResult.Draw | src/capture/index.tsx:176-191 | While drawing in pen mode, a segment is stroked from the current point to the scaled pointer. The history is untouched. |
| Annotation.CaptureResult.StopDrawing | src/capture/index.tsx:193-200 | Ending a stroke saves it as a new step. Without a stroke nothing changes. |
| Annotation.CaptureResult.PointerDown | src/capture/index.tsx:501-505 | In crop mode, pointer down does what `StartCrop` does: dragging starts with both corners at the pointer. Otherwise it does what `StartDrawing` does: in pen mode a path begins at the scaled pointer. The undo state and the modes are kept. |
| Annotation.CaptureResult.PointerMove | src/capture/index.tsx:502-506 | In crop mode, pointer move does what `DoCrop` does: only the end corner moves, and only while dragging. Otherwise it does what `Draw` does: while drawing in pen mode, one segment to the scaled pointer is added. The history, the modes and the start corner are kept. |
| Annotation.CaptureResult.PointerUp | src/capture/index.tsx:503-507 | In crop mode, pointer up ends the drag and keeps the undo state. Otherwise it ends a stroke in progress and saves it, and changes nothing when there is none. The selection and the modes are kept either way. |

## Left out

- `CaptureDriver.ValidRun` and `FullPageCapture.Measurable` need the resolved scroller's viewport to be taller than 10 pixels.
  - With a shorter viewport, a scroller that stops short of the estimate can make the source loop forever. `CaptureDriver.SmallViewportStalls` shows such a pass.
  - The model proves termination only for taller viewports. How the source should end such a run is not evident from it, so no corrected loop is modelled.
- `CaptureDriver.Page.CaptureSteps` does not model a capture call that rejects, or that resolves to `undefined` so that reading `response.success` throws (src/content/index.ts:446-451).
  - Control then leaves past both `toggleFixedElements(false)` calls. The chrome stays hidden and the page stays scrolled.
  - The capture primitive answers only with an image or an error message.
- `FullPageCapture.PerformScrollCapture` omits the same case, for the same reason.
- The scroller's largest offset and its final scroll height are fixed for a run. A page that grows while it is captured is not modelled.
- Offsets are whole CSS pixels and the device pixel ratio is a positive whole number, so `Math.ceil` on a capture bottom is the identity.
  - Fractional offsets and ratios are not modelled.
- The capture image's content is opaque: rows are `Pixels` or `Transparent`.
  - `drawImage` is modelled as row placement, not as scaling or pixel blending.
  - A capture is assumed to be one canvas row per device pixel.
- The PDF branch's file reading, storage and messaging are left out: it is I/O. The model ends at the hand-off.
- Timing is left out: `setTimeout`, `requestAnimationFrame`, and the 800 ms and 50 ms waits.
- Progress messages, the panel and the page overlay's opacity are left out: they are UI.
- `getContext('2d')` is assumed to succeed, as is `canvas.toDataURL`.
- `atob` is a parameter. Base64 decoding itself is not part of this model.
- `DataUri.DataUriToBlob`: a URI without a comma goes to `atob("undefined")`, as in JavaScript. No separate error is raised for it.
- `CropGeometry.PenPoint` and the pen handlers require a canvas box of non-zero width and height, but only on the paths where the source divides by the box size: `StartDrawing` in pen mode, and `Draw` while drawing in pen mode. JavaScript's infinities are not modelled.
- Coordinates are real numbers. Floating-point rounding is not modelled.
- React's batching of state updates and its stale closures are not modelled. The handlers run one after another, each seeing the previous one's state.
  - For example, `saveHistory` right after `setHistory([])` in the load handler sees the reset history.
- The overlay is modelled as the list of segments stroked on it.
  - Pen colour and width are not modelled.
  - `stroke()` re-stroking the whole current path is not modelled.
  - `closePath` draws nothing, because no stroke follows it.
- Clipboard, sharing, storage, the toast and the chat-site auto-paste are left out: they are browser I/O.
- The keyboard shortcut is only a call to `Undo`. The key matching is not modelled.

Behaviour of the code that the model follows:
- A failed capture restores the fixed elements but not the scroll position (`CaptureDriver.Page.CaptureSteps`).
- Turning crop mode off keeps the selection, so a later merge still crops.
- A click in crop mode without a drag leaves a zero-sized selection.

## Findings

| source | as written | input that shows it | evidently intended | confidence | as-written member | corrected member |
|---|---|---|---|---|---|---|
| src/capture/index.tsx:240 | The annotation canvas is sized to the displayed image (lines 56-57, under `max-w-full`). It is still cut with the crop rectangle in natural pixels, the same rectangle used for the screenshot. | A 200x200 screenshot shown at 100x100 with no selection: an annotation at (10, 10) lands at (10, 10) in the output, while the screenshot pixel under it lands at (20, 20). | Cut the annotation canvas in its own pixels: the selection box, or the whole displayed size. Annotations then stay on the pixels they were drawn over. | not executed | CropGeometry.OverlayMisplacedAsWritten | CropGeometry.OverlayAligned |
