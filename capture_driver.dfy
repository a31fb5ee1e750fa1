/**
 * The capture step driver of the full-page capture (the `while (true)` loop
 * of `performScrollCapture` in src/content/index.ts).
 *
 * The page is an abstract scroller (`Page`): `scrollTo` clamps the request
 * into `[0, maxScroll]` and the offset read back afterwards is the clamped
 * value.  The capture primitive is a parameter that, for the n-th call, the
 * scroll offset on screen and the inline visibilities of the page, answers
 * with an image or an error.  Settle delays are no-ops.
 *
 * `Sweep` is the specification of the loop: the list of recorded steps (or
 * the error that aborted the run) as a function of the page and the
 * primitive.  `Page.CaptureSteps` is the loop itself, proved to compute it.
 */
module CaptureDriver {
  import opened Wrappers
  import opened FixedChrome

  /** A canvas row: transparent, or opaque pixels whose content the model does not inspect. */
  datatype Row = Transparent | Pixels(data: seq<int>)

  /** An image is a sequence of rows, top to bottom. */
  type Image = seq<Row>

  /**
   * One recorded capture: the offset that was requested, the offset read back
   * from the scroller (`y`, used for placement), the image, and the
   * sanity-capped height the source stores beside it.
   */
  datatype Shot = Shot(requested: int, y: int, image: Image, height: int)

  /** The capture primitive: (call number, scroll offset on screen, inline visibilities) to image or error. */
  type CapturePrimitive = (nat, int, seq<string>) -> Result<Image, string>

  /** Everything one run of the loop depends on. */
  datatype Run = Run(
    fullHeight: int,       // scroller.height, the content-height estimate
    viewportHeight: int,   // scroller.viewHeight
    maxScroll: int,        // largest offset the scroller accepts
    bottomHeight: int,     // scrollHeight read for the final scroll
    visibility: seq<string>,
    fixed: seq<Saved>,
    capture: CapturePrimitive)

  /** A read-back offset this much below the request means the scroller is pinned at the bottom. */
  const StuckTolerance: int := 10

  /** Extra rows of working canvas beyond the height estimate. */
  const CanvasSlack: int := 2000

  function Abs(x: int): nat {
    if x < 0 then -x else x
  }

  function Min(a: int, b: int): int {
    if a <= b then a else b
  }

  /** Where `scrollTo(0, y)` leaves a scroller whose largest offset is `maxScroll`. */
  function Clamp(y: int, maxScroll: int): int
    requires 0 <= maxScroll
  {
    if y < 0 then 0 else if y > maxScroll then maxScroll else y
  }

  /**
   * The loop is only known to terminate for viewports taller than the stuck
   * tolerance; the scroller's largest offset and the estimate are not negative.
   */
  predicate ValidRun(r: Run) {
    r.viewportHeight > StuckTolerance &&
    0 <= r.maxScroll && 0 <= r.fullHeight
  }

  /** A step starting at `current` is the final scroll when it would reach the estimate. */
  predicate IsFinal(r: Run, current: int) {
    current + r.viewportHeight >= r.fullHeight
  }

  /** The requested offset: the scroller's scroll height on the final step, else `current`. */
  function Target(r: Run, current: int): int {
    if IsFinal(r, current) then r.bottomHeight else current
  }

  /** The three ways the loop ends after recording a capture. */
  predicate Stops(r: Run, isFinal: bool, target: int, y: int) {
    isFinal ||
    y + r.viewportHeight >= r.fullHeight ||
    (y < target && Abs(y - target) > StuckTolerance)
  }

  /**
   * Why `ValidRun` asks for a viewport taller than the stuck tolerance: a
   * 10-pixel viewport on a 1000-pixel estimate whose scroller stops at 100
   * reaches 110, asks for 110, is read back at 100, does not break, and
   * starts the next pass at 110 again, for ever.
   */
  lemma SmallViewportStalls()
    ensures var r := Run(1000, 10, 100, 1000, [], [], (k: nat, y: int, v: seq<string>) => Success([]));
            var y := Clamp(Target(r, 110), r.maxScroll);
            !Stops(r, IsFinal(r, 110), Target(r, 110), y) && y + r.viewportHeight == 110
  {
  }

  /** The page's inline visibilities with every collected element hidden. */
  function Suppressed(r: Run): seq<string>
    requires ValidRun(r)
  {
    Toggled(r.visibility, r.fixed, true)
  }

  /** Inline visibilities on screen during a step: fixed chrome is hidden except at the top. */
  function Screen(r: Run, current: int): seq<string>
    requires ValidRun(r)
  {
    if current > 0 then Suppressed(r) else r.visibility
  }

  /** The sanity-capped height stored with a capture. */
  function CappedHeight(r: Run, y: int): int {
    Min(r.viewportHeight, r.fullHeight + CanvasSlack - y)
  }

  function Prepend(prefix: seq<Shot>, rest: Result<seq<Shot>, string>): Result<seq<Shot>, string> {
    match rest
    case Success(shots) => Success(prefix + shots)
    case Failure(e) => Failure(e)
  }

  lemma PrependTwice(a: seq<Shot>, b: seq<Shot>, rest: Result<seq<Shot>, string>)
    ensures Prepend(a, Prepend(b, rest)) == Prepend(a + b, rest)
  {
    if rest.Success? {
      assert a + (b + rest.value) == (a + b) + rest.value;
    }
  }

  /** What one pass of the loop body does: abort, record a last capture, or record one and go on. */
  datatype Step = Abort(error: string) | Last(shot: Shot) | Next(shot: Shot, next: int)

  /**
   * One pass of the loop body starting at `current` with `k` captures taken.
   * Whenever the loop goes on, the next start lies strictly below the
   * estimate and at least `viewportHeight - StuckTolerance` (more than 0)
   * below this one: this is why the loop terminates.
   */
  function StepAt(r: Run, current: int, k: nat): (s: Step)
    requires ValidRun(r)
    requires 0 <= current
    ensures s.Next? ==> current + r.viewportHeight - StuckTolerance <= s.next < r.fullHeight
    ensures !s.Abort? ==> s.shot.requested == Target(r, current) && s.shot.y == Clamp(s.shot.requested, r.maxScroll)
  {
    var target := Target(r, current);
    var y := Clamp(target, r.maxScroll);
    match r.capture(k, y, Screen(r, current))
    case Failure(e) => Abort(e)
    case Success(img) =>
      var shot := Shot(target, y, img, CappedHeight(r, y));
      if Stops(r, IsFinal(r, current), target, y) then Last(shot)
      else Next(shot, y + r.viewportHeight)
  }

  /**
   * The steps recorded from `current` on, `k` being the number of captures
   * already taken; an error of the primitive aborts the whole run.
   */
  function Sweep(r: Run, current: int, k: nat): Result<seq<Shot>, string>
    requires ValidRun(r)
    requires 0 <= current <= r.fullHeight
    decreases r.fullHeight - current
  {
    match StepAt(r, current, k)
    case Abort(e) => Failure(e)
    case Last(shot) => Success([shot])
    case Next(shot, next) => Prepend([shot], Sweep(r, next, k + 1))
  }

  /**
   * Where the step whose capture failed started, for a run from `current`
   * with `k` captures taken; a run that succeeds has no such step and gives
   * the start of its last one.
   */
  function FailedAt(r: Run, current: int, k: nat): int
    requires ValidRun(r)
    requires 0 <= current <= r.fullHeight
    decreases r.fullHeight - current
  {
    match StepAt(r, current, k)
    case Next(_, next) => FailedAt(r, next, k + 1)
    case _ => current
  }

  /**
   * A failed run failed at `FailedAt`: the pass starting there, with some
   * later call number, is the one whose capture answered the run's error.
   */
  lemma {:induction false} FailedAtAborts(r: Run, current: int, k: nat)
    requires ValidRun(r)
    requires 0 <= current <= r.fullHeight
    requires Sweep(r, current, k).Failure?
    ensures 0 <= FailedAt(r, current, k) <= r.fullHeight
    ensures exists j: nat :: k <= j && StepAt(r, FailedAt(r, current, k), j) == Abort(Sweep(r, current, k).error)
    decreases r.fullHeight - current
  {
    match StepAt(r, current, k)
    case Abort(e) =>
      assert StepAt(r, FailedAt(r, current, k), k) == Abort(e);
    case Last(_) =>
    case Next(_, next) =>
      FailedAtAborts(r, next, k + 1);
  }

  /** `maxCapturedY`: the running maximum of capture bottoms, 0 before the first capture. */
  function MaxBottom(shots: seq<Shot>, viewportHeight: int): nat {
    if shots == [] then 0
    else
      var before := MaxBottom(shots[..|shots| - 1], viewportHeight);
      var bottom := shots[|shots| - 1].y + viewportHeight;
      if bottom > before then bottom else before
  }

  /** Recording one more capture raises `maxCapturedY` to its bottom when that is lower down. */
  lemma MaxBottomSnoc(shots: seq<Shot>, shot: Shot, viewportHeight: int)
    ensures var before := MaxBottom(shots, viewportHeight);
            MaxBottom(shots + [shot], viewportHeight) ==
              if shot.y + viewportHeight > before then shot.y + viewportHeight else before
  {
    assert (shots + [shot])[..|shots|] == shots;
  }

  /**
   * `maxCapturedY` is the maximum of `y + viewportHeight` over all captures
   * (or 0): every capture ends at or above it and, unless it is 0, one ends
   * exactly there.
   */
  lemma {:induction false} MaxBottomIsMaximum(shots: seq<Shot>, viewportHeight: int)
    ensures forall j :: 0 <= j < |shots| ==> shots[j].y + viewportHeight <= MaxBottom(shots, viewportHeight)
    ensures MaxBottom(shots, viewportHeight) > 0 ==>
      exists j :: 0 <= j < |shots| && MaxBottom(shots, viewportHeight) == shots[j].y + viewportHeight
  {
    if shots != [] {
      var init := shots[..|shots| - 1];
      MaxBottomIsMaximum(init, viewportHeight);
      assert forall j :: 0 <= j < |init| ==> shots[j] == init[j];
      var m := MaxBottom(init, viewportHeight);
      if m > 0 && MaxBottom(shots, viewportHeight) == m {
        var j :| 0 <= j < |init| && m == init[j].y + viewportHeight;
        assert shots[j] == init[j];
      }
    }
  }

  /** Where step `i` of a run from `current` that recorded `shots` started. */
  function StartOf(r: Run, current: int, shots: seq<Shot>, i: nat): int
    requires i <= |shots|
  {
    if i == 0 then current else shots[i - 1].y + r.viewportHeight
  }

  /**
   * `shot` is what a step starting at `start` records when the primitive's
   * `k`-th call answers with its image: the request, the offset read back
   * after the clamping scroll, the capped height, and the image of the
   * screen as it was then.
   */
  predicate Recorded(r: Run, start: int, k: nat, shot: Shot)
    requires ValidRun(r)
  {
    shot.requested == Target(r, start) &&
    shot.y == Clamp(shot.requested, r.maxScroll) &&
    shot.height == CappedHeight(r, shot.y) &&
    r.capture(k, shot.y, Screen(r, start)) == Success(shot.image)
  }

  /** The break test after recording `shot` in a step that started at `start`. */
  predicate StopsAfter(r: Run, start: int, shot: Shot) {
    Stops(r, IsFinal(r, start), shot.requested, shot.y)
  }

  /**
   * Step `i` of a run from `current` that recorded `shots`: its capture is
   * recorded at its own start, and the loop breaks after it exactly when it
   * is the last one.
   */
  predicate StepOk(r: Run, current: int, k: nat, shots: seq<Shot>, i: nat)
    requires ValidRun(r) && i < |shots|
  {
    var start := StartOf(r, current, shots, i);
    Recorded(r, start, k + i, shots[i]) &&
    (StopsAfter(r, start, shots[i]) <==> i == |shots| - 1)
  }

  /** A successful run from `current`, described without recursion. */
  predicate Trace(r: Run, current: int, k: nat, shots: seq<Shot>)
    requires ValidRun(r)
  {
    |shots| >= 1 &&
    forall i :: 0 <= i < |shots| ==> StepOk(r, current, k, shots, i)
  }

  /** The three outcomes of one pass, in terms of `Recorded` and the break test. */
  lemma StepAtCases(r: Run, current: int, k: nat)
    requires ValidRun(r) && 0 <= current
    ensures match StepAt(r, current, k)
      case Abort(e) => r.capture(k, Clamp(Target(r, current), r.maxScroll), Screen(r, current)) == Failure(e)
      case Last(shot) => Recorded(r, current, k, shot) && StopsAfter(r, current, shot)
      case Next(shot, next) => Recorded(r, current, k, shot) && !StopsAfter(r, current, shot) && next == shot.y + r.viewportHeight
  {
  }

  /** A pass whose capture is `shot` is determined by the break test. */
  lemma StepAtRecorded(r: Run, current: int, k: nat, shot: Shot)
    requires ValidRun(r) && 0 <= current
    requires Recorded(r, current, k, shot)
    ensures StepAt(r, current, k) ==
      if StopsAfter(r, current, shot) then Last(shot) else Next(shot, shot.y + r.viewportHeight)
  {
  }

  /** Every successful run is a `Trace`. */
  lemma {:induction false} SweepTrace(r: Run, current: int, k: nat, shots: seq<Shot>)
    requires ValidRun(r) && 0 <= current <= r.fullHeight
    requires Sweep(r, current, k) == Success(shots)
    ensures Trace(r, current, k, shots)
    decreases r.fullHeight - current
  {
    StepAtCases(r, current, k);
    match StepAt(r, current, k)
    case Last(shot) =>
      assert shots == [shot];
      assert StepOk(r, current, k, shots, 0);
    case Next(shot, next) =>
      var tail := Sweep(r, next, k + 1).value;
      SweepTrace(r, next, k + 1, tail);
      TraceCons(r, current, k, shot, tail);
  }

  /** A capture after which the loop goes on, followed by a `Trace` from the next start, is a `Trace`. */
  lemma TraceCons(r: Run, current: int, k: nat, shot: Shot, tail: seq<Shot>)
    requires ValidRun(r)
    requires Recorded(r, current, k, shot) && !StopsAfter(r, current, shot)
    requires Trace(r, shot.y + r.viewportHeight, k + 1, tail)
    ensures Trace(r, current, k, [shot] + tail)
  {
    var next := shot.y + r.viewportHeight;
    var shots := [shot] + tail;
    forall i | 0 <= i < |shots|
      ensures StepOk(r, current, k, shots, i)
    {
      if i > 0 {
        assert StepOk(r, next, k + 1, tail, i - 1);
        assert StartOf(r, current, shots, i) == StartOf(r, next, tail, i - 1);
      }
    }
  }

  /** The first capture of a `Trace` is recorded at `current`, and it is the last exactly when the loop breaks after it. */
  lemma TraceFirst(r: Run, current: int, k: nat, shots: seq<Shot>)
    requires ValidRun(r) && Trace(r, current, k, shots)
    ensures Recorded(r, current, k, shots[0])
    ensures StopsAfter(r, current, shots[0]) <==> |shots| == 1
  {
    assert StepOk(r, current, k, shots, 0);
  }

  /** What follows the first capture of a `Trace` is a `Trace` from where the next step starts. */
  lemma TraceRest(r: Run, current: int, k: nat, shots: seq<Shot>, next: int, k': nat)
    requires ValidRun(r) && Trace(r, current, k, shots) && |shots| > 1
    requires next == shots[0].y + r.viewportHeight && k' == k + 1
    ensures Trace(r, next, k', shots[1..])
  {
    var tail := shots[1..];
    forall i: nat | i < |tail|
      ensures StepOk(r, next, k', tail, i)
    {
      assert StepOk(r, current, k, shots, i + 1);
      assert StartOf(r, next, tail, i) == StartOf(r, current, shots, i + 1);
    }
  }

  /** Every `Trace` from an offset within the estimate is what the run records. */
  lemma {:induction false} TraceSweep(r: Run, current: int, k: nat, shots: seq<Shot>)
    requires ValidRun(r) && 0 <= current <= r.fullHeight
    requires Trace(r, current, k, shots)
    ensures Sweep(r, current, k) == Success(shots)
    decreases r.fullHeight - current
  {
    var shot := shots[0];
    TraceFirst(r, current, k, shots);
    StepAtRecorded(r, current, k, shot);
    if |shots| > 1 {
      var next := shot.y + r.viewportHeight;
      assert StepAt(r, current, k) == Next(shot, next);
      TraceRest(r, current, k, shots, next, k + 1);
      TraceSweep(r, next, k + 1, shots[1..]);
      assert shots == [shot] + shots[1..];
    } else {
      assert shots == [shot];
    }
  }

  /** The run succeeds with `shots` exactly when `shots` is a `Trace`. */
  lemma SweepIsTrace(r: Run, current: int, k: nat, shots: seq<Shot>)
    requires ValidRun(r) && 0 <= current <= r.fullHeight
    ensures Sweep(r, current, k) == Success(shots) <==> Trace(r, current, k, shots)
  {
    if Sweep(r, current, k) == Success(shots) {
      SweepTrace(r, current, k, shots);
    }
    if Trace(r, current, k, shots) {
      TraceSweep(r, current, k, shots);
    }
  }

  /**
   * True offset: every capture is placed at the offset read back, which is
   * the clamped request, and each request after the first is derived from
   * the previous read-back offset, never from the previous request.
   */
  lemma SweepOffsets(r: Run, current: int, k: nat, shots: seq<Shot>)
    requires ValidRun(r) && 0 <= current <= r.fullHeight
    requires Sweep(r, current, k) == Success(shots)
    ensures shots[0].requested == Target(r, current)
    ensures forall i :: 0 <= i < |shots| ==>
      shots[i].y == Clamp(shots[i].requested, r.maxScroll) && 0 <= shots[i].y <= r.maxScroll
    ensures forall i :: 0 <= i < |shots| - 1 ==>
      shots[i + 1].requested == Target(r, shots[i].y + r.viewportHeight)
  {
    SweepTrace(r, current, k, shots);
    assert StepOk(r, current, k, shots, 0);
    forall i | 0 <= i < |shots|
      ensures shots[i].y == Clamp(shots[i].requested, r.maxScroll)
    {
      assert StepOk(r, current, k, shots, i);
    }
    forall i | 0 <= i < |shots| - 1
      ensures shots[i + 1].requested == Target(r, shots[i].y + r.viewportHeight)
    {
      assert StepOk(r, current, k, shots, i + 1);
    }
  }

  /**
   * Stuck at the bottom: a capture read back more than `StuckTolerance`
   * above its request is the last one; so is the final scroll.
   */
  lemma SweepStopsWhenPinned(r: Run, current: int, k: nat, shots: seq<Shot>, i: nat)
    requires ValidRun(r) && 0 <= current <= r.fullHeight
    requires Sweep(r, current, k) == Success(shots)
    requires i < |shots|
    requires shots[i].y < shots[i].requested - StuckTolerance || IsFinal(r, StartOf(r, current, shots, i))
    ensures i == |shots| - 1
  {
    SweepTrace(r, current, k, shots);
    assert StepOk(r, current, k, shots, i);
  }

  /** Short page: when the viewport covers the estimate, one capture is taken, at the scroller's scroll height. */
  lemma ShortPage(r: Run, shots: seq<Shot>)
    requires ValidRun(r) && r.viewportHeight >= r.fullHeight
    requires Sweep(r, 0, 0) == Success(shots)
    ensures |shots| == 1
    ensures shots[0].requested == r.bottomHeight && shots[0].y == Clamp(r.bottomHeight, r.maxScroll)
  {
    SweepTrace(r, 0, 0, shots);
    TraceFirst(r, 0, 0, shots);
  }

  /**
   * Fixed chrome is on screen for the first capture of a run from the top
   * and hidden for every later one.
   */
  lemma ChromeOnlyAtTop(r: Run, shots: seq<Shot>)
    requires ValidRun(r)
    requires Sweep(r, 0, 0) == Success(shots)
    ensures r.capture(0, shots[0].y, r.visibility) == Success(shots[0].image)
    ensures forall i :: 1 <= i < |shots| ==> r.capture(i, shots[i].y, Suppressed(r)) == Success(shots[i].image)
  {
    SweepTrace(r, 0, 0, shots);
    assert StepOk(r, 0, 0, shots, 0);
    forall i | 1 <= i < |shots|
      ensures r.capture(i, shots[i].y, Suppressed(r)) == Success(shots[i].image)
    {
      assert StepOk(r, 0, 0, shots, i - 1);
      assert StepOk(r, 0, 0, shots, i);
    }
  }

  /**
   * Termination bound: every step but the last advances by at least
   * `viewportHeight - StuckTolerance` and stays below the estimate.
   */
  lemma {:induction false} SweepLength(r: Run, current: int, k: nat)
    requires ValidRun(r) && 0 <= current <= r.fullHeight
    ensures Sweep(r, current, k).Success? ==>
      (|Sweep(r, current, k).value| - 1) * (r.viewportHeight - StuckTolerance) <= r.fullHeight - current
    decreases r.fullHeight - current
  {
    match StepAt(r, current, k)
    case Abort(_) =>
    case Last(_) =>
    case Next(shot, next) =>
      SweepLength(r, next, k + 1);
      if Sweep(r, next, k + 1).Success? {
        var n := |Sweep(r, next, k + 1).value|;
        assert |Sweep(r, current, k).value| == n + 1;
        assert n * (r.viewportHeight - StuckTolerance) ==
          (n - 1) * (r.viewportHeight - StuckTolerance) + (r.viewportHeight - StuckTolerance);
      }
  }

  /**
   * When the scroller can reach the estimate, every request but the final
   * one is honoured exactly: the captures start `viewportHeight` apart and
   * their number is the estimate divided by the viewport, rounded up.
   */
  lemma {:induction false} SweepHonoured(r: Run, current: int, k: nat)
    requires ValidRun(r) && 0 <= current < r.fullHeight
    requires r.maxScroll >= r.fullHeight - r.viewportHeight
    ensures Sweep(r, current, k).Success? ==>
      var shots := Sweep(r, current, k).value;
      (forall i :: 0 <= i < |shots| - 1 ==> shots[i].y == current + i * r.viewportHeight) &&
      current + (|shots| - 1) * r.viewportHeight < r.fullHeight <= current + |shots| * r.viewportHeight
    decreases r.fullHeight - current
  {
    match StepAt(r, current, k)
    case Abort(_) =>
    case Last(_) =>
    case Next(shot, next) =>
      assert next == current + r.viewportHeight;
      SweepHonoured(r, next, k + 1);
      if Sweep(r, next, k + 1).Success? {
        var tail := Sweep(r, next, k + 1).value;
        var shots := Sweep(r, current, k).value;
        assert shots == [shot] + tail;
        var n := |tail|;
        assert (n + 1 - 1) * r.viewportHeight == (n - 1) * r.viewportHeight + r.viewportHeight;
        assert (n + 1) * r.viewportHeight == n * r.viewportHeight + r.viewportHeight;
        forall i | 0 <= i < |shots| - 1
          ensures shots[i].y == current + i * r.viewportHeight
        {
          if i > 0 {
            assert shots[i] == tail[i - 1];
            assert (i - 1) * r.viewportHeight + r.viewportHeight == i * r.viewportHeight;
          }
        }
      }
  }

  /**
   * A 3000-pixel page in a 1000-pixel viewport whose scroller stops at 2000:
   * captures at 0 and 1000, then the final scroll asks for the scroll height
   * 3000 and is read back at 2000.
   */
  lemma TallPageScenario(capture: CapturePrimitive, shots: seq<Shot>)
    requires Sweep(Run(3000, 1000, 2000, 3000, [], [], capture), 0, 0) == Success(shots)
    ensures |shots| == 3
    ensures shots[0].y == 0 && shots[1].y == 1000
    ensures shots[2].requested == 3000 && shots[2].y == 2000
  {
    var r := Run(3000, 1000, 2000, 3000, [], [], capture);
    SweepHonoured(r, 0, 0);
    SweepOffsets(r, 0, 0, shots);
    assert |shots| == 3;
  }

  /** The scroller the run walks: one window or element, with the page's inline visibilities. */
  class Page {
    var scrollTop: int
    const maxScroll: int
    const bottomHeight: int
    var visibility: seq<string>

    constructor (maxScroll: int, bottomHeight: int, visibility: seq<string>)
      requires 0 <= maxScroll
      ensures this.maxScroll == maxScroll && this.bottomHeight == bottomHeight
      ensures this.visibility == visibility && scrollTop == 0
    {
      this.maxScroll := maxScroll;
      this.bottomHeight := bottomHeight;
      this.visibility := visibility;
      scrollTop := 0;
    }

    /** `scrollTo(0, y)`: the browser clamps the request. */
    method ScrollTo(y: int)
      requires 0 <= maxScroll
      modifies this
      ensures scrollTop == Clamp(y, maxScroll)
      ensures visibility == old(visibility)
    {
      scrollTop := if y < 0 then 0 else if y > maxScroll then maxScroll else y;
    }

    /** `toggleFixedElements(hide)`: writes each collected element's visibility in list order. */
    method ToggleFixed(fixed: seq<Saved>, hiding: bool)
      modifies this
      ensures visibility == Toggled(old(visibility), fixed, hiding)
      ensures scrollTop == old(scrollTop)
    {
      for j := 0 to |fixed|
        invariant |visibility| == |old(visibility)|
        invariant Toggled(old(visibility), fixed, hiding) == Toggled(visibility, fixed[j..], hiding)
        invariant scrollTop == old(scrollTop)
      {
        assert fixed[j..][1..] == fixed[j + 1..];
        if fixed[j].index < |visibility| {
          visibility := visibility[fixed[j].index := if hiding then HiddenValue else fixed[j].original];
        }
      }
    }

    function RunOf(fullHeight: int, viewportHeight: int, fixed: seq<Saved>, capture: CapturePrimitive): Run
      reads this
    {
      Run(fullHeight, viewportHeight, maxScroll, bottomHeight, visibility, fixed, capture)
    }

    /**
     * Step 2 of the loop: fixed chrome is hidden once the step starts below
     * the top and shown again at offset 0.  `hidden` is the loop's
     * `areFixedElementsHidden`.
     */
    method SuppressFor(ghost run: Run, fixed: seq<Saved>, currentScroll: int, hidden: bool) returns (nowHidden: bool)
      requires ValidRun(run) && fixed == run.fixed && currentScroll >= 0
      requires WellFormed(fixed, |run.visibility|) && SavedFrom(fixed, run.visibility)
      requires visibility == if hidden then Suppressed(run) else run.visibility
      modifies this
      ensures nowHidden == (currentScroll > 0)
      ensures visibility == Screen(run, currentScroll)
      ensures scrollTop == old(scrollTop)
    {
      nowHidden := hidden;
      if currentScroll > 0 && !hidden {
        ToggleFixed(fixed, true);
        nowHidden := true;
      } else if currentScroll == 0 && hidden {
        ToggleFixed(fixed, false);
        RestoreAfterHide(run.visibility, run.fixed);
        nowHidden := false;
      }
    }

    /** `toggleFixedElements(false)` at the end of a run or before abandoning it. */
    method RestoreFixed(ghost run: Run, fixed: seq<Saved>, hidden: bool)
      requires ValidRun(run) && fixed == run.fixed
      requires WellFormed(fixed, |run.visibility|) && SavedFrom(fixed, run.visibility)
      requires visibility == if hidden then Suppressed(run) else run.visibility
      modifies this
      ensures visibility == run.visibility
      ensures scrollTop == old(scrollTop)
    {
      ToggleFixed(fixed, false);
      if hidden {
        RestoreAfterHide(run.visibility, run.fixed);
      } else {
        RestoreWhenShown(run.visibility, run.fixed);
      }
    }

    /**
     * One pass of the loop body up to the break test: pick the target (the
     * scroller's scroll height on the final scroll), suppress or show fixed
     * chrome, scroll, read the offset back and capture.  The result is the
     * pass `StepAt` describes; the page shows `Screen` afterwards.
     */
    method TakeStep(run: Run, currentScroll: int, k: nat, hidden: bool) returns (step: Step, nowHidden: bool)
      requires ValidRun(run) && 0 <= currentScroll
      requires run.maxScroll == maxScroll && run.bottomHeight == bottomHeight
      requires WellFormed(run.fixed, |run.visibility|) && SavedFrom(run.fixed, run.visibility)
      requires visibility == if hidden then Suppressed(run) else run.visibility
      modifies this
      ensures step == StepAt(run, currentScroll, k)
      ensures nowHidden == (currentScroll > 0)
      ensures visibility == Screen(run, currentScroll)
      ensures scrollTop == Clamp(Target(run, currentScroll), maxScroll)
    {
      var targetScroll := currentScroll;
      var isFinalScroll := false;
      if currentScroll + run.viewportHeight >= run.fullHeight {
        targetScroll := bottomHeight;
        isFinalScroll := true;
      }

      nowHidden := SuppressFor(run, run.fixed, currentScroll, hidden);

      ScrollTo(targetScroll);
      var actualScrollY := scrollTop;

      var response := run.capture(k, actualScrollY, visibility);
      if response.Failure? {
        return Abort(response.error), nowHidden;
      }
      var capturedHeight := Min(run.viewportHeight, run.fullHeight + CanvasSlack - actualScrollY);
      var shot := Shot(targetScroll, actualScrollY, response.value, capturedHeight);
      var bottomOfThisCapture := actualScrollY + run.viewportHeight;
      if isFinalScroll || bottomOfThisCapture >= run.fullHeight ||
         (actualScrollY < targetScroll && Abs(actualScrollY - targetScroll) > StuckTolerance) {
        step := Last(shot);
      } else {
        step := Next(shot, actualScrollY + run.viewportHeight);
      }
    }

    /**
     * The capture loop and the clean-up after it: on success the steps are
     * those of `Sweep`, `maxCapturedY` is their highest bottom, the fixed
     * chrome is restored and the scroll is back at 0; on an error of the
     * primitive the chrome is restored before the run is abandoned.
     */
    method CaptureSteps(fullHeight: int, viewportHeight: int, fixed: seq<Saved>, capture: CapturePrimitive)
      returns (outcome: Result<seq<Shot>, string>, maxCapturedY: int)
      requires ValidRun(RunOf(fullHeight, viewportHeight, fixed, capture))
      requires WellFormed(fixed, |visibility|) && SavedFrom(fixed, visibility)
      modifies this
      ensures outcome == Sweep(old(RunOf(fullHeight, viewportHeight, fixed, capture)), 0, 0)
      ensures outcome.Success? ==> maxCapturedY == MaxBottom(outcome.value, viewportHeight)
      ensures visibility == old(visibility)
      ensures outcome.Success? ==> scrollTop == 0
      ensures outcome.Failure? ==>
        scrollTop == Clamp(Target(old(RunOf(fullHeight, viewportHeight, fixed, capture)),
                                  FailedAt(old(RunOf(fullHeight, viewportHeight, fixed, capture)), 0, 0)), maxScroll)
    {
      var run := RunOf(fullHeight, viewportHeight, fixed, capture);
      var currentScroll := 0;
      maxCapturedY := 0;
      var captures: seq<Shot> := [];
      var areFixedElementsHidden := false;
      if Sweep(run, 0, 0).Success? {
        assert [] + Sweep(run, 0, 0).value == Sweep(run, 0, 0).value;
      }
      while true
        invariant 0 <= currentScroll <= fullHeight
        invariant Sweep(run, 0, 0) == Prepend(captures, Sweep(run, currentScroll, |captures|))
        invariant maxCapturedY == MaxBottom(captures, viewportHeight)
        invariant FailedAt(run, 0, 0) == FailedAt(run, currentScroll, |captures|)
        invariant visibility == if areFixedElementsHidden then Suppressed(run) else run.visibility
        decreases fullHeight - currentScroll
      {
        var step;
        step, areFixedElementsHidden := TakeStep(run, currentScroll, |captures|, areFixedElementsHidden);
        if step.Abort? {
          RestoreFixed(run, fixed, areFixedElementsHidden);
          return Failure(step.error), maxCapturedY;
        }

        ghost var before := captures;
        MaxBottomSnoc(captures, step.shot, viewportHeight);
        captures := captures + [step.shot];
        var bottomOfThisCapture := step.shot.y + viewportHeight;
        if bottomOfThisCapture > maxCapturedY {
          maxCapturedY := bottomOfThisCapture;
        }

        if step.Last? {
          break;
        }
        currentScroll := step.next;
        PrependTwice(before, [step.shot], Sweep(run, currentScroll, |captures|));
      }

      RestoreFixed(run, fixed, areFixedElementsHidden);
      ScrollTo(0);
      outcome := Success(captures);
    }
  }
}
