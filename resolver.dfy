/**
 * The scroll-target resolver of the full-page capture (`getScroller` in
 * src/content/index.ts): decides whether the window scrolls or whether an
 * inner element is the real scroll container.
 *
 * The document is given as a snapshot of what the resolver reads from it:
 * the scrolling element's scroll height, the window's inner height, the
 * computed `overflow-y` of body and root, and, for every element in document
 * order (`querySelectorAll('*')`), its scroll and client heights, its
 * bounding-rectangle size and its computed `overflow-y`.
 */
module Resolver {
  import opened Wrappers

  datatype Overflow = Visible | Auto | Scroll | Hidden | Clip

  datatype Position = Static | Relative | Absolute | Fixed | Sticky

  /** What the capture code reads from one element's layout and computed style. */
  datatype Element = Element(
    isHtml: bool,             // `node instanceof HTMLElement`
    scrollHeight: int,
    clientHeight: int,
    rectWidth: real,          // getBoundingClientRect()
    rectHeight: real,
    overflowY: Overflow,
    position: Position,
    displayNone: bool,        // computed display is 'none'
    visibilityHidden: bool,   // computed visibility is 'hidden'
    opacityZero: bool)        // computed opacity is '0'

  datatype Document = Document(
    isPdf: bool,              // document.contentType is application/pdf
    docHeight: int,           // scrollHeight of scrollingElement (or documentElement)
    innerHeight: int,         // window.innerHeight
    bodyOverflowY: Overflow,
    rootOverflowY: Overflow,
    elements: seq<Element>)

  /** The resolved scroll target: `element` is None for the window, else an index into `elements`. */
  datatype Scroller = Scroller(element: Option<nat>, height: int, viewHeight: int)

  /** Inner scrollers must cover more than this many square pixels. */
  const MinScrollerArea: real := 50000.0

  /** The window is preferred when the document is this much taller than the viewport. */
  const WindowMargin: int := 50

  function Area(e: Element): real {
    e.rectWidth * e.rectHeight
  }

  /** The window scrolls deeply and neither body nor root forbids vertical overflow. */
  predicate WindowScrolls(d: Document) {
    d.docHeight > d.innerHeight + WindowMargin &&
    d.bodyOverflowY != Hidden && d.rootOverflowY != Hidden
  }

  /** An element the area scan may pick. */
  predicate Candidate(e: Element) {
    e.scrollHeight > e.clientHeight &&
    e.rectWidth != 0.0 && e.rectHeight != 0.0 &&
    e.overflowY in {Auto, Scroll, Hidden} &&
    Area(e) > MinScrollerArea
  }

  function WindowTarget(d: Document): Scroller {
    Scroller(None, d.docHeight, d.innerHeight)
  }

  /**
   * What `getScroller` answers: the window for a PDF or a deeply scrolling
   * window; otherwise the first candidate of strictly maximal area, with its
   * scroll and client heights, or the window when no element is a candidate.
   */
  predicate Resolves(d: Document, s: Scroller) {
    if d.isPdf || WindowScrolls(d) then s == WindowTarget(d)
    else
      match s.element
      case None =>
        s == WindowTarget(d) &&
        forall j :: 0 <= j < |d.elements| ==> !Candidate(d.elements[j])
      case Some(b) =>
        b < |d.elements| && Candidate(d.elements[b]) &&
        s == Scroller(Some(b), d.elements[b].scrollHeight, d.elements[b].clientHeight) &&
        (forall j :: 0 <= j < |d.elements| && Candidate(d.elements[j]) ==>
           Area(d.elements[j]) <= Area(d.elements[b])) &&
        (forall j :: 0 <= j < b && Candidate(d.elements[j]) ==>
           Area(d.elements[j]) < Area(d.elements[b]))
  }

  /** The element scan, with the PDF case and the window heuristic short-cutting it. */
  method Resolve(d: Document) returns (s: Scroller)
    ensures Resolves(d, s)
  {
    if d.isPdf || WindowScrolls(d) {
      return WindowTarget(d);
    }
    var maxArea := 0.0;
    var best: Option<nat> := None;
    for i := 0 to |d.elements|
      invariant best == None ==> maxArea == 0.0 && forall j :: 0 <= j < i ==> !Candidate(d.elements[j])
      invariant best.Some? ==>
        best.value < i && Candidate(d.elements[best.value]) &&
        maxArea == Area(d.elements[best.value]) &&
        (forall j :: 0 <= j < i && Candidate(d.elements[j]) ==> Area(d.elements[j]) <= maxArea) &&
        (forall j :: 0 <= j < best.value && Candidate(d.elements[j]) ==> Area(d.elements[j]) < maxArea)
    {
      var el := d.elements[i];
      if el.scrollHeight <= el.clientHeight { continue; }
      if el.rectWidth == 0.0 || el.rectHeight == 0.0 { continue; }
      var scrollableStyle := el.overflowY in {Auto, Scroll} ||
                             (el.overflowY == Hidden && el.scrollHeight > el.clientHeight);
      if scrollableStyle {
        var area := el.rectWidth * el.rectHeight;
        if area > maxArea && area > MinScrollerArea {
          maxArea := area;
          best := Some(i);
        }
      }
    }
    match best
    case Some(b) =>
      s := Scroller(Some(b), d.elements[b].scrollHeight, d.elements[b].clientHeight);
    case None =>
      s := WindowTarget(d);
  }

  /** `Resolves` leaves no choice: ties in area go to the element met first. */
  lemma ResolvesUnique(d: Document, s1: Scroller, s2: Scroller)
    requires Resolves(d, s1) && Resolves(d, s2)
    ensures s1 == s2
  {
  }
}
