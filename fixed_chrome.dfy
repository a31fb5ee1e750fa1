/**
 * The fixed-chrome suppressor of the full-page capture (src/content/index.ts):
 * a one-time scan collects every visible fixed or sticky HTML element other
 * than the scroller, saving its inline `visibility`; `toggleFixedElements`
 * then hides them all or writes the saved values back.
 *
 * Inline visibilities of the page are a sequence indexed like the element
 * list of `Resolver.Document`.
 */
module FixedChrome {
  import opened Wrappers
  import opened Resolver

  /** One collected element: its index and its inline visibility at scan time. */
  datatype Saved = Saved(index: nat, original: string)

  const HiddenValue: string := "hidden"

  /** Elements that the scan hides during the capture. */
  predicate Suppressible(e: Element) {
    e.isHtml &&
    (e.position == Fixed || e.position == Sticky) &&
    !e.displayNone && !e.visibilityHidden && !e.opacityZero
  }

  predicate Collectable(d: Document, scroller: Option<nat>, i: nat)
    requires i < |d.elements|
  {
    Suppressible(d.elements[i]) && scroller != Some(i)
  }

  function Indices(fixed: seq<Saved>): set<nat> {
    set j | 0 <= j < |fixed| :: fixed[j].index
  }

  /** Saved entries name elements of the page and their indices strictly increase. */
  predicate WellFormed(fixed: seq<Saved>, n: nat) {
    (forall j :: 0 <= j < |fixed| ==> fixed[j].index < n) &&
    (forall j, k :: 0 <= j < k < |fixed| ==> fixed[j].index < fixed[k].index)
  }

  /** Every saved value is the element's current inline visibility in `vis`. */
  predicate SavedFrom(fixed: seq<Saved>, vis: seq<string>) {
    forall j :: 0 <= j < |fixed| ==> fixed[j].index < |vis| && fixed[j].original == vis[fixed[j].index]
  }

  /**
   * The one-time scan over all nodes: exactly the collectable elements, in
   * document order, each with the inline visibility it had.
   */
  predicate CollectedFrom(d: Document, vis: seq<string>, scroller: Option<nat>, fixed: seq<Saved>) {
    WellFormed(fixed, |d.elements|) &&
    SavedFrom(fixed, vis) &&
    (forall j :: 0 <= j < |fixed| ==> Collectable(d, scroller, fixed[j].index)) &&
    (forall i :: 0 <= i < |d.elements| && Collectable(d, scroller, i) ==> i in Indices(fixed))
  }

  /** `allNodes.forEach(...)`: one pass over the elements in document order. */
  method Collect(d: Document, vis: seq<string>, scroller: Option<nat>) returns (fixed: seq<Saved>)
    requires |vis| == |d.elements|
    ensures CollectedFrom(d, vis, scroller, fixed)
  {
    fixed := [];
    for i := 0 to |d.elements|
      invariant forall j :: 0 <= j < |fixed| ==> fixed[j].index < i
      invariant WellFormed(fixed, |d.elements|)
      invariant SavedFrom(fixed, vis)
      invariant forall j :: 0 <= j < |fixed| ==> Collectable(d, scroller, fixed[j].index)
      invariant forall k :: 0 <= k < i && Collectable(d, scroller, k) ==> k in Indices(fixed)
    {
      var node := d.elements[i];
      if Suppressible(node) {
        if scroller != Some(i) {
          ghost var prev := fixed;
          fixed := fixed + [Saved(i, vis[i])];
          assert Indices(fixed) == Indices(prev) + {i} by {
            assert forall j :: 0 <= j < |prev| ==> fixed[j] == prev[j];
            assert fixed[|prev|].index == i;
          }
        }
      }
    }
  }

  /** The scroll container itself is never hidden. */
  lemma ScrollerNeverCollected(d: Document, vis: seq<string>, b: nat, fixed: seq<Saved>)
    requires CollectedFrom(d, vis, Some(b), fixed)
    ensures b !in Indices(fixed)
  {
  }

  lemma InIndices(fixed: seq<Saved>, j: int)
    requires 0 <= j < |fixed|
    ensures fixed[j].index in Indices(fixed)
  {
  }

  /** Removing the first entry of a well-formed list removes its index and nothing else. */
  lemma IndicesTail(fixed: seq<Saved>, n: nat)
    requires WellFormed(fixed, n) && |fixed| > 0
    ensures Indices(fixed[1..]) == Indices(fixed) - {fixed[0].index}
  {
    forall x | x in Indices(fixed) - {fixed[0].index}
      ensures x in Indices(fixed[1..])
    {
      var j :| 0 <= j < |fixed| && fixed[j].index == x;
      assert fixed[1..][j - 1] == fixed[j];
    }
    forall x | x in Indices(fixed[1..])
      ensures x in Indices(fixed) - {fixed[0].index}
    {
      var j :| 0 <= j < |fixed[1..]| && fixed[1..][j].index == x;
      assert fixed[j + 1].index == x;
    }
  }

  /** Two well-formed lists that save the same elements from the same page are the same list. */
  lemma {:induction false} SameIndicesSameList(a: seq<Saved>, b: seq<Saved>, vis: seq<string>)
    requires WellFormed(a, |vis|) && WellFormed(b, |vis|)
    requires SavedFrom(a, vis) && SavedFrom(b, vis)
    requires Indices(a) == Indices(b)
    ensures a == b
    decreases |a|
  {
    if |a| > 0 && |b| > 0 {
      assert a[0].index in Indices(b);
      assert b[0].index in Indices(a);
      assert a[0].index == b[0].index;
      IndicesTail(a, |vis|);
      IndicesTail(b, |vis|);
      SameIndicesSameList(a[1..], b[1..], vis);
      assert a == [a[0]] + a[1..];
      assert b == [b[0]] + b[1..];
    } else if |a| > 0 {
      InIndices(a, 0);
      assert false;
    } else if |b| > 0 {
      InIndices(b, 0);
      assert false;
    }
  }

  /** The scan's result is determined by the page: `CollectedFrom` describes exactly one list. */
  lemma CollectedUnique(d: Document, vis: seq<string>, scroller: Option<nat>, a: seq<Saved>, b: seq<Saved>)
    requires |vis| == |d.elements|
    requires CollectedFrom(d, vis, scroller, a) && CollectedFrom(d, vis, scroller, b)
    ensures a == b
  {
    forall x | x in Indices(a) ensures x in Indices(b) {
      var j :| 0 <= j < |a| && a[j].index == x;
      assert Collectable(d, scroller, a[j].index);
    }
    forall x | x in Indices(b) ensures x in Indices(a) {
      var j :| 0 <= j < |b| && b[j].index == x;
      assert Collectable(d, scroller, b[j].index);
    }
    SameIndicesSameList(a, b, vis);
  }

  /**
   * `toggleFixedElements(hide)` applied to inline visibilities, entry by entry
   * in list order (an index outside the page, which the scan never records,
   * is skipped).
   */
  function Toggled(vis: seq<string>, fixed: seq<Saved>, hiding: bool): (r: seq<string>)
    ensures |r| == |vis|
    decreases |fixed|
  {
    if fixed == [] then vis
    else
      var value := if hiding then HiddenValue else fixed[0].original;
      var i := fixed[0].index;
      Toggled(if i < |vis| then vis[i := value] else vis, fixed[1..], hiding)
  }

  /** Each collected element gets the hidden value or its saved one; all others keep theirs. */
  lemma {:induction false} ToggledAt(vis: seq<string>, fixed: seq<Saved>, hiding: bool, i: nat)
    requires WellFormed(fixed, |vis|)
    requires i < |vis|
    ensures i !in Indices(fixed) ==> Toggled(vis, fixed, hiding)[i] == vis[i]
    ensures forall j :: 0 <= j < |fixed| && fixed[j].index == i ==>
      Toggled(vis, fixed, hiding)[i] == if hiding then HiddenValue else fixed[j].original
    decreases |fixed|
  {
    if fixed != [] {
      var value := if hiding then HiddenValue else fixed[0].original;
      var v' := vis[fixed[0].index := value];
      var rest := fixed[1..];
      assert WellFormed(rest, |v'|);
      ToggledAt(v', rest, hiding, i);
      assert Indices(fixed) == {fixed[0].index} + Indices(rest) by {
        forall x | x in Indices(fixed) ensures x in {fixed[0].index} + Indices(rest) {
          var j :| 0 <= j < |fixed| && fixed[j].index == x;
          if j > 0 { assert rest[j - 1].index == x; }
        }
      }
      if i == fixed[0].index {
        assert i !in Indices(rest);
      }
      forall j | 0 <= j < |fixed| && fixed[j].index == i
        ensures Toggled(vis, fixed, hiding)[i] == if hiding then HiddenValue else fixed[j].original
      {
        if j > 0 { assert rest[j - 1] == fixed[j]; }
      }
    }
  }

  /** Hiding then restoring gives every element back the inline visibility it had. */
  lemma RestoreAfterHide(vis: seq<string>, fixed: seq<Saved>)
    requires WellFormed(fixed, |vis|)
    requires SavedFrom(fixed, vis)
    ensures Toggled(Toggled(vis, fixed, true), fixed, false) == vis
  {
    var hidden := Toggled(vis, fixed, true);
    var back := Toggled(hidden, fixed, false);
    forall i | 0 <= i < |vis| ensures back[i] == vis[i] {
      ToggledAt(vis, fixed, true, i);
      ToggledAt(hidden, fixed, false, i);
    }
  }

  /** Restoring elements that were never hidden leaves the page as it was. */
  lemma RestoreWhenShown(vis: seq<string>, fixed: seq<Saved>)
    requires WellFormed(fixed, |vis|)
    requires SavedFrom(fixed, vis)
    ensures Toggled(vis, fixed, false) == vis
  {
    forall i | 0 <= i < |vis| ensures Toggled(vis, fixed, false)[i] == vis[i] {
      ToggledAt(vis, fixed, false, i);
    }
  }

  /** Hiding twice is hiding once. */
  lemma HideIdempotent(vis: seq<string>, fixed: seq<Saved>)
    requires WellFormed(fixed, |vis|)
    ensures Toggled(Toggled(vis, fixed, true), fixed, true) == Toggled(vis, fixed, true)
  {
    var once := Toggled(vis, fixed, true);
    forall i | 0 <= i < |vis| ensures Toggled(once, fixed, true)[i] == once[i] {
      ToggledAt(vis, fixed, true, i);
      ToggledAt(once, fixed, true, i);
    }
  }
}
