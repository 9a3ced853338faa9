/** The edit layer: one clickable, draggable overlay per rendered element, and the
    drag-to-move gesture that takes an element out of its parent on drag start and
    puts it back when the drag is cancelled. */
module EditLayer {
  import opened Wrappers
  import opened Seqs
  import opened Element
  import opened Tree

  /** An overlay: the element it covers (by its position in the tree) and the
      rectangle of its rendered element. The overlay's inner layout is markup only. */
  datatype Overlay = Overlay(owner: Path, rect: Rect)

  /** `add(overlay)`: the existing overlays, in order, then the new one. */
  function Add(overlays: seq<Overlay>, o: Overlay): (r: seq<Overlay>)
    ensures |r| == |overlays| + 1
    ensures r[..|overlays|] == overlays && r[|overlays|] == o
    ensures forall x :: x in r <==> x in overlays || x == o
  {
    overlays + [o]
  }

  /** Every node on the way from `n` down along `q`, both ends included, is rendered. */
  predicate RenderedAlong(n: Node, q: Path)
    decreases |q|
  {
    n.rendered.Some? && (|q| == 0 || (q[0] < |n.children| && RenderedAlong(n.children[q[0]], q[1..])))
  }

  /** The overlays `buildFromElement(n)` adds: nothing for an unrendered node (its
      subtree is not visited), otherwise the node's own overlay and then those of
      its children, in order. */
  function Overlays(n: Node, p: Path): seq<Overlay>
    decreases n, 1
  {
    if n.rendered.None? then [] else [Overlay(p, n.rendered.value)] + Flatten(ChildOverlays(n, p))
  }

  function ChildOverlays(n: Node, p: Path): (ss: seq<seq<Overlay>>)
    ensures |ss| == |n.children|
    decreases n, 0
  {
    seq(|n.children|, i requires 0 <= i < |n.children| => Overlays(n.children[i], p + [i]))
  }

  /** `o` is the overlay of the node at `q` below `base`, and that node and all its
      ancestors up to `n` are rendered. */
  predicate OverlayOfNodeAt(n: Node, base: Path, q: Path, o: Overlay)
  {
    ValidPath(n, q) && RenderedAlong(n, q) && o.owner == base + q && At(n, q).rendered == Some(o.rect)
  }

  /** Overlays are exactly those of the nodes reachable through rendered nodes only. */
  lemma OverlaysMember(n: Node, base: Path, o: Overlay)
    ensures o in Overlays(n, base) <==> exists q :: OverlayOfNodeAt(n, base, q, o)
  {
    if o in Overlays(n, base) {
      OverlayFrom(n, base, o);
    }
    if exists q :: OverlayOfNodeAt(n, base, q, o) {
      var q :| OverlayOfNodeAt(n, base, q, o);
      OverlayAt(n, base, q, o);
    }
  }

  lemma OverlayOfChild(n: Node, base: Path, i: nat, q: Path, o: Overlay)
    requires n.rendered.Some? && i < |n.children|
    requires OverlayOfNodeAt(n.children[i], base + [i], q, o)
    ensures OverlayOfNodeAt(n, base, [i] + q, o)
  {
    PathCons(n, i, q);
    var iq := [i] + q;
    assert iq[0] == i && iq[1..] == q;
    assert base + iq == base + [i] + q;
  }

  lemma {:induction false} OverlayFrom(n: Node, base: Path, o: Overlay)
    requires o in Overlays(n, base)
    ensures exists q :: OverlayOfNodeAt(n, base, q, o)
  {
    var ss := ChildOverlays(n, base);
    if o == Overlay(base, n.rendered.value) {
      assert base + [] == base;
      assert OverlayOfNodeAt(n, base, [], o);
    } else {
      assert o in Flatten(ss);
      FlattenMember(ss, o);
      var i :| 0 <= i < |ss| && o in ss[i];
      var c := n.children[i];
      assert ss[i] == Overlays(c, base + [i]);
      OverlayFrom(c, base + [i], o);
      var q :| OverlayOfNodeAt(c, base + [i], q, o);
      OverlayOfChild(n, base, i, q, o);
    }
  }

  lemma {:induction false} OverlayAt(n: Node, base: Path, q: Path, o: Overlay)
    requires OverlayOfNodeAt(n, base, q, o)
    ensures o in Overlays(n, base)
    decreases |q|
  {
    if |q| == 0 {
      assert base + q == base;
    } else {
      var ss := ChildOverlays(n, base);
      var i := q[0];
      var c := n.children[i];
      assert At(n, q) == At(c, q[1..]);
      assert base + q == base + [i] + q[1..];
      OverlayAt(c, base + [i], q[1..], o);
      assert o in ss[i];
      FlattenMember(ss, o);
    }
  }

  /** The overlays of a node that is not rendered: none, whatever lies below it. */
  lemma UnrenderedSkipsSubtree(n: Node, base: Path, q: Path)
    requires n.rendered.None?
    ensures forall o :: !OverlayOfNodeAt(n, base, q, o)
    ensures Overlays(n, base) == []
  {
  }

  /** `buildFromElement(n)` on an edit layer already holding `overlays`. */
  method BuildFromElement(overlays: seq<Overlay>, n: Node, p: Path) returns (r: seq<Overlay>)
    ensures r == overlays + Overlays(n, p)
    decreases n
  {
    if n.rendered.None? {
      return overlays;
    }
    var ss := ChildOverlays(n, p);
    r := Add(overlays, Overlay(p, n.rendered.value));
    var i := 0;
    while i < |n.children|
      invariant 0 <= i <= |n.children|
      invariant r == overlays + [Overlay(p, n.rendered.value)] + Flatten(ss[..i])
    {
      r := BuildFromElement(r, n.children[i], p + [i]);
      assert ss[i] == Overlays(n.children[i], p + [i]);
      FlattenSnoc(ss, i);
      i := i + 1;
    }
    assert ss[..i] == ss;
  }

  /** `clear()` followed by `buildFromElement(root)`: one overlay per node whose whole
      ancestry is rendered, each covering its own node's rectangle. */
  method Rebuild(stale: seq<Overlay>, root: Node) returns (r: seq<Overlay>)
    ensures r == Overlays(root, [])
    ensures forall o :: o in r ==> ValidPath(root, o.owner) && At(root, o.owner).rendered == Some(o.rect)
  {
    var cleared: seq<Overlay> := [];
    r := BuildFromElement(cleared, root, []);
    forall o | o in r
      ensures ValidPath(root, o.owner) && At(root, o.owner).rendered == Some(o.rect)
    {
      OverlaysMember(root, [], o);
      var q :| OverlayOfNodeAt(root, [], q, o);
      assert [] + q == q;
    }
  }

  // ---------------------------------------------------------------- drag to move

  /** The element taken out on drag start, the parent it was taken from and its index. */
  datatype Dragged = Dragged(node: Node, parent: Path, index: nat)

  /** What the edit layer acts on: the document, the application-wide selection and
      the record of the element being dragged. */
  datatype EditState = EditState(root: Node, selection: Option<Path>, dragged: Option<Dragged>)

  /** The drag payload: the serialised element under the overlay. */
  function DragPayload(root: Node, p: Path): Option<ElementData>
  {
    if ValidPath(root, p) then Some(Serialize(At(root, p))) else None
  }

  /** The payload of a drag rebuilds the element the drag took out: dropped anywhere,
      the factory's element serialises to the same data, and it is that very element
      when the element is as the factory left it. */
  lemma DragPayloadRebuilds(s: EditState, p: Path, v: Variant)
    requires |p| > 0 && ValidPath(s.root, p) && WellFormed(Serialize(At(s.root, p)))
    ensures DragPayload(s.root, p).Some? && DragStart(s, p).dragged.Some?
    ensures Serialize(Build(ToPartial(DragPayload(s.root, p).value), v)) == Serialize(DragStart(s, p).dragged.value.node)
    ensures Canonical(At(s.root, p), v) ==>
              Build(ToPartial(DragPayload(s.root, p).value), v) == DragStart(s, p).dragged.value.node
  {
    SerializeBuild(Serialize(At(s.root, p)), v);
    if Canonical(At(s.root, p), v) {
      BuildSerialize(At(s.root, p), v);
    }
  }

  /** `dragstart` on the overlay of the element at `p`. An element with a parent is
      spliced out of it, the selection is cleared and (parent, index) is recorded;
      the root, which has no parent, stays where it is and nothing is recorded. */
  function DragStart(s: EditState, p: Path): (r: EditState)
    ensures !(|p| > 0 && ValidPath(s.root, p)) ==> r == s
    ensures |p| > 0 && ValidPath(s.root, p) ==>
              && ValidPath(s.root, Parent(p)) && ValidPath(r.root, Parent(p))
              && Last(p) < |At(s.root, Parent(p)).children|
              && At(r.root, Parent(p)) == RemoveChild(At(s.root, Parent(p)), Last(p))
              && At(r.root, Parent(p)).children
                   == At(s.root, Parent(p)).children[..Last(p)] + At(s.root, Parent(p)).children[Last(p) + 1..]
              && ChangedOnlyAt(s.root, r.root, Parent(p))
              && r.selection.None?
              && r.dragged == Some(Dragged(At(s.root, p), Parent(p), Last(p)))
  {
    if |p| > 0 && ValidPath(s.root, p) then
      ParentChild(s.root, p);
      EditState(RemoveChildAt(s.root, Parent(p), Last(p)), None,
                Some(Dragged(At(s.root, p), Parent(p), Last(p))))
    else
      s
  }

  /** `dragend`: when a drag was recorded and the drop was cancelled (drop effect
      "none"), the element goes back into its parent at the recorded index and the
      record is cleared; in every other case nothing happens. A parent no longer in
      the tree gets the element back outside of the document, so the tree is kept. */
  function DragEnd(s: EditState, dropEffectNone: bool): (r: EditState)
    ensures !(s.dragged.Some? && dropEffectNone) ==> r == s
    ensures s.dragged.Some? && dropEffectNone ==> r.dragged.None? && r.selection == s.selection
    ensures s.dragged.Some? && dropEffectNone && ValidPath(s.root, s.dragged.value.parent) ==>
              var d := s.dragged.value;
              && ChangedOnlyAt(s.root, r.root, d.parent)
              && At(r.root, d.parent) == AddChild(At(s.root, d.parent), d.node, Some(d.index))
              && ValidPath(r.root, d.parent + [Slot(At(s.root, d.parent), Some(d.index))])
              && At(r.root, d.parent + [Slot(At(s.root, d.parent), Some(d.index))]) == d.node
    ensures s.dragged.Some? && !ValidPath(s.root, s.dragged.value.parent) ==> r.root == s.root
  {
    if s.dragged.Some? && dropEffectNone then
      var d := s.dragged.value;
      var root := if ValidPath(s.root, d.parent) then InsertChild(s.root, d.parent, d.node, Some(d.index))
                  else s.root;
      EditState(root, s.selection, None)
    else
      s
  }

  /** A cancelled drag leaves the document as it was before the drag started; only the
      selection is gone. */
  lemma DragCancelRestores(s: EditState, p: Path)
    requires |p| > 0 && ValidPath(s.root, p)
    ensures DragEnd(DragStart(s, p), true) == s.(selection := None, dragged := None)
  {
    ParentChild(s.root, p);
    RemoveThenInsertRestores(s.root, Parent(p), Last(p));
  }

  /** A drag whose drop went through keeps its record: a later cancelled drag of the
      root, which records nothing, puts the element moved earlier back into its old
      parent, next to the copy the drop created. */
  lemma StaleRecordReinserted(s: EditState)
    requires s.dragged.Some? && ValidPath(s.root, s.dragged.value.parent)
    ensures var d := s.dragged.value;
            var r := DragEnd(DragStart(DragEnd(s, false), []), true);
            && ValidPath(r.root, d.parent)
            && |At(r.root, d.parent).children| == |At(s.root, d.parent).children| + 1
            && At(r.root, d.parent + [Slot(At(s.root, d.parent), Some(d.index))]) == d.node
  {
  }

  /** `dragend` with the record cleared whatever the drop effect, so that a record
      never outlives the drag that made it. */
  function DragEndFixed(s: EditState, dropEffectNone: bool): (r: EditState)
    ensures r.dragged.None? && r.selection == s.selection
    ensures !(s.dragged.Some? && dropEffectNone) ==> r.root == s.root
    ensures s.dragged.Some? && dropEffectNone ==> r == DragEnd(s, true)
  {
    if s.dragged.Some? && dropEffectNone then DragEnd(s, true) else s.(dragged := None)
  }

  /** With the record cleared on every drag end, a completed drag followed by a
      cancelled drag of the root leaves the document alone, and a cancelled drag of
      any other element still restores it. */
  lemma FixedNoStaleReinsert(s: EditState, p: Path)
    ensures DragEndFixed(DragStart(DragEndFixed(s, false), []), true).root == s.root
    ensures |p| > 0 && ValidPath(s.root, p) ==>
              DragEndFixed(DragStart(s, p), true) == s.(selection := None, dragged := None)
  {
    if |p| > 0 && ValidPath(s.root, p) {
      DragCancelRestores(s, p);
    }
  }
}
