/** The drop layer's event handling: what a zone's drag-enter, drag-leave and drop
    callbacks do to the document tree, and the order the layer calls them in. */
module DropLayer {
  import opened Wrappers
  import opened Seqs
  import opened Element
  import opened Tree
  import opened DropZones

  /** A zone whose container is still a flex or card node of the tree. */
  predicate Bound(root: Node, z: DropZone)
  {
    ValidPath(root, z.owner) && (At(root, z.owner).kind == Flex || At(root, z.owner).kind == Card)
  }

  /** The container of a zone has no preview children. */
  predicate Clean(root: Node, z: DropZone)
    requires ValidPath(root, z.owner)
  {
    forall i :: 0 <= i < |At(root, z.owner).children| ==> !IsPreview(At(root, z.owner).children[i])
  }

  /** A zone's drag-enter. The plain flex and card elements insert a preview child
      into the container; the signal-backed ones only draw on the rendered page and
      leave the tree alone. */
  function DragEnter(root: Node, z: DropZone, v: Variant): (r: Node)
    requires Bound(root, z)
    ensures Bound(r, z)
    ensures v == Signals ==> r == root
    ensures v == Plain ==>
              && ChangedOnlyAt(root, r, z.owner)
              && At(r, z.owner) == OnPreview(At(root, z.owner), z.index)
              && |At(r, z.owner).children| == |At(root, z.owner).children| + 1
              && IsPreview(At(r, z.owner).children[PreviewSlot(At(root, z.owner), z.index)])
  {
    if v == Signals then root
    else
      UpdateAtFrame(root, z.owner, OnPreview(At(root, z.owner), z.index));
      UpdateAt(root, z.owner, OnPreview(At(root, z.owner), z.index))
  }

  /** A zone's drag-leave. The plain flex and card elements drop every preview child
      of the container; the signal-backed ones only restore the rendered page. */
  function DragLeave(root: Node, z: DropZone, v: Variant): (r: Node)
    requires Bound(root, z)
    ensures Bound(r, z)
    ensures v == Signals ==> r == root
    ensures v == Plain ==>
              && ChangedOnlyAt(root, r, z.owner)
              && At(r, z.owner) == RemovePreviews(At(root, z.owner))
              && Clean(r, z)
              && forall c :: c in At(r, z.owner).children <==> c in At(root, z.owner).children && !IsPreview(c)
  {
    if v == Signals then root
    else
      UpdateAtFrame(root, z.owner, RemovePreviews(At(root, z.owner)));
      UpdateAt(root, z.owner, RemovePreviews(At(root, z.owner)))
  }

  /** The zone's drop callback: the container's `getOnDrop(index)`. */
  function Drop(root: Node, z: DropZone, payload: Option<PartialData>, v: Variant): (r: Node)
    requires Bound(root, z)
    ensures Bound(r, z)
    ensures !HasTag(payload) ==> r == root
    ensures HasTag(payload) ==>
              && ChangedOnlyAt(root, r, z.owner)
              && At(r, z.owner) == OnDrop(At(root, z.owner), payload, z.index, v)
              && |At(r, z.owner).children| == |At(root, z.owner).children| + 1
              && ValidPath(r, z.owner + [Slot(At(root, z.owner), z.index)])
              && At(r, z.owner + [Slot(At(root, z.owner), z.index)]) == Build(payload.value, v)
  {
    if !HasTag(payload) then root
    else InsertChild(root, z.owner, Build(payload.value, v), z.index)
  }

  /** `drop` on a zone of the layer in components/drop-layer.ts: the zone's drag-leave
      runs first, then its drop. */
  function LayerDrop(root: Node, z: DropZone, payload: Option<PartialData>, v: Variant): (r: Node)
    requires Bound(root, z)
    ensures Bound(r, z)
    ensures !HasTag(payload) ==> r == DragLeave(root, z, v)
  {
    Drop(DragLeave(root, z, v), z, payload, v)
  }

  /** `drop` on a zone of the layer in components/drop-layer/drop-layer.ts: the drop
      callback runs only when the event's target is the zone element itself. */
  function GuardedDrop(root: Node, z: DropZone, payload: Option<PartialData>, targetIsZone: bool, v: Variant): (r: Node)
    requires Bound(root, z)
  {
    if targetIsZone then Drop(root, z, payload, v) else root
  }

  /** The two drop layers against each other: a drop that bubbled up from inside the
      zone changes nothing on the guarded layer, and a drop on the zone itself has the
      same effect on both layers as long as the container holds no preview. */
  lemma GuardedDropAgrees(root: Node, z: DropZone, payload: Option<PartialData>, v: Variant)
    requires Bound(root, z) && Clean(root, z)
    ensures GuardedDrop(root, z, payload, false, v) == root
    ensures GuardedDrop(root, z, payload, true, v) == LayerDrop(root, z, payload, v)
  {
    LeaveClean(root, z, v);
  }

  /** Drag-leave on a container without previews changes nothing. */
  lemma LeaveClean(root: Node, z: DropZone, v: Variant)
    requires Bound(root, z) && Clean(root, z)
    ensures DragLeave(root, z, v) == root
  {
    if v == Plain {
      assert RemovePreviews(At(root, z.owner)) == At(root, z.owner);
      UpdateAtSelf(root, z.owner);
    }
  }

  /** A drop through the zone of a card appends the built element to the card's
      children, whatever is already in it. */
  lemma CardDropAppends(root: Node, p: Path, z: DropZone, payload: Option<PartialData>, v: Variant)
    requires ValidPath(root, p) && At(root, p).kind == Card
    requires z in CardZones(At(root, p), p) && HasTag(payload)
    ensures Bound(root, z)
    ensures At(Drop(root, z, payload, v), p).children == At(root, p).children + [Build(payload.value, v)]
  {
  }

  /** A run of drag-enters on zones of one container, with the zone indices `idxs`
      in the order the events arrived, and no drag-leave in between. */
  function Enters(root: Node, z: DropZone, idxs: seq<Option<int>>, v: Variant): (r: Node)
    requires Bound(root, z)
    ensures Bound(r, z)
    ensures v == Signals ==> r == root
    ensures v == Plain ==> |At(r, z.owner).children| == |At(root, z.owner).children| + |idxs|
  {
    if v == Signals then root else UpdateAt(root, z.owner, Previews(At(root, z.owner), idxs))
  }

  /** A run of drag-enters is the drag-enters one after the other: the empty run
      changes nothing, and one more event at the end of a run is a drag-enter on the
      tree the run left. */
  lemma EntersSnoc(root: Node, z: DropZone, idxs: seq<Option<int>>, i: Option<int>, v: Variant)
    requires Bound(root, z)
    ensures Enters(root, z, [], v) == root
    ensures Enters(root, z, idxs + [i], v) == DragEnter(Enters(root, z, idxs, v), z.(index := i), v)
  {
    UpdateAtSelf(root, z.owner);
    if v == Plain {
      var n := At(root, z.owner);
      var e := Enters(root, z, idxs, v);
      assert At(e, z.owner) == Previews(n, idxs);
      PreviewsSnoc(n, idxs, i);
      UpdateAtTwice(root, z.owner, Previews(n, idxs), OnPreview(Previews(n, idxs), i));
    }
  }

  /** However many drag-enters preceded it, a drag-leave puts a clean container back
      exactly as it was. */
  lemma EntersThenLeave(root: Node, z: DropZone, idxs: seq<Option<int>>, v: Variant)
    requires Bound(root, z) && Clean(root, z)
    ensures DragLeave(Enters(root, z, idxs, v), z, v) == root
  {
    if v == Plain {
      var n := At(root, z.owner);
      var m := Previews(n, idxs);
      var e := Enters(root, z, idxs, v);
      assert At(e, z.owner) == m;
      ManyPreviewsThenLeave(n, idxs);
      UpdateAtTwice(root, z.owner, m, n);
      UpdateAtSelf(root, z.owner);
    }
  }

  /** One drag-enter followed by drag-leave equals drag-leave alone. */
  lemma EnterThenLeave(root: Node, z: DropZone, v: Variant)
    requires Bound(root, z)
    ensures DragLeave(DragEnter(root, z, v), z, v) == DragLeave(root, z, v)
  {
    if v == Plain {
      var n := At(root, z.owner);
      var m := OnPreview(n, z.index);
      var r1 := DragEnter(root, z, v);
      assert r1 == UpdateAt(root, z.owner, m) && At(r1, z.owner) == m;
      PreviewThenLeave(n, z.index);
      UpdateAtTwice(root, z.owner, m, RemovePreviews(m));
    }
  }

  /** A drop after any number of previews on a clean container has the same effect
      as dropping straight onto it: the previews vanish and the one new child lands at
      the zone's index. */
  lemma DropAfterPreviews(root: Node, z: DropZone, idxs: seq<Option<int>>, payload: Option<PartialData>, v: Variant)
    requires Bound(root, z) && Clean(root, z)
    ensures LayerDrop(Enters(root, z, idxs, v), z, payload, v) == Drop(root, z, payload, v)
  {
    EntersThenLeave(root, z, idxs, v);
  }
}
