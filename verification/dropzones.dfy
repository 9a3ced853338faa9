/** Drop zones: the insertion targets each container offers once rendered, the
    pre-order walk that collects them for the drop layer, and where a zone sits on
    screen relative to its anchor rectangle. */
module DropZones {
  import opened Wrappers
  import opened Seqs
  import opened Element
  import opened Tree

  datatype Anchor = Top | Bottom | Left | Right

  /** A zone: the container its callbacks are bound to (by path), the rectangle of
      the rendered element it is anchored to, the side, and the insertion index
      (None appends). */
  datatype DropZone = DropZone(owner: Path, rect: Rect, anchor: Anchor, index: Option<int>)

  predicate IsRow(n: Node)
  {
    Direction(n) == Row
  }

  function LeadingSide(n: Node): Anchor
  {
    if IsRow(n) then Left else Top
  }

  function TrailingSide(n: Node): Anchor
  {
    if IsRow(n) then Right else Bottom
  }

  /** The zones after children `from..`: one after each rendered child except the
      last, inserting right behind it and anchored to that child's trailing side. */
  function Between(cs: seq<Node>, p: Path, side: Anchor, from: nat): (zs: seq<DropZone>)
    requires from <= |cs|
    ensures forall j :: 0 <= j < |zs| ==> BetweenZone(cs, p, side, from, zs[j])
    decreases |cs| - from
  {
    if from == |cs| then []
    else if from == |cs| - 1 || cs[from].rendered.None? then Between(cs, p, side, from + 1)
    else
      [DropZone(p, cs[from].rendered.value, side, Some(from + 1))] + Between(cs, p, side, from + 1)
  }

  /** A zone bound to `p` that inserts right after a rendered child `idx` with
      `from <= idx`, which is not the last child, anchored to that child. */
  predicate BetweenZone(cs: seq<Node>, p: Path, side: Anchor, from: nat, z: DropZone)
  {
    && z.owner == p && z.anchor == side && z.index.Some?
    && from + 1 <= z.index.value < |cs|
    && cs[z.index.value - 1].rendered == Some(z.rect)
  }

  predicate IncreasingIndices(zs: seq<DropZone>)
  {
    forall j, k :: 0 <= j < k < |zs| ==> zs[j].index.Some? && zs[k].index.Some? && zs[j].index.value < zs[k].index.value
  }

  /** The between zones come in strictly increasing index order. */
  lemma {:induction false} BetweenOrdered(cs: seq<Node>, p: Path, side: Anchor, from: nat)
    requires from <= |cs|
    ensures IncreasingIndices(Between(cs, p, side, from))
    decreases |cs| - from
  {
    if from < |cs| {
      BetweenOrdered(cs, p, side, from + 1);
      var zs := Between(cs, p, side, from);
      var rest := Between(cs, p, side, from + 1);
      assert forall k :: 0 <= k < |rest| ==> BetweenZone(cs, p, side, from + 1, rest[k]);
      if !(from == |cs| - 1 || cs[from].rendered.None?) {
        assert forall k :: 1 <= k < |zs| ==> zs[k] == rest[k - 1];
        assert zs[0].index.value == from + 1;
        forall j, k | 0 <= j < k < |zs|
          ensures zs[j].index.value < zs[k].index.value
        {
          if j > 0 {
            assert zs[j] == rest[j - 1] && zs[k] == rest[k - 1];
            assert rest[j - 1].index.value < rest[k - 1].index.value;
          } else {
            assert BetweenZone(cs, p, side, from + 1, rest[k - 1]);
          }
        }
      }
    }
  }

  /** Every rendered child except the last gets a zone inserting right after it. */
  lemma {:induction false} BetweenComplete(cs: seq<Node>, p: Path, side: Anchor, from: nat, idx: nat)
    requires from <= idx < |cs| - 1 && cs[idx].rendered.Some?
    ensures exists j :: 0 <= j < |Between(cs, p, side, from)| && Between(cs, p, side, from)[j].index == Some(idx + 1)
    decreases |cs| - from
  {
    var zs := Between(cs, p, side, from);
    if idx == from {
      assert zs[0].index == Some(idx + 1);
    } else {
      BetweenComplete(cs, p, side, from + 1, idx);
      var rest := Between(cs, p, side, from + 1);
      var j :| 0 <= j < |rest| && rest[j].index == Some(idx + 1);
      if from == |cs| - 1 || cs[from].rendered.None? {
        assert zs[j] == rest[j];
      } else {
        assert zs[j + 1] == rest[j];
      }
    }
  }

  /** When every child is rendered, every child but the last gets its zone. */
  lemma {:induction false} BetweenCount(cs: seq<Node>, p: Path, side: Anchor, from: nat)
    requires from <= |cs|
    requires forall i :: 0 <= i < |cs| ==> cs[i].rendered.Some?
    ensures |Between(cs, p, side, from)| == if from < |cs| then |cs| - 1 - from else 0
    decreases |cs| - from
  {
    if from < |cs| {
      BetweenCount(cs, p, side, from + 1);
    }
  }

  /** `getDropZones()` of a flex container at path `p`. */
  function FlexZones(n: Node, p: Path): (zs: seq<DropZone>)
    ensures n.rendered.None? ==> zs == []
    ensures n.rendered.Some? ==>
              && |zs| >= 2
              && zs[0] == DropZone(p, n.rendered.value, LeadingSide(n), Some(0))
              && zs[1] == DropZone(p, n.rendered.value, TrailingSide(n), None)
              && zs[2..] == Between(n.children, p, TrailingSide(n), 0)
    ensures forall j :: 2 <= j < |zs| ==> BetweenZone(n.children, p, TrailingSide(n), 0, zs[j])
  {
    if n.rendered.None? then []
    else
      var rect := n.rendered.value;
      [DropZone(p, rect, LeadingSide(n), Some(0)), DropZone(p, rect, TrailingSide(n), None)]
        + Between(n.children, p, TrailingSide(n), 0)
  }

  /** A rendered flex container offers a zone right after each rendered child but the
      last, and nowhere else between children. */
  lemma FlexBetweenZones(n: Node, p: Path, idx: nat)
    requires n.rendered.Some?
    requires idx < |n.children| - 1 && n.children[idx].rendered.Some?
    ensures exists j :: 2 <= j < |FlexZones(n, p)| && FlexZones(n, p)[j].index == Some(idx + 1)
  {
    var zs := FlexZones(n, p);
    BetweenComplete(n.children, p, TrailingSide(n), 0, idx);
    var b := Between(n.children, p, TrailingSide(n), 0);
    var j :| 0 <= j < |b| && b[j].index == Some(idx + 1);
    assert zs[j + 2] == b[j];
  }

  /** With the container and all K children rendered a flex container offers 2 zones
      for K = 0 and K + 1 zones otherwise. */
  lemma FlexZoneCount(n: Node, p: Path)
    requires n.rendered.Some?
    requires forall i :: 0 <= i < |n.children| ==> n.children[i].rendered.Some?
    ensures |FlexZones(n, p)| == if |n.children| == 0 then 2 else |n.children| + 1
  {
    BetweenCount(n.children, p, TrailingSide(n), 0);
  }

  /** Where the signal-backed preview of each zone of a rendered flex container shows
      up: the leading zone before the first child, the trailing zone appended to the
      container, and a zone after child `k - 1` before child `k`; each of the first
      and the last only when that child is rendered, and nowhere otherwise. */
  lemma FlexZonePlacement(n: Node, p: Path, j: nat)
    requires n.rendered.Some? && j < |FlexZones(n, p)|
    ensures j == 0 ==> PreviewPlacement(n, FlexZones(n, p)[j].index)
                         == if |n.children| > 0 && n.children[0].rendered.Some? then BeforeChild(0) else NotShown
    ensures j == 1 ==> PreviewPlacement(n, FlexZones(n, p)[j].index) == Appended
    ensures j >= 2 ==>
              var k := FlexZones(n, p)[j].index.value;
              && FlexZones(n, p)[j].index.Some? && 0 < k < |n.children|
              && PreviewPlacement(n, FlexZones(n, p)[j].index)
                   == if n.children[k].rendered.Some? then BeforeChild(k) else NotShown
  {
  }

  /** `getDropZones()` of a card: one append zone on its bottom edge. */
  function CardZones(n: Node, p: Path): seq<DropZone>
  {
    if n.rendered.None? then [] else [DropZone(p, n.rendered.value, Bottom, None)]
  }

  /** `getDropZones()` dispatched on the node's kind; the base class offers none. */
  function NodeZones(n: Node, p: Path): seq<DropZone>
  {
    match n.kind
    case Flex => FlexZones(n, p)
    case Card => CardZones(n, p)
    case _ => []
  }

  /** Only flex and card nodes offer zones, only once rendered, each bound to the node. */
  lemma NodeZonesShape(n: Node, p: Path)
    ensures n.rendered.None? ==> NodeZones(n, p) == []
    ensures NodeZones(n, p) != [] ==> n.kind == Flex || n.kind == Card
    ensures forall z :: z in NodeZones(n, p) ==> z.owner == p
  {
  }

  /** What `buildFromElement` appends for the subtree at path `p`: the node's own zones,
      then those of every child in order, whether or not the node had any. */
  function Collect(n: Node, p: Path): seq<DropZone>
    decreases n, 1
  {
    NodeZones(n, p) + Flatten(ChildZones(n, p))
  }

  function ChildZones(n: Node, p: Path): (ss: seq<seq<DropZone>>)
    ensures |ss| == |n.children|
    decreases n, 0
  {
    seq(|n.children|, i requires 0 <= i < |n.children| => Collect(n.children[i], p + [i]))
  }

  /** A zone is collected exactly when it is one of the zones of some node of the tree,
      bound to that node's path. */
  lemma CollectMember(n: Node, base: Path, z: DropZone)
    ensures z in Collect(n, base) <==> exists q :: ZoneOfNodeAt(n, base, q, z)
  {
    if z in Collect(n, base) {
      CollectedFrom(n, base, z);
    }
    if exists q :: ZoneOfNodeAt(n, base, q, z) {
      var q :| ZoneOfNodeAt(n, base, q, z);
      CollectedAt(n, base, q, z);
    }
  }

  /** `z` is one of the zones the node at path `q` (below `base`) offers. */
  predicate ZoneOfNodeAt(n: Node, base: Path, q: Path, z: DropZone)
  {
    ValidPath(n, q) && z in NodeZones(At(n, q), base + q)
  }

  lemma ZoneOfChild(n: Node, base: Path, i: nat, q: Path, z: DropZone)
    requires i < |n.children| && ZoneOfNodeAt(n.children[i], base + [i], q, z)
    ensures ZoneOfNodeAt(n, base, [i] + q, z)
  {
    PathCons(n, i, q);
    assert base + ([i] + q) == base + [i] + q;
  }

  lemma {:induction false} CollectedFrom(n: Node, base: Path, z: DropZone)
    requires z in Collect(n, base)
    ensures exists q :: ZoneOfNodeAt(n, base, q, z)
  {
    var ss := ChildZones(n, base);
    if z in NodeZones(n, base) {
      assert base + [] == base;
      assert ZoneOfNodeAt(n, base, [], z);
    } else {
      FlattenMember(ss, z);
      var i :| 0 <= i < |ss| && z in ss[i];
      var c := n.children[i];
      assert ss[i] == Collect(c, base + [i]);
      CollectedFrom(c, base + [i], z);
      var q :| ZoneOfNodeAt(c, base + [i], q, z);
      ZoneOfChild(n, base, i, q, z);
    }
  }

  lemma {:induction false} CollectedAt(n: Node, base: Path, q: Path, z: DropZone)
    requires ValidPath(n, q) && z in NodeZones(At(n, q), base + q)
    ensures z in Collect(n, base)
    decreases |q|
  {
    if |q| == 0 {
      assert base + q == base;
    } else {
      var ss := ChildZones(n, base);
      var i := q[0];
      var c := n.children[i];
      assert At(n, q) == At(c, q[1..]);
      assert base + q == base + [i] + q[1..];
      CollectedAt(c, base + [i], q[1..], z);
      assert z in ss[i];
      FlattenMember(ss, z);
    }
  }

  /** Every zone handed to the drop layer is bound to a flex or card node of the tree. */
  lemma CollectedZonesBound(root: Node, z: DropZone)
    requires z in Collect(root, [])
    ensures ValidPath(root, z.owner)
    ensures At(root, z.owner).kind == Flex || At(root, z.owner).kind == Card
    ensures At(root, z.owner).rendered.Some?
  {
    CollectMember(root, [], z);
    var q :| ZoneOfNodeAt(root, [], q, z);
    assert [] + q == q;
    NodeZonesShape(At(root, q), q);
  }

  /** `buildFromElement(n)` on a drop layer holding `zones`. */
  method BuildFromElement(zones: seq<DropZone>, n: Node, p: Path) returns (r: seq<DropZone>)
    ensures r == zones + Collect(n, p)
    decreases n
  {
    var own := NodeZones(n, p);
    var ss := ChildZones(n, p);
    r := zones + own;
    var i := 0;
    while i < |n.children|
      invariant 0 <= i <= |n.children|
      invariant r == zones + own + Flatten(ss[..i])
    {
      r := BuildFromElement(r, n.children[i], p + [i]);
      assert ss[i] == Collect(n.children[i], p + [i]);
      FlattenSnoc(ss, i);
      i := i + 1;
    }
    assert ss[..i] == ss;
  }

  /** `clear()` followed by `buildFromElement(root)`, as done after every render: the
      layer ends up with exactly the zones of the current tree, nothing stale. */
  method Rebuild(stale: seq<DropZone>, root: Node) returns (r: seq<DropZone>)
    ensures r == Collect(root, [])
    ensures forall z :: z in r ==> ValidPath(root, z.owner)
  {
    var cleared: seq<DropZone> := [];
    r := BuildFromElement(cleared, root, []);
    forall z | z in r
      ensures ValidPath(root, z.owner)
    {
      CollectedZonesBound(root, z);
    }
  }

  // ---------------------------------------------------------------- geometry

  datatype Point = Point(top: real, left: real)

  /** `#positionFromAnchor`: the middle of the named edge of the anchor rectangle. */
  function PositionFromAnchor(r: Rect, a: Anchor): (pt: Point)
    ensures a == Top ==> pt.top == r.top
    ensures a == Bottom ==> pt.top == r.top + r.height
    ensures a == Left ==> pt.left == r.left
    ensures a == Right ==> pt.left == r.left + r.width
    ensures a == Top || a == Bottom ==> pt.left - r.left == r.left + r.width - pt.left
    ensures a == Left || a == Right ==> pt.top - r.top == r.top + r.height - pt.top
  {
    match a
    case Top => Point(r.top, r.left + r.width / 2.0)
    case Bottom => Point(r.top + r.height, r.left + r.width / 2.0)
    case Left => Point(r.top + r.height / 2.0, r.left)
    case Right => Point(r.top + r.height / 2.0, r.left + r.width)
  }

  /** For a rectangle of non-negative size the zone sits on its boundary. */
  lemma PositionOnBoundary(r: Rect, a: Anchor)
    requires r.width >= 0.0 && r.height >= 0.0
    ensures var pt := PositionFromAnchor(r, a);
      && r.top <= pt.top <= r.top + r.height
      && r.left <= pt.left <= r.left + r.width
      && (pt.top == r.top || pt.top == r.top + r.height || pt.left == r.left || pt.left == r.left + r.width)
  {
  }
}
