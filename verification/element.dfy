/** The editor's element node, its plain data form, the element factory and the
    operations that act on one node and its direct children. */
module Element {
  import opened Wrappers
  import opened Seqs
  import opened Attributes

  /** The repository carries two element class hierarchies. `Plain` is the one whose
      flex and card previews insert a placeholder child into the tree; `Signals` is the
      signal-backed one whose factory also knows buttons and rich text and whose
      preview only touches the rendered page. */
  datatype Variant = Plain | Signals

  /** The subclass the factory picked for a node. */
  datatype Kind = Generic | Flex | Card | Button | RichText

  const DefaultTag: string := "div"
  const FlexTag: string := "gds-flex"
  const CardTag: string := "gds-card"
  const ButtonTag: string := "gds-button"
  const RichTextTag: string := "gds-rich-text"
  const PreviewKey: string := "data-preview"
  const DirectionKey: string := "flex-direction"
  const Row: string := "row"

  /** `Partial<EdElementData>` as it arrives from JSON: every field may be missing.
      A missing `children` array is written as the empty sequence, the value the
      constructor's `data.children || []` turns it into. */
  datatype PartialData = PartialData(
    tag: Option<string>,
    attributes: Option<Attrs>,
    text: Option<string>,
    children: seq<PartialData>)

  /** `EdElementData`, the serialised form: no identity, no parent, nothing rendered. */
  datatype ElementData = ElementData(
    tag: string,
    attributes: Attrs,
    text: Option<string>,
    children: seq<ElementData>)

  /** A bounding client rectangle. */
  datatype Rect = Rect(top: real, left: real, width: real, height: real)

  /** A live element. `rendered` is the rendered element's bounding rectangle, absent
      until the node has been rendered; the parent link is the node's position in the
      tree (see the Tree module). */
  datatype Node = Node(
    kind: Kind,
    tag: string,
    attributes: Attrs,
    text: Option<string>,
    children: seq<Node>,
    rendered: Option<Rect>,
    highlighted: bool)

  /** The `switch` of `elementFactory`. */
  function KindOf(tag: Option<string>, v: Variant): Kind
  {
    if tag == Some(FlexTag) then Flex
    else if tag == Some(CardTag) then Card
    else if v == Signals && tag == Some(ButtonTag) then Button
    else if v == Signals && tag == Some(RichTextTag) then RichText
    else Generic
  }

  /** The tag a constructor stores: subclasses force their own tag, the base class
      takes the given one or "div" when it is missing or empty. */
  function KindTag(k: Kind, tag: Option<string>): string
  {
    match k
    case Flex => FlexTag
    case Card => CardTag
    case Button => ButtonTag
    case RichText => RichTextTag
    case Generic => if tag.Some? && tag.value != "" then tag.value else DefaultTag
  }

  /** `elementFactory(d)`: picks the subclass, fills in the constructor defaults and
      builds the children, in order, through the factory again. */
  function Build(d: PartialData, v: Variant): (n: Node)
    decreases d
    ensures n.kind == KindOf(d.tag, v)
    ensures d.tag.Some? && d.tag.value != "" ==> n.tag == d.tag.value
    ensures d.tag.None? || d.tag == Some("") ==> n.tag == DefaultTag
    ensures d.attributes.None? ==> n.attributes == []
    ensures d.attributes.Some? ==> n.attributes == d.attributes.value
    ensures n.text == d.text
    ensures |n.children| == |d.children|
    ensures forall i :: 0 <= i < |d.children| ==> n.children[i] == Build(d.children[i], v)
    ensures n.rendered.None? && !n.highlighted
  {
    var k := KindOf(d.tag, v);
    var cs := d.children;
    Node(k, KindTag(k, d.tag), d.attributes.GetOr([]), d.text,
         seq(|cs|, i requires 0 <= i < |cs| => Build(cs[i], v)), None, false)
  }

  /** `serialize()`: the order-preserving projection onto plain data. */
  function Serialize(n: Node): ElementData
  {
    ElementData(n.tag, n.attributes, n.text,
                seq(|n.children|, i requires 0 <= i < |n.children| => Serialize(n.children[i])))
  }

  /** Full element data seen as a factory input with every field present. */
  function ToPartial(d: ElementData): PartialData
  {
    PartialData(Some(d.tag), Some(d.attributes), d.text,
                seq(|d.children|, i requires 0 <= i < |d.children| => ToPartial(d.children[i])))
  }

  /** Element data whose tags are all non-empty at every depth. */
  predicate WellFormed(d: ElementData)
  {
    d.tag != "" && forall i :: 0 <= i < |d.children| ==> WellFormed(d.children[i])
  }

  /** A node as the factory leaves it: its kind is the one its tag dispatches to,
      nothing rendered or highlighted, at every depth. */
  predicate Canonical(n: Node, v: Variant)
  {
    && n.tag != ""
    && n.kind == KindOf(Some(n.tag), v)
    && n.rendered.None?
    && !n.highlighted
    && forall i :: 0 <= i < |n.children| ==> Canonical(n.children[i], v)
  }

  /** Serialising a factory-built node gives back the data it was built from. */
  lemma {:induction false} SerializeBuild(d: ElementData, v: Variant)
    requires WellFormed(d)
    ensures Serialize(Build(ToPartial(d), v)) == d
  {
    var n := Build(ToPartial(d), v);
    forall i | 0 <= i < |d.children|
      ensures Serialize(n.children[i]) == d.children[i]
    {
      SerializeBuild(d.children[i], v);
    }
  }

  /** The factory only produces canonical nodes. */
  lemma {:induction false} BuildCanonical(d: PartialData, v: Variant)
    ensures Canonical(Build(d, v), v)
    decreases d
  {
    var n := Build(d, v);
    forall i | 0 <= i < |n.children|
      ensures Canonical(n.children[i], v)
    {
      BuildCanonical(d.children[i], v);
    }
  }

  /** Rebuilding a canonical node from its serialised form gives the same node. */
  lemma {:induction false} BuildSerialize(n: Node, v: Variant)
    requires Canonical(n, v)
    ensures Build(ToPartial(Serialize(n)), v) == n
  {
    var r := Build(ToPartial(Serialize(n)), v);
    forall i | 0 <= i < |n.children|
      ensures r.children[i] == n.children[i]
    {
      BuildSerialize(n.children[i], v);
    }
  }

  /** Rehydrating a factory-built node from its snapshot is a fixed point. */
  lemma SnapshotStable(d: PartialData, v: Variant)
    ensures Build(ToPartial(Serialize(Build(d, v))), v) == Build(d, v)
  {
    BuildCanonical(d, v);
    BuildSerialize(Build(d, v), v);
  }

  // ---------------------------------------------------------------- addChild

  /** The start position `Array.prototype.splice` uses for `index` on an array of
      length `len`: negative indices count from the end, both ends clamp. */
  function SpliceStart(index: int, len: nat): (k: nat)
    ensures k <= len
    ensures 0 <= index <= len ==> k == index
    ensures index + len < 0 ==> k == 0
    ensures index < 0 <= index + len ==> k == index + len
    ensures index > len ==> k == len
  {
    if index < 0 then (if len + index < 0 then 0 else len + index)
    else if index > len then len
    else index
  }

  /** The position `addChild(c, index)` puts `c` at. */
  function Slot(n: Node, index: Option<int>): (k: nat)
    ensures k <= |n.children|
    ensures index.None? ==> k == |n.children|
  {
    if index.Some? then SpliceStart(index.value, |n.children|) else |n.children|
  }

  /** `addChild(c, index)`: inserts `c` at the index, shifting later children right,
      or appends it when no index is given. */
  function AddChild(n: Node, c: Node, index: Option<int>): (r: Node)
    ensures |r.children| == |n.children| + 1
    ensures r.children[Slot(n, index)] == c
    ensures index.None? ==> r.children == n.children + [c]
    ensures index.Some? && 0 <= index.value <= |n.children| ==>
              r.children == n.children[..index.value] + [c] + n.children[index.value..]
    ensures r.(children := n.children) == n
  {
    n.(children := Insert(n.children, Slot(n, index), c))
  }

  /** `children.splice(k, 1)`. */
  function RemoveChild(n: Node, k: nat): (r: Node)
    requires k < |n.children|
    ensures |r.children| == |n.children| - 1
    ensures r.(children := n.children) == n
  {
    n.(children := Remove(n.children, k))
  }

  /** Adding a child and splicing it out again gives back the node. */
  lemma AddChildThenRemove(n: Node, c: Node, index: Option<int>)
    ensures RemoveChild(AddChild(n, c, index), Slot(n, index)) == n
  {
    RemoveInsert(n.children, Slot(n, index), c);
  }

  /** Splicing a child out and adding it back at the same index gives back the node. */
  lemma RemoveThenAddChild(n: Node, k: nat)
    requires k < |n.children|
    ensures AddChild(RemoveChild(n, k), n.children[k], Some(k)) == n
  {
    InsertRemove(n.children, k);
  }

  /** A negative index counts from the end: `addChild(c, -j)` puts `c` in front of the
      last `j` children, and an index reaching past either end clamps to that end. */
  lemma AddChildFromEnd(n: Node, c: Node, j: int)
    ensures 1 <= j <= |n.children| ==>
              AddChild(n, c, Some(-j)).children
                == n.children[..|n.children| - j] + [c] + n.children[|n.children| - j..]
    ensures j > |n.children| ==> AddChild(n, c, Some(-j)).children == [c] + n.children
    ensures j > |n.children| ==> AddChild(n, c, Some(j)).children == n.children + [c]
  {
    InsertSplit(n.children, Slot(n, Some(-j)), c);
    InsertSplit(n.children, Slot(n, Some(j)), c);
  }

  /** The document event the plain `addChild` dispatches. */
  datatype TreeEvent = TreeUpdated | PreviewTreeUpdated

  /** `addChild` tests the `data-preview` attribute for the exact string "true". */
  function AddChildEvent(c: Node): (e: TreeEvent)
  {
    if Lookup(c.attributes, PreviewKey) == Some("true") then PreviewTreeUpdated else TreeUpdated
  }

  // ---------------------------------------------------------------- drop

  /** A drag payload carries a tag when it parsed and its `tag` is truthy. */
  predicate HasTag(payload: Option<PartialData>)
  {
    payload.Some? && payload.value.tag.Some? && payload.value.tag.value != ""
  }

  /** The drop callback of a zone bound to `n` and `index`. The payload is None when
      the drag data is not JSON (the parse throws and the handler stops). */
  function OnDrop(n: Node, payload: Option<PartialData>, index: Option<int>, v: Variant): (r: Node)
    ensures !HasTag(payload) ==> r == n
    ensures HasTag(payload) ==>
              && |r.children| == |n.children| + 1
              && r.children[Slot(n, index)] == Build(payload.value, v)
              && r.children[Slot(n, index)].tag == payload.value.tag.value
              && RemoveChild(r, Slot(n, index)) == n
  {
    if !HasTag(payload) then n
    else
      var r := AddChild(n, Build(payload.value, v), index);
      AddChildThenRemove(n, Build(payload.value, v), index);
      r
  }

  // ---------------------------------------------------------------- preview (plain variant)

  const FlexPreviewStyle: string := "opacity: 0.5; padding: 8px; border: 1px dashed #000"
  const CardPreviewStyle: string := "opacity: 0.5; padding: 8px; border: 1px dashed #000;"
  const PreviewText: string := "Preview"

  /** A child whose `data-preview` attribute is truthy. */
  predicate IsPreview(c: Node)
  {
    Truthy(Lookup(c.attributes, PreviewKey))
  }

  /** The placeholder child a plain flex or card preview inserts, built by the plain
      factory. */
  function PreviewNode(style: string): (p: Node)
    ensures IsPreview(p)
    ensures AddChildEvent(p) == PreviewTreeUpdated
    ensures p.kind == Generic && p.tag == DefaultTag && p.children == []
    ensures p.text == Some(PreviewText)
  {
    Build(PartialData(Some(DefaultTag), None, None, []), Plain)
      .(attributes := [("style", style), (PreviewKey, "true")], text := Some(PreviewText))
  }

  /** The event `addChild` dispatches set against what drag-leave filters out: a child
      announced as "preview-tree-updated" is always a preview, and so is the one the
      flex and card previews insert; but a child whose `data-preview` is any other
      non-empty string is filtered as a preview while its insertion is announced as an
      ordinary "tree-updated". */
  lemma AddChildEventPreview(c: Node, style: string)
    ensures AddChildEvent(c) == PreviewTreeUpdated ==> IsPreview(c)
    ensures AddChildEvent(PreviewNode(style)) == PreviewTreeUpdated
    ensures IsPreview(c) && Lookup(c.attributes, PreviewKey) != Some("true") ==> AddChildEvent(c) == TreeUpdated
  {
  }

  /** Where the preview lands: flex honours the zone's index, card always appends. */
  function PreviewSlot(n: Node, index: Option<int>): nat
  {
    if n.kind == Card then |n.children| else Slot(n, index)
  }

  /** `getOnPreview(index)` of the plain flex and card elements. The signal-backed
      elements insert nothing into the tree (see PreviewPlacement). */
  function OnPreview(n: Node, index: Option<int>): (r: Node)
    requires n.kind == Flex || n.kind == Card
    ensures |r.children| == |n.children| + 1
    ensures PreviewSlot(n, index) <= |n.children|
    ensures IsPreview(r.children[PreviewSlot(n, index)])
    ensures r.children[PreviewSlot(n, index)]
              == PreviewNode(if n.kind == Flex then FlexPreviewStyle else CardPreviewStyle)
    ensures AddChildEvent(r.children[PreviewSlot(n, index)]) == PreviewTreeUpdated
    ensures RemoveChild(r, PreviewSlot(n, index)) == n
  {
    var style := if n.kind == Flex then FlexPreviewStyle else CardPreviewStyle;
    var idx := if n.kind == Flex then index else None;
    AddChildThenRemove(n, PreviewNode(style), idx);
    AddChild(n, PreviewNode(style), idx)
  }

  /** The children that are not previews, in their original order. */
  function WithoutPreviews(cs: seq<Node>): (r: seq<Node>)
    ensures forall i :: 0 <= i < |r| ==> !IsPreview(r[i])
    ensures forall c :: c in r <==> c in cs && !IsPreview(c)
    ensures (forall i :: 0 <= i < |cs| ==> !IsPreview(cs[i])) ==> r == cs
    ensures |r| <= |cs|
  {
    if |cs| == 0 then []
    else
      var rest := WithoutPreviews(cs[1..]);
      assert forall c :: c in cs <==> c == cs[0] || c in cs[1..];
      if IsPreview(cs[0]) then rest else [cs[0]] + rest
  }

  /** Filtering distributes over concatenation, so the kept children keep their order. */
  lemma {:induction false} WithoutPreviewsAppend(a: seq<Node>, b: seq<Node>)
    ensures WithoutPreviews(a + b) == WithoutPreviews(a) + WithoutPreviews(b)
  {
    if |a| == 0 {
      assert a + b == b;
    } else {
      assert (a + b)[1..] == a[1..] + b;
      WithoutPreviewsAppend(a[1..], b);
    }
  }

  lemma WithoutPreviewsDropHead(p: Node, b: seq<Node>)
    requires IsPreview(p)
    ensures WithoutPreviews([p] + b) == WithoutPreviews(b)
  {
    var s := [p] + b;
    assert s[0] == p;
    assert s[1..] == b;
  }

  lemma WithoutPreviewsSplice(a: seq<Node>, p: Node, b: seq<Node>)
    requires IsPreview(p)
    ensures WithoutPreviews(a + [p] + b) == WithoutPreviews(a + b)
  {
    assert a + [p] + b == a + ([p] + b);
    WithoutPreviewsAppend(a, [p] + b);
    WithoutPreviewsDropHead(p, b);
    WithoutPreviewsAppend(a, b);
  }

  /** Inserting a preview anywhere is invisible after filtering. */
  lemma WithoutPreviewsInsert(cs: seq<Node>, k: nat, p: Node)
    requires k <= |cs|
    requires IsPreview(p)
    ensures WithoutPreviews(Insert(cs, k, p)) == WithoutPreviews(cs)
  {
    InsertSplit(cs, k, p);
    WithoutPreviewsSplice(cs[..k], p, cs[k..]);
  }

  /** `getOnDragLeave` of the plain flex and card elements: drops every preview child. */
  function RemovePreviews(n: Node): (r: Node)
    ensures forall i :: 0 <= i < |r.children| ==> !IsPreview(r.children[i])
    ensures forall c :: c in r.children <==> c in n.children && !IsPreview(c)
    ensures r.(children := n.children) == n
  {
    n.(children := WithoutPreviews(n.children))
  }

  /** A preview followed by drag-leave leaves the filtered children as they were. */
  lemma PreviewThenLeave(n: Node, index: Option<int>)
    requires n.kind == Flex || n.kind == Card
    ensures RemovePreviews(OnPreview(n, index)) == RemovePreviews(n)
  {
    var style := if n.kind == Flex then FlexPreviewStyle else CardPreviewStyle;
    var idx := if n.kind == Flex then index else None;
    WithoutPreviewsInsert(n.children, Slot(n, idx), PreviewNode(style));
  }

  /** The node after one plain preview per index of `idxs`, in that order. */
  function Previews(n: Node, idxs: seq<Option<int>>): (r: Node)
    requires n.kind == Flex || n.kind == Card
    ensures r.kind == n.kind
    ensures |r.children| == |n.children| + |idxs|
    decreases |idxs|
  {
    if |idxs| == 0 then n else Previews(OnPreview(n, idxs[0]), idxs[1..])
  }

  /** A run of previews grows one event at a time: the last index of the run is a
      preview on the node the earlier ones left. */
  lemma {:induction false} PreviewsSnoc(n: Node, idxs: seq<Option<int>>, i: Option<int>)
    requires n.kind == Flex || n.kind == Card
    ensures Previews(n, idxs + [i]) == OnPreview(Previews(n, idxs), i)
    decreases |idxs|
  {
    if |idxs| == 0 {
      assert idxs + [i] == [i] && [i][1..] == [];
    } else {
      assert (idxs + [i])[0] == idxs[0] && (idxs + [i])[1..] == idxs[1..] + [i];
      PreviewsSnoc(OnPreview(n, idxs[0]), idxs[1..], i);
    }
  }

  /** Any number of previews on a node without preview children, then one drag-leave,
      restores the node exactly. */
  lemma {:induction false} ManyPreviewsThenLeave(n: Node, idxs: seq<Option<int>>)
    requires n.kind == Flex || n.kind == Card
    requires forall i :: 0 <= i < |n.children| ==> !IsPreview(n.children[i])
    ensures RemovePreviews(Previews(n, idxs)) == n
    decreases |idxs|
  {
    if |idxs| == 0 {
    } else {
      var m := OnPreview(n, idxs[0]);
      PreviewsLeave(m, idxs[1..]);
      PreviewThenLeave(n, idxs[0]);
    }
  }

  /** Helper: filtering after further previews equals filtering now. */
  lemma {:induction false} PreviewsLeave(n: Node, idxs: seq<Option<int>>)
    requires n.kind == Flex || n.kind == Card
    ensures RemovePreviews(Previews(n, idxs)) == RemovePreviews(n)
    decreases |idxs|
  {
    if |idxs| > 0 {
      PreviewsLeave(OnPreview(n, idxs[0]), idxs[1..]);
      PreviewThenLeave(n, idxs[0]);
    }
  }

  // ---------------------------------------------------------------- signal-backed element

  /** `hasPreviewElements()`: some child is a preview, or has preview descendants. */
  predicate HasPreviewElements(n: Node)
  {
    exists i :: 0 <= i < |n.children| && (IsPreview(n.children[i]) || HasPreviewElements(n.children[i]))
  }

  /** The `flex-direction` attribute, "row" when it is missing or empty. */
  function Direction(n: Node): (d: string)
    ensures d != ""
    ensures Truthy(Lookup(n.attributes, DirectionKey)) ==> d == Lookup(n.attributes, DirectionKey).value
    ensures !Truthy(Lookup(n.attributes, DirectionKey)) ==> d == Row
  {
    var a := Lookup(n.attributes, DirectionKey);
    if Truthy(a) then a.value else Row
  }

  const EmDash: string := " \U{2014} "
  const EmptyMark: string := "empty"

  /** `placeholderText`: flex names its direction, every other element only its tag. */
  function PlaceholderText(n: Node): string
  {
    if n.kind == Flex then FlexTag + EmDash + Direction(n) + EmDash + EmptyMark
    else n.tag + EmDash + EmptyMark
  }

  /** `showPlaceholder()` of the signal-backed element: the text it puts into the
      rendered element, or None when it returns early because the node has children
      or is not rendered. The plain element classes have no placeholder. */
  function ShowPlaceholder(n: Node): Option<string>
  {
    if |n.children| > 0 || n.rendered.None? then None else Some(PlaceholderText(n))
  }

  /** What `render()` leaves as placeholder: the signal-backed flex and card call
      `showPlaceholder` after the base render has set the rendered element; other
      kinds, and every plain element, never do. */
  function RenderPlaceholder(n: Node, rect: Rect, v: Variant): (r: Option<string>)
    ensures r.Some? <==> v == Signals && (n.kind == Flex || n.kind == Card) && |n.children| == 0
    ensures r.Some? ==> r.value == PlaceholderText(n)
  {
    if v == Signals && (n.kind == Flex || n.kind == Card) then ShowPlaceholder(n.(rendered := Some(rect)))
    else None
  }

  /** A drop into a rendered element removes its placeholder for good: after a drop
      the placeholder shows exactly when the payload had no tag and the element was
      empty already. */
  lemma PlaceholderAfterDrop(n: Node, payload: Option<PartialData>, index: Option<int>, v: Variant)
    requires n.rendered.Some?
    ensures ShowPlaceholder(OnDrop(n, payload, index, v)).Some? <==> !HasTag(payload) && |n.children| == 0
  {
  }

  /** Where the signal-backed `getOnPreview(index)` puts its preview in the rendered page. */
  datatype Placement = BeforeChild(position: nat) | Appended | NotShown

  function PreviewPlacement(n: Node, index: Option<int>): Placement
  {
    if index.Some? then
      if 0 <= index.value < |n.children| && n.children[index.value].rendered.Some?
      then BeforeChild(index.value) else NotShown
    else if n.rendered.Some? then Appended else NotShown
  }

  /** Choosing a non-empty direction in the dropdown of a flex element makes its
      placeholder name that direction; any other element's placeholder does not
      depend on its attributes. */
  lemma PlaceholderAfterSetDirection(n: Node, value: string)
    ensures n.kind == Flex && value != "" ==>
              PlaceholderText(SetDirection(n, value).node) == FlexTag + EmDash + value + EmDash + EmptyMark
    ensures n.kind != Flex ==> PlaceholderText(SetDirection(n, value).node) == PlaceholderText(n)
  {
  }

  /** An attribute edit together with the document's store-history flag. */
  datatype Edit = Edit(node: Node, storeHistory: bool)

  /** The flex direction dropdown: spreads the attributes with the new direction and
      asks for a history entry. */
  function SetDirection(n: Node, value: string): (e: Edit)
    ensures e.storeHistory
    ensures Lookup(e.node.attributes, DirectionKey) == Some(value)
    ensures forall k :: k != DirectionKey ==> Lookup(e.node.attributes, k) == Lookup(n.attributes, k)
    ensures value != "" ==> Direction(e.node) == value
    ensures e.node.(attributes := n.attributes) == n
  {
    Edit(n.(attributes := Assign(n.attributes, DirectionKey, value)), true)
  }
}
