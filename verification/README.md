# dd-wysiwyg element tree, in Dafny

This project models the core of a drag-and-drop page editor.

A page is a tree of editor elements. Each element has:
- a tag;
- an ordered attribute map;
- optional text;
- an ordered list of children;
- once rendered, the bounding rectangle of its element in the page.

The model covers the following parts.

- **The element factory** (`elementFactory`, the `EdElement` constructors) and `serialize`.
  - There are two element classes: the plain one in `src/ed-element.ts` and the signal-backed one in `src/editor-elements/`.
  - One immutable `Node` datatype covers both. A `Variant` selects the class's behaviour.
- **`addChild`**, with JavaScript `splice` clamping.
- **The drop callbacks.**
  - A payload without a tag is ignored; otherwise one factory-built child is inserted.
  - The plain flex and card previews insert a `data-preview` placeholder child into the tree.
  - Drag-leave filters those placeholders out.
  - The signal-backed preview and drag-leave leave the tree alone. They only place or remove a DOM node in the page, so the tree-level drag-enter and drag-leave take the class variant and do nothing for the signal-backed one.
  - The placeholder text of empty containers exists only in the signal-backed classes.
- **Drop zones.**
  - A flex container offers a leading zone, a trailing zone and one zone after each rendered child but the last. Their sides follow `flex-direction`.
  - A card offers one bottom append zone.
  - The drop layer collects zones from the whole tree in pre-order.
  - A zone's screen position comes from its anchor rectangle.
  - The two drop layers call their callbacks in different orders, with different guards.
- **The edit layer.**
  - It keeps one overlay per rendered element, skipping a whole subtree below an unrendered element.
  - Its drag-to-move gesture splices an element out on drag start and puts it back when the drag is cancelled.
- **The document-properties panel.** It covers deleting the selection, selecting and highlighting, editing text and attributes, and the rule for which items start expanded.
- **`MarkupGenerator.toMarkup`**, the HTML-like export.

Parent links and the element references that side panels hold are modelled as paths (`seq<nat>` of child indices) from the root. "The child's parent is this node" becomes "the child sits at `p + [k]` below the node at `p`". An element that has no parent is the root, at path `[]`. Being rendered is modelled as `rendered: Option<Rect>`, with the rectangle's fields as `real`.

The model follows the code wherever the code differs from the editor's stated design.
- The plain `addChild` dispatches a "tree-updated" or "preview-tree-updated" document event and sets no history flag. The signal-backed `addChild` does neither.
- `serialize` keeps preview children like any other child.
- The plain classes' preview placeholder is built by the factory and then given its attributes and text. It is not built from the dragged data. The signal-backed preview, which is built from the dragged data, lives only in the rendered page.

Files:

| file | module | contents |
|---|---|---|
| `wrappers.dfy` | `Wrappers` | `Option` |
| `seqs.dfy` | `Seqs` | insert, remove and flatten on sequences |
| `attributes.dfy` | `Attributes` | attribute maps as ordered key/value lists: lookup, JavaScript truthiness, object spread |
| `element.dfy` | `Element` | data model, factory, serialisation, `addChild`, drop and preview callbacks, placeholder text, flex direction |
| `tree.dfy` | `Tree` | paths, subtree update, insertion and removal below a path, `hasPreviewElements` |
| `dropzones.dfy` | `DropZones` | per-node zones, pre-order collection, anchor geometry |
| `droplayer.dfy` | `DropLayer` | what the drop layers' events do to the tree |
| `editlayer.dfy` | `EditLayer` | overlays, drag to move |
| `properties.dfy` | `DocumentProperties` | delete, select, edit, the single-highlight invariant |
| `markup.dfy` | `Markup` | markup export |

## Model

| member | source | states |
|---|---|---|
| Attributes.LookupFirst | src/ed-element.ts:49 | When a key occurs several times, the value read is that of the first entry with the key |
| Attributes.Lookup | src/ed-element.ts:49 | A key's value is found exactly when some entry has that key, and the value found belongs to an entry with that key |
| Attributes.Assign | src/editor-elements/flex.ts:68-71 | After `{...attributes, key: value}` the key maps to the value and every other key keeps its value. A new key is added at the end; an existing key keeps its place, and so does every other key |
| Attributes.AssignUnique | src/editor-elements/flex.ts:68-71 | Spreading a key into an attribute map whose keys are unique keeps them unique |
| Element.Build | src/ed-element.ts:10-39 | The factory never fails. Its kind is the one the tag dispatches to. It keeps a non-empty tag, uses "div" for a missing or empty tag and `{}` for missing attributes, and keeps the text. Child i is the factory applied to input child i, in order. Nothing is rendered or highlighted |
| Element.SerializeBuild | src/ed-element.ts:104-111 | Serialising what the factory built from well-formed data gives back exactly that data, at every depth |
| Element.BuildSerialize | src/editor-elements/ed-element.ts:169-176 | A node in the shape the factory leaves it is rebuilt exactly from its serialised form |
| Element.BuildCanonical | src/editor-elements/factory.ts:7-20 | Every node the factory builds, at any depth, has a non-empty tag whose dispatch gives back its own kind, so forced subclass tags and dispatch agree |
| Element.SnapshotStable | src/editor-elements/ed-element.ts:58-69 | Serialising a factory-built node and building again gives the same node |
| Element.SpliceStart | src/ed-element.ts:43-44 | The `splice` insertion position: in range it is the index itself, a negative index counts from the end, an index below the start clamps to 0, and one past the end clamps to the length |
| Element.AddChildFromEnd | src/ed-element.ts:41-47 | `addChild(c, -j)` puts `c` in front of the last j children. An index reaching past the start inserts first, and one past the end appends |
| Element.AddChild | src/ed-element.ts:41-47 | One more child. The new child is at the clamped index (at the end when no index is given), the children equal `old[..i] + [c] + old[i..]` for an in-range index, and nothing but the children changes |
| Element.AddChildThenRemove | src/editor-elements/ed-element.ts:71-78 | Splicing out the child just added restores the node, so `addChild` shifts the later children and loses none |
| Element.RemoveThenAddChild | src/components/edit-layer.ts:81-87 | Splicing child k out and adding it back at k restores the node |
| Element.AddChildEventPreview | src/ed-element.ts:49-53 | A child announced with "preview-tree-updated" is always one that drag-leave filters out, and the preview placeholder is announced that way. A child whose `data-preview` is any other non-empty string is filtered out as a preview, yet its insertion is announced as an ordinary "tree-updated" |
| Element.OnDrop | src/ed-element.ts:56-68 | A payload that did not parse, or has no truthy tag, leaves the node unchanged. Otherwise exactly one factory-built child carrying the payload's tag is added at the clamped index, and removing it gives back the node |
| Element.PreviewNode | src/ed-element.ts:121-126 | The placeholder is a generic "div" built by the plain factory, with no children and the text "Preview". Its `data-preview` is truthy, so adding it raises the preview event |
| Element.OnPreview | src/ed-element.ts:119-129 | The plain flex and card preview: a flex container gets one preview child at the zone's index and a card gets one at the end. That child is exactly the placeholder `PreviewNode` with the container's preview style, so `addChild` announces it as "preview-tree-updated". Removing that child gives back the node |
| Element.WithoutPreviews | src/ed-element.ts:131-140 | No preview is left, every non-preview child is kept, a list without previews is returned as is, and the list never grows |
| Element.WithoutPreviewsAppend | src/ed-element.ts:135-137 | Filtering distributes over concatenation, so the kept children stay in their original order |
| Element.WithoutPreviewsInsert | src/ed-element.ts:119-140 | Inserting a preview anywhere does not change what drag-leave keeps |
| Element.RemovePreviews | src/ed-element.ts:198-207 | After drag-leave no child is a preview, a child remains exactly when it was there and is not a preview, and nothing but the children changes |
| Element.PreviewThenLeave | src/ed-element.ts:119-140 | Preview followed by drag-leave gives what drag-leave alone gives |
| Element.PreviewsSnoc | src/ed-element.ts:186-197 | A run of previews is the previews one after the other: the last one lands on the node the earlier ones left |
| Element.ManyPreviewsThenLeave | src/ed-element.ts:186-207 | On a container without previews, any run of previews followed by one drag-leave gives back the container exactly |
| Element.Direction | src/editor-elements/flex.ts:15 | The direction is the `flex-direction` attribute when truthy and "row" otherwise, so it is never empty |
| Element.PlaceholderAfterSetDirection | src/editor-elements/flex.ts:51-73 | After the direction dropdown sets a non-empty value on a flex container, its placeholder reads "gds-flex — value — empty". Other elements' placeholders do not depend on their attributes |
| Element.PlaceholderAfterDrop | src/editor-elements/ed-element.ts:183-198 | After a drop into a rendered element the placeholder shows exactly when the payload had no tag and the element had no children |
| Element.RenderPlaceholder | src/editor-elements/card.ts:27-31 | After rendering, exactly the signal-backed flex and card elements without children show their placeholder text. Plain elements never show one |
| DropZones.FlexZonePlacement | src/editor-elements/ed-element.ts:144-152 | For each zone of a rendered flex container, the signal-backed preview is placed as follows. The leading zone's preview goes before the first child. The trailing zone's preview is appended. A between zone's preview goes before the child after the gap. A preview that would go before a child shows only when that child is rendered |
| Element.SetDirection | src/editor-elements/flex.ts:67-73 | The direction dropdown sets `flex-direction`, keeps every other attribute and everything else about the node, and asks for a history entry |
| Tree.ParentChild | src/ed-element.ts:32-36 | The element at a non-root path is its parent's child at the path's last index |
| Tree.InsertChild | src/editor-elements/ed-element.ts:71-78 | After `addChild` on the element at `p`, the node at `p` is that element with the child added, and the new child sits below it at the clamped index. No other part of the tree changes |
| Tree.RemoveChildAt | src/components/document-properties.ts:67-68 | Splicing child k of the element at `p` leaves its other children in order, and no other part of the tree changes |
| Tree.RemoveThenInsertRestores | src/components/edit-layer.ts:64-88 | Splicing a child out of an element anywhere in the tree and adding it back at its index restores the whole tree |
| Tree.HasPreviewElementsIff | src/editor-elements/ed-element.ts:163-167 | `hasPreviewElements` holds exactly when some proper descendant has a truthy `data-preview` |
| DropZones.Between | src/editor-elements/flex.ts:35-46 | Every between zone belongs to the container, is on the trailing side and inserts at idx+1, where child idx is rendered, is not the last child, and is the zone's anchor |
| DropZones.BetweenOrdered | src/editor-elements/flex.ts:35-46 | The between zones come in strictly increasing index order |
| DropZones.BetweenComplete | src/editor-elements/flex.ts:35-46 | Every rendered child but the last gets a between zone |
| DropZones.FlexZones | src/ed-element.ts:142-178 | An unrendered flex container offers nothing. Otherwise the first zone inserts at 0 on the leading side (left for a row, top otherwise), the second appends on the trailing side, and the between zones follow |
| DropZones.FlexBetweenZones | src/editor-elements/flex.ts:35-46 | A rendered container offers, after its two edge zones, a zone inserting right after each rendered child but the last |
| DropZones.FlexZoneCount | src/ed-element.ts:164-175 | With everything rendered and K children there are 2 zones when K = 0 and K + 1 zones otherwise |
| DropLayer.CardDropAppends | src/editor-elements/card.ts:11-24 | A drop through a card's zone appends the built element after the card's existing children |
| DropZones.NodeZonesShape | src/editor-elements/ed-element.ts:94-96 | Only flex and card elements offer zones, only once rendered, and every zone is bound to the element offering it |
| DropZones.CollectMember | src/components/drop-layer.ts:39-47 | A zone is collected exactly when some element of the tree offers it at that element's own path. Children are visited whether or not their parent offered zones |
| DropZones.CollectedZonesBound | src/components/drop-layer/drop-layer.ts:34-42 | Every collected zone is bound to a rendered flex or card element of the tree |
| DropZones.BuildFromElement | src/components/drop-layer.ts:39-47 | The walk appends the element's own zones and then each child's, in pre-order, after the zones already held |
| DropZones.Rebuild | src/components/drop-layer.ts:49-51 | After clearing and rebuilding, the layer holds exactly the current tree's zones, each bound to an element still in the tree |
| DropZones.PositionFromAnchor | src/components/drop-layer.ts:87-113 | The zone sits on the named edge of its anchor rectangle, at the middle of that edge |
| DropZones.PositionOnBoundary | src/components/drop-layer/drop-layer.ts:69-95 | For a rectangle of non-negative size the zone lies on the rectangle's boundary |
| DropLayer.DragEnter | src/components/drop-layer.ts:58-62 | On a plain container, drag-enter turns the container into its preview. That is one more child, a preview at the zone's slot. No other part of the tree changes. On a signal-backed container the tree does not change at all |
| DropLayer.DragLeave | src/components/drop-layer.ts:66-69 | On a plain container, drag-leave leaves the container without previews, keeps every other child, and changes no other part of the tree. On a signal-backed container the tree does not change |
| DropLayer.Drop | src/editor-elements/ed-element.ts:80-92 | A drop without a tag leaves the tree as it was. Otherwise the container becomes what its drop callback makes of it: one more child, the factory-built payload at the zone's slot. No other part of the tree changes |
| DropLayer.LayerDrop | src/components/drop-layer.ts:70-75 | A drop on the layer first runs the zone's drag-leave and then its drop, so a tagless drop still clears the previews |
| DropLayer.GuardedDropAgrees | src/components/drop-layer/drop-layer.ts:55-59 | On the guarded layer a drop that bubbled up from inside the zone changes nothing. A drop on the zone itself has the same effect as on the other layer while the container holds no preview |
| DropLayer.Enters | src/components/drop-layer.ts:58-62 | On a plain container, a run of drag-enters adds one child per event. On a signal-backed one it changes nothing. Either way the zone stays bound |
| DropLayer.EntersSnoc | src/components/drop-layer.ts:58-62 | A run of drag-enters is the drag-enters one after the other: the empty run changes nothing, and one more event at the end is a drag-enter on the tree the run left |
| DropLayer.EnterThenLeave | src/components/drop-layer.ts:58-69 | Drag-enter followed by drag-leave gives what drag-leave alone gives |
| DropLayer.EntersThenLeave | src/ed-element.ts:131-140 | On a container without previews, any run of drag-enters followed by one drag-leave gives back the tree exactly |
| DropLayer.DropAfterPreviews | src/components/drop-layer.ts:70-75 | However many previews came before, a drop on the layer has the same effect as a direct drop on the clean container |
| EditLayer.Add | src/components/edit-layer.ts:35-37 | One more overlay, after the existing ones, which keep their order |
| EditLayer.OverlaysMember | src/components/edit-layer.ts:39-52 | An overlay is built exactly for each element whose every ancestor, and itself, is rendered, and it covers that element's rectangle |
| EditLayer.UnrenderedSkipsSubtree | src/components/edit-layer.ts:40-41 | An unrendered element gets no overlay, and nothing below it does either |
| EditLayer.BuildFromElement | src/components/edit-layer.ts:39-52 | The walk appends the overlays of the subtree in pre-order after those already held |
| EditLayer.Rebuild | src/components/edit-layer.ts:31-52 | After clearing and rebuilding, every overlay covers a rendered element of the current tree at that element's rectangle |
| EditLayer.DragPayloadRebuilds | src/components/edit-layer.ts:76-79 | The drag data rebuilds the element the drag takes out: the factory's element serialises to the same data, and is that very element when it is as the factory left it |
| EditLayer.DragStart | src/components/edit-layer.ts:64-75 | An element with a parent is spliced out with its siblings kept in order. No other part of the tree changes. The parent keeps every field but the spliced-out child. The selection is cleared, and the parent and index are recorded. The root, or an element no longer in the tree, changes nothing |
| EditLayer.DragEnd | src/components/edit-layer.ts:81-89 | A cancelled drag with a record puts the element back into the recorded parent at the recorded index, changing no other part of the tree, and clears the record. A record whose parent is gone leaves the tree alone. Any other drag end changes nothing, not even the record |
| EditLayer.DragCancelRestores | src/components/edit-layer.ts:64-88 | A drag started and then cancelled leaves the document exactly as before; only the selection is cleared |
| EditLayer.StaleRecordReinserted | src/components/edit-layer.ts:81-89 | A record left by a completed drag makes a later cancelled drag of the root add the earlier element back into its old parent |
| EditLayer.DragEndFixed | src/components/edit-layer.ts:81-89 | Every drag end clears the record, and the document changes only on a cancelled drag that has one |
| EditLayer.FixedNoStaleReinsert | src/components/edit-layer.ts:64-89 | With the record always cleared, a completed drag followed by a cancelled drag of the root leaves the document alone, and a cancelled drag still restores it |
| DocumentProperties.Expanded | src/components/document-properties.ts:82 | An item starts expanded exactly when its element has at most three children |
| DocumentProperties.ExpandedAfterEdit | src/components/document-properties.ts:82 | Adding a child to an element with three makes its item start collapsed. Splicing one out of an element with four makes it start expanded. An addition never expands an item |
| DocumentProperties.Delete | src/components/document-properties.ts:62-72 | Delete removes exactly the selected element from its parent, keeps its siblings in order, leaves every other field of the parent as it was, changes no other part of the tree and clears the selection. With no selection, or for the root, nothing changes |
| DocumentProperties.Select | src/components/document-properties.ts:83-90 | A click bubbling from a nested item changes nothing. Otherwise the clicked element becomes the selection and is highlighted, the previous selection loses its highlight, every other node keeps its flag, and nothing but highlight flags changes anywhere in the tree |
| DocumentProperties.UpdateText | src/components/document-properties.ts:40-45 | The selected element's text becomes the input value. No other part of the tree changes, and neither does the selection |
| DocumentProperties.UpdateAttributes | src/components/document-properties.ts:52-60 | The selected element's whole attribute map is replaced by the parsed one, and no other part of the tree changes. A parse error or an empty selection changes nothing |
| DocumentProperties.DeleteKeepsOneHighlight | src/components/document-properties.ts:62-72 | When the selection is the only highlighted element, deleting it leaves no highlight and no selection |
| DocumentProperties.SetHighlightFrame | src/components/document-properties.ts:86-89 | Setting one element's `highlighted` flag keeps every path, flips no other element's flag and changes no other field anywhere in the tree |
| DocumentProperties.SelectKeepsOneHighlight | src/components/document-properties.ts:84-90 | Selecting keeps exactly one highlighted element, the selected one, or none when nothing is selected |
| DocumentProperties.EditsKeepOneHighlight | src/components/document-properties.ts:40-60 | Text and attribute edits keep the single-highlight invariant |
| Markup.AttrText | src/markup-generator.ts:8 | An attribute is written as a space, the key verbatim, `="`, the value verbatim and a closing quote, with no escaping |
| Markup.TextAfterOpenTag | src/markup-generator.ts:11-13 | A non-empty text is written verbatim right after the opening tag, followed by what the element without text would write. An empty text is written like a missing one |
| Markup.ToMarkup | src/markup-generator.ts:4-19 | Its contract is carried by `MarkupFrame`, `TextAfterOpenTag`, `AppendChildMarkup` and `ExportBuilt`: the opening tag with the attributes in order, the text, the children's markup in order, then the closing tag |
| Markup.MarkupFrame | src/markup-generator.ts:4-19 | The markup starts with `<tag` and ends with `</tag>` |
| Markup.AttrsMarkupAppend | src/markup-generator.ts:7-9 | Attribute markup of two lists is the markup of the first followed by that of the second |
| Markup.AttrAtItsPlace | src/markup-generator.ts:7-9 | Every attribute appears at its place in map order, between those before and after it |
| Markup.AssignNewAttrMarkup | src/editor-elements/flex.ts:67-73 | Setting a new attribute adds its text after the earlier attributes, which are written unchanged |
| Markup.LeafMarkup | src/markup-generator.ts:4-19 | With no attributes, no text and no children the markup is exactly `<tag></tag>` |
| Markup.AppendChildMarkup | src/markup-generator.ts:14-17 | Appending a child writes its markup just before the parent's closing tag |
| Markup.ExportBuilt | src/markup-generator.ts:4-19 | Exporting a document built from well-formed data writes that data |

## Left out

- DOM rendering is not modelled: `render()`, the overlay and zone markup, CSS, the preview element the signal-backed classes put into the page, and placeholder styling. The model records only whether an element is rendered and its rectangle.
- The history manager is not part of this model. No such code is in the files shown. The only part modelled is the `storeHistory` flag the flex direction edit sets.
- The flex attributes text box (src/editor-elements/flex.ts:77-89) is not modelled. It parses JSON and replaces the map, like the panel's attribute edit.
- The button and rich-text elements are not modelled beyond the factory dispatching to them. Their rendering and property panels use markdown rendering and animation frames.
- AI generation, the backend, the schema, import/export dialogs, the palette, the toolbar and app wiring are not modelled. They are network calls and user interface.
- JSON parsing is not modelled. A drop payload or a parsed attribute map is an `Option` parameter, and `None` stands for a parse error.
- UpdateAttributes: text that parses as JSON but not as an object (`null`, `5`, `[1]`, `"x"`) is not modelled. The source stores that value as the element's attributes unchecked (src/components/document-properties.ts:54-57). Afterwards the `data-preview` reads of drag-leave and `hasPreviewElements` throw on `null` or read nothing, and the markup export's `Object.entries` throws or lists array indices or string characters. The model's attribute map is always an entry list.
- Signals, reactivity and the `requestAnimationFrame` deferral of drag-enter are not modelled. Events are modelled as happening in the order they are handled.
- Event dispatch is not part of the tree operations. `AddChildEvent` computes separately which event `addChild` would send. The "preview-tree-updated" event of the plain drag-leave (src/ed-element.ts:137-138) and the "tree-updated" event at drag end (src/components/drop-layer.ts:29-31) are left out: they only tell listeners to redraw.
- Number-to-string formatting of zone positions (`${x}px`) is not modelled, and rectangle arithmetic is exact `real` arithmetic.
- JavaScript's ordering of integer-like object keys is not modelled. Attributes are kept in insertion order.
- Attribute lists are not required to hold each key once, as a JavaScript object does. `Lookup` reads the first entry for a key (`LookupFirst`), and `UniqueKeys` with `AssignUnique` shows that spreading keeps a list of unique keys unique. The parsed map given to the attribute edit is taken as it comes.
- Element identity is not modelled. Side panels hold paths where the source holds references. A reference whose element has left the tree becomes a path that no longer resolves, or one that resolves to another element.
- DragEnd: when the recorded parent is no longer in the tree, the model keeps the document unchanged (its contract says so). The source adds the element to that detached parent, which is outside the document.
- Select: when the previous selection is no longer in the tree, the model leaves the document alone. The source clears the highlight flag of that detached element.
- Enters: it models a run of drag-enters on zones of one container, with no drag-leave in between. Interleavings across several containers are not modelled.

## Findings

| source | as written | input that shows it | evidently intended | confidence | as-written member | corrected member |
|---|---|---|---|---|---|---|
| src/components/edit-layer.ts:81-89 | The drag record is cleared only when a drag ends with drop effect "none". A drag whose drop went through keeps its record | Move an element by dropping it on a zone, then drag the root's overlay and cancel. Dragging the root records nothing, so the old record is used and the moved element is added back into its old parent, next to the copy the drop created | Clear the record at the end of every drag | medium, not executed | EditLayer.StaleRecordReinserted | EditLayer.DragEndFixed |
