/** `MarkupGenerator.toMarkup`: element data written out as HTML-like text. Attribute
    values and text are copied verbatim, without any escaping. */
module Markup {
  import opened Wrappers
  import opened Seqs
  import opened Attributes
  import opened Element

  /** One attribute as ` key="value"`. */
  function AttrText(kv: (string, string)): (t: string)
    ensures |t| == |kv.0| + |kv.1| + 4
    ensures t[0] == ' ' && t[1..1 + |kv.0|] == kv.0
    ensures t[1 + |kv.0|..3 + |kv.0|] == "=\""
    ensures t[3 + |kv.0|..|t| - 1] == kv.1 && t[|t| - 1] == '"'
  {
    " " + kv.0 + "=\"" + kv.1 + "\""
  }

  /** The attributes, one after the other in map order. */
  function AttrsMarkup(a: Attrs): string
  {
    if |a| == 0 then "" else AttrText(a[0]) + AttrsMarkup(a[1..])
  }

  /** The opening tag, with the attributes. */
  function OpenTag(d: ElementData): string
  {
    "<" + d.tag + AttrsMarkup(d.attributes) + ">"
  }

  function CloseTag(tag: string): (t: string)
    ensures |t| == |tag| + 3
  {
    "</" + tag + ">"
  }

  /** The text, when it is present and not empty. */
  function TextMarkup(text: Option<string>): string
  {
    if text.Some? && text.value != "" then text.value else ""
  }

  /** The markup of `d`: opening tag, text, each child's markup in order, closing tag. */
  function ToMarkup(d: ElementData): (m: string)
    decreases d, 1
  {
    OpenTag(d) + TextMarkup(d.text) + Flatten(ChildMarkups(d)) + CloseTag(d.tag)
  }

  function ChildMarkups(d: ElementData): (ms: seq<string>)
    ensures |ms| == |d.children|
    decreases d, 0
  {
    seq(|d.children|, i requires 0 <= i < |d.children| => ToMarkup(d.children[i]))
  }

  /** Every markup opens with `<tag` and closes with `</tag>`. */
  lemma MarkupFrame(d: ElementData)
    ensures var m := ToMarkup(d);
            && |m| >= |d.tag| + 1 + |CloseTag(d.tag)|
            && m[..|d.tag| + 1] == "<" + d.tag
            && m[|m| - |CloseTag(d.tag)|..] == CloseTag(d.tag)
  {
    var m := ToMarkup(d);
    var rest := AttrsMarkup(d.attributes) + ">" + TextMarkup(d.text) + Flatten(ChildMarkups(d));
    assert m == "<" + d.tag + rest + CloseTag(d.tag);
  }

  /** The text sits right after the opening tag when it is non-empty; an empty text is
      written like a missing one. */
  lemma TextAfterOpenTag(d: ElementData, value: string)
    ensures ToMarkup(d.(text := Some(""))) == ToMarkup(d.(text := None))
    ensures var m := ToMarkup(d.(text := Some(value)));
            var k := |OpenTag(d)|;
            && |m| >= k + |value|
            && m[..k] == OpenTag(d)
            && m[k..k + |value|] == value
            && m[k + |value|..] == ToMarkup(d.(text := None))[k..]
  {
    var rest := Flatten(ChildMarkups(d)) + CloseTag(d.tag);
    assert ChildMarkups(d.(text := Some(value))) == ChildMarkups(d);
    assert ChildMarkups(d.(text := None)) == ChildMarkups(d);
    assert ChildMarkups(d.(text := Some(""))) == ChildMarkups(d);
    assert ToMarkup(d.(text := Some(value))) == OpenTag(d) + TextMarkup(Some(value)) + rest;
    assert ToMarkup(d.(text := None)) == OpenTag(d) + rest;
  }

  /** Attribute markup distributes over concatenation of attribute lists. */
  lemma {:induction false} AttrsMarkupAppend(a: Attrs, b: Attrs)
    ensures AttrsMarkup(a + b) == AttrsMarkup(a) + AttrsMarkup(b)
  {
    if |a| == 0 {
      assert a + b == b;
    } else {
      assert (a + b)[0] == a[0];
      assert (a + b)[1..] == a[1..] + b;
      AttrsMarkupAppend(a[1..], b);
    }
  }

  /** Each attribute appears as ` key="value"` exactly at its place in map order. */
  lemma AttrAtItsPlace(a: Attrs, i: nat)
    requires i < |a|
    ensures AttrsMarkup(a) == AttrsMarkup(a[..i]) + AttrText(a[i]) + AttrsMarkup(a[i + 1..])
  {
    var b := a[i..];
    assert a == a[..i] + b;
    AttrsMarkupAppend(a[..i], b);
    assert b[0] == a[i] && b[1..] == a[i + 1..];
  }

  /** Setting an attribute that was not there adds its text at the end of the opening
      tag's attribute list; the earlier attributes are written as before. */
  lemma AssignNewAttrMarkup(a: Attrs, key: string, value: string)
    requires Lookup(a, key).None?
    ensures AttrsMarkup(Assign(a, key, value)) == AttrsMarkup(a) + AttrText((key, value))
  {
    AttrsMarkupAppend(a, [(key, value)]);
    assert [(key, value)][1..] == [];
  }

  /** A node with no attributes, no text and no children is written `<tag></tag>`. */
  lemma LeafMarkup(d: ElementData)
    requires |d.attributes| == 0 && !Truthy(d.text) && |d.children| == 0
    ensures ToMarkup(d) == "<" + d.tag + "></" + d.tag + ">"
  {
    assert Flatten(ChildMarkups(d)) == [];
  }

  /** Appending a child writes its markup just before the parent's closing tag. */
  lemma AppendChildMarkup(d: ElementData, c: ElementData)
    ensures var m := ToMarkup(d);
            var k := |CloseTag(d.tag)|;
            |m| >= k && ToMarkup(d.(children := d.children + [c])) == m[..|m| - k] + ToMarkup(c) + CloseTag(d.tag)
  {
    var e := d.(children := d.children + [c]);
    assert ChildMarkups(e) == ChildMarkups(d) + [ToMarkup(c)];
    FlattenAppend(ChildMarkups(d), [ToMarkup(c)]);
    FlattenSingle(ToMarkup(c));
    var head := OpenTag(d) + TextMarkup(d.text) + Flatten(ChildMarkups(d));
    HeadOfConcat(head, CloseTag(d.tag));
  }

  lemma HeadOfConcat(a: string, b: string)
    ensures (a + b)[..|a + b| - |b|] == a
  {
    assert (a + b)[..|a|] == a;
  }

  /** The markup export of a live document. */
  function Export(root: Node): (m: string)
  {
    ToMarkup(Serialize(root))
  }

  /** Exporting a document built from well-formed data writes that data, whatever
      factory variant built it. */
  lemma ExportBuilt(d: ElementData, v: Variant)
    requires WellFormed(d)
    ensures Export(Build(ToPartial(d), v)) == ToMarkup(d)
  {
    SerializeBuild(d, v);
  }
}
