/** The document-properties panel: a tree view of the document in which clicking an
    item selects (and highlights) its element, and buttons that edit or delete the
    selected element. */
module DocumentProperties {
  import opened Wrappers
  import opened Seqs
  import opened Attributes
  import opened Element
  import opened Tree

  /** The panel: the document it shows and the selected element, if any. */
  datatype Panel = Panel(root: Node, selected: Option<Path>)

  /** The tree item of a node starts expanded when the node has at most three children. */
  function Expanded(n: Node): (e: bool)
    ensures e <==> |n.children| <= 3
  {
    |n.children| < 4
  }

  /** Adding a fourth child makes the item start collapsed, and splicing one out of a
      node with four children makes it start expanded again. */
  lemma ExpandedAfterEdit(n: Node, c: Node, index: Option<int>, k: nat)
    ensures Expanded(AddChild(n, c, index)) <==> |n.children| <= 2
    ensures k < |n.children| ==> (Expanded(RemoveChild(n, k)) <==> |n.children| <= 4)
    ensures Expanded(AddChild(n, c, index)) ==> Expanded(n)
  {
  }

  /** The "Delete" button. With no selection, or for the root (which has no parent),
      nothing happens; otherwise the selected element is spliced out of its parent's
      children and the selection is cleared. */
  function Delete(s: Panel): (r: Panel)
    ensures s.selected.None? ==> r == s
    ensures s.selected.Some? && !(|s.selected.value| > 0 && ValidPath(s.root, s.selected.value)) ==> r == s
    ensures s.selected.Some? && |s.selected.value| > 0 && ValidPath(s.root, s.selected.value) ==>
              var p := s.selected.value;
              && r.selected.None?
              && ValidPath(s.root, Parent(p)) && ValidPath(r.root, Parent(p))
              && ChangedOnlyAt(s.root, r.root, Parent(p))
              && Last(p) < |At(s.root, Parent(p)).children|
              && At(r.root, Parent(p)) == RemoveChild(At(s.root, Parent(p)), Last(p))
              && At(r.root, Parent(p)).children
                   == At(s.root, Parent(p)).children[..Last(p)] + At(s.root, Parent(p)).children[Last(p) + 1..]
  {
    if s.selected.Some? && |s.selected.value| > 0 && ValidPath(s.root, s.selected.value) then
      var p := s.selected.value;
      ParentChild(s.root, p);
      Panel(RemoveChildAt(s.root, Parent(p), Last(p)), None)
    else
      s
  }

  /** Sets the highlight flag of the node at `p` and leaves everything else alone. */
  function SetHighlight(root: Node, p: Path, on: bool): (r: Node)
    requires ValidPath(root, p)
    ensures ValidPath(r, p) && At(r, p) == At(root, p).(highlighted := on)
    ensures ChangedOnlyAt(root, r, p)
  {
    UpdateAtFrame(root, p, At(root, p).(highlighted := on));
    UpdateAt(root, p, At(root, p).(highlighted := on))
  }

  /** The tree with every highlight flag cleared: what is left of a node when its
      highlights are ignored. */
  function Unlit(n: Node): Node
  {
    n.(highlighted := false,
       children := seq(|n.children|, i requires 0 <= i < |n.children| => Unlit(n.children[i])))
  }

  /** Setting one highlight flag keeps every path and flips no other node's flag. */
  lemma {:induction false} SetHighlightPath(root: Node, p: Path, on: bool, q: Path)
    requires ValidPath(root, p)
    ensures ValidPath(SetHighlight(root, p, on), q) <==> ValidPath(root, q)
    ensures ValidPath(root, q) ==>
              At(SetHighlight(root, p, on), q).highlighted == (if q == p then on else At(root, q).highlighted)
    decreases |p|
  {
    var r := SetHighlight(root, p, on);
    if |p| == 0 {
      assert r.children == root.children;
    } else {
      var c := root.children[p[0]];
      assert At(root, p) == At(c, p[1..]);
      assert r.children == root.children[p[0] := SetHighlight(c, p[1..], on)];
      if |q| > 0 && q[0] == p[0] {
        SetHighlightPath(c, p[1..], on, q[1..]);
        assert q == p <==> q[1..] == p[1..] by {
          assert q == [q[0]] + q[1..] && p == [p[0]] + p[1..];
        }
      }
    }
  }

  /** Setting one highlight flag changes nothing else in the tree. */
  lemma {:induction false} SetHighlightUnlit(root: Node, p: Path, on: bool)
    requires ValidPath(root, p)
    ensures Unlit(SetHighlight(root, p, on)) == Unlit(root)
    decreases |p|
  {
    if |p| > 0 {
      var c := root.children[p[0]];
      var r := SetHighlight(root, p, on);
      assert At(root, p) == At(c, p[1..]);
      assert r.children == root.children[p[0] := SetHighlight(c, p[1..], on)];
      SetHighlightUnlit(c, p[1..], on);
      assert Unlit(r).children == Unlit(root).children;
    }
  }

  /** The frame of `SetHighlight`, for every path at once. */
  lemma SetHighlightFrame(root: Node, p: Path, on: bool)
    requires ValidPath(root, p)
    ensures Unlit(SetHighlight(root, p, on)) == Unlit(root)
    ensures forall q :: ValidPath(SetHighlight(root, p, on), q) <==> ValidPath(root, q)
    ensures forall q :: ValidPath(root, q) ==>
              At(SetHighlight(root, p, on), q).highlighted == (if q == p then on else At(root, q).highlighted)
  {
    SetHighlightUnlit(root, p, on);
    forall q
      ensures ValidPath(SetHighlight(root, p, on), q) <==> ValidPath(root, q)
      ensures ValidPath(root, q) ==>
                At(SetHighlight(root, p, on), q).highlighted == (if q == p then on else At(root, q).highlighted)
    {
      SetHighlightPath(root, p, on, q);
    }
  }

  /** A click on the tree item of the element at `p`. Clicks that bubbled up from a
      nested item are ignored; otherwise the previous selection loses its highlight
      and the clicked element is selected and highlighted. A previous selection that
      is no longer in the document is un-highlighted outside of it. */
  function Select(s: Panel, p: Path, fromSelf: bool): (r: Panel)
    requires ValidPath(s.root, p)
    ensures !fromSelf ==> r == s
    ensures fromSelf ==> r.selected == Some(p) && ValidPath(r.root, p) && At(r.root, p).highlighted
    ensures fromSelf ==> Unlit(r.root) == Unlit(s.root)
    ensures fromSelf ==> forall q :: ValidPath(r.root, q) <==> ValidPath(s.root, q)
    ensures fromSelf ==> forall q :: ValidPath(s.root, q) ==>
              At(r.root, q).highlighted == (q == p || (At(s.root, q).highlighted && Some(q) != s.selected))
  {
    if !fromSelf then s
    else
      var r1 := if s.selected.Some? && ValidPath(s.root, s.selected.value)
                then SetHighlight(s.root, s.selected.value, false) else s.root;
      SameShapeValid(s.root, s.selected, r1, p);
      if s.selected.Some? && ValidPath(s.root, s.selected.value) then
        SetHighlightFrame(s.root, s.selected.value, false);
        SetHighlightFrame(r1, p, true);
        Panel(SetHighlight(r1, p, true), Some(p))
      else
        SetHighlightFrame(r1, p, true);
        Panel(SetHighlight(r1, p, true), Some(p))
  }

  /** Un-highlighting keeps the shape of the tree, so `p` still resolves. */
  lemma SameShapeValid(root: Node, q: Option<Path>, r1: Node, p: Path)
    requires ValidPath(root, p)
    requires r1 == (if q.Some? && ValidPath(root, q.value) then SetHighlight(root, q.value, false) else root)
    ensures ValidPath(r1, p)
  {
    if q.Some? && ValidPath(root, q.value) {
      ShapeKept(root, q.value, At(root, q.value).(highlighted := false), p);
    }
  }

  /** Replacing a subtree by a node with the same children keeps every path valid. */
  lemma {:induction false} ShapeKept(n: Node, q: Path, m: Node, p: Path)
    requires ValidPath(n, q) && m.children == At(n, q).children
    ensures ValidPath(UpdateAt(n, q, m), p) <==> ValidPath(n, p)
    decreases |q|
  {
    if |q| == 0 {
    } else if |p| > 0 {
      var r := UpdateAt(n, q, m);
      assert r.children == n.children[q[0] := UpdateAt(n.children[q[0]], q[1..], m)];
      if p[0] == q[0] {
        ShapeKept(n.children[q[0]], q[1..], m, p[1..]);
      }
    }
  }

  /** The "Text content" input: the selected element's text becomes the input's value. */
  function UpdateText(s: Panel, value: string): (r: Panel)
    ensures r.selected == s.selected
    ensures !(s.selected.Some? && ValidPath(s.root, s.selected.value)) ==> r == s
    ensures s.selected.Some? && ValidPath(s.root, s.selected.value) ==>
              && ChangedOnlyAt(s.root, r.root, s.selected.value)
              && At(r.root, s.selected.value) == At(s.root, s.selected.value).(text := Some(value))
  {
    if s.selected.Some? && ValidPath(s.root, s.selected.value) then
      var p := s.selected.value;
      UpdateAtFrame(s.root, p, At(s.root, p).(text := Some(value)));
      Panel(UpdateAt(s.root, p, At(s.root, p).(text := Some(value))), s.selected)
    else s
  }

  /** The "Update element" button. `parsed` is what parsing the attributes text box
      gave (an empty box reads as `{}`); `None` stands for a parse error, which
      aborts the handler. The selected element's whole attribute map is replaced. */
  function UpdateAttributes(s: Panel, parsed: Option<Attrs>): (r: Panel)
    ensures r.selected == s.selected
    ensures parsed.None? || !(s.selected.Some? && ValidPath(s.root, s.selected.value)) ==> r == s
    ensures parsed.Some? && s.selected.Some? && ValidPath(s.root, s.selected.value) ==>
              && ChangedOnlyAt(s.root, r.root, s.selected.value)
              && At(r.root, s.selected.value) == At(s.root, s.selected.value).(attributes := parsed.value)
  {
    if parsed.Some? && s.selected.Some? && ValidPath(s.root, s.selected.value) then
      var p := s.selected.value;
      UpdateAtFrame(s.root, p, At(s.root, p).(attributes := parsed.value));
      Panel(UpdateAt(s.root, p, At(s.root, p).(attributes := parsed.value)), s.selected)
    else s
  }

  // ---------------------------------------------------------------- the single highlight

  function Sum(xs: seq<nat>): nat
  {
    if |xs| == 0 then 0 else xs[0] + Sum(xs[1..])
  }

  lemma {:induction false} SumAppend(a: seq<nat>, b: seq<nat>)
    ensures Sum(a + b) == Sum(a) + Sum(b)
  {
    if |a| == 0 {
      assert a + b == b;
    } else {
      assert (a + b)[1..] == a[1..] + b;
      SumAppend(a[1..], b);
    }
  }

  lemma SumCons(x: nat, b: seq<nat>)
    ensures Sum([x] + b) == x + Sum(b)
  {
    var s := [x] + b;
    assert s[0] == x && s[1..] == b;
  }

  /** Changing one entry changes the sum by the difference. */
  lemma SumUpdate(xs: seq<nat>, i: nat, x: nat)
    requires i < |xs|
    ensures Sum(xs[i := x]) + xs[i] == Sum(xs) + x
  {
    var a, b := xs[..i], xs[i + 1..];
    assert xs == a + ([xs[i]] + b);
    assert xs[i := x] == a + ([x] + b);
    SumAppend(a, [xs[i]] + b);
    SumAppend(a, [x] + b);
    SumCons(xs[i], b);
    SumCons(x, b);
  }

  /** Removing one entry lowers the sum by that entry. */
  lemma SumRemove(xs: seq<nat>, i: nat)
    requires i < |xs|
    ensures Sum(xs[..i] + xs[i + 1..]) + xs[i] == Sum(xs)
  {
    var a, b := xs[..i], xs[i + 1..];
    assert xs[i..] == [xs[i]] + b;
    assert xs == a + xs[i..];
    SumAppend(a, [xs[i]] + b);
    SumAppend(a, b);
    SumCons(xs[i], b);
  }

  lemma SumBound(xs: seq<nat>, i: nat)
    requires i < |xs|
    ensures xs[i] <= Sum(xs)
  {
    SumRemove(xs, i);
  }

  /** The number of highlighted nodes in a subtree. */
  function Count(n: Node): nat
    decreases n, 1
  {
    (if n.highlighted then 1 else 0) + Sum(ChildCounts(n))
  }

  function ChildCounts(n: Node): (xs: seq<nat>)
    ensures |xs| == |n.children|
    decreases n, 0
  {
    seq(|n.children|, i requires 0 <= i < |n.children| => Count(n.children[i]))
  }

  /** Replacing the subtree at `p` changes the count by the difference. */
  lemma {:induction false} CountUpdate(n: Node, p: Path, m: Node)
    requires ValidPath(n, p)
    ensures Count(UpdateAt(n, p, m)) + Count(At(n, p)) == Count(n) + Count(m)
    decreases |p|
  {
    if |p| > 0 {
      var i := p[0];
      var c := UpdateAt(n.children[i], p[1..], m);
      CountUpdate(n.children[i], p[1..], m);
      var r := UpdateAt(n, p, m);
      assert r.children == n.children[i := c];
      assert ChildCounts(r) == ChildCounts(n)[i := Count(c)];
      SumUpdate(ChildCounts(n), i, Count(c));
    }
  }

  /** A subtree never holds more highlights than the whole tree. */
  lemma {:induction false} CountAtBound(n: Node, p: Path)
    requires ValidPath(n, p)
    ensures Count(At(n, p)) <= Count(n)
    decreases |p|
  {
    if |p| > 0 {
      CountAtBound(n.children[p[0]], p[1..]);
      SumBound(ChildCounts(n), p[0]);
    }
  }

  /** Splicing out the child at `k` of the node at `q` loses exactly that child's count. */
  lemma CountRemove(root: Node, q: Path, k: nat)
    requires ValidPath(root, q) && k < |At(root, q).children|
    ensures Count(RemoveChildAt(root, q, k)) + Count(At(root, q).children[k]) == Count(root)
  {
    var n := At(root, q);
    var m := RemoveChild(n, k);
    CountUpdate(root, q, m);
    assert m.children == n.children[..k] + n.children[k + 1..];
    assert ChildCounts(m) == ChildCounts(n)[..k] + ChildCounts(n)[k + 1..];
    SumRemove(ChildCounts(n), k);
  }

  /** The panel's invariant: the selected element is in the document and is its only
      highlighted node; with nothing selected, nothing is highlighted. */
  predicate OneHighlight(s: Panel)
  {
    match s.selected
    case None => Count(s.root) == 0
    case Some(p) => ValidPath(s.root, p) && At(s.root, p).highlighted && Count(s.root) == 1
  }

  /** Deleting keeps the invariant: the only highlighted node goes with its subtree. */
  lemma DeleteKeepsOneHighlight(s: Panel)
    requires OneHighlight(s)
    ensures OneHighlight(Delete(s))
  {
    if s.selected.Some? && |s.selected.value| > 0 {
      var p := s.selected.value;
      ParentChild(s.root, p);
      CountRemove(s.root, Parent(p), Last(p));
    }
  }

  /** Selecting keeps the invariant: the old highlight is switched off before the new
      one is switched on, so exactly one node is highlighted afterwards. */
  lemma SelectKeepsOneHighlight(s: Panel, p: Path, fromSelf: bool)
    requires OneHighlight(s) && ValidPath(s.root, p)
    ensures OneHighlight(Select(s, p, fromSelf))
  {
    if fromSelf {
      var r1 := if s.selected.Some? && ValidPath(s.root, s.selected.value)
                then SetHighlight(s.root, s.selected.value, false) else s.root;
      if s.selected.Some? {
        var q := s.selected.value;
        var prev := At(s.root, q);
        CountUpdate(s.root, q, prev.(highlighted := false));
        assert ChildCounts(prev.(highlighted := false)) == ChildCounts(prev);
      }
      assert Count(r1) == 0;
      SameShapeValid(s.root, s.selected, r1, p);
      var c := At(r1, p);
      CountAtBound(r1, p);
      CountUpdate(r1, p, c.(highlighted := true));
      assert ChildCounts(c.(highlighted := true)) == ChildCounts(c);
    }
  }

  /** Editing text or attributes touches no highlight. */
  lemma EditsKeepOneHighlight(s: Panel, value: string, parsed: Option<Attrs>)
    requires OneHighlight(s)
    ensures OneHighlight(UpdateText(s, value))
    ensures OneHighlight(UpdateAttributes(s, parsed))
  {
    if s.selected.Some? {
      var p := s.selected.value;
      var n := At(s.root, p);
      CountUpdate(s.root, p, n.(text := Some(value)));
      assert ChildCounts(n.(text := Some(value))) == ChildCounts(n);
      if parsed.Some? {
        CountUpdate(s.root, p, n.(attributes := parsed.value));
        assert ChildCounts(n.(attributes := parsed.value)) == ChildCounts(n);
      }
    }
  }
}
