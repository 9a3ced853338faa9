/** Positions in the element tree. A node's parent link is its path minus the last
    step; a side panel's reference to a node is the node's path. */
module Tree {
  import opened Wrappers
  import opened Seqs
  import opened Element

  type Path = seq<nat>

  predicate ValidPath(n: Node, p: Path)
    decreases |p|
  {
    |p| == 0 || (p[0] < |n.children| && ValidPath(n.children[p[0]], p[1..]))
  }

  function At(n: Node, p: Path): Node
    requires ValidPath(n, p)
    decreases |p|
  {
    if |p| == 0 then n else At(n.children[p[0]], p[1..])
  }

  /** Replaces the subtree at `p` by `m`. */
  function UpdateAt(n: Node, p: Path, m: Node): (r: Node)
    requires ValidPath(n, p)
    ensures ValidPath(r, p) && At(r, p) == m
    ensures |p| > 0 ==> r.(children := n.children) == n && |r.children| == |n.children|
    decreases |p|
  {
    if |p| == 0 then m
    else
      var c := UpdateAt(n.children[p[0]], p[1..], m);
      var r := n.(children := n.children[p[0] := c]);
      assert r.children[p[0]] == c && p == [p[0]] + p[1..];
      r
  }

  /** One more step down: the child `k` of the node at `p`. */
  lemma {:induction false} ChildPath(n: Node, p: Path, k: nat)
    requires ValidPath(n, p)
    ensures ValidPath(n, p + [k]) <==> k < |At(n, p).children|
    ensures ValidPath(n, p + [k]) ==> At(n, p + [k]) == At(n, p).children[k]
    decreases |p|
  {
    if |p| == 0 {
      assert p + [k] == [k];
      assert [k][1..] == [];
    } else {
      assert (p + [k])[0] == p[0];
      assert (p + [k])[1..] == p[1..] + [k];
      ChildPath(n.children[p[0]], p[1..], k);
    }
  }

  /** One step down at the front of a path. */
  lemma PathCons(n: Node, i: nat, q: Path)
    requires i < |n.children|
    ensures ValidPath(n, [i] + q) <==> ValidPath(n.children[i], q)
    ensures ValidPath(n, [i] + q) ==> At(n, [i] + q) == At(n.children[i], q)
  {
    var iq := [i] + q;
    assert iq[0] == i && iq[1..] == q;
  }

  /** Updating a node with its own subtree changes nothing. */
  lemma {:induction false} UpdateAtSelf(n: Node, p: Path)
    requires ValidPath(n, p)
    ensures UpdateAt(n, p, At(n, p)) == n
    decreases |p|
  {
    if |p| > 0 {
      UpdateAtSelf(n.children[p[0]], p[1..]);
      assert n.children[p[0] := n.children[p[0]]] == n.children;
    }
  }

  /** A second update at the same path overrides the first. */
  lemma {:induction false} UpdateAtTwice(n: Node, p: Path, m1: Node, m2: Node)
    requires ValidPath(n, p)
    ensures UpdateAt(UpdateAt(n, p, m1), p, m2) == UpdateAt(n, p, m2)
    decreases |p|
  {
    if |p| > 0 {
      UpdateAtTwice(n.children[p[0]], p[1..], m1, m2);
    }
  }

  /** Paths that neither contain nor are contained in `p` see the same subtree after
      an update at `p`. */
  predicate Prefix(p: Path, q: Path)
  {
    |p| <= |q| && q[..|p|] == p
  }

  lemma PrefixTail(p: Path, q: Path)
    requires |p| > 0 && |q| > 0 && p[0] == q[0]
    ensures Prefix(p[1..], q[1..]) ==> Prefix(p, q)
  {
    if Prefix(p[1..], q[1..]) {
      assert q[..|p|] == [q[0]] + q[1..][..|p| - 1];
      assert p == [p[0]] + p[1..];
    }
  }

  lemma {:induction false} UpdateAtElsewhere(n: Node, p: Path, m: Node, q: Path)
    requires ValidPath(n, p) && ValidPath(n, q)
    requires !Prefix(p, q) && !Prefix(q, p)
    ensures ValidPath(UpdateAt(n, p, m), q) && At(UpdateAt(n, p, m), q) == At(n, q)
    decreases |p|
  {
    assert |p| > 0 && |q| > 0;
    if p[0] != q[0] {
      assert q == [q[0]] + q[1..];
    } else {
      PrefixTail(p, q);
      PrefixTail(q, p);
      UpdateAtElsewhere(n.children[p[0]], p[1..], m, q[1..]);
    }
  }

  /** `r` is `n` changed at `p` only: every node on the way down to `p` keeps all its
      fields but its children and keeps their number, and every path that branches
      off that way leads to the same subtree as before. */
  ghost predicate ChangedOnlyAt(n: Node, r: Node, p: Path)
  {
    && ValidPath(n, p) && ValidPath(r, p)
    && (forall q :: Prefix(q, p) && |q| < |p| ==>
          && ValidPath(n, q) && ValidPath(r, q)
          && At(r, q).(children := At(n, q).children) == At(n, q)
          && |At(r, q).children| == |At(n, q).children|)
    && (forall q :: ValidPath(n, q) && !Prefix(p, q) && !Prefix(q, p) ==>
          ValidPath(r, q) && At(r, q) == At(n, q))
  }

  /** The nodes above the updated one keep everything but the child on the way down. */
  lemma {:induction false} UpdateAtAncestors(n: Node, p: Path, m: Node, q: Path)
    requires ValidPath(n, p) && Prefix(q, p) && |q| < |p|
    ensures ValidPath(n, q) && ValidPath(UpdateAt(n, p, m), q)
    ensures At(UpdateAt(n, p, m), q).(children := At(n, q).children) == At(n, q)
    ensures |At(UpdateAt(n, p, m), q).children| == |At(n, q).children|
    decreases |q|
  {
    if |q| > 0 {
      assert q[0] == p[0];
      assert Prefix(q[1..], p[1..]) by {
        assert p[1..][..|q| - 1] == p[..|q|][1..];
      }
      UpdateAtAncestors(n.children[p[0]], p[1..], m, q[1..]);
    }
  }

  /** An update at `p` changes the tree at `p` only. */
  lemma UpdateAtFrame(n: Node, p: Path, m: Node)
    requires ValidPath(n, p)
    ensures ChangedOnlyAt(n, UpdateAt(n, p, m), p)
  {
    forall q | Prefix(q, p) && |q| < |p|
      ensures ValidPath(n, q) && ValidPath(UpdateAt(n, p, m), q)
      ensures At(UpdateAt(n, p, m), q).(children := At(n, q).children) == At(n, q)
      ensures |At(UpdateAt(n, p, m), q).children| == |At(n, q).children|
    {
      UpdateAtAncestors(n, p, m, q);
    }
    forall q | ValidPath(n, q) && !Prefix(p, q) && !Prefix(q, p)
      ensures ValidPath(UpdateAt(n, p, m), q) && At(UpdateAt(n, p, m), q) == At(n, q)
    {
      UpdateAtElsewhere(n, p, m, q);
    }
  }

  /** The parent of the node at a non-empty path, and the node's index in it. */
  function Parent(p: Path): Path
    requires |p| > 0
  {
    p[..|p| - 1]
  }

  function Last(p: Path): nat
    requires |p| > 0
  {
    p[|p| - 1]
  }

  /** A valid path stays valid when cut short. */
  lemma {:induction false} PrefixValid(n: Node, a: Path, b: Path)
    requires ValidPath(n, a + b)
    ensures ValidPath(n, a)
    decreases |a|
  {
    if |a| > 0 {
      assert (a + b)[0] == a[0] && (a + b)[1..] == a[1..] + b;
      PrefixValid(n.children[a[0]], a[1..], b);
    }
  }

  /** The node at a non-root path is its parent's child at the path's last index. */
  lemma ParentChild(n: Node, p: Path)
    requires ValidPath(n, p) && |p| > 0
    ensures ValidPath(n, Parent(p)) && Last(p) < |At(n, Parent(p)).children|
    ensures At(n, Parent(p)).children[Last(p)] == At(n, p)
  {
    assert Parent(p) + [Last(p)] == p;
    PrefixValid(n, Parent(p), [Last(p)]);
    ChildPath(n, Parent(p), Last(p));
  }

  /** `parent.addChild(c, index)` for the node at `p`. */
  function InsertChild(root: Node, p: Path, c: Node, index: Option<int>): (r: Node)
    requires ValidPath(root, p)
    ensures ValidPath(r, p) && At(r, p) == AddChild(At(root, p), c, index)
    ensures ValidPath(r, p + [Slot(At(root, p), index)])
    ensures At(r, p + [Slot(At(root, p), index)]) == c
    ensures ChangedOnlyAt(root, r, p)
  {
    var r := UpdateAt(root, p, AddChild(At(root, p), c, index));
    ChildPath(r, p, Slot(At(root, p), index));
    UpdateAtFrame(root, p, AddChild(At(root, p), c, index));
    r
  }

  /** `parent.children.splice(k, 1)` for the node at `p`. */
  function RemoveChildAt(root: Node, p: Path, k: nat): (r: Node)
    requires ValidPath(root, p) && k < |At(root, p).children|
    ensures ValidPath(r, p) && At(r, p) == RemoveChild(At(root, p), k)
    ensures At(r, p).children == At(root, p).children[..k] + At(root, p).children[k + 1..]
    ensures ChangedOnlyAt(root, r, p)
  {
    UpdateAtFrame(root, p, RemoveChild(At(root, p), k));
    UpdateAt(root, p, RemoveChild(At(root, p), k))
  }

  /** Splicing the child at `p + [k]` out and adding it back at `k` restores the tree. */
  lemma RemoveThenInsertRestores(root: Node, p: Path, k: nat)
    requires ValidPath(root, p) && k < |At(root, p).children|
    ensures InsertChild(RemoveChildAt(root, p, k), p, At(root, p).children[k], Some(k)) == root
  {
    var n := At(root, p);
    var r1 := RemoveChildAt(root, p, k);
    RemoveThenAddChild(n, k);
    UpdateAtTwice(root, p, RemoveChild(n, k), n);
    UpdateAtSelf(root, p);
  }

  // ---------------------------------------------------------------- previews below a node

  /** `hasPreviewElements` is true exactly when some proper descendant is a preview. */
  lemma HasPreviewElementsIff(n: Node)
    ensures HasPreviewElements(n) <==>
              exists p :: |p| > 0 && ValidPath(n, p) && IsPreview(At(n, p))
  {
    if HasPreviewElements(n) {
      HasPreviewWitness(n);
    }
    if exists p :: |p| > 0 && ValidPath(n, p) && IsPreview(At(n, p)) {
      var p :| |p| > 0 && ValidPath(n, p) && IsPreview(At(n, p));
      PreviewBelow(n, p);
    }
  }

  lemma {:induction false} HasPreviewWitness(n: Node)
    requires HasPreviewElements(n)
    ensures exists p :: |p| > 0 && ValidPath(n, p) && IsPreview(At(n, p))
  {
    var i :| 0 <= i < |n.children| && (IsPreview(n.children[i]) || HasPreviewElements(n.children[i]));
    var c := n.children[i];
    if IsPreview(c) {
      WitnessBelow(n, i, []);
    } else {
      HasPreviewWitness(c);
      var q :| |q| > 0 && ValidPath(c, q) && IsPreview(At(c, q));
      WitnessBelow(n, i, q);
    }
  }

  /** A preview at `q` below child `i` is a preview at `[i] + q` below the node. */
  lemma WitnessBelow(n: Node, i: nat, q: Path)
    requires i < |n.children| && ValidPath(n.children[i], q) && IsPreview(At(n.children[i], q))
    ensures |[i] + q| > 0 && ValidPath(n, [i] + q) && IsPreview(At(n, [i] + q))
  {
    PathCons(n, i, q);
  }

  lemma {:induction false} PreviewBelow(n: Node, p: Path)
    requires |p| > 0 && ValidPath(n, p) && IsPreview(At(n, p))
    ensures HasPreviewElements(n)
    decreases |p|
  {
    var c := n.children[p[0]];
    assert At(n, p) == At(c, p[1..]);
    if |p| > 1 {
      PreviewBelow(c, p[1..]);
    } else {
      assert p[1..] == [];
      assert IsPreview(c);
    }
    assert IsPreview(n.children[p[0]]) || HasPreviewElements(n.children[p[0]]);
  }
}
