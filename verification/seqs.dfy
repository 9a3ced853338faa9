/** Sequence operations shared by the element tree, the drop layer and the markup export. */
module Seqs {

  /** `splice(k, 0, x)` on an array, for a position already inside `0..|s|`. */
  function Insert<T>(s: seq<T>, k: nat, x: T): (r: seq<T>)
    requires k <= |s|
    ensures |r| == |s| + 1
    ensures r[k] == x
    ensures forall i :: 0 <= i < k ==> r[i] == s[i]
    ensures forall i :: k < i < |r| ==> r[i] == s[i - 1]
  {
    s[..k] + [x] + s[k..]
  }

  /** An insertion is the prefix, the new element and the suffix. */
  lemma InsertSplit<T>(s: seq<T>, k: nat, x: T)
    requires k <= |s|
    ensures Insert(s, k, x) == s[..k] + [x] + s[k..]
    ensures s[..k] + s[k..] == s
  {
  }

  /** `splice(k, 1)` on an array, for a position holding an element. */
  function Remove<T>(s: seq<T>, k: nat): (r: seq<T>)
    requires k < |s|
    ensures |r| == |s| - 1
    ensures forall i :: 0 <= i < k ==> r[i] == s[i]
    ensures forall i :: k <= i < |r| ==> r[i] == s[i + 1]
  {
    s[..k] + s[k + 1..]
  }

  /** Removing what was just inserted gives back the original sequence. */
  lemma RemoveInsert<T>(s: seq<T>, k: nat, x: T)
    requires k <= |s|
    ensures Remove(Insert(s, k, x), k) == s
  {
    var r := Remove(Insert(s, k, x), k);
    assert forall i :: 0 <= i < |s| ==> r[i] == s[i];
  }

  /** Putting a removed element back at its old position restores the sequence. */
  lemma InsertRemove<T>(s: seq<T>, k: nat)
    requires k < |s|
    ensures Insert(Remove(s, k), k, s[k]) == s
  {
    var r := Insert(Remove(s, k), k, s[k]);
    assert forall i :: 0 <= i < |s| ==> r[i] == s[i];
  }

  /** Concatenation of a sequence of sequences, in order. */
  function Flatten<T>(ss: seq<seq<T>>): seq<T>
  {
    if |ss| == 0 then [] else ss[0] + Flatten(ss[1..])
  }

  lemma {:induction false} FlattenAppend<T>(a: seq<seq<T>>, b: seq<seq<T>>)
    ensures Flatten(a + b) == Flatten(a) + Flatten(b)
  {
    if |a| == 0 {
      assert a + b == b;
    } else {
      assert (a + b)[1..] == a[1..] + b;
      FlattenAppend(a[1..], b);
    }
  }

  /** An element occurs in the concatenation exactly when it occurs in one of the parts. */
  lemma {:induction false} FlattenMember<T>(ss: seq<seq<T>>, x: T)
    ensures x in Flatten(ss) <==> exists i :: 0 <= i < |ss| && x in ss[i]
  {
    if |ss| > 0 {
      FlattenMember(ss[1..], x);
      if x in Flatten(ss[1..]) {
        var i :| 0 <= i < |ss[1..]| && x in ss[1..][i];
        assert x in ss[i + 1];
      }
      if exists i :: 0 <= i < |ss| && x in ss[i] {
        var i :| 0 <= i < |ss| && x in ss[i];
        if i > 0 {
          assert x in ss[1..][i - 1];
        }
      }
    }
  }

  lemma FlattenSingle<T>(s: seq<T>)
    ensures Flatten([s]) == s
  {
    assert [s][1..] == [];
  }

  /** Flattening a prefix one element longer appends that element's part. */
  lemma FlattenSnoc<T>(ss: seq<seq<T>>, i: nat)
    requires i < |ss|
    ensures Flatten(ss[..i + 1]) == Flatten(ss[..i]) + ss[i]
  {
    assert ss[..i + 1] == ss[..i] + [ss[i]];
    FlattenAppend(ss[..i], [ss[i]]);
    FlattenSingle(ss[i]);
  }
}
