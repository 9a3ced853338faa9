/** An element's attribute record: a JavaScript object, kept as its entries in
    enumeration order (the order `Object.entries` reports them). */
module Attributes {
  import opened Wrappers

  type Attrs = seq<(string, string)>

  /** `attributes[key]`: the value of the first entry with that key, or undefined. */
  function Lookup(a: Attrs, key: string): (r: Option<string>)
    ensures r.Some? <==> exists i :: 0 <= i < |a| && a[i].0 == key
    ensures r.Some? ==> (key, r.value) in a
  {
    if |a| == 0 then None
    else if a[0].0 == key then Some(a[0].1)
    else
      var r := Lookup(a[1..], key);
      assert forall i :: 1 <= i < |a| ==> a[i] == a[1..][i - 1];
      r
  }

  /** The entry `Lookup` reads is the first one with the key, whatever follows it. */
  lemma {:induction false} LookupFirst(a: Attrs, key: string, i: nat)
    requires i < |a| && a[i].0 == key
    requires forall j :: 0 <= j < i ==> a[j].0 != key
    ensures Lookup(a, key) == Some(a[i].1)
    decreases i
  {
    if i > 0 {
      assert a[0].0 != key;
      assert a[1..][i - 1] == a[i];
      LookupFirst(a[1..], key, i - 1);
    }
  }

  /** JavaScript truthiness of a looked-up attribute: present and not the empty string. */
  predicate Truthy(v: Option<string>)
  {
    v.Some? && v.value != ""
  }

  /** `{ ...a, [key]: value }`: an existing key keeps its position and takes the new
      value; a new key is appended after all the others. */
  function Assign(a: Attrs, key: string, value: string): (r: Attrs)
    ensures Lookup(r, key) == Some(value)
    ensures forall k :: k != key ==> Lookup(r, k) == Lookup(a, k)
    ensures Lookup(a, key).None? ==> r == a + [(key, value)]
    ensures Lookup(a, key).Some? ==> |r| == |a| && forall i :: 0 <= i < |a| ==> r[i].0 == a[i].0
  {
    if |a| == 0 then [(key, value)]
    else if a[0].0 == key then [(key, value)] + a[1..]
    else [a[0]] + Assign(a[1..], key, value)
  }

  /** A JavaScript object holds each key at most once. */
  predicate UniqueKeys(a: Attrs)
  {
    forall i, j :: 0 <= i < j < |a| ==> a[i].0 != a[j].0
  }

  /** Spreading into an object keeps its keys unique. */
  lemma {:induction false} AssignUnique(a: Attrs, key: string, value: string)
    requires UniqueKeys(a)
    ensures UniqueKeys(Assign(a, key, value))
  {
    if |a| > 0 {
      var rest := a[1..];
      UniqueTail(a);
      if a[0].0 == key {
        UniqueCons((key, value), rest);
      } else {
        AssignUnique(rest, key, value);
        assert Lookup(Assign(rest, key, value), a[0].0).None?;
        UniqueCons(a[0], Assign(rest, key, value));
      }
    }
  }

  /** The entries after the first hold unique keys, none of them the first one's. */
  lemma UniqueTail(a: Attrs)
    requires UniqueKeys(a) && |a| > 0
    ensures UniqueKeys(a[1..]) && Lookup(a[1..], a[0].0).None?
  {
    var rest := a[1..];
    forall i | 0 <= i < |rest|
      ensures rest[i] == a[i + 1]
    {
    }
  }

  lemma UniqueCons(x: (string, string), t: Attrs)
    requires UniqueKeys(t) && Lookup(t, x.0).None?
    ensures UniqueKeys([x] + t)
  {
    var r := [x] + t;
    forall i, j | 0 <= i < j < |r|
      ensures r[i].0 != r[j].0
    {
      assert r[j] == t[j - 1];
      if i > 0 {
        assert r[i] == t[i - 1];
      }
    }
  }
}
