/** Key lists and the key-reconciliation step of applyDiff (index.js:23-62). */
module KeyLists {
  import opened JsValues

  /** The set of elements of a key list. */
  function Elems(ks: seq<string>): set<string>
  {
    set k | k in ks
  }

  /** Extending a prefix of a list by its next key adds that key. */
  lemma ElemsSnoc(ks: seq<string>, i: nat)
    requires i < |ks|
    ensures Elems(ks[..i + 1]) == Elems(ks[..i]) + {ks[i]}
  {
    assert ks[..i + 1] == ks[..i] + [ks[i]];
  }

  /** No key occurs twice in the list. */
  predicate Distinct(ks: seq<string>)
  {
    forall i, j :: 0 <= i < j < |ks| ==> ks[i] != ks[j]
  }

  /** `Object.keys`: the own keys of an object as a duplicate-free list. The
      enumeration order is not part of `Value`, so any order may come out. */
  method OwnKeys(m: map<string, Value>) returns (keys: seq<string>)
    ensures Elems(keys) == m.Keys
    ensures Distinct(keys)
  {
    keys := [];
    var rest := m.Keys;
    while rest != {}
      invariant Elems(keys) + rest == m.Keys
      invariant Elems(keys) !! rest
      invariant Distinct(keys)
      decreases rest
    {
      var k :| k in rest;
      keys := keys + [k];
      rest := rest - {k};
    }
  }

  /** `_.difference(a, b)`: the keys of `a` that are not in `b`, in the order of `a`. */
  function Difference(a: seq<string>, b: seq<string>): (r: seq<string>)
    ensures Elems(r) == Elems(a) - Elems(b)
    ensures Distinct(a) ==> Distinct(r)
    ensures |r| <= |a|
  {
    if a == [] then []
    else
      var rest := Difference(a[1..], b);
      assert Elems(a) == {a[0]} + Elems(a[1..]);
      if a[0] in b then rest
      else
        var r := [a[0]] + rest;
        assert Elems(r) == {a[0]} + Elems(rest) by {
          assert forall j :: 1 <= j < |r| ==> r[j] == rest[j - 1];
        }
        assert Distinct(a) ==> a[0] !in Elems(rest);
        r
  }

  /** One `forEach` over `keys` doing `delete destination[key]`. */
  method DeleteKeys(d: map<string, Value>, keys: seq<string>) returns (r: map<string, Value>)
    ensures r == d - Elems(keys)
  {
    r := d;
    for i := 0 to |keys|
      invariant r == d - Elems(keys[..i])
    {
      ElemsSnoc(keys, i);
      r := r - {keys[i]};
    }
    assert keys[..|keys|] == keys;
  }

  /** The entries of `src` at the keys of `ks`. */
  function Restrict(src: map<string, Value>, ks: set<string>): (r: map<string, Value>)
    requires ks <= src.Keys
    ensures r.Keys == ks
    ensures forall k :: k in r ==> r[k] == src[k]
  {
    map k | k in ks :: src[k]
  }

  /** Copying one more key of the list is one more map update. */
  lemma CopyStep(d: map<string, Value>, src: map<string, Value>, keys: seq<string>, i: nat)
    requires i < |keys| && Elems(keys) <= src.Keys
    ensures Elems(keys[..i]) <= src.Keys && Elems(keys[..i + 1]) <= src.Keys
    ensures d + Restrict(src, Elems(keys[..i + 1]))
         == (d + Restrict(src, Elems(keys[..i])))[keys[i] := src[keys[i]]]
  {
    ElemsSnoc(keys, i);
    assert keys[i] in Elems(keys);
  }

  /** One `forEach` over `keys` doing `destination[key] = source[key]`. */
  method CopyKeys(d: map<string, Value>, src: map<string, Value>, keys: seq<string>)
    returns (r: map<string, Value>)
    requires Elems(keys) <= src.Keys
    ensures r == d + Restrict(src, Elems(keys))
  {
    r := d;
    for i := 0 to |keys|
      invariant r == d + Restrict(src, Elems(keys[..i]))
    {
      CopyStep(d, src, keys, i);
      r := r[keys[i] := src[keys[i]]];
    }
    assert keys[..|keys|] == keys;
  }

  /** The single reconciliation pass: add every source-only key with the
      source's value, then delete every destination-only key. */
  function AddThenDelete(src: map<string, Value>, dst: map<string, Value>): (r: map<string, Value>)
    ensures r.Keys == src.Keys
    ensures forall k :: k in r ==> r[k] == (if k in dst then dst[k] else src[k])
  {
    (dst + Restrict(src, src.Keys - dst.Keys)) - (dst.Keys - src.Keys)
  }

  /** `d` lies between `dst` and the reconciled map: it has no key outside
      either side, keeps every shared entry of `dst`, and holds the source's
      value at every source-only key it has. */
  ghost predicate PartlyReconciled(src: map<string, Value>, dst: map<string, Value>, d: map<string, Value>)
  {
    && d.Keys <= src.Keys + dst.Keys
    && (forall k :: k in src && k in dst ==> k in d && d[k] == dst[k])
    && (forall k :: k in d && k !in dst ==> k in src && d[k] == src[k])
    && (forall k :: k in d && k !in src ==> d[k] == dst[k])
  }

  /** The blocks at index.js:29-35 and index.js:38-44 leave the map partly reconciled. */
  lemma LengthBlocksPartlyReconcile(src: map<string, Value>, dst: map<string, Value>)
    ensures PartlyReconciled(src, dst, dst)
    ensures PartlyReconciled(src, dst, dst - (dst.Keys - src.Keys))
    ensures PartlyReconciled(src, dst, dst + Restrict(src, src.Keys - dst.Keys))
  {
  }

  /** The block at index.js:51-62 finishes the job from any partly reconciled map. */
  lemma DiffBlockCompletes(src: map<string, Value>, dst: map<string, Value>, d: map<string, Value>)
    requires PartlyReconciled(src, dst, d)
    ensures (d + Restrict(src, src.Keys - dst.Keys)) - (dst.Keys - src.Keys) == AddThenDelete(src, dst)
  {
  }

  /** Key reconciliation exactly as index.js:29-62 writes it: three
      independent blocks over the key lists taken once at index.js:23-24.
      Their combined effect is the single add-then-delete pass. */
  method ReconcileKeys(src: map<string, Value>, dst: map<string, Value>,
                       sourceKeys: seq<string>, destinationKeys: seq<string>)
    returns (d: map<string, Value>)
    requires Elems(sourceKeys) == src.Keys
    requires Elems(destinationKeys) == dst.Keys
    ensures d == AddThenDelete(src, dst)
  {
    LengthBlocksPartlyReconcile(src, dst);
    d := dst;
    var extraKeys;
    if |sourceKeys| < |destinationKeys| {
      extraKeys := Difference(destinationKeys, sourceKeys);
      d := DeleteKeys(d, extraKeys);
    }
    if |sourceKeys| > |destinationKeys| {
      extraKeys := Difference(sourceKeys, destinationKeys);
      d := CopyKeys(d, src, extraKeys);
    }
    assert PartlyReconciled(src, dst, d);
    ghost var before := d;
    DiffBlockCompletes(src, dst, before);
    if sourceKeys != destinationKeys {
      var newKeys := Difference(sourceKeys, destinationKeys);
      d := CopyKeys(d, src, newKeys);
      extraKeys := Difference(destinationKeys, sourceKeys);
      d := DeleteKeys(d, extraKeys);
    } else {
      assert src.Keys == dst.Keys && d == dst;
    }
  }
}
