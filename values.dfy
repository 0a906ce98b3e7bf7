/** JavaScript values as applyDiff sees them: a value is either a scalar or
    an object (plain object or array, both seen as a map from own enumerable
    keys to values). Deep equality (`_.isEqual`) is Dafny's `==` on `Value`. */
module JsValues {

  /** The non-object values that `_.isObject` rejects. Numbers are kept
      abstract as integers. */
  datatype Atom = Undefined | Null | Bool(b: bool) | Num(n: int) | Str(s: string)

  /** `Scalar` is anything `_.isObject` rejects; `Obj` is an object or an
      array, keyed by its own enumerable keys (array indices as strings). */
  datatype Value = Scalar(atom: Atom) | Obj(fields: map<string, Value>)

  datatype Option<T> = None | Some(value: T)

  /** A path is the sequence of keys followed from the root. */
  type Path = seq<string>

  /** The value reached by following `p` from `v`, if any. */
  function At(v: Value, p: Path): (r: Option<Value>)
    ensures p == [] ==> r == Some(v)
    ensures v.Scalar? && p != [] ==> r == None
    decreases |p|
  {
    if p == [] then Some(v)
    else if v.Obj? && p[0] in v.fields then At(v.fields[p[0]], p[1..])
    else None
  }

  /** Following `[k] + q` from an object is following `q` from its entry `k`. */
  lemma AtCons(v: Value, k: string, q: Path)
    ensures At(v, [k] + q) == (if v.Obj? && k in v.fields then At(v.fields[k], q) else None)
  {
  }

  /** `t` and each of its prefixes lead to different places in `a` and `b`:
      a write at `t` cannot be inside a subtree on which `a` and `b` agree. */
  ghost predicate Differs(a: Value, b: Value, t: Path)
  {
    forall j :: 0 <= j <= |t| ==> At(a, t[..j]) != At(b, t[..j])
  }

  /** Every path at which `a` and `b` differ is a prefix or an extension of
      some path in `ts`: a set of written paths that covers the difference
      between `a` and `b` leaves out no differing subtree. */
  ghost predicate Covers(ts: set<Path>, a: Value, b: Value)
  {
    forall p :: At(a, p) != At(b, p) ==> exists t :: t in ts && (t <= p || p <= t)
  }

  /** A write at `t` replaces what `b` holds there by what `a` holds, as one
      assignment or deletion: one side lacks `t`, or `a` holds a scalar
      there. An object in `a` over an object in `b` is never written
      wholesale; it is reconciled below. */
  ghost predicate Frontier(a: Value, b: Value, t: Path)
  {
    At(a, t).None? || At(b, t).None? || At(a, t).value.Scalar?
  }

  /** A frontier path below a shared entry is a frontier path from the root. */
  lemma FrontierUnder(a: Value, b: Value, k: string, t: Path)
    requires a.Obj? && b.Obj? && k in a.fields && k in b.fields
    requires Frontier(a.fields[k], b.fields[k], t)
    ensures Frontier(a, b, [k] + t)
  {
    AtCons(a, k, t);
    AtCons(b, k, t);
  }

  /** A key that is present on only one side, or holds different values, is
      a differing path of length one. */
  lemma DiffersAtKey(a: Value, b: Value, k: string)
    requires a.Obj? && b.Obj?
    requires k in a.fields && (k !in b.fields || a.fields[k] != b.fields[k])
    ensures Differs(a, b, [k])
  {
  }

  /** A differing path below entry `k` is a differing path from the root. */
  lemma {:induction false} DiffersUnder(a: Value, b: Value, k: string, t: Path)
    requires a.Obj? && b.Obj? && k in a.fields && k in b.fields
    requires Differs(a.fields[k], b.fields[k], t)
    ensures Differs(a, b, [k] + t)
  {
    forall j | 0 <= j <= |[k] + t| ensures At(a, ([k] + t)[..j]) != At(b, ([k] + t)[..j]) {
      if j == 0 {
        assert At(a.fields[k], t[..0]) != At(b.fields[k], t[..0]);
        assert a != b;
      } else {
        assert ([k] + t)[..j] == [k] + t[..j - 1];
        AtCons(a, k, t[..j - 1]);
        AtCons(b, k, t[..j - 1]);
        assert At(a.fields[k], t[..j - 1]) != At(b.fields[k], t[..j - 1]);
      }
    }
  }

  /** Following `t + q` is following `t`, then `q` from where `t` leads. */
  lemma {:induction false} AtAppend(v: Value, t: Path, q: Path)
    ensures At(v, t + q) == if At(v, t).Some? then At(At(v, t).value, q) else None
    decreases |t|
  {
    if t == [] {
      assert t + q == q;
    } else {
      assert (t + q)[0] == t[0] && (t + q)[1..] == t[1..] + q;
      if v.Obj? && t[0] in v.fields {
        AtAppend(v.fields[t[0]], t[1..], q);
      }
    }
  }

  /** Every prefix of a differing path differs. */
  lemma PrefixDiffers(a: Value, b: Value, t: Path, p: Path)
    requires Differs(a, b, t)
    ensures p <= t ==> At(a, p) != At(b, p)
  {
    if p <= t {
      assert t[..|p|] == p;
    }
  }

  /** Below a differing frontier path nothing is present on both sides
      with the same value. */
  lemma ExtensionDiffers(a: Value, b: Value, t: Path, p: Path)
    requires Differs(a, b, t) && Frontier(a, b, t)
    ensures t <= p ==> At(a, p).None? || At(a, p) != At(b, p)
  {
    if t <= p {
      var q := p[|t|..];
      assert p == t + q;
      AtAppend(a, t, q);
      AtAppend(b, t, q);
      assert t[..|t|] == t;
    }
  }

  /** A write at a differing frontier path `t` leaves alone every path `p`
      at which both sides hold the same value: `t` is neither `p`, nor a
      prefix of `p` (a write above it), nor an extension of `p` (a write
      inside it). */
  lemma EqualPathUntouched(a: Value, b: Value, t: Path, p: Path)
    requires Differs(a, b, t) && Frontier(a, b, t)
    requires At(a, p).Some? && At(a, p) == At(b, p)
    ensures !(t <= p) && !(p <= t)
  {
    PrefixDiffers(a, b, t, p);
    ExtensionDiffers(a, b, t, p);
  }
}
