/** applyDiff (index.js:13-82): rewrite `destination` so that it ends up
    deeply equal to `source`, touching only the parts that differ. */
module ApplyDiff {
  import opened JsValues
  import opened KeyLists

  const SourceError := "source should be an object"
  const DestinationError := "destination should be an object"

  /** A call either completes, yielding the new destination, or throws. */
  datatype Outcome = Ok(value: Value) | Fail(message: string)

  /** The call succeeds on this pair: both are objects, and every shared key
      whose values differ and whose source value is an object recurses into
      a pair on which the call succeeds. Keys the destination lacks receive
      the source's value during reconciliation and never recurse. */
  predicate Mergeable(source: Value, destination: Value)
    decreases source
  {
    && source.Obj?
    && destination.Obj?
    && forall k :: k in source.fields && k in destination.fields
         && source.fields[k] != destination.fields[k] && source.fields[k].Obj?
         ==> Mergeable(source.fields[k], destination.fields[k])
  }

  /** Nothing differs between a value and itself, so a call on equal
      arguments writes nothing. */
  lemma EqualHasNoDifferingPath(v: Value, t: Path)
    ensures !Differs(v, v, t)
  {
    assert t[..0] == [];
  }

  /** A failing recursive call on a differing shared key makes the whole call fail. */
  lemma FailureBubblesUp(source: Value, destination: Value, k: string)
    requires source.Obj? && destination.Obj?
    requires k in source.fields && k in destination.fields
    requires source.fields[k] != destination.fields[k] && source.fields[k].Obj?
    requires !Mergeable(source.fields[k], destination.fields[k])
    ensures !Mergeable(source, destination)
  {
  }

  /** The paths deleted or added by key reconciliation. */
  ghost function KeyTouches(source: Value, destination: Value): (ts: set<Path>)
    requires source.Obj? && destination.Obj?
  {
    var s, d := source.fields.Keys, destination.fields.Keys;
    set k | k in (s - d) + (d - s) :: [k]
  }

  /** Every path key reconciliation writes is a differing path. */
  lemma KeyTouchesDiffer(source: Value, destination: Value)
    requires source.Obj? && destination.Obj?
    ensures forall t :: t in KeyTouches(source, destination) ==> Differs(source, destination, t)
  {
  }

  /** Key reconciliation writes only keys that one side lacks. */
  lemma KeyTouchesAtFrontier(source: Value, destination: Value)
    requires source.Obj? && destination.Obj?
    ensures forall t :: t in KeyTouches(source, destination) ==> Frontier(source, destination, t)
  {
    forall t | t in KeyTouches(source, destination) ensures Frontier(source, destination, t) {
      var k := t[0];
      assert t == [k] + [];
      AtCons(source, k, []);
      AtCons(destination, k, []);
    }
  }

  /** The paths written by a recursive call on entry `k`, seen from the root. */
  ghost function Under(k: string, ts: set<Path>): set<Path>
  {
    set t | t in ts :: [k] + t
  }

  /** Paths that differ below a shared entry differ from the root. */
  lemma UnderDiffers(source: Value, destination: Value, k: string, ts: set<Path>)
    requires source.Obj? && destination.Obj?
    requires k in source.fields && k in destination.fields
    requires forall t :: t in ts ==> Differs(source.fields[k], destination.fields[k], t)
    ensures forall t :: t in Under(k, ts) ==> Differs(source, destination, t)
  {
    forall t | t in Under(k, ts) ensures Differs(source, destination, t) {
      var u :| u in ts && t == [k] + u;
      DiffersUnder(source, destination, k, u);
    }
  }

  /** Entry `k` was handed to a recursive call whose writes, recorded in
      `subs[k]`, cover the difference below `k` and are part of `ts`. */
  ghost predicate KeyCoveredBelow(ts: set<Path>, subs: map<string, set<Path>>,
                                  source: Value, destination: Value, k: string)
    requires source.Obj? && destination.Obj?
  {
    && k in subs && k in source.fields && k in destination.fields
    && Covers(subs[k], source.fields[k], destination.fields[k])
    && Under(k, subs[k]) <= ts
  }

  /** Two different maps differ at some key. */
  lemma DifferingKey(a: map<string, Value>, b: map<string, Value>) returns (k: string)
    requires a != b
    ensures (k in a) != (k in b) || (k in a && k in b && a[k] != b[k])
  {
    if a.Keys != b.Keys {
      k :| k in (a.Keys - b.Keys) + (b.Keys - a.Keys);
    } else {
      k :| k in a && a[k] != b[k];
    }
  }

  /** If every key on one side only is written, and every shared key whose
      values differ is either overwritten or covered by a recursive call,
      then the writes cover every differing path of the pair. */
  lemma CoversFromKeys(ts: set<Path>, subs: map<string, set<Path>>, source: Value, destination: Value)
    requires source.Obj? && destination.Obj?
    requires forall k :: (k in source.fields) != (k in destination.fields) ==> [k] in ts
    requires forall k :: k in source.fields && k in destination.fields
               && source.fields[k] != destination.fields[k]
               ==> [k] in ts || KeyCoveredBelow(ts, subs, source, destination, k)
    ensures Covers(ts, source, destination)
  {
    var a, b := source.fields, destination.fields;
    forall p | At(source, p) != At(destination, p) ensures exists t :: t in ts && (t <= p || p <= t) {
      if p == [] {
        var k := DifferingKey(a, b);
        if [k] in ts {
          assert [] <= [k];
        } else {
          assert Covers(subs[k], a[k], b[k]) && At(a[k], []) != At(b[k], []);
          var u :| u in subs[k] && (u <= [] || [] <= u);
          assert [k] + u in Under(k, subs[k]);
          assert [] <= [k] + u;
        }
      } else {
        var k, q := p[0], p[1..];
        assert p == [k] + q;
        AtCons(source, k, q);
        AtCons(destination, k, q);
        assert [k] <= p;
        if [k] !in ts {
          assert k in a && k in b && a[k] != b[k];
          assert At(a[k], q) != At(b[k], q);
          var u :| u in subs[k] && (u <= q || q <= u);
          assert [k] + u in Under(k, subs[k]);
          assert [k] + u <= p || p <= [k] + u;
        }
      }
    }
  }

  /** The bookkeeping of the value loop: every recorded path differs, none
      is the root, the keys written by reconciliation are recorded, and every
      processed shared key whose values differ was overwritten or handed to
      a recursive call whose writes are recorded. */
  ghost predicate Recorded(ts: set<Path>, subs: map<string, set<Path>>,
                           source: Value, destination: Value, done: set<string>)
    requires source.Obj? && destination.Obj?
  {
    var a, b := source.fields, destination.fields;
    && (forall t :: t in ts ==> Differs(source, destination, t))
    && (forall t :: t in ts ==> Frontier(source, destination, t))
    && [] !in ts
    && KeyTouches(source, destination) <= ts
    && forall k :: k in done && k in a && k in b && a[k] != b[k]
         ==> [k] in ts || KeyCoveredBelow(ts, subs, source, destination, k)
  }

  /** Overwriting a differing shared entry with a scalar keeps the record. */
  lemma RecordOverwrite(ts: set<Path>, subs: map<string, set<Path>>,
                        source: Value, destination: Value, done: set<string>, k: string)
    requires source.Obj? && destination.Obj?
    requires Recorded(ts, subs, source, destination, done)
    requires k in source.fields && k in destination.fields
    requires source.fields[k] != destination.fields[k]
    requires source.fields[k].Scalar?
    ensures Recorded(ts + {[k]}, subs, source, destination, done + {k})
  {
    DiffersAtKey(source, destination, k);
    AtCons(source, k, []);
    assert [k] + [] == [k];
  }

  /** Recording a recursive call on a differing shared entry keeps the
      record; when the call succeeds its writes cover the entry. */
  lemma RecordRecursion(ts: set<Path>, subs: map<string, set<Path>>,
                        source: Value, destination: Value, done: set<string>, k: string,
                        sub: set<Path>, ok: bool)
    requires source.Obj? && destination.Obj?
    requires Recorded(ts, subs, source, destination, done)
    requires k in source.fields && k in destination.fields
    requires source.fields[k] != destination.fields[k]
    requires forall t :: t in sub ==> Differs(source.fields[k], destination.fields[k], t)
    requires forall t :: t in sub ==> Frontier(source.fields[k], destination.fields[k], t)
    requires ok ==> Covers(sub, source.fields[k], destination.fields[k])
    ensures Recorded(ts + Under(k, sub), subs, source, destination, done)
    ensures ok ==> Recorded(ts + Under(k, sub), subs[k := sub], source, destination, done + {k})
  {
    UnderDiffers(source, destination, k, sub);
    UnderFrontier(source, destination, k, sub);
    var ts' := ts + Under(k, sub);
    assert [] !in Under(k, sub);
    if ok {
      var a, b := source.fields, destination.fields;
      forall j | j in done + {k} && j in a && j in b && a[j] != b[j]
        ensures [j] in ts' || KeyCoveredBelow(ts', subs[k := sub], source, destination, j)
      {
        if j != k && [j] !in ts' {
          assert KeyCoveredBelow(ts, subs, source, destination, j);
        }
      }
    }
  }

  /** A source key whose entry needs no write keeps the record. */
  lemma RecordSkip(ts: set<Path>, subs: map<string, set<Path>>,
                   source: Value, destination: Value, done: set<string>, k: string)
    requires source.Obj? && destination.Obj?
    requires Recorded(ts, subs, source, destination, done)
    requires k in source.fields
    requires k !in done && k in destination.fields ==> source.fields[k] == destination.fields[k]
    ensures Recorded(ts, subs, source, destination, done + {k})
  {
  }

  /** Frontier paths below a shared entry are frontier paths from the root. */
  lemma UnderFrontier(source: Value, destination: Value, k: string, ts: set<Path>)
    requires source.Obj? && destination.Obj?
    requires k in source.fields && k in destination.fields
    requires forall t :: t in ts ==> Frontier(source.fields[k], destination.fields[k], t)
    ensures forall t :: t in Under(k, ts) ==> Frontier(source, destination, t)
  {
    forall t | t in Under(k, ts) ensures Frontier(source, destination, t) {
      var u :| u in ts && t == [k] + u;
      FrontierUnder(source, destination, k, u);
    }
  }

  /** The call itself. */
  method ApplyDiff(source: Value, destination: Value) returns (r: Outcome, ghost touched: set<Path>)
    decreases source, 2
    ensures source.Scalar? ==> r == Fail(SourceError) && touched == {}
    ensures source.Obj? && destination.Scalar? ==> r == Fail(DestinationError) && touched == {}
    ensures r.Fail? ==> r.message == (if source.Scalar? then SourceError else DestinationError)
    ensures r.Ok? <==> Mergeable(source, destination)
    ensures r.Ok? ==> r.value == source
    ensures forall t :: t in touched ==> Differs(source, destination, t)
    ensures forall t :: t in touched ==> Frontier(source, destination, t)
    ensures [] !in touched
    ensures r.Ok? ==> Covers(touched, source, destination)
    ensures source == destination && source.Obj? ==> r == Ok(destination) && touched == {}
  {
    // type check
    if source.Scalar? {
      return Fail(SourceError), {};
    }
    if destination.Scalar? {
      return Fail(DestinationError), {};
    }
    var sourceKeys := OwnKeys(source.fields);
    var destinationKeys := OwnKeys(destination.fields);
    var dst := ReconcileKeys(source.fields, destination.fields, sourceKeys, destinationKeys);
    KeyTouchesDiffer(source, destination);
    r, touched := ReconcileValues(source, destination, sourceKeys, dst, KeyTouches(source, destination));
    if source == destination && touched != {} {
      var t :| t in touched;
      EqualHasNoDifferingPath(source, t);
      assert false;
    }
  }

  /** The state of the value loop after the keys in `done`: those entries
      equal the source's, the others are as key reconciliation left them,
      and every processed entry that recursed did so on a successful pair. */
  ghost predicate Progressed(source: Value, destination: Value, dst: map<string, Value>,
                             d: map<string, Value>, done: set<string>)
    requires source.Obj? && destination.Obj?
  {
    var a, b := source.fields, destination.fields;
    && d.Keys == a.Keys
    && (forall k :: k in done ==> k in d && d[k] == a[k])
    && (forall k :: k in d && k !in done ==> k in dst && d[k] == dst[k])
    && forall k :: k in done && k in b && a[k] != b[k] && a[k].Obj?
         ==> Mergeable(a[k], b[k])
  }

  /** The `for…in` loop over the source keys (index.js:69-81), run on `dst`,
      the destination after key reconciliation. `touched` enters holding the
      paths written by key reconciliation. */
  method ReconcileValues(source: Value, destination: Value, sourceKeys: seq<string>,
                         dst: map<string, Value>, ghost touched0: set<Path>)
    returns (r: Outcome, ghost touched: set<Path>)
    requires source.Obj? && destination.Obj?
    requires Elems(sourceKeys) == source.fields.Keys
    requires dst == AddThenDelete(source.fields, destination.fields)
    requires touched0 == KeyTouches(source, destination)
    decreases source, 1
    ensures r.Fail? ==> r.message == DestinationError
    ensures r.Ok? <==> Mergeable(source, destination)
    ensures r.Ok? ==> r.value == source
    ensures touched0 <= touched
    ensures forall t :: t in touched ==> Differs(source, destination, t)
    ensures forall t :: t in touched ==> Frontier(source, destination, t)
    ensures [] !in touched
    ensures r.Ok? ==> Covers(touched, source, destination)
  {
    var d := dst;
    KeyTouchesDiffer(source, destination);
    KeyTouchesAtFrontier(source, destination);
    assert [] !in touched0;
    touched := touched0;
    ghost var done: set<string> := {};
    // the paths written by each recursive call, by key
    ghost var subs: map<string, set<Path>> := map[];
    for i := 0 to |sourceKeys|
      invariant done == Elems(sourceKeys[..i])
      invariant Progressed(source, destination, dst, d, done)
      invariant Recorded(touched, subs, source, destination, done)
    {
      var property := sourceKeys[i];
      ElemsSnoc(sourceKeys, i);
      var error;
      error, d, touched, subs := ReconcileEntry(source, destination, dst, d, property, done, touched, subs);
      if error.Some? {
        return Fail(error.value), touched;
      }
      done := done + {property};
    }
    assert sourceKeys[..|sourceKeys|] == sourceKeys;
    assert d == source.fields;
    r := Ok(Obj(d));
    assert forall k :: (k in source.fields) != (k in destination.fields) ==> [k] in KeyTouches(source, destination);
    CoversFromKeys(touched, subs, source, destination);
  }

  /** One iteration of the value loop (index.js:72-80): an entry equal to
      the source's is left alone, a differing scalar overwrites it, and a
      differing object recurses, whose failure is rethrown. */
  method ReconcileEntry(source: Value, destination: Value, dst: map<string, Value>,
                        d: map<string, Value>, property: string, ghost done: set<string>,
                        ghost touched: set<Path>, ghost subs: map<string, set<Path>>)
    returns (error: Option<string>, d': map<string, Value>,
             ghost touched': set<Path>, ghost subs': map<string, set<Path>>)
    requires source.Obj? && destination.Obj?
    requires property in source.fields
    requires dst == AddThenDelete(source.fields, destination.fields)
    requires Progressed(source, destination, dst, d, done)
    requires Recorded(touched, subs, source, destination, done)
    decreases source, 0
    ensures error.None? ==> Progressed(source, destination, dst, d', done + {property})
    ensures error.None? ==> Recorded(touched', subs', source, destination, done + {property})
    ensures error.Some? ==> error.value == DestinationError && !Mergeable(source, destination)
    ensures error.Some? ==> Recorded(touched', subs, source, destination, done)
  {
    var src := source.fields;
    d', touched', subs' := d, touched, subs;
    error := None;
    if src[property] != d[property] {
      assert property in destination.fields && d[property] == destination.fields[property];
      if src[property].Scalar? {
        d' := d[property := src[property]];
        RecordOverwrite(touched, subs, source, destination, done, property);
        touched' := touched + {[property]};
      } else {
        var sub;
        ghost var subTouched;
        sub, subTouched := ApplyDiff(src[property], d[property]);
        RecordRecursion(touched, subs, source, destination, done, property, subTouched, sub.Ok?);
        touched' := touched + Under(property, subTouched);
        if sub.Fail? {
          FailureBubblesUp(source, destination, property);
          return Some(sub.message), d', touched', subs';
        }
        subs' := subs[property := subTouched];
        d' := d[property := sub.value];
      }
    } else {
      RecordSkip(touched, subs, source, destination, done, property);
    }
  }

  /** At path `p` the source holds an object and the destination a scalar. */
  ghost predicate ObjectOverScalar(source: Value, destination: Value, p: Path)
  {
    && At(source, p).Some? && At(source, p).value.Obj?
    && At(destination, p).Some? && At(destination, p).value.Scalar?
  }

  /** A successful pair has no path with an object over a scalar. */
  lemma {:induction false} MergeableHasNoObjectOverScalar(source: Value, destination: Value, p: Path)
    requires Mergeable(source, destination)
    ensures !ObjectOverScalar(source, destination, p)
    decreases |p|
  {
    if p != [] && ObjectOverScalar(source, destination, p) {
      var k, q := p[0], p[1..];
      assert p == [k] + q;
      AtCons(source, k, q);
      AtCons(destination, k, q);
      var s, d := source.fields[k], destination.fields[k];
      assert s.Obj? && s != d;
      MergeableHasNoObjectOverScalar(s, d, q);
    }
  }

  /** A failing pair of objects has a path with an object over a scalar:
      the error always comes from the type check of some recursive call. */
  lemma {:induction false} BlockingPath(source: Value, destination: Value) returns (p: Path)
    requires source.Obj? && destination.Obj?
    requires !Mergeable(source, destination)
    ensures ObjectOverScalar(source, destination, p)
    decreases source
  {
    var k :| k in source.fields && k in destination.fields
      && source.fields[k] != destination.fields[k] && source.fields[k].Obj?
      && !Mergeable(source.fields[k], destination.fields[k]);
    var s, d := source.fields[k], destination.fields[k];
    if d.Scalar? {
      p := [k];
      AtCons(source, k, []);
      AtCons(destination, k, []);
      assert [k] + [] == p;
    } else {
      var q := BlockingPath(s, d);
      p := [k] + q;
      AtCons(source, k, q);
      AtCons(destination, k, q);
    }
  }

  /** On two objects the call fails exactly when, at some path, the source
      holds an object and the destination a scalar. */
  lemma FailsExactlyOnObjectOverScalar(source: Value, destination: Value)
    requires source.Obj? && destination.Obj?
    ensures Mergeable(source, destination) <==> forall p :: !ObjectOverScalar(source, destination, p)
  {
    if Mergeable(source, destination) {
      forall p ensures !ObjectOverScalar(source, destination, p) {
        MergeableHasNoObjectOverScalar(source, destination, p);
      }
    } else {
      var p := BlockingPath(source, destination);
    }
  }

  /** An object in the source over a scalar in the destination at a shared
      key fails, instead of replacing the scalar. */
  lemma ObjectOverScalarFails(source: Value, destination: Value, k: string)
    requires source.Obj? && destination.Obj?
    requires k in source.fields && k in destination.fields
    requires source.fields[k].Obj? && destination.fields[k].Scalar?
    ensures !Mergeable(source, destination)
  {
  }
}
