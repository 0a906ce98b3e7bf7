# apply-diff in Dafny

A model of `applyDiff(source, destination)` from the apply-diff package. The function
rewrites `destination` level by level until it is deeply equal to `source`:

1. it type-checks both arguments,
2. it takes both key lists,
3. it reconciles the keys in three blocks (delete destination-only keys, add
   source-only keys, then both),
4. it walks the source keys. Equal values are left alone. A differing scalar
   overwrites the destination value. A differing object recurses.

Files:

- `values.dfy` (module `JsValues`): JavaScript values as `Scalar(atom) | Obj(fields)`.
  An array is an `Obj` keyed by its indices. `_.isEqual` is Dafny's `==`. The file also
  defines paths (`At`) and the predicate `Differs(a, b, t)`. It says that the path `t`
  and every prefix of it lead to different places in `a` and `b`.
- `keys.dfy` (module `KeyLists`): `Object.keys` (`OwnKeys`), `_.difference`
  (`Difference`), and the `forEach` delete and copy loops (`DeleteKeys`, `CopyKeys`).
  `ReconcileKeys` runs the three reconciliation blocks as written. Like the source, it
  uses the key lists taken once before any block runs. Its contract proves that the
  three blocks have the same effect as one add-then-delete pass (`AddThenDelete`).
- `apply_diff.dfy` (module `ApplyDiff`):
  - `ApplyDiff`, the value loop `ReconcileValues` and its body `ReconcileEntry`,
    which are mutually recursive. Recursion ends because `source` gets structurally
    smaller.
  - A call returns `Ok(newDestination)` or `Fail(message)`. The message is either
    "source should be an object" or "destination should be an object".
  - A ghost out-parameter `touched` records the paths the call assigned or deleted.
    On success it is proved to account for every write. `Covers` says that every
    path where source and destination differ is a prefix or an extension of a
    recorded path.
  - The predicate `Mergeable` says when a call succeeds.
  - Lemmas describe when a call fails.

What is proved:

- **Type check.** A scalar source fails with the source message. Otherwise a scalar
  destination fails with the destination message. In both cases nothing at that
  level has been written yet.
- **Convergence.** A successful call yields exactly `source`.
- **Key reconciliation.** The result has exactly the source's keys. Shared entries keep
  the destination's value. Added entries take the source's value.
- **Identity preservation.** Every recorded write lies at a path where source and
  destination differ, and so do all its prefixes. The root itself is never written.
  Each write is an assignment or a deletion at a "frontier" path (`Frontier`).
  There, one side lacks the path, or the source holds a scalar. Both facts hold
  whether the call succeeds or throws. On success, the recorded writes also cover
  every differing path. Together these say two things:
  - a subtree on which the two sides agree is never written into;
  - a destination object over a differing source object is never replaced
    wholesale. It is reconciled below, so its equal children are left in place.
- **No-op on equal input.** Equal object input returns the destination and writes nothing; equal scalars still fail with the source message (index.js:16-17). More generally, no recorded write touches a path at which both sides already hold the same value: it is neither that path, nor above it, nor inside it (`EqualPathUntouched`).
  This gives idempotence: a second call receives `source` twice and changes nothing.
- **Failure.** On two objects, a call fails exactly when some path holds an object in
  the source and a scalar in the destination. Every nested failure carries the
  destination message.

Where the code and its comments or tests disagree, the model follows the code:

- The comment at index.js:46-50 describes the third block as the equal-length case.
  The code runs it whenever the two ordered key lists differ. `ReconcileKeys` models
  the code, and its contract shows that the extra work does no harm.
- test/specs.js:76-82 expects an object in the source to replace a scalar in the
  destination. The code recurses instead, and the recursive call throws "destination
  should be an object" (index.js:19-20, 78). `ObjectOverScalarFails` states the
  code's behaviour.

## Model

| member | source | states |
|---|---|---|
| KeyLists.OwnKeys | index.js:23-24 | the key list holds exactly the object's own keys, each once |
| KeyLists.Difference | index.js:30 | `_.difference(a, b)` holds exactly the keys of `a` not in `b`, and has no duplicates when `a` has none |
| KeyLists.DeleteKeys | index.js:32-34 | deleting every listed key removes exactly those keys and nothing else |
| KeyLists.CopyKeys | index.js:41-43 | copying every listed key sets each one to the source's value and leaves the other entries alone |
| KeyLists.AddThenDelete | index.js:29-62 | after reconciliation the keys are exactly the source's keys; a shared key keeps the destination's value; an added key holds the source's value |
| KeyLists.ReconcileKeys | index.js:23-62 | the three blocks, run on the stale key lists, have the same effect as one add-source-only-then-delete-destination-only pass |
| ApplyDiff.ApplyDiff | index.js:13-82 | type-check errors with their messages and no write before them; success exactly when `Mergeable`; a successful result equals `source`; every recorded write lies at a differing path and is not the root; every recorded write is at a frontier (one side lacks the path or the source holds a scalar), so an object over an object is never replaced wholesale; on success the recorded writes cover every differing path; equal object input returns the destination and writes nothing |
| ApplyDiff.ReconcileValues | index.js:69-81 | after the loop every entry equals the source's entry; failure propagates with the destination message exactly when the pair is not `Mergeable`; the reconciliation writes stay recorded; every recorded write lies at a differing frontier path; on success the recorded writes cover every differing path, so only differing entries were written and object entries were reconciled rather than replaced |
| ApplyDiff.ReconcileEntry | index.js:72-80 | one iteration: afterwards the entry equals the source's; an equal entry gets no write; a differing entry is recorded as overwritten only when the source value is a scalar, and otherwise as covered by the recursive call's writes; a failed recursion yields the destination message and a non-`Mergeable` pair |
| ApplyDiff.CoversFromKeys | index.js:29-81 | if every key on one side only is written and every differing shared key is overwritten or covered below, the writes cover every differing path of the pair |
| ApplyDiff.KeyTouchesDiffer | index.js:29-62 | every key added or deleted by reconciliation is a path where source and destination differ |
| ApplyDiff.UnderDiffers | index.js:78 | a write made by the recursive call on entry `k` lies at a path that differs from the root |
| ApplyDiff.FailureBubblesUp | index.js:78 | a failing recursive call on a differing shared key makes the enclosing call fail |
| ApplyDiff.EqualHasNoDifferingPath | index.js:72 | no path differs between a value and itself |
| ApplyDiff.KeyTouchesAtFrontier | index.js:29-62 | every key added or deleted by reconciliation is missing on one side |
| ApplyDiff.UnderFrontier | index.js:78 | a frontier write made by the recursive call on entry `k` is a frontier write from the root |
| ApplyDiff.MergeableHasNoObjectOverScalar | index.js:72-79 | a successful pair has no path where the source holds an object and the destination a scalar |
| ApplyDiff.BlockingPath | index.js:16-21 | a failing pair of objects has a path where the source holds an object and the destination a scalar |
| ApplyDiff.FailsExactlyOnObjectOverScalar | index.js:13-82 | on two objects the call succeeds if and only if no path has an object over a scalar |
| ApplyDiff.ObjectOverScalarFails | index.js:75-78 | an object-valued source entry over a scalar destination entry makes the call fail instead of replacing the scalar |
| JsValues.DiffersUnder | index.js:78 | a path that differs below a shared entry also differs from the root |
| JsValues.AtAppend | index.js:78 | reading along `t + q` is reading along `t` and then along `q` from the value found there, so a recursive call's paths extend its parent's |
| JsValues.PrefixDiffers | index.js:72 | every prefix of a differing path is itself a differing path |
| JsValues.ExtensionDiffers | index.js:74-79 | below a differing frontier path no path holds the same value on both sides |
| JsValues.EqualPathUntouched | index.js:69-81 | a write at a differing frontier path is neither equal to, above, nor inside any path whose value is already the same on both sides, so deeply equal entries are left untouched |

## Left out

- In-place update and reference identity. `ApplyDiff` returns the new destination
  instead of mutating it. It does not model which object instances survive. The
  `touched` paths state identity preservation instead. No write falls inside a
  subtree that source and destination already share. No object that both sides
  hold at a path is replaced wholesale. The model also leaves out
  aliasing, subtrees that added keys share with the source, and cyclic inputs.
- Partial mutation after a throw. A nested failure returns `Fail` and discards the
  partly updated destination. `touched` still records the writes made before the
  throw.
- ApplyDiff: on failure only one direction is stated, namely that every recorded
  write lies at a differing frontier path. That the record covers every differing path is
  stated on success only, because a throw leaves the rest of the difference
  unwritten.
- Array `length` and the array/plain-object distinction. Arrays are index-keyed
  objects. `delete` on an array leaves a hole and does not shrink the array, so the
  expected length at test/specs.js:226 is not modelled. Convergence holds apart
  from the array/object distinction.
- Key enumeration order. `Value` does not record insertion order, so `OwnKeys` may
  return any order. Order matters only at index.js:51, and reordered keys produce
  no writes there.
- Inherited enumerable properties. The model leaves out what `for…in` would see on a
  prototype.
- Underscore internals: `_.isObject` treating functions as objects, and `_.isEqual`
  on NaN, ±0, Dates, RegExps and prototypes. Scalars are abstract atoms, with
  numbers as integers and no floating point.
- The module's export shape. index.js:84 exports the bare function. The mixin that
  test/specs.js:5-16 expects is not part of this model.
