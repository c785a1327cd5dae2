# Field validation orchestration, modelled in Dafny

This project models the validation context of json-render's React package
(`packages/react/src/contexts/validation.tsx`). It is the engine that:

- keeps a registry of per-field validation configurations;
- keeps a store of per-field validation state (touched, validated, last result);
- resolves a field's value from the shared state snapshot by walking its slash path;
- hands that value to the rule evaluator and records the result;
- validates every registered field at once;
- gives each rendered field an adapter that re-registers its configuration only when it has structurally changed.

Modules, one per component of the source file:

- `Types` (types.dfy): the snapshot (`Json`) and check arguments (`DynamicValue`: a literal or a `{ $state }` reference). Also `ValidationConfig`, `ValidationResult`, `FieldState` and the default field state.
- `Equality` (equality.dfy): `dynamicArgsEqual` and `validationConfigEqual`, with their characterisation as structural equality.
- `Paths` (paths.dfy): `path.split("/").filter(Boolean)` and the member access `value[seg]`. Also the walk, both as a function (`Lookup`) and as the loop of `validate` (`ResolvePath`).
- `Provider` (provider.dfy): the `ValidationProvider` class. Its fields are the two state maps, the `Object.entries` order of the registry and two revision counters. A counter stays put when a setter's updater returns the previous object and goes up when it returns a new one; this is how the model tells "same object" from "equal value". The module also holds the updaters and the validate-all fold.
- `Binding` (binding.dfy): `useFieldValidation` as a `FieldBinding` class with its `lastConfigRef` slot, and the `state`/`errors`/`isValid` defaults. The hook receives its path anew on every render, so each operation takes the current path as a parameter. The class keeps the source's path-free slot. The path-keyed guard from "## Findings" is defined beside it, and its soundness is proved.

The rule evaluator (`runValidation` with the provider's custom functions bound in) is the provider's constant `evaluate`, an uninterpreted function of configuration, resolved value and snapshot. The state snapshot is an explicit parameter of `validate` and `validateAll`. Each state setter is applied at once, in call order.

## Model

| member | source | states |
|---|---|---|
| Equality.ArgsEqualIsEquality | packages/react/src/contexts/validation.tsx:68-97 | `dynamicArgsEqual` holds iff the two argument records are structurally equal. Two absent records are equal. Absent vs present is unequal. Present records must have the same keys with `===` literals or `$state` references to the same path, so a literal never equals a reference, for argument values that are literals or references (no `undefined` or `NaN`; see "## Left out") |
| Equality.ArgValueEqualIsEquality | packages/react/src/contexts/validation.tsx:79-95 | the per-key test passes exactly when `b` holds the same value at that key; a missing key fails |
| Equality.EqualArgsPassKeyByKey | packages/react/src/contexts/validation.tsx:79-95 | the key-by-key comparison on its own accepts two copies of the same record, so taking `a === b` on values rather than on object identity changes no answer |
| Equality.AbsentArgsDifferFromEmpty | packages/react/src/contexts/validation.tsx:72-73 | an absent argument record is unequal to an empty one, in both orders |
| Equality.CheckEqualIsEquality | packages/react/src/contexts/validation.tsx:117-121 | one loop step passes iff the two checks agree on type, message and arguments |
| Equality.ChecksEqualIsEquality | packages/react/src/contexts/validation.tsx:114-124 | the length test plus the pairwise loop pass iff the check lists are equal |
| Equality.ConfigEqualIff | packages/react/src/contexts/validation.tsx:102-125 | `validationConfigEqual` holds iff `validateOn` matches and the check lists, with absent read as `[]`, are equal; any differing type, message or argument makes configs unequal |
| Equality.AbsentChecksEqualEmpty | packages/react/src/contexts/validation.tsx:112-113 | a config without `checks` equals the same config with `checks: []` |
| Equality.ConfigEqualReflexive | packages/react/src/contexts/validation.tsx:106 | every config equals itself |
| Equality.ConfigEqualSymmetric | packages/react/src/contexts/validation.tsx:102-125 | config equality is symmetric |
| Equality.ConfigEqualTransitive | packages/react/src/contexts/validation.tsx:102-125 | config equality is transitive |
| Paths.JoinSplit | packages/react/src/contexts/validation.tsx:160 | joining the pieces of `split("/")` with "/" gives the path back |
| Paths.SplitJoin | packages/react/src/contexts/validation.tsx:160 | splitting a join of "/"-free pieces gives the pieces back |
| Paths.SplitPiecesHaveNoSlash | packages/react/src/contexts/validation.tsx:160 | no piece of a split contains "/" |
| Paths.SplitWithoutSlash | packages/react/src/contexts/validation.tsx:160 | a string without "/" splits into itself alone |
| Paths.SplitAtSlash | packages/react/src/contexts/validation.tsx:160 | splitting `x/y` gives the split of `x` followed by the split of `y` |
| Paths.NonEmptyConcat | packages/react/src/contexts/validation.tsx:160 | `filter(Boolean)` distributes over concatenation |
| Paths.NonEmptyKeeps | packages/react/src/contexts/validation.tsx:160 | `filter(Boolean)` keeps exactly the non-empty pieces |
| Paths.SegmentsWellFormed | packages/react/src/contexts/validation.tsx:160 | every segment is non-empty and "/"-free, and every non-empty piece is a segment |
| Paths.SegmentsAtSlash | packages/react/src/contexts/validation.tsx:160 | the segments of `x/y` are those of `x` then those of `y`; leading, trailing and doubled separators change nothing |
| Paths.SegmentsOfName | packages/react/src/contexts/validation.tsx:160 | a non-empty "/"-free name is one segment |
| Paths.SegmentsOfRoot | packages/react/src/contexts/validation.tsx:160 | "" and "/" have no segments, so they resolve to the whole snapshot |
| Paths.IndexStringDigits | packages/react/src/contexts/validation.tsx:164 | the decimal numeral of an index is non-empty digits, has a leading zero only for 0, and denotes the index |
| Paths.IndexRoundTrip | packages/react/src/contexts/validation.tsx:164 | an array index parsed from its own numeral is that index |
| Paths.ArrayElement | packages/react/src/contexts/validation.tsx:163-164 | indexing an array with the numeral of `i < length` yields element `i` |
| Paths.LookupFromLeaf | packages/react/src/contexts/validation.tsx:163-168 | from null, undefined or a primitive, any remaining segment yields `undefined` |
| Paths.LookupConcat | packages/react/src/contexts/validation.tsx:161-169 | walking `s1 + s2` is walking `s1` and then `s2` from there |
| Paths.ResolveAtSlash | packages/react/src/contexts/validation.tsx:159-169 | resolving `x/y` is resolving `y` from the value at `x` |
| Paths.MissingIntermediate | packages/react/src/contexts/validation.tsx:159-169 | "/a/b/c" against `{ a: {} }` resolves to `undefined` |
| Paths.ResolvePath | packages/react/src/contexts/validation.tsx:159-169 | the loop with its early `break` reaches exactly the value the walk specification `Lookup` gives for the path's segments |
| Provider.RegisterStoresEqual | packages/react/src/contexts/validation.tsx:142-155 | after `registerField`, the registry has `path` mapped to a config equal to the one given, and no other key or entry changed |
| Provider.RegisterIdempotent | packages/react/src/contexts/validation.tsx:144-150 | re-registering a config equal to the previous registration at the same path returns the previous registry object |
| Provider.RegisterDistinctReplaces | packages/react/src/contexts/validation.tsx:148-151 | registering a config with a different trigger or check list replaces the stored one with a new registry object |
| Provider.TouchAfterValidate | packages/react/src/contexts/validation.tsx:190-200 | touching a validated field keeps `validated` and `result` and sets `touched` |
| Provider.ValidateKeepsTouched | packages/react/src/contexts/validation.tsx:176-183 | the entry `validate` writes has `touched` as before (true when new), `validated = true` and the new result |
| Provider.ValidatedInOrderPointwise | packages/react/src/contexts/validation.tsx:209-220 | validating distinct paths in order gives each of them its own validation entry and leaves all other entries unchanged |
| Provider.AllValidInOrderIff | packages/react/src/contexts/validation.tsx:209-220 | the accumulated `allValid` is true iff every result is valid, and true for no fields |
| Provider.ValidateAllEffect | packages/react/src/contexts/validation.tsx:209-220 | validating all registered paths in enumeration order leaves each registered path with its own validation entry and keeps other entries. The flag is the AND of all results, so the enumeration order does not affect the outcome |
| Provider.ValidationProvider.constructor | packages/react/src/contexts/validation.tsx:130-140 | both maps start empty and the store invariant holds |
| Provider.ValidationProvider.RegisterField | packages/react/src/contexts/validation.tsx:142-155 | if an equal config is stored at `path`, registry, order and revision are unchanged; otherwise `path` maps to the new config, only that entry changes, the revision goes up and a new path joins the enumeration order at the end |
| Provider.ValidationProvider.Validate | packages/react/src/contexts/validation.tsx:157-188 | returns the evaluator's result on the resolved value and the whole snapshot; writes `{touched: previous or true, validated: true, result}` at `path` on every call; leaves other paths alone |
| Provider.ValidationProvider.Touch | packages/react/src/contexts/validation.tsx:190-200 | sets `touched` and keeps `validated`/`result`, which default to false/null; leaves other paths alone |
| Provider.ValidationProvider.Clear | packages/react/src/contexts/validation.tsx:202-207 | removes the entry at `path` and keeps every other entry |
| Provider.ValidationProvider.ValidateAll | packages/react/src/contexts/validation.tsx:209-220 | validates every registered field with no early exit, one new store object per field. Returns true iff every result is valid (true when nothing is registered). Every registered path ends validated with its own result; unregistered entries are unchanged |
| Binding.UnvalidatedIsValid | packages/react/src/contexts/validation.tsx:332-333 | a field without a result has `isValid = true` and `errors = []` |
| Binding.ClearedReadsDefault | packages/react/src/contexts/validation.tsx:313-317 | after `clear` the field reads `{touched: false, validated: false, result: null}` and other fields read as before |
| Binding.InvalidOnlyAfterValidation | packages/react/src/contexts/validation.tsx:313-333 | in the store the provider maintains, a field reads invalid iff it was validated and its last result is invalid |
| Binding.TouchKeepsVerdict | packages/react/src/contexts/validation.tsx:190-200 | touching a field leaves its `errors` and `isValid` unchanged |
| Binding.GuardSkipsOnlyNoOps | packages/react/src/contexts/validation.tsx:296-305 | when the registry holds, at the same path, a config equal to the adapter's last one and the guard does not fire for the new config, `registerField` would have kept the registry object, so skipping it loses nothing |
| Binding.PathChangeSkipsRegistration | packages/react/src/contexts/validation.tsx:296-311 | as written, through the provider and adapter classes: registering "/a" with a config and then syncing "/b" with an equal config leaves "/b" unregistered and the enumeration order `["/a"]`, although registering would have added "/b" |
| Binding.KeyedGuardSound | packages/react/src/contexts/validation.tsx:296-305 | corrected guard, keyed by path and config: a skipped registration is a no-op at any path, and afterwards the slot is in sync with the registry and the path is registered |
| Binding.FieldBinding.constructor | packages/react/src/contexts/validation.tsx:284 | the last-registered slot starts empty |
| Binding.FieldBinding.SyncRegistration | packages/react/src/contexts/validation.tsx:296-311 | one run of the effect with the adapter's current path. Registers only when the slot is empty or differs from the config, and then stores the config; the new registry, its order (the path appended when new) and its revision are stated, and the slot ends in sync at that path. Otherwise the registry, order and revision are unchanged. An absent config empties the slot. When the slot is already in sync at the current path, the registry ends as if `registerField` had always been called. The slot is not keyed by path (see Findings) |
| Binding.FieldBinding.Validate | packages/react/src/contexts/validation.tsx:319-322 | validates the field with its config or `{ checks: [] }`; afterwards `isValid` and `errors` are those of the result; the store's revision goes up by one |
| Binding.FieldBinding.Touch | packages/react/src/contexts/validation.tsx:324 | marks the field touched; `errors` and `isValid` are unchanged; the store's revision goes up by one |
| Binding.FieldBinding.Clear | packages/react/src/contexts/validation.tsx:325 | removes the field's entry; it then reads as the default state, valid with no errors; the store's revision goes up by one |

## Left out

- `runValidation` and what each check means (`required`, `email`, `minLength`, custom functions): these live in `@json-render/core`, which is not part of this model. The evaluator is an uninterpreted function, with the custom functions bound into it.
- `useStateStore`: the reactive store is external. The snapshot is a parameter, and the model never changes it.
- React plumbing is not modelled: context creation, the throw of `useValidation` outside a provider, `useMemo`/`useCallback` dependency lists, and render and batching timing. Each setter's updater is applied immediately and in sequence.
- `configKey` and effect scheduling are not modelled. `SyncRegistration` is one run of the registration effect's body. When React re-runs that effect is not modelled. `configKey` leaves check arguments out, so when only a config's arguments change React may not re-run the effect at all; the model does not capture this.
- Reference identity: `a === b` shortcuts are taken on values. The key-by-key comparisons accept two copies of the same value (`Equality.EqualArgsPassKeyByKey`, `Equality.ChecksEqualIsEquality`), so this gives the same answers. Whether a setter produced a new object is tracked by the revision counters.
- The evaluator is total: `runValidation` is assumed never to throw. Neither `validate` nor `validateAll` catches an exception, so a throw there would leave the field's state unwritten in `validate`. In `validateAll` the fields before the throwing one would already be written and the later ones never validated, and no verdict would be returned. The model does not capture either outcome.
- Numbers are Dafny reals, so `NaN !== NaN` is not modelled.
- Object members inherited through the prototype chain (for example `toString` or an array's `map`) read as `undefined` here. Arrays answer only canonical indices and `length`.
- `Object.entries` puts integer-like keys first in ascending order. The model enumerates registrations in first-registration order only. Only the order in which `validateAll` writes depends on this; its result and final store do not.
- The apps/web generation route and the rate limiter are request and response glue around external services and are not part of this model.
- Equality.ArgsEqualIsEquality: argument values are modelled as literals (string, number, boolean, null) and `{ $state }` references only; an `undefined` value and `NaN` are not modelled. With them `dynamicArgsEqual` is not structural equality. `dynamicArgsEqual({x: undefined}, {y: undefined})` is true: both records have one key and `a.x === b.x` is `undefined === undefined`, so a key missing from `b` passes. A `NaN` literal is unequal to itself, so a record holding `NaN` equals only the very same object.
- With one argument record absent and the other empty, `dynamicArgsEqual` returns false, and the model keeps that: an absent record and an empty one are not interchangeable (`Equality.AbsentArgsDifferFromEmpty`).

## Findings

| source | as written | input that shows it | evidently intended | confidence | as-written member | corrected member |
|---|---|---|---|---|---|---|
| packages/react/src/contexts/validation.tsx:296-311 | the `lastConfigRef` slot holds only a configuration, and the guard compares only configurations, although the effect re-runs when `path` changes | render 1 with path "/a" and config C registers "/a"; render 2 with path "/b" and a config equal to C skips `registerField`, so "/b" is never registered and `validateAll` skips it | the slot records the path with the configuration, and the guard also fires when the path differs | medium, not executed | Binding.PathChangeSkipsRegistration | Binding.KeyedGuardSound |
