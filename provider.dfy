/** The validation provider: the field registry (path to configuration), the
    field-state store (path to touched/validated/result) and the operations
    over them. Each state setter of the provider is applied at once, in call
    order. */
module Provider {
  import opened Types
  import opened Equality
  import opened Paths

  /** What an updater passed to a state setter returns: the previous object
      itself (no change is signalled to observers) or a new object. */
  datatype Update<T> = KeepPrevious | Replace(next: T)

  /** The value held after the setter has applied an update. */
  function Applied<T>(prev: T, u: Update<T>): T {
    if u.KeepPrevious? then prev else u.next
  }

  type Configs = map<string, ValidationConfig>
  type States = map<string, FieldState>

  /** `prev[path]`, absent as `None`. */
  function StateAt(states: States, path: string): Option<FieldState> {
    if path in states then Some(states[path]) else None
  }

  /** The updater of `registerField`: bail out with the previous registry when
      an equal configuration is already stored at `path`. */
  function RegisterUpdate(prev: Configs, path: string, config: ValidationConfig): Update<Configs> {
    if path in prev && ConfigEqual(prev[path], config) then KeepPrevious
    else Replace(prev[path := config])
  }

  /** The entry `validate` writes over the previous one. */
  function Validated(prev: Option<FieldState>, result: ValidationResult): FieldState {
    FieldState(if prev.Some? then prev.value.touched else true, true, Some(result))
  }

  /** The entry `touch` writes over the previous one. */
  function Touched(prev: Option<FieldState>): FieldState {
    match prev
    case Some(s) => FieldState(true, s.validated, s.result)
    case None => FieldState(true, false, None)
  }

  /** In every stored entry a result is present exactly when the field has
      been validated. */
  ghost predicate Consistent(states: States) {
    forall p :: p in states ==> (states[p].validated <==> states[p].result.Some?)
  }

  /** After a registration the registry holds, at `path`, a configuration
      equal to the one registered, and no other entry has changed. */
  lemma RegisterStoresEqual(prev: Configs, path: string, config: ValidationConfig)
    ensures var next := Applied(prev, RegisterUpdate(prev, path, config));
      && next.Keys == prev.Keys + {path}
      && ConfigEqual(next[path], config)
      && forall q :: q in prev && q != path ==> next[q] == prev[q]
  {
  }

  /** Registering a configuration equal to one already registered at the same
      path keeps the previous registry object: the second of two equal
      registrations never signals a change. */
  lemma RegisterIdempotent(prev: Configs, path: string, c1: ValidationConfig, c2: ValidationConfig)
    requires ConfigEqual(c1, c2)
    ensures RegisterUpdate(Applied(prev, RegisterUpdate(prev, path, c1)), path, c2) == KeepPrevious
  {
    var mid := Applied(prev, RegisterUpdate(prev, path, c1));
    ConfigEqualTransitive(mid[path], c1, c2);
  }

  /** Registering a configuration whose trigger or checks differ from the one
      stored at `path` (an absent check list read as empty) replaces it. */
  lemma RegisterDistinctReplaces(prev: Configs, path: string, config: ValidationConfig)
    requires path in prev
    requires prev[path].validateOn != config.validateOn || prev[path].ChecksOrEmpty() != config.ChecksOrEmpty()
    ensures RegisterUpdate(prev, path, config) == Replace(prev[path := config])
  {
    ConfigEqualIff(prev[path], config);
  }

  /** Touching a validated field keeps its result and validated flag. */
  lemma TouchAfterValidate(prev: Option<FieldState>, result: ValidationResult)
    ensures Touched(Some(Validated(prev, result))) == FieldState(true, true, Some(result))
  {
  }

  /** Validating keeps the touched flag of an existing entry and marks a new
      entry touched. */
  lemma ValidateKeepsTouched(prev: Option<FieldState>, result: ValidationResult)
    ensures Validated(prev, result).touched == (prev.None? || prev.value.touched)
    ensures Validated(prev, result).validated && Validated(prev, result).result == Some(result)
  {
  }

  /** The result `validate` reaches for the registered path `path` on the
      snapshot `state`. */
  function OutcomeOf(evaluate: Evaluator, configs: Configs, path: string, state: Json): ValidationResult
    requires path in configs
  {
    evaluate(configs[path], Lookup(state, Segments(path)), state)
  }

  predicate Distinct(paths: seq<string>) {
    forall i, j :: 0 <= i < j < |paths| ==> paths[i] != paths[j]
  }

  /** The field-state store after validating `paths` one after the other. */
  function ValidatedInOrder(states: States, paths: seq<string>, evaluate: Evaluator, configs: Configs, state: Json): States
    requires forall p :: p in paths ==> p in configs
    decreases |paths|
  {
    if paths == [] then states
    else
      var last := paths[|paths| - 1];
      var before := ValidatedInOrder(states, paths[..|paths| - 1], evaluate, configs, state);
      before[last := Validated(StateAt(before, last), OutcomeOf(evaluate, configs, last, state))]
  }

  /** The `allValid` flag after validating `paths` one after the other. */
  function AllValidInOrder(paths: seq<string>, evaluate: Evaluator, configs: Configs, state: Json): bool
    requires forall p :: p in paths ==> p in configs
    decreases |paths|
  {
    if paths == [] then true
    else
      AllValidInOrder(paths[..|paths| - 1], evaluate, configs, state)
      && OutcomeOf(evaluate, configs, paths[|paths| - 1], state).valid
  }

  /** One more validation extends the fold by one entry. */
  lemma InOrderStep(states: States, paths: seq<string>, path: string, evaluate: Evaluator, configs: Configs, state: Json)
    requires forall p :: p in paths ==> p in configs
    requires path in configs
    ensures var before := ValidatedInOrder(states, paths, evaluate, configs, state);
      ValidatedInOrder(states, paths + [path], evaluate, configs, state)
        == before[path := Validated(StateAt(before, path), OutcomeOf(evaluate, configs, path, state))]
    ensures AllValidInOrder(paths + [path], evaluate, configs, state)
      == (AllValidInOrder(paths, evaluate, configs, state) && OutcomeOf(evaluate, configs, path, state).valid)
  {
    assert (paths + [path])[..|paths|] == paths;
  }

  /** Validating distinct paths in order records, at each of them, the entry
      its own validation writes over its entry beforehand, and leaves every
      other entry as it was. */
  lemma {:induction false} ValidatedInOrderPointwise(states: States, paths: seq<string>, evaluate: Evaluator, configs: Configs, state: Json)
    requires forall p :: p in paths ==> p in configs
    requires Distinct(paths)
    ensures var after := ValidatedInOrder(states, paths, evaluate, configs, state);
      && (forall p :: p in after <==> p in states || p in paths)
      && (forall p :: p in paths ==> after[p] == Validated(StateAt(states, p), OutcomeOf(evaluate, configs, p, state)))
      && (forall p :: p in states && p !in paths ==> after[p] == states[p])
    decreases |paths|
  {
    if paths != [] {
      var init := paths[..|paths| - 1];
      var last := paths[|paths| - 1];
      ValidatedInOrderPointwise(states, init, evaluate, configs, state);
      forall k | 0 <= k < |init|
        ensures init[k] != last
      {
        assert init[k] == paths[k];
      }
      forall p | p in paths
        ensures p in init || p == last
      {
        var k :| 0 <= k < |paths| && paths[k] == p;
        if k < |paths| - 1 { assert init[k] == p; }
      }
    }
  }

  /** The `allValid` flag is true exactly when every validated path's result
      is valid; with no paths it is true. */
  lemma {:induction false} AllValidInOrderIff(paths: seq<string>, evaluate: Evaluator, configs: Configs, state: Json)
    requires forall p :: p in paths ==> p in configs
    ensures AllValidInOrder(paths, evaluate, configs, state) <==>
      forall p :: p in paths ==> OutcomeOf(evaluate, configs, p, state).valid
    decreases |paths|
  {
    if paths != [] {
      var init := paths[..|paths| - 1];
      AllValidInOrderIff(init, evaluate, configs, state);
      forall p | p in paths
        ensures p in init || p == paths[|paths| - 1]
      {
        var k :| 0 <= k < |paths| && paths[k] == p;
        if k < |paths| - 1 { assert init[k] == p; }
      }
    }
  }

  /** What validating every registered path in enumeration order amounts to:
      each registered path holds its own validation entry, other entries are
      kept, and the flag is the conjunction of all results. */
  lemma ValidateAllEffect(states: States, order: seq<string>, evaluate: Evaluator, configs: Configs, state: Json)
    requires forall p :: p in order <==> p in configs
    requires Distinct(order)
    ensures var after := ValidatedInOrder(states, order, evaluate, configs, state);
      && (AllValidInOrder(order, evaluate, configs, state) <==>
            forall p :: p in configs ==> OutcomeOf(evaluate, configs, p, state).valid)
      && (forall p :: p in after <==> p in states || p in configs)
      && (forall p :: p in configs ==> after[p] == Validated(StateAt(states, p), OutcomeOf(evaluate, configs, p, state)))
      && (forall p :: p in states && p !in configs ==> after[p] == states[p])
  {
    ValidatedInOrderPointwise(states, order, evaluate, configs, state);
    AllValidInOrderIff(order, evaluate, configs, state);
  }

  class ValidationProvider {
    /** `runValidation` with the provider's custom functions bound in. */
    const evaluate: Evaluator
    /** `fieldConfigs` */
    var fieldConfigs: Configs
    /** The order `Object.entries(fieldConfigs)` enumerates: first registration first. */
    var configOrder: seq<string>
    /** `fieldStates` */
    var fieldStates: States
    /** Counts the new registry objects produced; unchanged means observers saw no change. */
    var configsRevision: nat
    /** Counts the new field-state objects produced. */
    var statesRevision: nat

    ghost predicate Valid()
      reads this
    {
      && (forall p :: p in configOrder <==> p in fieldConfigs)
      && Distinct(configOrder)
      && Consistent(fieldStates)
    }

    constructor(evaluate: Evaluator)
      ensures Valid()
      ensures this.evaluate == evaluate
      ensures fieldConfigs == map[] && configOrder == [] && fieldStates == map[]
      ensures configsRevision == 0 && statesRevision == 0
    {
      this.evaluate := evaluate;
      fieldConfigs, configOrder, fieldStates := map[], [], map[];
      configsRevision, statesRevision := 0, 0;
    }

    /** `registerField`: an upsert that keeps the previous registry object when
        an equal configuration is already stored at `path`. */
    method RegisterField(path: string, config: ValidationConfig)
      requires Valid()
      modifies this`fieldConfigs, this`configOrder, this`configsRevision
      ensures Valid()
      ensures old(path in fieldConfigs && ConfigEqual(fieldConfigs[path], config)) ==>
        fieldConfigs == old(fieldConfigs) && configOrder == old(configOrder) && configsRevision == old(configsRevision)
      ensures !old(path in fieldConfigs && ConfigEqual(fieldConfigs[path], config)) ==>
        && fieldConfigs == old(fieldConfigs)[path := config]
        && configsRevision == old(configsRevision) + 1
        && configOrder == old(configOrder) + (if path in old(fieldConfigs) then [] else [path])
    {
      var update := RegisterUpdate(fieldConfigs, path, config);
      if update.Replace? {
        if path !in fieldConfigs {
          configOrder := configOrder + [path];
        }
        fieldConfigs := update.next;
        configsRevision := configsRevision + 1;
      }
    }

    /** `validate`: resolves the value at `path`, evaluates `config` against
        it and records the result at `path`, on every call. */
    method Validate(path: string, config: ValidationConfig, state: Json) returns (result: ValidationResult)
      requires Valid()
      modifies this`fieldStates, this`statesRevision
      ensures Valid()
      ensures result == evaluate(config, Lookup(state, Segments(path)), state)
      ensures fieldStates == old(fieldStates)[path := Validated(StateAt(old(fieldStates), path), result)]
      ensures statesRevision == old(statesRevision) + 1
    {
      var value := ResolvePath(state, path);
      result := evaluate(config, value, state);
      fieldStates := fieldStates[path := Validated(StateAt(fieldStates, path), result)];
      statesRevision := statesRevision + 1;
    }

    /** `touch`: marks the field touched and keeps its validated flag and
        result, which default to false and absent. */
    method Touch(path: string)
      requires Valid()
      modifies this`fieldStates, this`statesRevision
      ensures Valid()
      ensures fieldStates == old(fieldStates)[path := Touched(StateAt(old(fieldStates), path))]
      ensures statesRevision == old(statesRevision) + 1
    {
      fieldStates := fieldStates[path := Touched(StateAt(fieldStates, path))];
      statesRevision := statesRevision + 1;
    }

    /** `clear`: removes the entry at `path`; every other entry is kept. */
    method Clear(path: string)
      requires Valid()
      modifies this`fieldStates, this`statesRevision
      ensures Valid()
      ensures fieldStates == old(fieldStates) - {path}
      ensures statesRevision == old(statesRevision) + 1
    {
      fieldStates := fieldStates - {path};
      statesRevision := statesRevision + 1;
    }

    /** `validateAll`: validates every registered field against `state`, with
        no early exit, and reports whether all of them are valid. */
    method ValidateAll(state: Json) returns (allValid: bool)
      requires Valid()
      modifies this`fieldStates, this`statesRevision
      ensures Valid()
      ensures allValid <==> forall p :: p in fieldConfigs ==> OutcomeOf(evaluate, fieldConfigs, p, state).valid
      ensures forall p :: p in fieldStates <==> p in old(fieldStates) || p in fieldConfigs
      ensures forall p :: p in fieldConfigs ==>
        fieldStates[p] == Validated(StateAt(old(fieldStates), p), OutcomeOf(evaluate, fieldConfigs, p, state))
      ensures forall p :: p in old(fieldStates) && p !in fieldConfigs ==> fieldStates[p] == old(fieldStates)[p]
      ensures statesRevision == old(statesRevision) + |configOrder|
    {
      allValid := true;
      ghost var order, configs, states0 := configOrder, fieldConfigs, fieldStates;
      var i := 0;
      while i < |configOrder|
        invariant 0 <= i <= |order|
        invariant configOrder == order && fieldConfigs == configs
        invariant Valid()
        invariant statesRevision == old(statesRevision) + i
        invariant fieldStates == ValidatedInOrder(states0, order[..i], evaluate, configs, state)
        invariant allValid == AllValidInOrder(order[..i], evaluate, configs, state)
      {
        var path := configOrder[i];
        InOrderStep(states0, order[..i], path, evaluate, configs, state);
        assert order[..i + 1] == order[..i] + [path];
        var result := Validate(path, fieldConfigs[path], state);
        if !result.valid {
          allValid := false;
        }
        i := i + 1;
      }
      assert order[..i] == order;
      ValidateAllEffect(states0, order, evaluate, configs, state);
    }
  }
}
