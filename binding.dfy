/** The per-field adapter (`useFieldValidation`): it registers a field's
    configuration only when it differs from the last one it registered, and
    derives the field's state, errors and validity from the provider's store
    with defaults for a field that has no entry. */
module Binding {
  import opened Types
  import opened Equality
  import opened Paths
  import opened Provider

  /** `fieldStates[path] ?? { touched: false, validated: false, result: null }` */
  function ReadState(states: States, path: string): FieldState {
    if path in states then states[path] else DefaultState
  }

  /** `state.result?.errors ?? []` */
  function ErrorsOf(s: FieldState): seq<string> {
    if s.result.Some? then s.result.value.errors else []
  }

  /** `state.result?.valid ?? true` */
  function IsValidOf(s: FieldState): bool {
    if s.result.Some? then s.result.value.valid else true
  }

  /** A field without a result is valid and has no errors; in particular a
      field with no entry in the store. */
  lemma UnvalidatedIsValid(states: States, path: string)
    requires ReadState(states, path).result.None?
    ensures IsValidOf(ReadState(states, path))
    ensures ErrorsOf(ReadState(states, path)) == []
  {
  }

  /** After `clear`, the field reads as the default state, whatever it held
      before, and every other field reads as before. */
  lemma ClearedReadsDefault(states: States, path: string, other: string)
    requires other != path
    ensures ReadState(states - {path}, path) == DefaultState
    ensures ReadState(states - {path}, other) == ReadState(states, other)
  {
  }

  /** In a consistent store, a field reads as invalid only once it has been
      validated and its last result is invalid. */
  lemma InvalidOnlyAfterValidation(states: States, path: string)
    requires Consistent(states)
    ensures !IsValidOf(ReadState(states, path)) <==>
      path in states && states[path].validated && !states[path].result.value.valid
  {
  }

  /** Touching a field leaves what it reads as (its errors and its validity)
      unchanged. */
  lemma TouchKeepsVerdict(states: States, path: string)
    ensures var after := ReadState(states[path := Touched(StateAt(states, path))], path);
      && after.touched
      && ErrorsOf(after) == ErrorsOf(ReadState(states, path))
      && IsValidOf(after) == IsValidOf(ReadState(states, path))
  {
  }

  /** The guard of the registration effect: register when there is no last
      configuration or it differs from the new one. The slot is not keyed by
      the path. */
  predicate GuardRegisters(last: Option<ValidationConfig>, config: ValidationConfig) {
    last.None? || !ConfigEqual(last.value, config)
  }

  /** The adapter's guard skips a registration only when the registry would
      have kept its previous object anyway: the registry holds, at the same
      path, a configuration equal to the adapter's last one, which equals the
      new one. */
  lemma GuardSkipsOnlyNoOps(configs: Configs, path: string, last: ValidationConfig, config: ValidationConfig)
    requires path in configs && ConfigEqual(configs[path], last)
    requires !GuardRegisters(Some(last), config)
    ensures RegisterUpdate(configs, path, config) == KeepPrevious
  {
    ConfigEqualTransitive(configs[path], last, config);
  }

  /** What the adapter registered last, keyed by the path it registered at. */
  datatype Registration = Registration(path: string, config: ValidationConfig)

  /** The guard keyed by the path: register when nothing was registered, the
      path changed, or the configuration differs. */
  predicate KeyedGuardRegisters(last: Option<Registration>, path: string, config: ValidationConfig) {
    last.None? || last.value.path != path || !ConfigEqual(last.value.config, config)
  }

  /** The registry holds a configuration equal to the keyed slot's one, at the
      slot's own path. */
  predicate KeyedInSync(configs: Configs, last: Option<Registration>) {
    last.Some? ==> last.value.path in configs && ConfigEqual(configs[last.value.path], last.value.config)
  }

  /** With the keyed slot, a skipped registration is a no-op at ANY path, and
      after the effect the slot is in sync with the registry at the current
      path: the registry always ends as if `registerField` had been called. */
  lemma KeyedGuardSound(configs: Configs, last: Option<Registration>, path: string, config: ValidationConfig)
    requires KeyedInSync(configs, last)
    ensures !KeyedGuardRegisters(last, path, config) ==> RegisterUpdate(configs, path, config) == KeepPrevious
    ensures var after := Applied(configs, RegisterUpdate(configs, path, config));
      var slot := if KeyedGuardRegisters(last, path, config) then Some(Registration(path, config)) else last;
      && KeyedInSync(after, slot)
      && path in after
  {
    var after := Applied(configs, RegisterUpdate(configs, path, config));
    RegisterStoresEqual(configs, path, config);
    if !KeyedGuardRegisters(last, path, config) {
      GuardSkipsOnlyNoOps(configs, path, last.value.config, config);
    }
    ConfigEqualSymmetric(config, after[path]);
  }

  class FieldBinding {
    const provider: ValidationProvider
    /** `lastConfigRef.current`: the configuration this adapter last registered,
        at whatever path it then had. */
    var lastConfig: Option<ValidationConfig>

    constructor(provider: ValidationProvider)
      ensures this.provider == provider
      ensures lastConfig == None
    {
      this.provider := provider;
      lastConfig := None;
    }

    /** The registry holds, at `path`, a configuration equal to the last one
        the adapter registered. */
    ghost predicate InSyncAt(path: string)
      reads this, provider
    {
      lastConfig.Some? ==> path in provider.fieldConfigs && ConfigEqual(provider.fieldConfigs[path], lastConfig.value)
    }

    /** The registration effect, run with the adapter's current `path`: calls
        `registerField` only when the guard says so; an absent `config` forgets
        the last one. */
    method SyncRegistration(path: string, config: Option<ValidationConfig>)
      requires provider.Valid()
      modifies this`lastConfig, provider`fieldConfigs, provider`configOrder, provider`configsRevision
      ensures provider.Valid()
      ensures config.None? ==> lastConfig == None
      ensures config.None? || !GuardRegisters(old(lastConfig), config.value) ==>
        && provider.fieldConfigs == old(provider.fieldConfigs)
        && provider.configOrder == old(provider.configOrder)
        && provider.configsRevision == old(provider.configsRevision)
      ensures config.Some? && !GuardRegisters(old(lastConfig), config.value) ==>
        lastConfig == old(lastConfig)
      ensures config.Some? && GuardRegisters(old(lastConfig), config.value) ==>
        && lastConfig == config
        && provider.fieldConfigs == Applied(old(provider.fieldConfigs), RegisterUpdate(old(provider.fieldConfigs), path, config.value))
        && provider.configOrder == old(provider.configOrder) + (if path in old(provider.fieldConfigs) then [] else [path])
        && provider.configsRevision ==
             old(provider.configsRevision) + (if RegisterUpdate(old(provider.fieldConfigs), path, config.value).KeepPrevious? then 0 else 1)
        && InSyncAt(path)
      ensures old(InSyncAt(path)) ==> InSyncAt(path)
      ensures config.Some? && old(InSyncAt(path)) ==>
        provider.fieldConfigs == Applied(old(provider.fieldConfigs), RegisterUpdate(old(provider.fieldConfigs), path, config.value))
    {
      match config {
        case Some(c) =>
          if GuardRegisters(lastConfig, c) {
            RegisterStoresEqual(provider.fieldConfigs, path, c);
            provider.RegisterField(path, c);
            lastConfig := Some(c);
            ConfigEqualSymmetric(c, provider.fieldConfigs[path]);
          } else if InSyncAt(path) {
            GuardSkipsOnlyNoOps(provider.fieldConfigs, path, lastConfig.value, c);
          }
        case None =>
          lastConfig := None;
      }
    }

    /** `state` of the field at `path` */
    function State(path: string): FieldState
      reads provider
    {
      ReadState(provider.fieldStates, path)
    }

    /** `errors` */
    function Errors(path: string): seq<string>
      reads provider
    {
      ErrorsOf(State(path))
    }

    /** `isValid` */
    function IsValid(path: string): bool
      reads provider
    {
      IsValidOf(State(path))
    }

    /** `validate()`: validates the field at `path` with `config`, or with
        `{ checks: [] }` when there is none. */
    method Validate(path: string, config: Option<ValidationConfig>, state: Json) returns (result: ValidationResult)
      requires provider.Valid()
      modifies provider`fieldStates, provider`statesRevision
      ensures provider.Valid()
      ensures result == provider.evaluate(config.GetOr(EmptyConfig), Lookup(state, Segments(path)), state)
      ensures State(path) == Validated(StateAt(old(provider.fieldStates), path), result)
      ensures provider.fieldStates == old(provider.fieldStates)[path := State(path)]
      ensures provider.statesRevision == old(provider.statesRevision) + 1
      ensures !IsValid(path) <==> !result.valid
      ensures Errors(path) == result.errors
    {
      result := provider.Validate(path, config.GetOr(EmptyConfig), state);
    }

    /** `touch()` */
    method Touch(path: string)
      requires provider.Valid()
      modifies provider`fieldStates, provider`statesRevision
      ensures provider.Valid()
      ensures provider.fieldStates == old(provider.fieldStates)[path := Touched(StateAt(old(provider.fieldStates), path))]
      ensures provider.statesRevision == old(provider.statesRevision) + 1
      ensures State(path).touched && Errors(path) == old(Errors(path)) && IsValid(path) == old(IsValid(path))
    {
      TouchKeepsVerdict(provider.fieldStates, path);
      provider.Touch(path);
    }

    /** `clear()`: afterwards the field reads as the default state. */
    method Clear(path: string)
      requires provider.Valid()
      modifies provider`fieldStates, provider`statesRevision
      ensures provider.Valid()
      ensures provider.fieldStates == old(provider.fieldStates) - {path}
      ensures provider.statesRevision == old(provider.statesRevision) + 1
      ensures State(path) == DefaultState && Errors(path) == [] && IsValid(path)
    {
      provider.Clear(path);
    }
  }

  /** As written, the guard ignores the path: an adapter that registered
      "/a" with `c` and is then synced at "/b" with an equal `c2` skips
      `registerField`, although registering would have added "/b"; so "/b"
      stays out of the registry and `validateAll` never validates it. */
  method PathChangeSkipsRegistration(evaluate: Evaluator, c: ValidationConfig, c2: ValidationConfig)
    returns (registered: Configs, order: seq<string>)
    requires ConfigEqual(c, c2)
    ensures "/a" in registered && "/b" !in registered
    ensures order == ["/a"]
    ensures RegisterUpdate(registered, "/b", c2).Replace?
  {
    var provider := new ValidationProvider(evaluate);
    var binding := new FieldBinding(provider);
    binding.SyncRegistration("/a", Some(c));
    binding.SyncRegistration("/b", Some(c2));
    registered, order := provider.fieldConfigs, provider.configOrder;
  }
}
