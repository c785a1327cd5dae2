/** Values the validation engine works with: the state snapshot it reads, the
    validation configurations it stores, the results the rule evaluator returns
    and the per-field validation state it keeps. */
module Types {

  datatype Option<T> = None | Some(value: T) {
    /** `x ?? d` */
    function GetOr(default: T): T {
      match this
      case Some(v) => v
      case None => default
    }
  }

  /** A JSON-like snapshot of the shared state model. `Undefined` is what a
      missing member or an unresolvable path reads as. */
  datatype Json =
    | Undefined
    | Null
    | Bool(b: bool)
    | Num(n: real)
    | Str(s: string)
    | Arr(items: seq<Json>)
    | Obj(fields: map<string, Json>)
  {
    /** `value != null && typeof value === "object"`: the values the path walk
        may index into. */
    predicate IsContainer() {
      Arr? || Obj?
    }
  }

  /** A literal argument of a check. */
  datatype Literal = LStr(s: string) | LNum(n: real) | LBool(b: bool) | LNull

  /** A check argument: a literal, or a `{ $state: path }` reference that the
      rule evaluator resolves. */
  datatype DynamicValue = Lit(lit: Literal) | StateRef(path: string)

  type Args = map<string, DynamicValue>

  /** One check: its rule name (`type`), its message and optional arguments. */
  datatype Check = Check(kind: string, message: string, args: Option<Args>)

  datatype Trigger = Change | Blur | Submit

  /** A field's validation configuration; both members are optional. */
  datatype ValidationConfig = ValidationConfig(validateOn: Option<Trigger>, checks: Option<seq<Check>>)
  {
    /** `config.checks ?? []` */
    function ChecksOrEmpty(): seq<Check> {
      checks.GetOr([])
    }
  }

  /** The configuration an adapter validates with when it has none: `{ checks: [] }`. */
  const EmptyConfig := ValidationConfig(None, Some([]))

  datatype ValidationResult = ValidationResult(valid: bool, errors: seq<string>)

  /** What the external rule evaluator computes from a configuration, the
      resolved field value and the whole snapshot (custom functions are bound
      into it by the caller). */
  type Evaluator = (ValidationConfig, Json, Json) -> ValidationResult

  /** Per-field validation state; a missing result is `null` in the store. */
  datatype FieldState = FieldState(touched: bool, validated: bool, result: Option<ValidationResult>)

  /** The state a field reads as when the store holds no entry for it. */
  const DefaultState := FieldState(false, false, None)
}
