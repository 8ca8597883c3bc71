/**
 Values as they arrive in a JSON request body, and the JavaScript truthiness
 tests the handlers apply to them (`!x`, `x || fallback`).
 */
module Values {

  /** A body field that may be absent (`undefined`/`null`) or present. */
  datatype Option<+T> = None | Some(value: T)

  /** `!!x` for a numeric field: absent and `0` are falsy. */
  predicate TruthyNum(x: Option<int>) {
    x.Some? && x.value != 0
  }

  /** `!!x` for a text field: absent and `""` are falsy. */
  predicate TruthyStr(x: Option<string>) {
    x.Some? && x.value != ""
  }

  /** `x || fallback` for a text field. */
  function OrElse(x: Option<string>, fallback: string): (r: string) {
    if TruthyStr(x) then x.value else fallback
  }
}
