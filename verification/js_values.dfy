/** The part of JavaScript's value model the modelled code depends on. */
module JsModel {

  /** A JavaScript value as read from parsed configuration. `Obj` is any
      object or array. Numbers are integral: configuration only holds pixel
      counts, so NaN and fractions are not modelled. */
  datatype JsValue = Undefined | Null | Bool(b: bool) | Num(n: int) | Str(s: string) | Obj

  /** JavaScript truthiness, as decided by `if (v)` and `!v`. */
  predicate Truthy(v: JsValue) {
    match v
    case Undefined => false
    case Null => false
    case Bool(b) => b
    case Num(n) => n != 0
    case Str(s) => s != ""
    case Obj => true
  }

  /** `v === undefined || v === null`. */
  predicate Nullish(v: JsValue) {
    v == Undefined || v == Null
  }
}
