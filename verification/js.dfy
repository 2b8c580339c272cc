/**
  The slice of JavaScript's value model that the service and the field-version
  object depend on: the primitive values a SOAP response attribute, a method
  argument or an object property can hold, and JavaScript's notion of
  truthiness, which decides every guard in the service.
*/
module Js {

  /** Some/None, used for lookups that may find nothing. */
  datatype Option<+T> = None | Some(value: T)

  /** A primitive JavaScript value. Numbers are integers here: NaN, the
      infinities and fractions are not modelled. */
  datatype JsValue =
    | Undefined
    | Null
    | Bool(b: bool)
    | Num(n: int)
    | Str(s: string)

  /** JavaScript's ToBoolean: undefined, null, false, 0 and "" are falsy,
      every other value is truthy. */
  predicate Truthy(v: JsValue)
  {
    match v
    case Undefined => false
    case Null => false
    case Bool(b) => b
    case Num(n) => n != 0
    case Str(s) => s != []
  }
}
