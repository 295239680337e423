/**
 * The few JavaScript notions the comment widget and its utilities depend on:
 * absent values, the primitive values that server records carry, truthiness
 * and property reads on plain objects.
 */
module Js {

  /** `None` stands for a value that is null or undefined (or a property that is absent). */
  datatype Option<+T> = None | Some(value: T)

  /** A primitive JavaScript value as held in a server record. Numbers are integers here (NaN is not modelled). */
  datatype Value = Undefined | Null | Num(n: int) | Str(s: string)

  /** ToBoolean: undefined, null, 0 and "" are falsy, everything else is truthy. */
  predicate Truthy(v: Value)
  {
    match v
    case Undefined => false
    case Null => false
    case Num(n) => n != 0
    case Str(s) => s != ""
  }

  /** `v == ""` with loose equality: a string compares as itself, a number as ToNumber(""), which is 0; undefined and null never. */
  predicate LooselyEqualsEmptyString(v: Value)
  {
    match v
    case Str(s) => s == ""
    case Num(n) => n == 0
    case _ => false
  }

  /** `v == null` with loose equality: true for undefined and null only. */
  predicate LooselyEqualsNull(v: Value)
  {
    v.Undefined? || v.Null?
  }

  /** A plain object: its own enumerable keys and their values. */
  type Record = map<string, Value>

  /** `o[key]`: a missing property reads as undefined. */
  function Get(o: Record, key: string): Value
  {
    if key in o then o[key] else Undefined
  }

  /** `a || b` on an optional number: the fallback is taken when the value is absent or 0. */
  function OrElse(v: Option<int>, fallback: int): int
  {
    if v.Some? && v.value != 0 then v.value else fallback
  }
}
