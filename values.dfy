/** Loosely-typed answer values, as a JavaScript answers record holds them. */
module Values {

  datatype Option<+T> = None | Some(value: T)

  /** An answer: the text of an input, a number, or the state of a checkbox.
      Numbers are whole; JavaScript's fractional numbers and NaN are not modelled. */
  datatype Value = Str(s: string) | Num(n: int) | Bool(b: bool)

  /** `record[k]`: the stored value, or None where JavaScript yields `undefined`. */
  function Lookup<K>(m: map<K, Value>, k: K): (v: Option<Value>)
    ensures v.Some? <==> k in m
    ensures k in m ==> v.value == m[k]
  {
    if k in m then Some(m[k]) else None
  }

  /** JavaScript truthiness (`!!x`) of a possibly-absent answer:
      undefined, the empty string, 0 and false are falsy; every other value is truthy. */
  predicate Truthy(v: Option<Value>): (truthy: bool)
    ensures truthy <==> v.Some? && v.value != Str("") && v.value != Num(0) && v.value != Bool(false)
  {
    match v
    case None => false
    case Some(Str(s)) => s != ""
    case Some(Num(n)) => n != 0
    case Some(Bool(b)) => b
  }
}
