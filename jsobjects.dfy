/** The few JavaScript values the store touches: the fields of a row, the
    ids it is keyed by, and the shallow merge `Object.assign({}, v, patch)`
    that every row update performs. */
module JsObjects {

  /** A field value: an integer, a string, a boolean or `undefined`.
      JavaScript's `null`, `NaN`, fractional numbers and nested objects are
      not represented; the rows of this system carry integer ids, and no
      arithmetic on fractions happens. */
  datatype Value = Num(n: int) | Str(s: string) | Bool(b: bool) | Undefined

  /** A row is a plain object: its own enumerable fields and their values. */
  type Row = map<string, Value>

  /** `undefined` where a row is missing (what Immutable hands an updater
      for an absent key). */
  datatype Option<T> = None | Some(value: T)

  /** Reading a field; a field the object does not have reads as undefined. */
  function Get(row: Row, field: string): Value
  {
    if field in row then row[field] else Undefined
  }

  /** JavaScript truthiness of a field value (NaN is not a value of this model). */
  predicate Truthy(v: Value)
  {
    match v
    case Num(n) => n != 0
    case Str(s) => s != ""
    case Bool(b) => b
    case Undefined => false
  }

  /** `Object.assign({}, target, source)`: copies the fields of `target`
      (none when it is undefined) and then those of `source`, so that the
      source's fields win. */
  function Assign(target: Option<Row>, source: Row): (r: Row)
    ensures r.Keys == source.Keys + (if target.Some? then target.value.Keys else {})
    ensures forall f | f in source :: r[f] == source[f]
    ensures target.Some? ==> forall f | f in target.value && f !in source :: r[f] == target.value[f]
  {
    match target
    case None => map f | f in source :: source[f]
    case Some(t) => t + source
  }

  /** Assigning the same fields twice is the same as assigning them once. */
  lemma AssignIdempotent(target: Option<Row>, source: Row)
    ensures Assign(Some(Assign(target, source)), source) == Assign(target, source)
  {
  }

  /** Assigning over undefined copies the source. */
  lemma AssignOverUndefined(source: Row)
    ensures Assign(None, source) == source
  {
  }
}
