/**
 * The raw values both realizations carry: JSON-like scalars and objects.
 * An array is an object whose properties are its indices, flagged so that
 * encoding can tell the two apart (`Array.isArray`).
 */
module Values {
  import opened Keys
  import opened Entries

  /** A non-object value; numbers are integers here. */
  datatype Scalar = Null | Bool(b: bool) | Num(n: int) | Str(s: string)

  /** A raw value: a scalar, or an object (or array) with its own properties in enumeration order. */
  datatype Val = Prim(scalar: Scalar) | Obj(isArray: bool, fields: seq<(Key, Val)>)

  /** Every object in `v` has distinct property names, as every JavaScript object does. */
  ghost predicate WellFormed(v: Val) {
    match v
    case Prim(_) => true
    case Obj(_, fields) =>
      UniqueKeys(fields) && forall i :: 0 <= i < |fields| ==> WellFormed(fields[i].1)
  }

  /**
   * No `null` anywhere in `v`. `typeof null` is `'object'`, so a `null`
   * passes every "is this an object" test and then fails the property
   * access that follows.
   */
  predicate NullFree(v: Val) {
    match v
    case Prim(s) => !s.Null?
    case Obj(_, fields) => forall i :: 0 <= i < |fields| ==> NullFree(fields[i].1)
  }
}
