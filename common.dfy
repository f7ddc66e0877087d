/** Values shared by the backend model and the frontend model. */
module Common {

  /** Python's `None` / TypeScript's `null` next to a present value. */
  datatype Option<+T> = None | Some(value: T) {
    predicate IsFailure() {
      None?
    }

    function PropagateFailure<U>(): Option<U>
      requires None?
    {
      None
    }

    function Extract(): T
      requires Some?
    {
      value
    }
  }

  /**
   * A JSON-like value, as held by the dictionaries the backend builds and the
   * objects the frontend receives: null, a string, a number or an object.
   */
  datatype Value = Null | Str(s: string) | Num(n: real) | Obj(fields: map<string, Value>)

  /** A string-keyed dictionary, such as one registry entry or one serialized record. */
  type Dict = map<string, Value>
}
