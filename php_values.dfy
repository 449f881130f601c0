/**
 * The PHP values the CSV writer meets: field names, header labels, record
 * entries, the records themselves and the collection that holds them.
 */
module PhpValues {
  import opened Wrappers
  import opened Text

  /** A PHP value as it can stand in a field list, a label list or a record. */
  datatype Value =
    | Null
    | Bool(b: bool)
    | Int(i: int)
    | Str(s: string)
    /** a `\DateTime` object, identified by its Unix timestamp */
    | Date(timestamp: int)
    /** any other object; `toString` is what its `__toString()` returns, None if it has none */
    | Obj(toString: Option<string>)

  /** PHP's `'' . $v`: None where PHP raises an error instead (an object with no
      `__toString()`, which includes a `\DateTime`). */
  function Stringify(v: Value): Option<string> {
    match v
    case Null => Some("")
    case Bool(b) => Some(if b then "1" else "")
    case Int(i) => Some(IntToString(i))
    case Str(s) => Some(s)
    case Date(_) => None
    case Obj(t) => t
  }

  /** One element of the collection.
      ArrayRow: an associative array, key to value.
      ObjectRow: an object; `getters` maps a field name to what the object's
      getter for that field returns, and a field with no getter is not a key.
      ScalarRow: anything that is neither an array nor an object. */
  datatype Record =
    | ArrayRow(entries: map<string, Value>)
    | ObjectRow(getters: map<string, Value>)
    | ScalarRow

  /** What is handed over as the data: an array, a `\Traversable` object (both
      iterated in order), or anything else. */
  datatype Collection =
    | ArrayOf(rows: seq<Record>)
    | TraversableOf(rows: seq<Record>)
    | NotIterable(v: Value)

  /** The non-null value a record holds for a field, if any. */
  function Lookup(row: Record, field: string): Option<Value> {
    match row
    case ObjectRow(getters) =>
      if field in getters && getters[field] != Null then Some(getters[field]) else None
    case ArrayRow(entries) =>
      if field in entries && entries[field] != Null then Some(entries[field]) else None
    case ScalarRow => None
  }
}
