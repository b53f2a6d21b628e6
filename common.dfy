/** Shared value types of the Mesosphere metadata filter model. */
module Common {

  /** Ruby's `nil`-or-value, as returned by `String#split(...).last` and `Hash#[]`. */
  datatype Option<+T> = None | Some(value: T)

  /** A field value of a Fluentd log record. Records arrive from the input plugin and
      gain fields from a parsed JSON log line, so a value is anything JSON can hold
      (numbers are integers here). */
  datatype Value =
    | Null
    | Bool(b: bool)
    | Num(n: int)
    | Str(s: string)
    | List(items: seq<Value>)
    | Object(members: map<string, Value>)

  /** A log record: field name to value (Ruby's Hash, without its key order). */
  type Record = map<string, Value>

  /** One event of a Fluentd event stream: its epoch time in whole seconds and its record. */
  datatype Event = Event(time: nat, record: Record)
}
