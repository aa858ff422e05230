/** Values, rows and small result types shared by every layer (types/value.go, types/row.go). */
module Types {

  /** One byte of a page, a cell or the log file. */
  type byte = b: int | 0 <= b < 256

  /** Go strings: names, literals and column values are bytes. */
  type Text = seq<byte>

  datatype Option<+T> = None | Some(value: T)

  /** A column value. A string is its UTF-8 bytes, which is what the codecs and the comparison see. */
  datatype Value =
    | IntValue(i: int)
    | StringValue(s: seq<byte>)
    | BoolValue(b: bool)
    | NullValue

  datatype Row = Row(values: seq<Value>)

  /** The outcome of an operation whose only failure is an error return. */
  datatype Status = Ok | Failed
}
