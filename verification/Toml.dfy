/** A parsed TOML value, as the configuration code sees it. */
module Toml {
  /** The types of a TOML value that hold no other values. */
  datatype Kind = Empty | Boolean | Integer | Floating | Text | OffsetDatetime | LocalDatetime | LocalDate | LocalTime

  /** A parsed value; text stands for the contents of a scalar. */
  datatype Value = Scalar(kind: Kind, text: string) | Array(elems: seq<Value>) | Table(entries: map<string, Value>)

  datatype Type = ScalarType(kind: Kind) | ArrayType | TableType

  function TypeOf(v: Value): Type {
    match v
    case Scalar(kind, _) => ScalarType(kind)
    case Array(_) => ArrayType
    case Table(_) => TableType
  }
}
