/**
 * Values as the handlers see them once the DynamoDB resource layer has deserialised an item,
 * the records they return, and the outcome of a handler.
 */
module Values {

  /**
   * A deserialised attribute value. `Num` is a DynamoDB number (Python `Decimal`), kept as
   * its decimal text. `Float(source)` is what Python's `float(source)` returns; the parse
   * itself is not modelled, the tag records which value was converted.
   */
  datatype Value =
    | Str(text: string)
    | Num(digits: string)
    | Bool(flag: bool)
    | Null
    | List(elems: seq<Value>)
    | Object(fields: map<string, Value>)
    | Float(source: Value)

  /** A device record or event row, as a dictionary from attribute names to values. */
  type Item = map<string, Value>

  datatype Option<T> = None | Some(value: T)

  /** What a handler answers: a body, a 404 or a 500. */
  datatype Outcome<T> = Ok(value: T) | NotFound | ServerError

  const Voltage: string := "last_reported_voltage"
  const Online: string := "online"

  /** `float(v)`. */
  function Normalize(v: Value): Value
  {
    Float(v)
  }

  /**
   * The conversion both device handlers apply before answering: `last_reported_voltage`
   * becomes a float when present; no field is added, dropped or otherwise changed.
   */
  function NormalizeVoltage(item: Item): (r: Item)
    ensures r.Keys == item.Keys
    ensures forall k :: k in item && k != Voltage ==> r[k] == item[k]
    ensures Voltage in item ==> r[Voltage] == Float(item[Voltage])
  {
    if Voltage in item then item[Voltage := Normalize(item[Voltage])] else item
  }
}
