/**
 Decoded JSON values. An Access group's rules stay in this form so that rule types the connector does not
 know survive a read-modify-write.
 */
module Json {

  datatype Option<+T> = None | Some(value: T)

  datatype Result<+T, +E> = Ok(value: T) | Err(error: E)

  datatype Json =
    | Null
    | Bool(truth: bool)
    | Number(number: real)
    | Text(text: string)
    | List(elements: seq<Json>)
    | Object(fields: map<string, Json>)

  /** The object stored under key, when the value is an object that stores one there. */
  function ObjectAt(value: Json, key: string): Option<map<string, Json>> {
    if value.Object? && key in value.fields && value.fields[key].Object? then Some(value.fields[key].fields) else None
  }

  /** The string stored under key, or "" when there is none. */
  function TextAt(fields: map<string, Json>, key: string): string {
    if key in fields && fields[key].Text? then fields[key].text else ""
  }
}
