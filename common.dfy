/** Small shared definitions: an optional value and string joining. */
module Common {

  datatype Option<+T> = None | Some(value: T)

  /** `sep.join(parts)` in Python. */
  function Join(sep: string, parts: seq<string>): string
    decreases |parts|
  {
    if parts == [] then ""
    else if |parts| == 1 then parts[0]
    else parts[0] + sep + Join(sep, parts[1..])
  }
}
