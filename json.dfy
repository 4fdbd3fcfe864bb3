/** Decoded JSON values and the Python operations the scraper applies to them
    (`d[key]`, `xs[0]`, `for x in v`), with the exceptions those raise folded into one
    error, `Malformed`. */
module JsonValues {
  import opened Wrappers

  datatype Json =
    | JNull
    | JBool(b: bool)
    | JInt(n: int)
    | JFloat(x: real)
    | JStr(s: string)
    | JArr(items: seq<Json>)
    | JObj(fields: map<string, Json>)

  /** A decoded top-level JSON object. */
  type Payload = map<string, Json>

  /** The failures of the scraper, one per kind of exception the source raises. */
  datatype Error =
    | InvalidDateRange      // ValueError at line 158
    | UnsupportedFrequency  // ValueError at line 162
    | TransportError        // requests.RequestException from the fetch
    | MetadataFailed        // `_site_metadata` raises: no match at line 428, or a capture that does not parse at lines 431-434
    | Malformed             // KeyError, IndexError or TypeError while reading the payload
    | ColumnOverlap         // ValueError from DataFrame.join on clashing column names

  /** `v[key]` with a string key: only an object with that key yields a value; a missing
      key is a KeyError and every other kind of value a TypeError. */
  function Field(v: Json, key: string): (r: Result<Json, Error>)
    ensures r.Ok? <==> v.JObj? && key in v.fields
    ensures r.Ok? ==> r.value == v.fields[key]
  {
    if v.JObj? && key in v.fields then Ok(v.fields[key]) else Err(Malformed)
  }

  /** `v[0]`: the first element of a non-empty list. An empty list raises IndexError and an
      object KeyError (JSON keys are strings). A non-empty string would give its first
      character, on which every later lookup of the scraper raises TypeError, so it is
      reported here at once. */
  function First(v: Json): (r: Result<Json, Error>)
    ensures r.Ok? <==> v.JArr? && |v.items| > 0
    ensures r.Ok? ==> r.value == v.items[0]
  {
    if v.JArr? && |v.items| > 0 then Ok(v.items[0]) else Err(Malformed)
  }

  /** The elements a `for` loop visits when the element is then read with `entry[key]`.
      A list yields its elements. An object yields its keys and a string its characters,
      both strings, on which `entry[key]` raises TypeError; so only the empty ones get
      through, as empty iterations. Numbers, booleans and null are not iterable. */
  function Entries(v: Json): (r: Result<seq<Json>, Error>)
    ensures v.JArr? ==> r == Ok(v.items)
    ensures r.Ok? ==> v.JArr? || r.value == []
  {
    match v
    case JArr(items) => Ok(items)
    case JObj(m) => if |m| == 0 then Ok([]) else Err(Malformed)
    case JStr(s) => if s == [] then Ok([]) else Err(Malformed)
    case _ => Err(Malformed)
  }
}
