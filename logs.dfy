/** The log records the handler retrieves, and its two expression-only helpers:
    `toDatadogTime` (handlers/dd_handler.go:36-41) and `flattenValue`
    (handlers/dd_handler.go:351-365). */
module Logs {
  import opened Wrappers

  /** A custom-attribute value as the client library decodes it from JSON.
      Numbers and arrays/objects keep only the text Go would print for them
      (`%g` and `json.Marshal`), which this model takes as given. */
  datatype Value =
    | Str(s: string)
    | Bool(b: bool)
    | Null
    | Number(formatted: string)
    | Composite(encoded: string)

  /** One retrieved log.  `timestamp` holds the RFC 3339 text of the record's
      time when it has one; the string fields are what the client's getters
      return (the empty string when unset); `attributes` are the custom
      attributes; `json` is the indented JSON that `json.MarshalIndent`
      produces for the whole record, taken as given. */
  datatype Log = Log(
    timestamp: Option<string>,
    host: string,
    service: string,
    status: string,
    message: string,
    tags: seq<string>,
    attributes: map<string, Value>,
    json: string)

  /** toDatadogTime: a user-facing relative duration ("15m", "1h") becomes the
      API's "now-<d>" marker; the literal "now" passes through. */
  function ToDatadogTime(value: string): (r: string)
    ensures r == "now" <==> value == "now"
    ensures value != "now" ==> |r| == |value| + 4 && r[..4] == "now-" && r[4..] == value
  {
    if value == "now" then "now" else "now-" + value
  }

  /** No two command-line values produce the same time marker, so the marker
      sent to the API always identifies what the user typed. */
  lemma {:induction false} ToDatadogTimeInjective(a: string, b: string)
    requires ToDatadogTime(a) == ToDatadogTime(b)
    ensures a == b
  {
    if a != "now" && b != "now" {
      assert a == ToDatadogTime(a)[4..];
      assert b == ToDatadogTime(b)[4..];
    }
  }

  /** flattenValue: the text of one custom-attribute cell in CSV output. */
  function FlattenValue(v: Value): (r: string)
    ensures v.Str? ==> r == v.s
    ensures v.Bool? ==> (r == "true" <==> v.b) && (r == "false" <==> !v.b)
    ensures v.Null? ==> r == ""
  {
    match v
    case Str(s) => s
    case Number(formatted) => formatted
    case Bool(b) => if b then "true" else "false"
    case Null => ""
    case Composite(encoded) => encoded
  }
}
