/** Python values as produced by `json.loads`, the dictionaries the system passes
    between stages, and the external capabilities the pipeline depends on. */
module JsonModel {
  import opened Wrappers
  import opened Text

  /** A decoded JSON value, keeping Python's distinction between `int` and `float`. */
  datatype Json =
    | JNull
    | JBool(b: bool)
    | JInt(i: int)
    | JFloat(r: real)
    | JStr(s: string)
    | JArr(items: seq<Json>)
    | JObj(fields: map<string, Json>)

  /** A Python `dict` with string keys: every announcement-derived deadline,
      assignment and payload that moves through the pipeline. */
  type Record = map<string, Json>

  /** Python's truth value of a decoded JSON value (`if value:`). */
  predicate Truthy(j: Json)
  {
    match j
    case JNull => false
    case JBool(b) => b
    case JInt(i) => i != 0
    case JFloat(r) => r != 0.0
    case JStr(s) => s != ""
    case JArr(items) => items != []
    case JObj(fields) => fields != map[]
  }

  /** Python's `record.get(key, default)`. */
  function Get(r: Record, key: string, default: Json): (v: Json)
    ensures key in r ==> v == r[key]
    ensures key !in r ==> v == default
  {
    if key in r then r[key] else default
  }

  /** The capabilities the core calls but does not implement.
      - `infer`: one call to the language model (prompt in, text out); None when the call raises.
      - `parseJson`: `json.loads` on RFC 8259 text; None when it raises a decode error.
      - `dumps`: `json.dumps(value, indent=2)`.
      - `parseFloat`: Python's `float(text)`; None when it raises ValueError.
      - `repr`: Python's `str(value)` for floats, lists and dicts. */
  datatype Services = Services(
    infer: string -> Option<string>,
    parseJson: string -> Option<Json>,
    dumps: Json -> string,
    parseFloat: string -> Option<real>,
    repr: Json -> string)

  /** The fixed natural-language instructions of the two model prompts; their
      wording is not modelled, only where the data is spliced between them. */
  datatype PromptTexts = PromptTexts(
    extractHeader: string,
    extractFooter: string,
    dedupHeader: string,
    dedupMiddle: string,
    dedupFooter: string)

  /** Python's `str(value)` (what an f-string interpolates). */
  function PyStr(svc: Services, j: Json): (s: string)
    ensures j.JStr? ==> s == j.s
  {
    match j
    case JNull => "None"
    case JBool(b) => if b then "True" else "False"
    case JInt(i) => IntToString(i)
    case JStr(t) => t
    case _ => svc.repr(j)
  }

  /** Python's `float(value)`; None when it raises (TypeError or ValueError). */
  function PyFloat(svc: Services, j: Json): (f: Option<real>)
    ensures j.JInt? ==> f == Some(j.i as real)
    ensures j.JFloat? ==> f == Some(j.r)
    ensures j.JNull? || j.JArr? || j.JObj? ==> f == None
  {
    match j
    case JBool(b) => Some(if b then 1.0 else 0.0)
    case JInt(i) => Some(i as real)
    case JFloat(r) => Some(r)
    case JStr(t) => svc.parseFloat(t)
    case _ => None
  }

  /** The list of dictionaries a decoded value holds, if it is one (None when a
      Python loop over it calling `.get` would raise). */
  function AsRecords(j: Json): (rs: Option<seq<Record>>)
    ensures rs.Some? ==> j.JArr? && |rs.value| == |j.items|
    ensures rs.Some? ==> forall k :: 0 <= k < |j.items| ==> j.items[k] == JObj(rs.value[k])
  {
    match j
    case JArr(items) =>
      if forall k :: 0 <= k < |items| ==> items[k].JObj?
      then Some(seq(|items|, k requires 0 <= k < |items| => items[k].fields))
      else None
    case _ => None
  }

  /** A list of dictionaries as a value. */
  function RecordsToJson(rs: seq<Record>): (j: Json)
    ensures AsRecords(j) == Some(rs)
  {
    var items := seq(|rs|, k requires 0 <= k < |rs| => JObj(rs[k]));
    assert forall k :: 0 <= k < |items| ==> items[k].JObj? && items[k].fields == rs[k];
    assert seq(|items|, k requires 0 <= k < |items| => items[k].fields) == rs;
    JArr(items)
  }
}
