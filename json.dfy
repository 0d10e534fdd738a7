/**
 * JavaScript values as `JSON.parse` produces them, the property access and
 * truthiness the services rely on, and `JSON.parse`/`JSON.stringify` as a pair
 * of functions the model does not look into (RFC 8259 text is not parsed here).
 */
module Json {
  import opened Wrappers
  import opened Text

  /** A parsed JSON value. Numbers are integers in this model. An object keeps
      its members in order; on duplicate names the last one is the one read. */
  datatype Json =
    | JNull
    | JBool(b: bool)
    | JNum(n: int)
    | JStr(s: string)
    | JArr(items: seq<Json>)
    | JObj(fields: seq<(string, Json)>)

  /** `JSON.parse` (None where it throws) and `JSON.stringify`. */
  datatype Codec = Codec(parse: string -> Option<Json>, stringify: Json -> string)

  /** `v.key`: a member of an object, `undefined` (None) on anything else.
      (On `null` JavaScript throws instead. Where that throw lands in the
      `catch` of `extractResponseContent`, the catch returns the same fallback
      that `undefined` leads to (Envelope.NullParsedStringUnchanged,
      Envelope.NullParsedBodyUnchanged); the callers whose outcome differs,
      `createQuizFromLambdaFormat` and the JSON block formatters, test for
      `null` themselves.) */
  function Field(v: Json, key: string): (r: Option<Json>)
    ensures !v.JObj? ==> r.None?
    ensures v.JObj? && r.Some? ==> exists k | 0 <= k < |v.fields| ::
      v.fields[k] == (key, r.value) && forall j | k < j < |v.fields| :: v.fields[j].0 != key
    ensures v.JObj? && r.None? ==> forall k | 0 <= k < |v.fields| :: v.fields[k].0 != key
  {
    match v
    case JObj(fs) => Lookup(fs, key)
    case _ => None
  }

  /** The value of the last member named `key`. */
  function Lookup(fs: seq<(string, Json)>, key: string): (r: Option<Json>)
    ensures r.Some? ==> exists k | 0 <= k < |fs| ::
      fs[k] == (key, r.value) && forall j | k < j < |fs| :: fs[j].0 != key
    ensures r.None? ==> forall k | 0 <= k < |fs| :: fs[k].0 != key
  {
    if fs == [] then None
    else if fs[|fs| - 1].0 == key then Some(fs[|fs| - 1].1)
    else Lookup(fs[..|fs| - 1], key)
  }

  /** JavaScript truthiness of a value that may be `undefined` (None). */
  predicate Truthy(v: Option<Json>) {
    match v
    case None => false
    case Some(JNull) => false
    case Some(JBool(b)) => b
    case Some(JNum(n)) => n != 0
    case Some(JStr(s)) => s != []
    case Some(JArr(_)) => true
    case Some(JObj(_)) => true
  }

  /** `a || b` */
  function Or(a: Option<Json>, b: Option<Json>): (r: Option<Json>)
    ensures Truthy(a) ==> r == a
    ensures !Truthy(a) ==> r == b
  {
    if Truthy(a) then a else b
  }

  /** `Array.isArray(v)` */
  predicate IsArray(v: Option<Json>) {
    v.Some? && v.value.JArr?
  }

  /** `typeof v === 'object'` (true of `null` too). */
  predicate IsObjectType(v: Json) {
    v.JNull? || v.JArr? || v.JObj?
  }

  /** `String(v)` for a boolean or a number. */
  function ScalarString(v: Json): string
    requires v.JBool? || v.JNum?
  {
    match v
    case JBool(b) => if b then "true" else "false"
    case JNum(n) => IntToString(n)
  }
}
