/**
 * `extractResponseContent`, which the three HTTP services share word for word:
 * the tutor's reply is dug out of whatever envelope the server sent.
 */
module Envelope {
  import opened Wrappers
  import opened Text
  import opened Json

  /** The fixed reply the services give for empty or non-string content. */
  const Apology: string := "I'm sorry, " + "I couldn't process your request properly. " + "Please try again."

  lemma ApologyHasNoLineFeed()
    ensures '\n' !in Apology && Apology != []
  {
  }

  /** `x.response || x.message || fallback` */
  function Pick(x: Json, fallback: Json): (r: Json)
    ensures Truthy(Field(x, "response")) ==> r == Field(x, "response").value
    ensures !Truthy(Field(x, "response")) && Truthy(Field(x, "message")) ==> r == Field(x, "message").value
    ensures !Truthy(Field(x, "response")) && !Truthy(Field(x, "message")) ==> r == fallback
    ensures r == fallback || Truthy(Some(r))
  {
    Or(Or(Field(x, "response"), Field(x, "message")), Some(fallback)).value
  }

  /** A string that may hold JSON: its parsed `response`/`message`, or the
      string itself when it does not parse (or parses to `null`, whose
      property access throws into the same `catch`). */
  function FromText(codec: Codec, s: string): (r: Json)
    ensures codec.parse(s).None? ==> r == JStr(s)
    ensures codec.parse(s).Some? ==> r == Pick(codec.parse(s).value, JStr(s))
  {
    match codec.parse(s)
    case None => JStr(s)
    case Some(p) => Pick(p, JStr(s))
  }

  /** The reply inside a response envelope. */
  function ExtractResponseContent(codec: Codec, data: Json): (r: Json)
    // a string envelope
    ensures data.JStr? ==> r == FromText(codec, data.s)
    // a truthy `body` decides alone
    ensures !data.JStr? && Truthy(Field(data, "body")) && Field(data, "body").value.JStr? ==>
      r == FromText(codec, Field(data, "body").value.s)
    ensures !data.JStr? && Truthy(Field(data, "body")) && !Field(data, "body").value.JStr? ==>
      r == Pick(Field(data, "body").value, JStr(codec.stringify(Field(data, "body").value)))
    // then the top-level `response` or `message`
    ensures (!data.JStr? && !Truthy(Field(data, "body"))
             && (Truthy(Field(data, "response")) || Truthy(Field(data, "message")))) ==>
      r == Pick(data, JNull) && Truthy(Some(r))
    // else the whole value as text
    ensures (!data.JStr? && !Truthy(Field(data, "body"))
             && !Truthy(Field(data, "response")) && !Truthy(Field(data, "message"))) ==>
      r == JStr(if IsObjectType(data) then codec.stringify(data) else ScalarString(data))
    // whatever is not text was picked for being truthy
    ensures !r.JStr? ==> Truthy(Some(r))
  {
    if data.JStr? then FromText(codec, data.s)
    else if Truthy(Field(data, "body")) then
      var body := Field(data, "body").value;
      if body.JStr? then FromText(codec, body.s)
      else Pick(body, JStr(codec.stringify(body)))
    else if Truthy(Field(data, "response")) || Truthy(Field(data, "message")) then
      Pick(data, JNull)
    else if IsObjectType(data) then JStr(codec.stringify(data))
    else JStr(ScalarString(data))
  }

  /** When `body` is truthy the rest of the envelope is never looked at: the
      envelope holding nothing but that body gives the same reply. */
  lemma BodyDecidesAlone(codec: Codec, data: Json)
    requires !data.JStr? && Truthy(Field(data, "body"))
    ensures ExtractResponseContent(codec, data)
         == ExtractResponseContent(codec, JObj([("body", Field(data, "body").value)]))
  {
    var only := JObj([("body", Field(data, "body").value)]);
    assert Field(only, "body") == Field(data, "body");
  }

  /** A string the parser rejects comes back as it is, the empty string included. */
  lemma UnparsedStringUnchanged(codec: Codec, s: string)
    requires codec.parse(s).None?
    ensures ExtractResponseContent(codec, JStr(s)) == JStr(s)
  {
  }

  /** A string that parses to `null` comes back as it is too: reading
      `response` off `null` throws, and the `catch` returns the string. */
  lemma NullParsedStringUnchanged(codec: Codec, s: string)
    requires codec.parse(s) == Some(JNull)
    ensures ExtractResponseContent(codec, JStr(s)) == JStr(s)
  {
  }

  /** Likewise a string `body` that parses to `null` is the reply itself. */
  lemma NullParsedBodyUnchanged(codec: Codec, data: Json)
    requires !data.JStr? && Truthy(Field(data, "body")) && Field(data, "body").value.JStr?
    requires codec.parse(Field(data, "body").value.s) == Some(JNull)
    ensures ExtractResponseContent(codec, data) == Field(data, "body").value
  {
  }
}
