/**
 * Validation of the JSON body of POST and PUT. The JSON decoder itself is
 * a parameter: a `Decoder` maps body text to a decoded value, or to `None`
 * when the text is not JSON.
 */
module Payload {
  import opened Wrappers
  import Text

  /** A decoded JSON value (`serde_json::Value`); an object keeps one value per key. */
  datatype Json =
    | JNull
    | JBool(b: bool)
    | JNumber(literal: string)
    | JString(s: string)
    | JArray(items: seq<Json>)
    | JObject(fields: map<string, Json>)

  /** `serde_json::from_str::<Value>`, supplied by the caller. */
  type Decoder = string -> Option<Json>

  const INVALID_JSON: string := "Invalid JSON format"
  const MISSING_NAME: string := "Missing 'name' field"
  const EMPTY_NAME: string := "'name' cannot be empty"

  /** `value[key]`: the field of an object, `Null` for a missing key or a non-object. */
  function Lookup(v: Json, key: string): (r: Json)
    ensures r != JNull ==> v.JObject? && key in v.fields && v.fields[key] == r
    ensures v.JObject? && key in v.fields ==> r == v.fields[key]
  {
    match v
    case JObject(fields) => if key in fields then fields[key] else JNull
    case _ => JNull
  }

  /** `value["name"].as_str()`. */
  function NameField(v: Json): (r: Option<string>)
    ensures r.Some? <==> v.JObject? && "name" in v.fields && v.fields["name"].JString?
    ensures r.Some? ==> v.fields["name"] == JString(r.value)
  {
    match Lookup(v, "name")
    case JString(s) => Some(s)
    case _ => None
  }

  /**
   * The checks POST and PUT run on their body, in order: the text must
   * decode, the decoded value must carry a string `name`, and that name must
   * not be blank. The name returned is the original, untrimmed one.
   */
  function ValidateName(text: string, decode: Decoder): Result<string, string> {
    match decode(text)
    case None => Failure(INVALID_JSON)
    case Some(value) =>
      match NameField(value)
      case None => Failure(MISSING_NAME)
      case Some(name) =>
        if Text.IsBlank(name) then Failure(EMPTY_NAME) else Success(name)
  }

  /**
   * Each failure message is reported exactly when the checks before it pass
   * and its own fails; a success carries the body's `name` string verbatim,
   * and that string is not all whitespace.
   */
  lemma ValidateNameChecksInOrder(text: string, decode: Decoder)
    ensures ValidateName(text, decode) == Failure(INVALID_JSON) <==> decode(text).None?
    ensures ValidateName(text, decode) == Failure(MISSING_NAME) <==>
      decode(text).Some? && NameField(decode(text).value).None?
    ensures ValidateName(text, decode) == Failure(EMPTY_NAME) <==>
      decode(text).Some? && NameField(decode(text).value).Some? && Text.AllWhitespace(NameField(decode(text).value).value)
    ensures ValidateName(text, decode).Failure? ==> ValidateName(text, decode).error in {INVALID_JSON, MISSING_NAME, EMPTY_NAME}
    ensures ValidateName(text, decode).Success? ==>
      && decode(text).Some?
      && decode(text).value.JObject?
      && "name" in decode(text).value.fields
      && decode(text).value.fields["name"] == JString(ValidateName(text, decode).value)
      && !Text.AllWhitespace(ValidateName(text, decode).value)
  {
  }
}
