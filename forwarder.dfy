/**
 * The decisions of `upload_reading_to_django` (tcpserver.py:100-120) once
 * the HTTP exchange is abstracted: the JSON payload it posts, and how it
 * turns the outcome of the request into `(ok, text)`.
 */
module Forwarder {
  import opened Wrappers
  import opened Protocol
  import Hex

  /** `f"0x{id_byte:02X}"`: "0x" and two upper-case hex digits. */
  function FormatId(id: byte): (s: string)
    ensures |s| == 4 && s[..2] == "0x"
    ensures Hex.IsUpperHexChar(s[2]) && Hex.IsUpperHexChar(s[3])
  {
    "0x" + [Hex.UpperHexDigit(id as nat / 16), Hex.UpperHexDigit(id as nat % 16)]
  }

  /** The backend reads the id text back to the same byte: the formatting loses nothing. */
  lemma FormatIdRoundTrip(id: byte)
    ensures Hex.BytesFromHexString(FormatId(id)[2..]) == Some([id])
  {
    var s := FormatId(id)[2..];
    Hex.CaseIgnored(Hex.ToHex([id]));
    Hex.HexStringRoundTrip([id]);
    assert Hex.Upper(Hex.ToHex([id])) == s by {
      UpperOfLowerDigit(id as nat / 16);
      UpperOfLowerDigit(id as nat % 16);
    }
  }

  lemma UpperOfLowerDigit(v: nat)
    requires v < 16
    ensures Hex.UpperChar(Hex.LowerHexDigit(v)) == Hex.UpperHexDigit(v)
  {
  }

  /** Distinct devices are reported under distinct ids. */
  lemma FormatIdInjective(a: byte, b: byte)
    requires FormatId(a) == FormatId(b)
    ensures a == b
  {
    FormatIdRoundTrip(a);
    FormatIdRoundTrip(b);
  }

  /** `{"id": ..., "value": value_int}`: the body posted for one reading. */
  datatype Payload = Payload(id: string, value: nat)

  function MakePayload(id: byte, value: nat): (p: Payload)
    ensures p.value == value && |p.id| == 4 && p.id[..2] == "0x"
    ensures Hex.BytesFromHexString(p.id[2..]) == Some([id])
  {
    FormatIdRoundTrip(id);
    Payload(FormatId(id), value)
  }

  /** A decoded JSON document; numbers are kept as exact decimals. */
  datatype Json =
    | JNull
    | JBool(b: bool)
    | JNumber(n: real)
    | JString(s: string)
    | JArray(items: seq<Json>)
    | JObject(fields: map<string, Json>)

  /**
   * Python's `bool(...)` on a decoded JSON value: false exactly for `None`,
   * `False`, zero, the empty string, the empty list and the empty dict.
   */
  predicate Truthy(j: Json): (t: bool)
    ensures !t <==> j in {JNull, JBool(false), JNumber(0.0), JString(""), JArray([]), JObject(map[])}
  {
    match j
    case JNull => false
    case JBool(b) => b
    case JNumber(n) => n != 0.0
    case JString(s) => |s| > 0
    case JArray(items) => |items| > 0
    case JObject(fields) => |fields| > 0
  }

  /** `r.json()`: the response body, or the exception raised when it is not JSON. */
  datatype Body = Unparseable | Parsed(json: Json)

  /** What `requests.post` produced: a `RequestException`, or a response. */
  datatype HttpOutcome =
    | TransportError(error: string)
    | Response(status: int, text: string, body: Body)

  /**
   * `bool(js.get('ok', 0))`: false when the body is not JSON, and false as
   * well when it is JSON but not an object, as `.get` then raises and the
   * `except Exception` branch sets `ok = False`.
   */
  predicate OkFlag(body: Body): (ok: bool)
    ensures ok <==> body.Parsed? && body.json.JObject? && "ok" in body.json.fields && Truthy(body.json.fields["ok"])
  {
    match body
    case Unparseable => false
    case Parsed(json) =>
      json.JObject? && Truthy(if "ok" in json.fields then json.fields["ok"] else JNumber(0.0))
  }

  /** `(ok, text)` as returned by `upload_reading_to_django`. */
  datatype UploadResult = UploadResult(ok: bool, text: string)

  function Upload(outcome: HttpOutcome): (r: UploadResult)
    ensures outcome.Response? ==> r.text == outcome.text
    ensures outcome.TransportError? ==> !r.ok && r.text == "http_error=" + outcome.error
  {
    match outcome
    case TransportError(e) => UploadResult(false, "http_error=" + e)
    case Response(status, text, body) =>
      if status == 200 then UploadResult(OkFlag(body), text) else UploadResult(false, text)
  }

  /**
   * The forward counts as accepted exactly when the backend answered 200
   * with a JSON object whose `"ok"` member is present and truthy.
   */
  lemma AcceptedIff(outcome: HttpOutcome)
    ensures Upload(outcome).ok <==>
      && outcome.Response? && outcome.status == 200
      && outcome.body.Parsed? && outcome.body.json.JObject?
      && "ok" in outcome.body.json.fields && Truthy(outcome.body.json.fields["ok"])
  {
  }

  /** Any status other than 200 is a failure, whatever the body says. */
  lemma OtherStatusRejected(status: int, text: string, body: Body)
    requires status != 200
    ensures Upload(Response(status, text, body)) == UploadResult(false, text)
  {
  }

  /** A body that is not JSON, or JSON that is not an object, is a failure. */
  lemma NonObjectBodyRejected(text: string, body: Body)
    requires body.Unparseable? || !body.json.JObject?
    ensures Upload(Response(200, text, body)) == UploadResult(false, text)
  {
  }

  /** An object without `"ok"` falls back to the default 0, which is false. */
  lemma MissingOkRejected(text: string, fields: map<string, Json>)
    requires "ok" !in fields
    ensures !Upload(Response(200, text, Parsed(JObject(fields)))).ok
  {
  }

  /** A reply `{"ok": true}` is accepted; `{"ok": false}` is not. */
  lemma BackendReplies(text: string)
    ensures Upload(Response(200, text, Parsed(JObject(map["ok" := JBool(true)])))).ok
    ensures !Upload(Response(200, text, Parsed(JObject(map["ok" := JBool(false)])))).ok
  {
  }

  lemma FormatIdExamples()
    ensures FormatId(0x31) == "0x31"
    ensures FormatId(0xBB) == "0xBB"
    ensures FormatId(0x0A) == "0x0A"
  {
  }
}
