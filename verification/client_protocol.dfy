/**
 The browser client's type guards, app/src/protocol.ts. A guard looks at a JavaScript
 value decoded from a websocket frame and decides whether it is a WebRTC signalling
 command (`{type, payload}`) or a message from the server (`{welcome}`, `{connected}`,
 `{bye}`).
 */
module ClientProtocol {

  /**
   A JavaScript value as JSON decoding produces it. Objects carry only their own keys;
   `null`, arrays and fractional numbers are not modelled.
   */
  datatype JsValue =
    | JUndefined
    | JBool(b: bool)
    | JNumber(n: int)
    | JString(s: string)
    | JObject(fields: map<string, JsValue>)

  /** `typeof v === 'object'`. */
  predicate IsObject(v: JsValue) {
    v.JObject?
  }

  /** `key in v`, for an object `v`. */
  predicate HasKey(v: JsValue, key: string)
    requires IsObject(v)
  {
    key in v.fields
  }

  /** `isCommand`: an object with a `type` key. */
  predicate IsCommand(v: JsValue) {
    IsObject(v) && HasKey(v, "type")
  }

  /** `isXCommand(tag)`: a command whose `type` is strictly equal to the string `tag`. */
  predicate IsXCommand(tag: string, v: JsValue) {
    IsCommand(v) && v.fields["type"] == JString(tag)
  }

  predicate IsOfferCommand(v: JsValue) { IsXCommand("offer", v) }
  predicate IsAnswerCommand(v: JsValue) { IsXCommand("answer", v) }
  predicate IsCandidateCommand(v: JsValue) { IsXCommand("candidate", v) }

  /** `isXMessage(tag)`: an object with a `tag` key; no `type` key is needed. */
  predicate IsXMessage(tag: string, v: JsValue) {
    IsObject(v) && HasKey(v, tag)
  }

  predicate IsWelcomeMsg(v: JsValue) { IsXMessage("welcome", v) }
  predicate IsConnectedMsg(v: JsValue) { IsXMessage("connected", v) }
  predicate IsByeMsg(v: JsValue) { IsXMessage("bye", v) }

  /**
   Each command guard accepts exactly the objects whose `type` field is its tag as a
   string, so no value passes two of them, and each implies `isCommand`.
   */
  lemma CommandGuardsPartition(v: JsValue)
    ensures IsOfferCommand(v) <==> v.JObject? && "type" in v.fields && v.fields["type"] == JString("offer")
    ensures IsAnswerCommand(v) <==> v.JObject? && "type" in v.fields && v.fields["type"] == JString("answer")
    ensures IsCandidateCommand(v) <==> v.JObject? && "type" in v.fields && v.fields["type"] == JString("candidate")
    ensures IsOfferCommand(v) || IsAnswerCommand(v) || IsCandidateCommand(v) ==> IsCommand(v)
    ensures !(IsOfferCommand(v) && IsAnswerCommand(v))
    ensures !(IsOfferCommand(v) && IsCandidateCommand(v))
    ensures !(IsAnswerCommand(v) && IsCandidateCommand(v))
  {
  }

  /** A `type` that is not a string (a number, say) makes a command that no tagged guard accepts. */
  lemma NonStringTypeMatchesNoTag(fields: map<string, JsValue>, tag: string)
    requires "type" in fields && !fields["type"].JString?
    ensures IsCommand(JObject(fields)) && !IsXCommand(tag, JObject(fields))
  {
  }

  /**
   The server-message guards only ask for their key: `{tag: x}` passes the guard for
   `tag` whatever `x` is, and is no command.
   */
  lemma MessageGuardsNeedOnlyTheirKey(tag: string, x: JsValue)
    requires tag != "type"
    ensures IsXMessage(tag, JObject(map[tag := x]))
    ensures !IsCommand(JObject(map[tag := x]))
  {
  }

  /** Values that are not objects (strings, numbers, booleans, undefined) pass no guard. */
  lemma NonObjectsPassNoGuard(v: JsValue, tag: string)
    requires !v.JObject?
    ensures !IsCommand(v) && !IsXCommand(tag, v) && !IsXMessage(tag, v)
  {
  }
}
