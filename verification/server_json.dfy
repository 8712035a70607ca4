/**
 The JSON text of the server's protocol messages as the client decodes it. `WsProtocol`
 (src/ws_protocol.rs) derives serde's externally tagged representation with camelCase
 variant names: a unit variant is its name as a string, a newtype variant a one-key object,
 and `Bye { reason }` a one-key object holding an object with a `reason` field. A `PeerId`
 is a newtype around a string and appears as that string.
 */
module ServerJson {
  import opened Wrappers
  import Wire
  import opened ClientProtocol
  import opened ClientNetwork

  /** The decoded JSON of a server message. */
  function ToJson(m: Wire.WsProtocol): (v: JsValue)
    ensures m.Subscribed? <==> v == JString("subscribed")
    ensures !m.Subscribed? ==> v.JObject? && |v.fields| == 1
  {
    if m.Welcome? then JObject(map["welcome" := JString(m.welcome)])
    else if m.Connect? then JObject(map["connect" := JString(m.connect)])
    else if m.Connected? then JObject(map["connected" := JString(m.connected)])
    else if m.Subscribed? then JString("subscribed")
    else JObject(map["bye" := JObject(map["reason" := JString(m.reason)])])
  }

  /** The string field `key` of the one-key object `v`, if that is what `v` is. */
  function OnlyString(v: JsValue, key: string): (r: Option<string>)
    ensures r.Some? <==> v.JObject? && v.fields.Keys == {key} && v.fields[key].JString?
    ensures r.Some? ==> r.value == v.fields[key].s
  {
    if v.JObject? && v.fields.Keys == {key} && v.fields[key].JString? then Some(v.fields[key].s) else None
  }

  /**
   Reading a decoded frame back as a server message, as the server's deserializer does
   for the object forms: exactly one key naming the variant; the fields of `bye` other
   than `reason` are ignored.
   */
  function FromJson(v: JsValue): (r: Option<Wire.WsProtocol>)
    ensures r.Some? && !r.value.Subscribed? ==> v.JObject? && |v.fields| == 1
    ensures v.JString? ==> (r.Some? <==> v.s == "subscribed")
  {
    if v == JString("subscribed") then Some(Wire.Subscribed)
    else if OnlyString(v, "welcome").Some? then Some(Wire.Welcome(OnlyString(v, "welcome").value))
    else if OnlyString(v, "connect").Some? then Some(Wire.Connect(OnlyString(v, "connect").value))
    else if OnlyString(v, "connected").Some? then Some(Wire.Connected(OnlyString(v, "connected").value))
    else if v.JObject? && v.fields.Keys == {"bye"} && v.fields["bye"].JObject?
            && "reason" in v.fields["bye"].fields && v.fields["bye"].fields["reason"].JString? then
      Some(Wire.Bye(v.fields["bye"].fields["reason"].s))
    else None
  }

  /** Every server message reads back as itself. */
  lemma JsonRoundTrip(m: Wire.WsProtocol)
    ensures FromJson(ToJson(m)) == Some(m)
  {
    var v := ToJson(m);
    if m.Welcome? {
      assert v.fields.Keys == {"welcome"};
    } else if m.Connect? {
      assert v.fields.Keys == {"connect"};
    } else if m.Connected? {
      assert v.fields.Keys == {"connected"};
    } else if m.Bye? {
      assert v.fields.Keys == {"bye"};
    }
  }

  /**
   The client's guards sort the server's messages correctly: each is a protocol frame
   except `Subscribed` (which the server never sends), each passes the guard of its own
   key and no other, none is a signalling command, and plucking the key yields the id
   or the reason the server put there.
   */
  lemma ClientReadsServerMessages(m: Wire.WsProtocol)
    ensures IsProtocolCmd(ToJson(m)) <==> !m.Subscribed?
    ensures IsWelcomeMsg(ToJson(m)) <==> m.Welcome?
    ensures IsConnectedMsg(ToJson(m)) <==> m.Connected?
    ensures IsByeMsg(ToJson(m)) <==> m.Bye?
    ensures !IsCommand(ToJson(m))
    ensures m.Welcome? ==> Pluck("welcome", ToJson(m)) == JString(m.welcome)
    ensures m.Connected? ==> Pluck("connected", ToJson(m)) == JString(m.connected)
    ensures m.Bye? ==> Pluck("reason", Pluck("bye", ToJson(m))) == JString(m.reason)
  {
  }

  /** The frames of a sequence of server messages. */
  function AllToJson(ms: seq<Wire.WsProtocol>): (r: seq<JsValue>)
    ensures |r| == |ms|
    ensures forall i :: 0 <= i < |ms| ==> r[i] == ToJson(ms[i])
  {
    if ms == [] then [] else [ToJson(ms[0])] + AllToJson(ms[1..])
  }

  /** Nothing the server says reaches `payloadMsg`. */
  lemma {:induction false} ServerSaysNoPayload(ms: seq<Wire.WsProtocol>)
    requires forall i :: 0 <= i < |ms| ==> !ms[i].Subscribed?
    ensures PayloadMsg(AllToJson(ms)) == []
  {
    if ms != [] {
      ServerSaysNoPayload(ms[1..]);
      ClientReadsServerMessages(ms[0]);
      assert AllToJson(ms)[1..] == AllToJson(ms[1..]);
    }
  }

  /** The ids of the `Welcome` messages among `ms`, as the strings the client reads, in order. */
  function WelcomeIds(ms: seq<Wire.WsProtocol>): (r: seq<JsValue>)
    ensures |r| <= |ms|
  {
    if ms == [] then []
    else (if ms[0].Welcome? then [JString(ms[0].welcome)] else []) + WelcomeIds(ms[1..])
  }

  /** `ownPeerId` yields exactly the ids the server welcomed the client with, in order. */
  lemma {:induction false} OwnPeerIdReadsWelcomes(ms: seq<Wire.WsProtocol>)
    ensures OwnPeerId(AllToJson(ms)) == WelcomeIds(ms)
  {
    if ms != [] {
      OwnPeerIdReadsWelcomes(ms[1..]);
      ClientReadsServerMessages(ms[0]);
      var js := AllToJson(ms);
      assert js[1..] == AllToJson(ms[1..]);
      assert Messages("welcome", js) ==
               (if ms[0].Welcome? then [js[0]] else []) + Messages("welcome", js[1..]);
    }
  }

  /**
   A server message arriving anywhere in the stream, between signalling frames or not,
   leaves every signalling stream as it was: it is never a command.
   */
  lemma ServerMessageLeavesSignals(tag: string, xs: seq<JsValue>, m: Wire.WsProtocol, ys: seq<JsValue>)
    ensures Signals(tag, xs + [ToJson(m)] + ys) == Signals(tag, xs + ys)
  {
    ClientReadsServerMessages(m);
    CommandsAppend(tag, xs + [ToJson(m)], ys);
    CommandsAppend(tag, xs, [ToJson(m)]);
    CommandsAppend(tag, xs, ys);
    assert Commands(tag, [ToJson(m)]) == [];
    assert Commands(tag, xs) + [] == Commands(tag, xs);
  }
}
