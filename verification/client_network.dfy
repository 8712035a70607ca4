/**
 The client's view of its websocket, app/src/network.ts. Every observable there is a
 filter over the stream of decoded frames, so a stream is modelled as the sequence of
 frames received so far and each observable as the sequence it has emitted by then.
 */
module ClientNetwork {
  import opened Wrappers
  import opened ClientProtocol

  /** `isProtocolCmd`: an object carrying one of the server's message keys. */
  predicate IsProtocolCmd(v: JsValue) {
    v.JObject? && ("welcome" in v.fields || "connect" in v.fields || "connected" in v.fields || "bye" in v.fields)
  }

  /** `payloadMsg`: `filter(not(isProtocolCmd))`, everything the server did not say itself. */
  function PayloadMsg(xs: seq<JsValue>): (r: seq<JsValue>)
    ensures |r| <= |xs|
    ensures forall x :: x in r <==> x in xs && !IsProtocolCmd(x)
  {
    if xs == [] then []
    else (if IsProtocolCmd(xs[0]) then [] else [xs[0]]) + PayloadMsg(xs[1..])
  }

  /** The frames `payloadMsg` drops. */
  function ProtocolFrames(xs: seq<JsValue>): (r: seq<JsValue>)
    ensures forall x :: x in r <==> x in xs && IsProtocolCmd(x)
  {
    if xs == [] then []
    else (if IsProtocolCmd(xs[0]) then [xs[0]] else []) + ProtocolFrames(xs[1..])
  }

  /**
   `payloadMsg` and `isProtocolCmd` split the stream: every frame lands on exactly one
   side, as often as it was received.
   */
  lemma {:induction false} PayloadPartition(xs: seq<JsValue>)
    ensures |PayloadMsg(xs)| + |ProtocolFrames(xs)| == |xs|
    ensures multiset(PayloadMsg(xs)) + multiset(ProtocolFrames(xs)) == multiset(xs)
  {
    if xs != [] {
      PayloadPartition(xs[1..]);
      assert xs == [xs[0]] + xs[1..];
    }
  }

  /** `payloadMsg` over a concatenation is the concatenation of the two. */
  lemma {:induction false} PayloadMsgAppend(xs: seq<JsValue>, ys: seq<JsValue>)
    ensures PayloadMsg(xs + ys) == PayloadMsg(xs) + PayloadMsg(ys)
  {
    if xs == [] {
      assert xs + ys == ys;
    } else {
      assert (xs + ys)[1..] == xs[1..] + ys;
      PayloadMsgAppend(xs[1..], ys);
    }
  }

  /** `filter(isXCommand(tag))`. */
  function Commands(tag: string, xs: seq<JsValue>): (r: seq<JsValue>)
    ensures forall x :: x in r <==> x in xs && IsXCommand(tag, x)
  {
    if xs == [] then []
    else (if IsXCommand(tag, xs[0]) then [xs[0]] else []) + Commands(tag, xs[1..])
  }

  /** `filter(isXCommand(tag))` over a concatenation is the concatenation of the two: order is kept. */
  lemma {:induction false} CommandsAppend(tag: string, xs: seq<JsValue>, ys: seq<JsValue>)
    ensures Commands(tag, xs + ys) == Commands(tag, xs) + Commands(tag, ys)
  {
    if xs == [] {
      assert xs + ys == ys;
    } else {
      assert (xs + ys)[1..] == xs[1..] + ys;
      CommandsAppend(tag, xs[1..], ys);
    }
  }

  /** `filter(isXMessage(tag))`. */
  function Messages(tag: string, xs: seq<JsValue>): (r: seq<JsValue>)
    ensures forall x :: x in r <==> x in xs && IsXMessage(tag, x)
  {
    if xs == [] then []
    else (if IsXMessage(tag, xs[0]) then [xs[0]] else []) + Messages(tag, xs[1..])
  }

  /** rxjs `pluck(key)` on one value: the property, or `undefined` when there is none. */
  function Pluck(key: string, v: JsValue): (r: JsValue)
    ensures v.JObject? && key in v.fields ==> r == v.fields[key]
    ensures !(v.JObject? && key in v.fields) ==> r == JUndefined
  {
    if v.JObject? && key in v.fields then v.fields[key] else JUndefined
  }

  /** `pluck(key)` over a stream. */
  function PluckAll(key: string, xs: seq<JsValue>): (r: seq<JsValue>)
    ensures |r| == |xs|
    ensures forall i :: 0 <= i < |xs| ==> r[i] == Pluck(key, xs[i])
  {
    if xs == [] then [] else [Pluck(key, xs[0])] + PluckAll(key, xs[1..])
  }

  /** rxjs `first()`: the first value emitted, if any. */
  function First(xs: seq<JsValue>): (r: Option<JsValue>)
    ensures r.None? <==> xs == []
    ensures r.Some? ==> r.value == xs[0]
  {
    if xs == [] then None else Some(xs[0])
  }

  /** `offers`, `answers`, `candidates`: the payloads of the commands with the given tag. */
  function Signals(tag: string, xs: seq<JsValue>): (r: seq<JsValue>)
    ensures |r| == |Commands(tag, xs)|
    ensures forall i :: 0 <= i < |r| ==> r[i] == Pluck("payload", Commands(tag, xs)[i])
  {
    PluckAll("payload", Commands(tag, xs))
  }

  function Offers(xs: seq<JsValue>): seq<JsValue> { Signals("offer", xs) }
  function Answers(xs: seq<JsValue>): seq<JsValue> { Signals("answer", xs) }
  function Candidates(xs: seq<JsValue>): seq<JsValue> { Signals("candidate", xs) }

  /** `ownPeerId`: the `welcome` field of every welcome message. */
  function OwnPeerId(xs: seq<JsValue>): (r: seq<JsValue>)
    ensures |r| == |Messages("welcome", xs)|
    ensures forall i :: 0 <= i < |r| ==> r[i] == Pluck("welcome", Messages("welcome", xs)[i])
  {
    PluckAll("welcome", Messages("welcome", xs))
  }

  /** `filter(isXMessage(tag)), pluck(tag), first()`: the `tag` field of the first message carrying it. */
  function FirstField(tag: string, xs: seq<JsValue>): Option<JsValue> {
    First(PluckAll(tag, Messages(tag, xs)))
  }

  /** `connectReceived`: the correspondent's id from the first connected message. */
  function ConnectReceived(xs: seq<JsValue>): Option<JsValue> { FirstField("connected", xs) }

  /** `byeReceived`: the `bye` object of the first bye message. */
  function ByeReceived(xs: seq<JsValue>): Option<JsValue> { FirstField("bye", xs) }

  /** `filter` emits nothing exactly when no frame passes the guard. */
  lemma MessagesEmpty(tag: string, xs: seq<JsValue>)
    ensures Messages(tag, xs) == [] <==> forall i :: 0 <= i < |xs| ==> !IsXMessage(tag, xs[i])
  {
    if Messages(tag, xs) != [] {
      assert Messages(tag, xs)[0] in Messages(tag, xs);
    } else {
      forall i | 0 <= i < |xs| ensures !IsXMessage(tag, xs[i]) {
        assert xs[i] in xs;
      }
    }
  }

  /** The first frame that passes the guard is the first one `filter` emits. */
  lemma {:induction false} MessagesFirst(tag: string, xs: seq<JsValue>, i: nat)
    requires i < |xs| && IsXMessage(tag, xs[i])
    requires forall j :: 0 <= j < i ==> !IsXMessage(tag, xs[j])
    ensures Messages(tag, xs) != [] && Messages(tag, xs)[0] == xs[i]
    decreases i
  {
    if i > 0 {
      assert Messages(tag, xs) == Messages(tag, xs[1..]);
      assert xs[1..][i - 1] == xs[i];
      forall j | 0 <= j < i - 1 ensures !IsXMessage(tag, xs[1..][j]) {
        assert xs[1..][j] == xs[j + 1];
      }
      MessagesFirst(tag, xs[1..], i - 1);
    }
  }

  /**
   A `first()` stream has emitted nothing until a message with the key arrives, and then
   it has emitted that message's field; later messages with the key are never seen.
   */
  lemma FirstFieldIsFirstMessage(tag: string, xs: seq<JsValue>)
    ensures FirstField(tag, xs).None? <==> forall i :: 0 <= i < |xs| ==> !IsXMessage(tag, xs[i])
    ensures forall i :: 0 <= i < |xs| && IsXMessage(tag, xs[i]) && (forall j :: 0 <= j < i ==> !IsXMessage(tag, xs[j])) ==>
              FirstField(tag, xs) == Some(xs[i].fields[tag])
  {
    MessagesEmpty(tag, xs);
    forall i | 0 <= i < |xs| && IsXMessage(tag, xs[i]) && (forall j :: 0 <= j < i ==> !IsXMessage(tag, xs[j]))
      ensures FirstField(tag, xs) == Some(xs[i].fields[tag])
    {
      MessagesFirst(tag, xs, i);
    }
  }

  /** `sendAsType(type)(payload)`: the envelope `{ type, payload }`. */
  function SendAsType(t: string, payload: JsValue): (v: JsValue)
    ensures v.JObject? && v.fields.Keys == {"type", "payload"}
    ensures IsXCommand(t, v) && Pluck("payload", v) == payload
  {
    JObject(map["type" := JString(t), "payload" := payload])
  }

  function SendAsOffer(payload: JsValue): JsValue { SendAsType("offer", payload) }
  function SendAsAnswer(payload: JsValue): JsValue { SendAsType("answer", payload) }
  function SendAsCandidate(payload: JsValue): JsValue { SendAsType("candidate", payload) }

  /**
   An envelope is payload, never a server message, and the command guard of every other
   tag rejects it.
   */
  lemma EnvelopeIsPayload(t: string, payload: JsValue, tag: string)
    ensures !IsProtocolCmd(SendAsType(t, payload))
    ensures IsXCommand(tag, SendAsType(t, payload)) <==> tag == t
  {
  }

  /** The envelopes of a sequence of payloads, all sent with one type. */
  function SendAllAs(t: string, ps: seq<JsValue>): (r: seq<JsValue>)
    ensures |r| == |ps|
    ensures forall i :: 0 <= i < |ps| ==> r[i] == SendAsType(t, ps[i])
  {
    if ps == [] then [] else [SendAsType(t, ps[0])] + SendAllAs(t, ps[1..])
  }

  /** An envelope sent with `sendAsType` paired with the payload it carries. */
  datatype Signal = Signal(t: string, payload: JsValue)

  /** The frames a sequence of `sendAsType` calls puts on the wire. */
  function Envelopes(sigs: seq<Signal>): (r: seq<JsValue>)
    ensures |r| == |sigs|
    ensures forall i :: 0 <= i < |sigs| ==> r[i] == SendAsType(sigs[i].t, sigs[i].payload)
  {
    if sigs == [] then [] else [SendAsType(sigs[0].t, sigs[0].payload)] + Envelopes(sigs[1..])
  }

  /** The payloads of the signals sent with type `tag`, in order. */
  function PayloadsTagged(tag: string, sigs: seq<Signal>): (r: seq<JsValue>)
    ensures |r| <= |sigs|
  {
    if sigs == [] then []
    else (if sigs[0].t == tag then [sigs[0].payload] else []) + PayloadsTagged(tag, sigs[1..])
  }

  /**
   Demultiplexing by type: whatever mix of offers, answers and candidates a peer passes
   to `socket.next`, the stream for a tag yields exactly the payloads that were sent with
   that tag, in the order they were sent. Values and frames are the same here: the JSON
   encoding and decoding between the two sockets is taken to be the identity.
   */
  lemma {:induction false} SignalsDemultiplex(tag: string, sigs: seq<Signal>)
    ensures Signals(tag, Envelopes(sigs)) == PayloadsTagged(tag, sigs)
  {
    if sigs != [] {
      SignalsDemultiplex(tag, sigs[1..]);
      var e := Envelopes(sigs);
      assert e[1..] == Envelopes(sigs[1..]);
      EnvelopeIsPayload(sigs[0].t, sigs[0].payload, tag);
    }
  }

  /** Every envelope passes `payloadMsg`: a peer's signalling is never mistaken for the server. */
  lemma {:induction false} EnvelopesArePayload(sigs: seq<Signal>)
    ensures PayloadMsg(Envelopes(sigs)) == Envelopes(sigs)
  {
    if sigs != [] {
      EnvelopesArePayload(sigs[1..]);
      var e := Envelopes(sigs);
      assert e[1..] == Envelopes(sigs[1..]);
      EnvelopeIsPayload(sigs[0].t, sigs[0].payload, "");
      assert e == [e[0]] + e[1..];
    }
  }

  /** Offers sent one after another come out of `offers` as they went in. */
  lemma OffersRoundTrip(ps: seq<JsValue>)
    ensures Offers(SendAllAs("offer", ps)) == ps
    ensures Answers(SendAllAs("offer", ps)) == [] && Candidates(SendAllAs("offer", ps)) == []
  {
    var sigs := seq(|ps|, i requires 0 <= i < |ps| => Signal("offer", ps[i]));
    assert Envelopes(sigs) == SendAllAs("offer", ps);
    SignalsDemultiplex("offer", sigs);
    SignalsDemultiplex("answer", sigs);
    SignalsDemultiplex("candidate", sigs);
    TaggedAll("offer", ps, sigs);
    TaggedNone("answer", "offer", sigs);
    TaggedNone("candidate", "offer", sigs);
  }

  lemma {:induction false} TaggedAll(t: string, ps: seq<JsValue>, sigs: seq<Signal>)
    requires |sigs| == |ps| && forall i :: 0 <= i < |ps| ==> sigs[i] == Signal(t, ps[i])
    ensures PayloadsTagged(t, sigs) == ps
  {
    if sigs != [] {
      TaggedAll(t, ps[1..], sigs[1..]);
    }
  }

  lemma {:induction false} TaggedNone(tag: string, t: string, sigs: seq<Signal>)
    requires tag != t && forall i :: 0 <= i < |sigs| ==> sigs[i].t == t
    ensures PayloadsTagged(tag, sigs) == []
  {
    if sigs != [] {
      TaggedNone(tag, t, sigs[1..]);
    }
  }
}
