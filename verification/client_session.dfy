/**
 The subscriptions of app/src/stores.ts taken together: frame by frame, the client updates
 `oppositePeerId` from the first connected message, `oppositePeerLeftReason` from the first
 bye message, and `messageHistory` from every payload frame.
 */
module ClientSession {
  import opened Wrappers
  import opened ClientProtocol
  import opened ClientNetwork
  import opened ClientStores

  /**
   The three stores, and whether the two `first()` subscriptions have completed. Payload
   frames are what `messageHistory` holds.
   */
  datatype Session = Session(
    oppositePeerId: Store,
    leftReason: Store,
    history: seq<JsValue>,
    connectDone: bool,
    byeDone: bool)

  /** The stores when the module loads. */
  function Initial(): (s: Session)
    ensures s.oppositePeerId.value == JBool(false) && s.leftReason.value == JBool(false)
    ensures s.history == [] && !s.connectDone && !s.byeDone
  {
    Session(CreateStore("connected"), CreateStore("oppositePeerLeftReason"), [], false, false)
  }

  /** What the subscriptions do with one received frame. */
  function Receive(s: Session, f: JsValue): (r: Session)
    ensures r.history == if IsProtocolCmd(f) then s.history else AppendToHistory(s.history, f)
    ensures r.connectDone == (s.connectDone || IsConnectedMsg(f))
    ensures r.oppositePeerId.value ==
              if !s.connectDone && IsConnectedMsg(f) then Pluck("connected", f) else s.oppositePeerId.value
    ensures r.byeDone == (s.byeDone || IsByeMsg(f))
    ensures r.leftReason.value ==
              if !s.byeDone && IsByeMsg(f) then Pluck("reason", Pluck("bye", f)) else s.leftReason.value
  {
    Session(
      if !s.connectDone && IsConnectedMsg(f) then Set(s.oppositePeerId, Pluck("connected", f)) else s.oppositePeerId,
      if !s.byeDone && IsByeMsg(f) then Set(s.leftReason, Pluck("reason", Pluck("bye", f))) else s.leftReason,
      if IsProtocolCmd(f) then s.history else AppendToHistory(s.history, f),
      s.connectDone || IsConnectedMsg(f),
      s.byeDone || IsByeMsg(f))
  }

  /** The session after the frames `fs`, the latest last. */
  function ReceiveAll(fs: seq<JsValue>): Session
    decreases |fs|
  {
    if fs == [] then Initial() else Receive(ReceiveAll(fs[..|fs| - 1]), fs[|fs| - 1])
  }

  /** A store's value given what a `first()` stream has emitted. */
  function ValueAfter(first: Option<JsValue>): JsValue {
    match first
    case Some(v) => v
    case None => JBool(false)
  }

  lemma {:induction false} MessagesAppend(tag: string, xs: seq<JsValue>, ys: seq<JsValue>)
    ensures Messages(tag, xs + ys) == Messages(tag, xs) + Messages(tag, ys)
  {
    if xs == [] {
      assert xs + ys == ys;
    } else {
      assert (xs + ys)[1..] == xs[1..] + ys;
      MessagesAppend(tag, xs[1..], ys);
    }
  }

  /** A `first()` stream is fixed once it has emitted; before that, the next frame may set it. */
  lemma FirstFieldSnoc(tag: string, xs: seq<JsValue>, f: JsValue)
    ensures FirstField(tag, xs + [f]) ==
              if FirstField(tag, xs).Some? then FirstField(tag, xs)
              else if IsXMessage(tag, f) then Some(Pluck(tag, f))
              else None
  {
    MessagesAppend(tag, xs, [f]);
    var m := Messages(tag, xs);
    assert Messages(tag, [f]) == if IsXMessage(tag, f) then [f] else [];
    var p := PluckAll(tag, m + Messages(tag, [f]));
    if m != [] {
      assert p[0] == Pluck(tag, m[0]);
    }
  }

  lemma {:induction false} ReplaySnoc<T>(h: seq<T>, msgs: seq<T>, m: T)
    ensures Replay(h, msgs + [m]) == AppendToHistory(Replay(h, msgs), m)
    decreases |msgs|
  {
    if msgs == [] {
      assert Replay(AppendToHistory(h, m), []) == AppendToHistory(h, m);
    } else {
      assert (msgs + [m])[0] == msgs[0] && (msgs + [m])[1..] == msgs[1..] + [m];
      ReplaySnoc(AppendToHistory(h, msgs[0]), msgs[1..], m);
    }
  }

  /** The history is the replay of `payloadMsg`. */
  lemma {:induction false} HistoryFollowsPayloadMsg(fs: seq<JsValue>)
    ensures ReceiveAll(fs).history == Replay([], PayloadMsg(fs))
    decreases |fs|
  {
    if fs != [] {
      var pre, f := fs[..|fs| - 1], fs[|fs| - 1];
      assert fs == pre + [f];
      HistoryFollowsPayloadMsg(pre);
      PayloadMsgAppend(pre, [f]);
      assert PayloadMsg([f]) == if IsProtocolCmd(f) then [] else [f];
      if !IsProtocolCmd(f) {
        ReplaySnoc([], PayloadMsg(pre), f);
      } else {
        assert PayloadMsg(pre) + [] == PayloadMsg(pre);
      }
    }
  }

  /** `oppositePeerId` follows `connectReceived`. */
  lemma {:induction false} PeerIdFollowsConnectReceived(fs: seq<JsValue>)
    ensures ReceiveAll(fs).connectDone == ConnectReceived(fs).Some?
    ensures ReceiveAll(fs).oppositePeerId.value == ValueAfter(ConnectReceived(fs))
    decreases |fs|
  {
    if fs != [] {
      var pre, f := fs[..|fs| - 1], fs[|fs| - 1];
      assert fs == pre + [f];
      PeerIdFollowsConnectReceived(pre);
      FirstFieldSnoc("connected", pre, f);
    }
  }

  /** `oppositePeerLeftReason` follows `byeReceived`. */
  lemma {:induction false} ReasonFollowsByeReceived(fs: seq<JsValue>)
    ensures ReceiveAll(fs).byeDone == ByeReceived(fs).Some?
    ensures ReceiveAll(fs).leftReason.value ==
              ValueAfter(if ByeReceived(fs).Some? then Some(Pluck("reason", ByeReceived(fs).value)) else None)
    decreases |fs|
  {
    if fs != [] {
      var pre, f := fs[..|fs| - 1], fs[|fs| - 1];
      assert fs == pre + [f];
      ReasonFollowsByeReceived(pre);
      FirstFieldSnoc("bye", pre, f);
    }
  }

  /**
   The client's stores after the frames `fs`: `messageHistory` holds the latest 101 payload
   frames, `oppositePeerId` the id from the first connected message, and
   `oppositePeerLeftReason` the reason from the first bye message.
   */
  lemma SessionAfter(fs: seq<JsValue>)
    ensures ReceiveAll(fs).history == Latest(PayloadMsg(fs), Kept + 1)
    ensures ReceiveAll(fs).oppositePeerId.value == ValueAfter(ConnectReceived(fs))
    ensures ReceiveAll(fs).leftReason.value == ValueAfter(if ByeReceived(fs).Some? then Some(Pluck("reason", ByeReceived(fs).value)) else None)
  {
    HistoryFollowsPayloadMsg(fs);
    PeerIdFollowsConnectReceived(fs);
    ReasonFollowsByeReceived(fs);
    MessageHistoryIsLatest(PayloadMsg(fs));
  }
}
