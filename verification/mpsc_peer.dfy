/**
 The peer agent of the channel-based variant: src/peer.rs, and src/basic/peer.rs, which is
 the same code using `WsProtocol` for `Protocol`.

 A peer owns one client websocket and one mailbox. Its loop races the two; here each
 frame or mailbox message is one atomic step from a state to a new state, the effects
 it emits and whether the loop ends. Unpaired, a peer reads client text as protocol
 commands; paired, it relays every text frame as it is.
 */
module MpscPeer {
  import opened Wrappers
  import opened PeerRegistry
  import opened MpscProtocol
  import Wire

  /** The loop state of `Peer`: its id, its own mailbox, its correspondent and the retire flag. */
  datatype Peer = Peer(id: PeerId, mailbox: Handle, correspondent: Option<Handle>, retire: bool)

  /** What a step emits: a frame to the own client, a message to the broker, a send to another peer. */
  datatype Effect =
    | ToClient(frame: Wire.ServerFrame)
    | ToBroker(msg: BrokerMsg)
    | ToPeer(send: Send)

  /** What the loop reacts to: a websocket event or a mailbox message. */
  datatype Event = Frame(ws: Wire.WsEvent) | Mail(msg: PeerMessage)

  /** The state after one step, what it emitted, and whether the loop breaks. */
  datatype Step = Step(peer: Peer, effects: seq<Effect>, exit: bool)

  /** `Peer::new`: unpaired and not retiring. */
  function New(id: PeerId, mailbox: Handle): (p: Peer)
    ensures p.id == id && p.mailbox == mailbox
    ensures p.correspondent.None? && !p.retire
  {
    Peer(id, mailbox, None, false)
  }

  /** `register_at_broker`: the broker is given this peer's id and mailbox. */
  function RegisterAtBroker(p: Peer): (e: Effect)
    ensures e.ToBroker? && e.msg.Register?
    ensures e.msg.uuid == p.id && e.msg.peer == p.mailbox
  {
    ToBroker(Register(p.id, p.mailbox))
  }

  /** `send_welcome`: the client learns its own id. */
  function SendWelcome(p: Peer): (e: Effect)
    ensures e == ToClient(Wire.Proto(Wire.Welcome(p.id)))
  {
    ToClient(Wire.Proto(Wire.Welcome(p.id)))
  }

  /** Why `send_to_correspondent` failed. */
  datatype SendError = NoCorrespondent | FailedToSend

  /** The sends `send_to_correspondent` attempted and its error, if any. */
  datatype Sent = Sent(effects: seq<Effect>, error: Option<SendError>)

  /** `send_to_correspondent`: send `msg` to the correspondent, if there is one. */
  function SendToCorrespondent(p: Peer, msg: PeerMessage, alive: set<Handle>): (r: Sent)
    ensures p.correspondent.None? ==> r == Sent([], Some(NoCorrespondent))
    ensures p.correspondent.Some? ==>
              && r.effects == [ToPeer(Send(p.correspondent.value, msg))]
              && (r.error.None? <==> Delivers(alive, p.correspondent.value))
              && (r.error.Some? ==> r.error.value == FailedToSend)
  {
    match p.correspondent
    case None => Sent([], Some(NoCorrespondent))
    case Some(c) =>
      Sent([ToPeer(Send(c, msg))], if Delivers(alive, c) then None else Some(FailedToSend))
  }

  /**
   `handle_broker_msg`. Relayed content goes to the client whatever the state; a pairing
   notice is taken only while unpaired; a kick and a correspondent's departure both end
   the peer with a Bye saying which; a Ping changes nothing.
   */
  function HandleBrokerMsg(p: Peer, msg: PeerMessage): (r: Step)
    ensures msg.P2P? ==> r.peer == p && r.effects == [ToClient(Wire.Raw(msg.content))]
    ensures msg.Connected? && p.correspondent.Some? ==> r.peer == p && r.effects == []
    ensures msg.Connected? && p.correspondent.None? ==>
              && r.peer == p.(correspondent := Some(msg.other))
              && r.effects == [ToClient(Wire.Proto(Wire.Connected(msg.otherId)))]
    ensures msg.Close? ==>
              r.peer == p.(retire := true) && r.effects == [ToClient(Wire.Proto(Wire.Bye(Wire.ByeKicked)))]
    ensures msg.Disconnected? ==>
              && r.peer == p.(retire := true)
              && r.effects == [ToClient(Wire.Proto(Wire.Bye(Wire.ByeDisconnected)))]
    ensures msg.Ping? ==> r.peer == p && r.effects == []
    ensures r.exit == r.peer.retire
  {
    match msg
    case P2P(content) => Step(p, [ToClient(Wire.Raw(content))], p.retire)
    case Connected(other, otherId) =>
      if p.correspondent.Some? then Step(p, [], p.retire)
      else
        var q := p.(correspondent := Some(other));
        Step(q, [ToClient(Wire.Proto(Wire.Connected(otherId)))], q.retire)
    case Close =>
      Step(p.(retire := true), [ToClient(Wire.Proto(Wire.Bye(Wire.ByeKicked)))], true)
    case Disconnected =>
      Step(p.(retire := true), [ToClient(Wire.Proto(Wire.Bye(Wire.ByeDisconnected)))], true)
    case Ping => Step(p, [], p.retire)
  }

  /**
   The websocket arm of the loop in `start`. A close frame retires the peer, tells the
   correspondent (a missing one is only logged) and ends the loop; an error ends it too.
   Unpaired, text that reads as `Connect(uuid)` becomes a broker request and anything
   else is dropped; paired, text is forwarded unread, and a failed forward ends the loop.
   */
  function OnFrame(p: Peer, ws: Wire.WsEvent, alive: set<Handle>, parse: Wire.Parser): (r: Step)
    ensures ws.WsClose? ==>
              && r.exit && r.peer == p.(retire := true)
              && r.effects == (if p.correspondent.Some?
                               then [ToPeer(Send(p.correspondent.value, Disconnected))] else [])
    ensures ws.WsError? ==> r == Step(p, [], true)
    ensures ws.WsOther? ==> r == Step(p, [], false)
    ensures ws.WsText? && p.correspondent.None? ==>
              && r.peer == p && !r.exit
              && r.effects == (if parse(ws.text).Some? && parse(ws.text).value.Connect?
                               then [ToBroker(Connect(p.id, parse(ws.text).value.connect))] else [])
    ensures ws.WsText? && p.correspondent.Some? ==>
              && r.peer == p
              && r.effects == [ToPeer(Send(p.correspondent.value, P2P(ws.text)))]
              && (r.exit <==> !Delivers(alive, p.correspondent.value))
  {
    if ws.WsClose? then
      var q := p.(retire := true);
      var sent := SendToCorrespondent(q, Disconnected, alive);
      Step(q, sent.effects, true)
    else if ws.WsText? then
      match p.correspondent
      case None =>
        var cmd := parse(ws.text);
        if cmd.Some? && cmd.value.Connect? then Step(p, [ToBroker(Connect(p.id, cmd.value.connect))], false)
        else Step(p, [], false)
      case Some(c) =>
        Step(p, [ToPeer(Send(c, P2P(ws.text)))], !Delivers(alive, c))
    else
      Step(p, [], ws.WsError?)
  }

  /** One turn of the loop in `start`; a mailbox message ends the loop exactly when it set `retire`. */
  function Next(p: Peer, ev: Event, alive: set<Handle>, parse: Wire.Parser): (r: Step)
    ensures r.peer.id == p.id && r.peer.mailbox == p.mailbox
    ensures ev.Mail? ==> r.exit == r.peer.retire
    ensures !p.retire && r.peer.retire ==> r.exit
    ensures p.correspondent.Some? ==> r.peer.correspondent == p.correspondent
  {
    match ev
    case Frame(ws) => OnFrame(p, ws, alive, parse)
    case Mail(msg) => HandleBrokerMsg(p, msg)
  }

  /** One input of the loop: an event and which peers are running when it is handled. */
  datatype Input = Input(event: Event, alive: set<Handle>)

  /** The state when the loop stops or runs out of input, everything emitted, and whether it broke. */
  datatype Trace = Trace(peer: Peer, effects: seq<Effect>, exited: bool)

  /** True when nothing in `effects` is addressed to the broker. */
  predicate NoBrokerTraffic(effects: seq<Effect>) {
    forall i :: 0 <= i < |effects| ==> !effects[i].ToBroker?
  }

  /**
   The loop in `start`, run over a sequence of inputs until it breaks. A paired peer keeps
   its correspondent for the rest of its life and never again addresses the broker, and a
   retired peer has left the loop.
   */
  function Run(p: Peer, inputs: seq<Input>, parse: Wire.Parser): (t: Trace)
    requires !p.retire
    ensures t.peer.id == p.id && t.peer.mailbox == p.mailbox
    ensures p.correspondent.Some? ==> t.peer.correspondent == p.correspondent
    ensures p.correspondent.Some? ==> NoBrokerTraffic(t.effects)
    ensures t.peer.retire ==> t.exited
    decreases |inputs|
  {
    if |inputs| == 0 then Trace(p, [], false)
    else
      var s := Next(p, inputs[0].event, inputs[0].alive, parse);
      if s.exit then Trace(s.peer, s.effects, true)
      else
        var t := Run(s.peer, inputs[1..], parse);
        Trace(t.peer, s.effects + t.effects, t.exited)
  }
}
