/**
 The peer actor, src/actors/peer.rs. Its correspondent is a weak address that counts only
 while the actor behind it runs. Asking the broker for a pairing is a call the handler
 awaits; here the handler returns the call it makes, and `OnConnectReply` finishes the
 handler once the broker has answered.
 */
module ActorPeer {
  import opened Wrappers
  import opened PeerRegistry
  import opened ActorProtocol
  import Wire

  /** The actor's state: its id, its own address and its correspondent. */
  datatype Peer = Peer(id: PeerId, addr: Handle, correspondent: Option<Handle>)

  /**
   What a handler emits: a frame to the own client, a broker registration, relayed text,
   or `ctx.stop()`, after which the actor's address no longer counts as running.
   */
  datatype Effect =
    | ToClient(frame: Wire.ServerFrame)
    | ToBroker(register: Register)
    | ForwardTo(to: Handle, msg: Forward)
    | StopSelf

  /** A handler's new state, its effects, and the pairing call it awaits, if any. */
  datatype Reaction = Reaction(peer: Peer, effects: seq<Effect>, call: Option<RequestConnectTo>)

  /** `Peer::new`: unpaired. */
  function New(id: PeerId, addr: Handle): (p: Peer)
    ensures p.id == id && p.addr == addr && p.correspondent.None?
  {
    Peer(id, addr, None)
  }

  /**
   `started`: greet the client with its id, then register with the broker. The greeting
   is written with `.await?`, so when that write fails (`welcomeWritten` false) `started`
   returns the error and the Register is never sent.
   */
  function Started(p: Peer, welcomeWritten: bool): (effects: seq<Effect>)
    ensures |effects| > 0 && effects[0] == ToClient(Wire.Proto(Wire.Welcome(p.id)))
    ensures welcomeWritten ==> |effects| == 2 && effects[1] == ToBroker(Register(p.id, p.addr))
    ensures forall e :: e in effects && e.ToBroker? ==> welcomeWritten && e.register == Register(p.id, p.addr)
  {
    var greet := ToClient(Wire.Proto(Wire.Welcome(p.id)));
    if welcomeWritten then [greet, ToBroker(Register(p.id, p.addr))] else [greet]
  }

  /** `correspondent()`: the stored address, if its actor still runs. */
  function Correspondent(p: Peer, alive: set<Handle>): (c: Option<Handle>)
    ensures c.Some? <==> p.correspondent.Some? && p.correspondent.value in alive
    ensures c.Some? ==> c == p.correspondent
  {
    match p.correspondent
    case Some(c) => if c in alive then Some(c) else None
    case None => None
  }

  /** `handle_ws_message`: only `Connect(peer_id)` acts, by asking the broker to pair us. */
  function HandleWsMessage(p: Peer, msg: Wire.WsProtocol): (call: Option<RequestConnectTo>)
    ensures call.Some? <==> msg.Connect?
    ensures call.Some? ==> call.value == RequestConnectTo(p.id, msg.connect)
  {
    if msg.Connect? then Some(RequestConnectTo(p.id, msg.connect)) else None
  }

  /** The rest of `handle_ws_message`: on Ok the passive address becomes the correspondent. */
  function OnConnectReply(p: Peer, reply: Result<Handle, string>): (q: Peer)
    ensures reply.Ok? ==> q == p.(correspondent := Some(reply.value))
    ensures reply.Err? ==> q == p
  {
    match reply
    case Ok(c) => p.(correspondent := Some(c))
    case Err(_) => p
  }

  /**
   `StreamHandler::handle`. With a running correspondent every text frame is forwarded
   unread; without one it is read as a protocol message, and unreadable text is dropped.
   A close frame stops the actor without telling the correspondent; any other frame,
   and a stream error, is ignored.
   */
  function HandleStream(p: Peer, ws: Wire.WsEvent, alive: set<Handle>, parse: Wire.Parser): (r: Reaction)
    ensures ws.WsText? && Correspondent(p, alive).Some? ==>
              r == Reaction(p, [ForwardTo(p.correspondent.value, Forward(ws.text))], None)
    ensures ws.WsText? && Correspondent(p, alive).None? ==>
              && r.peer == p && r.effects == []
              && (r.call.Some? <==> parse(ws.text).Some? && parse(ws.text).value.Connect?)
              && (r.call.Some? ==> r.call.value == RequestConnectTo(p.id, parse(ws.text).value.connect))
    ensures ws.WsClose? ==> r == Reaction(p, [StopSelf], None)
    ensures ws.WsOther? || ws.WsError? ==> r == Reaction(p, [], None)
  {
    if ws.WsText? then
      match Correspondent(p, alive)
      case Some(c) => Reaction(p, [ForwardTo(c, Forward(ws.text))], None)
      case None =>
        match parse(ws.text)
        case Some(msg) => Reaction(p, [], HandleWsMessage(p, msg))
        case None => Reaction(p, [], None)
    else if ws.WsClose? then
      Reaction(p, [StopSelf], None)
    else
      Reaction(p, [], None)
  }

  /** `Handler<ConnectedFrom>`: take the new correspondent, whatever was there, and tell the client. */
  function HandleConnectedFrom(p: Peer, msg: ConnectedFrom): (r: Reaction)
    ensures r.peer == p.(correspondent := Some(msg.addr))
    ensures r.effects == [ToClient(Wire.Proto(Wire.Connected(msg.id)))] && r.call.None?
  {
    Reaction(p.(correspondent := Some(msg.addr)), [ToClient(Wire.Proto(Wire.Connected(msg.id)))], None)
  }

  /** `Handler<Forward>`: write the relayed text to the client as it is. */
  function HandleForward(p: Peer, msg: Forward): (r: Reaction)
    ensures r == Reaction(p, [ToClient(Wire.Raw(msg.text))], None)
  {
    Reaction(p, [ToClient(Wire.Raw(msg.text))], None)
  }

  /**
   A correspondent whose actor has stopped is no correspondent: client frames are handled
   exactly as they would be by the same actor unpaired.
   */
  lemma StoppedCorrespondentIsUnpaired(p: Peer, ws: Wire.WsEvent, alive: set<Handle>, parse: Wire.Parser)
    requires p.correspondent.Some? && p.correspondent.value !in alive
    ensures var paired := HandleStream(p, ws, alive, parse);
            var unpaired := HandleStream(p.(correspondent := None), ws, alive, parse);
            && paired.effects == unpaired.effects
            && paired.call == unpaired.call
            && paired.peer == unpaired.peer.(correspondent := p.correspondent)
  {
  }

  /** Once paired with a running actor, no text frame is ever read as a command. */
  lemma PairedNeverParses(p: Peer, text: string, alive: set<Handle>, parse: Wire.Parser)
    requires Correspondent(p, alive).Some?
    ensures HandleStream(p, Wire.WsText(text), alive, parse).call.None?
    ensures HandleStream(p, Wire.WsText(text), alive, parse).effects ==
              [ForwardTo(p.correspondent.value, Forward(text))]
  {
  }
}
