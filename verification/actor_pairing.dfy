/**
 How the actor broker and peer actors work together: the active actor's text handler,
 the pairing call it awaits, and the notifications the broker sends meanwhile.
 */
module ActorPairing {
  import opened Wrappers
  import opened PeerRegistry
  import opened ActorProtocol
  import ActorBroker
  import opened ActorPeer
  import Wire

  /** The broker's registry, the active actor and its effects after a client text, and the broker's notifications. */
  datatype Connecting = Connecting(reg: Registry, active: Peer, effects: seq<Effect>, notified: seq<ActorBroker.Notify>)

  /** A client text at actor `p`, including the broker's handling of any pairing call it makes. */
  function ClientText(reg: Registry, p: Peer, text: string, alive: set<Handle>, parse: Wire.Parser): (c: Connecting)
    ensures c.effects == HandleStream(p, Wire.WsText(text), alive, parse).effects
    ensures var r := HandleStream(p, Wire.WsText(text), alive, parse);
            r.call.None? ==> c.reg == reg && c.notified == [] && c.active == r.peer
    ensures var r := HandleStream(p, Wire.WsText(text), alive, parse);
            r.call.Some? ==>
              && r.call.value.active == p.id
              && c.reg == ActorBroker.HandleRequestConnectTo(reg, r.call.value, alive).registry
              && c.notified == ActorBroker.HandleRequestConnectTo(reg, r.call.value, alive).sent
              && (ActorBroker.Pairable(reg, p.id, r.call.value.passive, alive) ==>
                    c.active == p.(correspondent := Some(reg[r.call.value.passive])))
              && (!ActorBroker.Pairable(reg, p.id, r.call.value.passive, alive) ==> c.active == p)
  {
    var r := HandleStream(p, Wire.WsText(text), alive, parse);
    match r.call
    case None => Connecting(reg, r.peer, r.effects, [])
    case Some(req) =>
      var reply := ActorBroker.HandleRequestConnectTo(reg, req, alive);
      Connecting(reply.registry, OnConnectReply(r.peer, reply.result), r.effects, reply.sent)
  }

  /**
   An unpaired actor whose client asks for a registered, running actor gets it as its
   correspondent from the reply; the passive actor is told first, and handling the two
   notifications leaves each actor paired with the other and each client told the other's
   id. Neither id stays registered.
   */
  lemma ActorPairingIsMutual(reg: Registry, a: Peer, b: Peer, text: string, alive: set<Handle>, parse: Wire.Parser)
    requires Correspondent(a, alive).None? && parse(text) == Some(Wire.Connect(b.id))
    requires a.id != b.id && a.id in reg && b.id in reg && reg[a.id] == a.addr && reg[b.id] == b.addr
    requires a.addr in alive && b.addr in alive
    ensures var c := ClientText(reg, a, text, alive, parse);
            && c.active == a.(correspondent := Some(b.addr))
            && c.effects == []
            && c.notified == [ActorBroker.Notify(b.addr, ConnectedFrom(a.id, a.addr)),
                              ActorBroker.Notify(a.addr, ConnectedFrom(b.id, b.addr))]
            && HandleConnectedFrom(b, c.notified[0].msg).peer.correspondent == Some(a.addr)
            && HandleConnectedFrom(b, c.notified[0].msg).effects == [ToClient(Wire.Proto(Wire.Connected(a.id)))]
            && HandleConnectedFrom(c.active, c.notified[1].msg).peer == c.active
            && HandleConnectedFrom(c.active, c.notified[1].msg).effects == [ToClient(Wire.Proto(Wire.Connected(b.id)))]
            && a.id !in c.reg && b.id !in c.reg
  {
    assert ActorBroker.Pairable(reg, a.id, b.id, alive);
  }

  /**
   A failed pairing leaves the asking actor exactly as it was, free to ask again, and
   nobody is notified; the broker still forgets both ids.
   */
  lemma FailedPairingLeavesActorUnpaired(reg: Registry, a: Peer, target: PeerId, text: string, alive: set<Handle>, parse: Wire.Parser)
    requires Correspondent(a, alive).None? && parse(text) == Some(Wire.Connect(target))
    requires !ActorBroker.Pairable(reg, a.id, target, alive)
    ensures var c := ClientText(reg, a, text, alive, parse);
            && c.active == a && c.effects == [] && c.notified == []
            && (a.id != target ==> c.reg == reg - {a.id, target})
            && (a.id == target ==> c.reg == reg)
  {
    ActorBroker.RequestSucceedsIffPairable(reg, RequestConnectTo(a.id, target), alive);
  }

  /**
   A refused request (other than a self-connect) takes the requester's own entry with it:
   after the self-connect check the code removes `active` before anything else, and
   nothing puts it back. Until a Register for the same id arrives, every request the
   actor makes fails and nobody can ask for it.
   */
  lemma FailedRequestLocksOutRequester(reg: Registry, a: PeerId, p: PeerId, q: PeerId, alive: set<Handle>)
    requires a != p && !ActorBroker.Pairable(reg, a, p, alive)
    ensures var after := ActorBroker.HandleRequestConnectTo(reg, RequestConnectTo(a, p), alive).registry;
            && a !in after
            && ActorBroker.HandleRequestConnectTo(after, RequestConnectTo(a, q), alive).result.Err?
            && ActorBroker.HandleRequestConnectTo(after, RequestConnectTo(q, a), alive).result.Err?
  {
    var after := ActorBroker.HandleRequestConnectTo(reg, RequestConnectTo(a, p), alive).registry;
    UnregisteredCannotPair(after, a, q, alive);
  }

  /**
   The lockout as a property of the handler: in any registry without `a`, every request
   `a` makes fails, every request for `a` fails, and neither puts `a` back.
   */
  lemma UnregisteredCannotPair(reg: Registry, a: PeerId, q: PeerId, alive: set<Handle>)
    requires a !in reg
    ensures ActorBroker.HandleRequestConnectTo(reg, RequestConnectTo(a, q), alive).result.Err?
    ensures ActorBroker.HandleRequestConnectTo(reg, RequestConnectTo(q, a), alive).result.Err?
    ensures a !in ActorBroker.HandleRequestConnectTo(reg, RequestConnectTo(a, q), alive).registry
    ensures a !in ActorBroker.HandleRequestConnectTo(reg, RequestConnectTo(q, a), alive).registry
  {
    ActorBroker.RequestSucceedsIffPairable(reg, RequestConnectTo(a, q), alive);
    ActorBroker.RequestSucceedsIffPairable(reg, RequestConnectTo(q, a), alive);
  }

  /**
   While locked out, the actor's request for a registered, running target fails with
   "active peer not found", and still costs that target its entry.
   */
  lemma LockedOutRequestCostsTarget(after: Registry, a: PeerId, q: PeerId, alive: set<Handle>)
    requires a !in after && q != a && q in after && after[q] in alive
    ensures ActorBroker.HandleRequestConnectTo(after, RequestConnectTo(a, q), alive).result
              == Err(ActorBroker.ActiveNotFound)
    ensures ActorBroker.HandleRequestConnectTo(after, RequestConnectTo(a, q), alive).registry
              == after - {q}
  {
    assert after - {a, q} == after - {q};
  }

  /**
   Registering again ends the lockout: once the broker handles a Register for the locked
   out id with a running address, a request from it to any other registered, running
   actor succeeds. The actor itself sends Register only from `started`, once.
   */
  lemma RegisterEndsLockout(reg: Registry, a: PeerId, p: PeerId, addr: Handle, q: PeerId, alive: set<Handle>)
    requires a != p && !ActorBroker.Pairable(reg, a, p, alive)
    requires addr in alive && q != a && q != p && q in reg && reg[q] in alive
    ensures var after := ActorBroker.HandleRequestConnectTo(reg, RequestConnectTo(a, p), alive).registry;
            var again := ActorBroker.HandleRegister(after, Register(a, addr));
            ActorBroker.HandleRequestConnectTo(again, RequestConnectTo(a, q), alive).result == Ok(reg[q])
  {
    var after := ActorBroker.HandleRequestConnectTo(reg, RequestConnectTo(a, p), alive).registry;
    var again := ActorBroker.HandleRegister(after, Register(a, addr));
    assert ActorBroker.Pairable(again, a, q, alive);
  }

  /**
   Start-up, for any registry: the client first reads `Welcome` with the actor's id. When
   that write succeeds, the broker handling the Register maps the id to the actor's
   address and keeps every other entry, so any other registered, running actor can then
   be paired with it; when it fails, the broker is never told.
   */
  lemma ActorStartUp(reg: Registry, id: PeerId, addr: Handle, q: PeerId, alive: set<Handle>)
    ensures Started(New(id, addr), true)[0] == ToClient(Wire.Proto(Wire.Welcome(id)))
    ensures var e := Started(New(id, addr), true);
            && |e| == 2 && e[1].ToBroker?
            && var r := ActorBroker.HandleRegister(reg, e[1].register);
               && id in r && r[id] == addr
               && (forall k :: k in reg && k != id ==> k in r && r[k] == reg[k])
               && (addr in alive && q != id && q in reg && reg[q] in alive ==>
                     ActorBroker.Pairable(r, q, id, alive))
    ensures Started(New(id, addr), false) == [ToClient(Wire.Proto(Wire.Welcome(id)))]
  {
    var e := Started(New(id, addr), true);
    assert e[1].ToBroker?;
  }

  /**
   Relay transparency between actors: while `a`'s correspondent `b` runs, any text from
   `a`'s client, even text that reads as `Connect`, is forwarded unread to `b`, and `b`
   writes exactly that text to its own client; neither actor changes.
   */
  lemma ActorRelayIsTransparent(a: Peer, b: Peer, text: string, alive: set<Handle>, parse: Wire.Parser)
    requires a.correspondent == Some(b.addr) && b.addr in alive
    ensures var r := HandleStream(a, Wire.WsText(text), alive, parse);
            && r.peer == a && r.call.None?
            && r.effects == [ForwardTo(b.addr, Forward(text))]
            && HandleForward(b, r.effects[0].msg).peer == b
            && HandleForward(b, r.effects[0].msg).effects == [ToClient(Wire.Raw(text))]
  {
  }
}
