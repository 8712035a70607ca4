/**
 The actor broker, src/actors/broker.rs. Its registry holds weak addresses; a timer sends
 it a GC message every two seconds (here a plain event), and pairing is a request/response
 call whose errors are strings. A self-connect is refused and changes nothing.
 */
module ActorBroker {
  import opened Wrappers
  import opened PeerRegistry
  import opened ActorProtocol

  /** One attempted delivery of a `ConnectedFrom` to the actor behind `to`. */
  datatype Notify = Notify(to: Handle, msg: ConnectedFrom)

  /** The broker's registry after a `RequestConnectTo`, its reply, and the notifications it sent. */
  datatype Reply = Reply(registry: Registry, result: Result<Handle, string>, sent: seq<Notify>)

  const SelfConnect: string := "attempted to connect to self"
  const PassiveNotFound: string := "passive peer not found"
  const PassiveNotRunning: string := "passive peer not running"
  const ActiveNotFound: string := "active peer not found"
  const FailedToConnect: string := "failed to connect to peer"

  /** `Handler<GC>`: drop exactly the entries whose actor has stopped; an empty registry is left alone. */
  function Gc(reg: Registry, alive: set<Handle>): (r: Registry)
    ensures forall k :: k in r <==> k in reg && reg[k] in alive
    ensures forall k :: k in r ==> r[k] == reg[k]
    ensures AllAlive(r, alive)
  {
    if |reg| == 0 then reg else Retain(reg, alive)
  }

  /** `Handler<Register>`: `id` maps to `addr`, silently replacing an earlier entry. */
  function HandleRegister(reg: Registry, msg: Register): (r: Registry)
    ensures msg.id in r && r[msg.id] == msg.addr
    ensures r.Keys == reg.Keys + {msg.id}
    ensures forall k :: k in reg && k != msg.id ==> r[k] == reg[k]
  {
    Insert(reg, msg.id, msg.addr)
  }

  /** Both ends of a request are registered and running: the only case that pairs them. */
  predicate Pairable(reg: Registry, active: PeerId, passive: PeerId, alive: set<Handle>) {
    && active != passive
    && passive in reg && reg[passive] in alive
    && active in reg && reg[active] in alive
  }

  /**
   `Handler<RequestConnectTo>`. After the self-connect check, `active` is removed (and
   kept only if still running) before anything else is checked, `passive` right after;
   neither removal is undone on failure. The
   passive side is told first, and the active side only if that delivery went through.
   */
  function HandleRequestConnectTo(reg: Registry, msg: RequestConnectTo, alive: set<Handle>): (r: Reply)
    ensures msg.active == msg.passive ==> r == Reply(reg, Err(SelfConnect), [])
    ensures msg.active != msg.passive ==> r.registry == reg - {msg.active, msg.passive}
    ensures msg.active != msg.passive && msg.passive !in reg ==>
              r.result == Err(PassiveNotFound) && r.sent == []
    ensures msg.active != msg.passive && msg.passive in reg && reg[msg.passive] !in alive ==>
              r.result == Err(PassiveNotRunning) && r.sent == []
    ensures && msg.active != msg.passive && msg.passive in reg && reg[msg.passive] in alive
            && !(msg.active in reg && reg[msg.active] in alive) ==>
              r.result == Err(ActiveNotFound) && r.sent == []
    ensures Pairable(reg, msg.active, msg.passive, alive) ==>
              && r.result == Ok(reg[msg.passive])
              && r.sent == [Notify(reg[msg.passive], ConnectedFrom(msg.active, reg[msg.active])),
                            Notify(reg[msg.active], ConnectedFrom(msg.passive, reg[msg.passive]))]
  {
    var RequestConnectTo(active, passive) := msg;
    if active == passive then
      Reply(reg, Err(SelfConnect), [])
    else
      var a := Remove(reg, active);
      var activeAddr := if a.value.Some? && a.value.value in alive then a.value else None;
      var p := Remove(a.rest, passive);
      RemoveBoth(reg, active, passive);
      if p.value.None? then
        Reply(p.rest, Err(PassiveNotFound), [])
      else if p.value.value !in alive then
        Reply(p.rest, Err(PassiveNotRunning), [])
      else if activeAddr.None? then
        Reply(p.rest, Err(ActiveNotFound), [])
      else
        var passiveAddr := p.value.value;
        var toPassive := Notify(passiveAddr, ConnectedFrom(active, activeAddr.value));
        if !Delivers(alive, passiveAddr) then
          Reply(p.rest, Err(FailedToConnect), [toPassive])
        else
          var toActive := Notify(activeAddr.value, ConnectedFrom(passive, passiveAddr));
          Reply(p.rest, Ok(passiveAddr), [toPassive, toActive])
  }

  /**
   The request succeeds exactly when both ends are distinct, registered and running, and
   it then hands the caller the passive address. With one liveness snapshot per step the
   passive delivery cannot fail, so "failed to connect to peer" needs the passive actor
   to stop between its upgrade and the delivery.
   */
  lemma RequestSucceedsIffPairable(reg: Registry, msg: RequestConnectTo, alive: set<Handle>)
    ensures HandleRequestConnectTo(reg, msg, alive).result.Ok? <==>
              Pairable(reg, msg.active, msg.passive, alive)
    ensures HandleRequestConnectTo(reg, msg, alive).result != Err(FailedToConnect)
    ensures HandleRequestConnectTo(reg, msg, alive).result.Ok? ==>
              && HandleRequestConnectTo(reg, msg, alive).result.value == reg[msg.passive]
              && msg.active !in HandleRequestConnectTo(reg, msg, alive).registry
              && msg.passive !in HandleRequestConnectTo(reg, msg, alive).registry
  {
  }
}
