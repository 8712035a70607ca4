/**
 The broker of the channel-based variant: src/broker.rs, and src/basic/broker.rs, which is
 the same algorithm with ids passed by reference and a different logging crate.

 The broker owns the registry ("loose channels") of peers that registered but are not
 paired yet. A self-connect "kicks" the peer, and every Register first sweeps out the
 peers whose mailbox no longer accepts a Ping.
 */
module MpscBroker {
  import opened Wrappers
  import opened PeerRegistry
  import opened MpscProtocol

  /** The registry after one broker step and the sends it attempted, in order. */
  datatype Outcome = Outcome(registry: Registry, sent: seq<Send>)

  /**
   `connect_peers`. A self-connect of a registered id removes and kicks it. Otherwise the
   tuple `(contains_key(from), remove(to))` is evaluated in full, so `to` is removed even
   when `from` is not registered; only when both were there is `from` removed as well and
   each side told about the other. Failed sends are only logged.
   */
  function ConnectPeers(reg: Registry, from: PeerId, to: PeerId): (r: Outcome)
    ensures from == to && from in reg ==>
              r.registry == reg - {from} && r.sent == [Send(reg[from], Close)]
    ensures from == to && from !in reg ==> r.registry == reg && r.sent == []
    ensures from != to && from in reg && to in reg ==>
              && r.registry == reg - {from, to}
              && r.sent == [Send(reg[from], Connected(reg[to], to)),
                            Send(reg[to], Connected(reg[from], from))]
    ensures from in reg && to !in reg ==> r.registry == reg && r.sent == []
    ensures from !in reg ==> r.registry == reg - {to} && r.sent == []
  {
    if from == to && from in reg then
      var badGuy := Remove(reg, from);
      Outcome(badGuy.rest, [Send(badGuy.value.value, Close)])
    else
      var hasFrom := from in reg;
      var b := Remove(reg, to);
      if hasFrom && b.value.Some? then
        var a := Remove(b.rest, from);
        RemoveBoth(reg, to, from);
        var peerA := a.value.value;
        var peerB := b.value.value;
        Outcome(a.rest, [Send(peerA, Connected(peerB, to)), Send(peerB, Connected(peerA, from))])
      else
        Outcome(b.rest, [])
  }

  /** `clean_out_dead_peers`: keep exactly the entries whose Ping send succeeds. */
  function CleanOutDeadPeers(reg: Registry, alive: set<Handle>): (r: Registry)
    ensures forall k :: k in r <==> k in reg && Delivers(alive, reg[k])
    ensures forall k :: k in r ==> r[k] == reg[k]
  {
    Retain(reg, alive)
  }

  /** One turn of the broker loop in `create`: a Register sweeps first, then inserts. */
  function Step(reg: Registry, msg: BrokerMsg, alive: set<Handle>): (r: Outcome)
    ensures msg.Register? ==>
              && msg.uuid in r.registry && r.registry[msg.uuid] == msg.peer
              && r.sent == []
              && (forall k :: k != msg.uuid ==>
                    (k in r.registry <==> k in reg && reg[k] in alive))
              && (forall k :: k in r.registry && k != msg.uuid ==> r.registry[k] == reg[k])
    ensures msg.Connect? ==> r == ConnectPeers(reg, msg.from, msg.to)
  {
    match msg
    case Register(uuid, peer) =>
      Outcome(RegisterPeer(CleanOutDeadPeers(reg, alive), uuid, peer).registry, [])
    case Connect(from, to) =>
      ConnectPeers(reg, from, to)
  }

  /** Registered ids that are neither endpoint of a connect request keep their entry. */
  lemma ConnectFrame(reg: Registry, from: PeerId, to: PeerId, k: PeerId)
    requires k in reg && k != from && k != to
    ensures k in ConnectPeers(reg, from, to).registry
    ensures ConnectPeers(reg, from, to).registry[k] == reg[k]
  {
  }

  /**
   A connect request only ever removes entries, only `from` and `to`, and tells peers
   about each other exactly when two distinct registered ids were named; then the
   notifications are mutual.
   */
  lemma ConnectNotifiesIffPaired(reg: Registry, from: PeerId, to: PeerId)
    ensures reg.Keys - {from, to} <= ConnectPeers(reg, from, to).registry.Keys <= reg.Keys
    ensures (exists s :: s in ConnectPeers(reg, from, to).sent && s.msg.Connected?) <==>
              from != to && from in reg && to in reg
    ensures forall i :: 0 <= i < |ConnectPeers(reg, from, to).sent| ==>
              var s := ConnectPeers(reg, from, to).sent[i];
              s.msg.Connected? ==>
                Send(s.msg.other, Connected(s.to, if s.msg.otherId == to then from else to))
                  in ConnectPeers(reg, from, to).sent
  {
    var r := ConnectPeers(reg, from, to);
    if from != to && from in reg && to in reg {
      assert r.sent[0].msg.Connected?;
    }
  }
}
