/**
 The oldest broker, in src/main.rs. Its `Connected` notification carries the other peer's
 sender but not its id, there is no sweep of dead peers, and `connect_peers` removes both
 ids before it looks at the results.
 */
module OldBroker {
  import opened Wrappers
  import opened PeerRegistry

  /** Peer to broker messages of this variant. */
  datatype BrokerMsg =
    | Register(uuid: PeerId, peer: Handle)
    | Connect(from: PeerId, to: PeerId)

  /** Broker or correspondent to peer messages of this variant. */
  datatype PeerMessage =
    | P2P(content: string)
    | Connected(other: Handle)

  /** One attempted send of `msg` into the mailbox behind `to`. */
  datatype Send = Send(to: Handle, msg: PeerMessage)

  /** The registry after one broker step and the sends it attempted, in order. */
  datatype Outcome = Outcome(registry: Registry, sent: seq<Send>)

  /**
   `connect_peers`: `remove(from)` and `remove(to)` both run before the match, so neither
   id is registered afterwards, whatever happens. A self-connect takes the entry with the
   first remove, finds nothing with the second, and so drops the peer without a word.
   */
  function ConnectPeers(reg: Registry, from: PeerId, to: PeerId): (r: Outcome)
    ensures r.registry == reg - {from, to}
    ensures from != to && from in reg && to in reg ==>
              r.sent == [Send(reg[from], Connected(reg[to])), Send(reg[to], Connected(reg[from]))]
    ensures !(from != to && from in reg && to in reg) ==> r.sent == []
  {
    var a := Remove(reg, from);
    var b := Remove(a.rest, to);
    RemoveBoth(reg, from, to);
    if a.value.Some? && b.value.Some? then
      var peerA := a.value.value;
      var peerB := b.value.value;
      Outcome(b.rest, [Send(peerA, Connected(peerB)), Send(peerB, Connected(peerA))])
    else
      Outcome(b.rest, [])
  }

  /** One turn of the broker loop in `create`: plain dispatch, no sweep. */
  function Step(reg: Registry, msg: BrokerMsg): (r: Outcome)
    ensures msg.Register? ==>
              && r.registry == reg[msg.uuid := msg.peer]
              && r.sent == []
    ensures msg.Connect? ==> r.registry == reg - {msg.from, msg.to}
    ensures msg.Connect? ==> r == ConnectPeers(reg, msg.from, msg.to)
  {
    match msg
    case Register(uuid, peer) => Outcome(RegisterPeer(reg, uuid, peer).registry, [])
    case Connect(from, to) => ConnectPeers(reg, from, to)
  }

  /**
   Two peers that register under distinct ids and then ask for each other are both told
   about the other, whatever the registry held before; neither id stays registered, and
   every other entry is as it was.
   */
  lemma RegisterThenConnect(reg: Registry, a: PeerId, ha: Handle, b: PeerId, hb: Handle)
    requires a != b
    ensures var r1 := Step(reg, Register(a, ha)).registry;
            var r2 := Step(r1, Register(b, hb)).registry;
            var o := Step(r2, Connect(a, b));
            && o.sent == [Send(ha, Connected(hb)), Send(hb, Connected(ha))]
            && o.registry == reg - {a, b}
  {
    var r2 := reg[a := ha][b := hb];
    assert r2 - {a, b} == reg - {a, b};
  }
}
