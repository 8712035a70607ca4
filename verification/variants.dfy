/**
 The three brokers and the two kinds of peer side by side: where the historical variants
 agree and where they part ways.
 */
module Variants {
  import opened Wrappers
  import opened PeerRegistry
  import MpscProtocol
  import MpscBroker
  import OldBroker
  import ActorProtocol
  import ActorBroker
  import MpscPeer
  import ActorPeer

  /**
   A self-connect of a registered id: the channel broker removes and kicks the peer, the
   oldest broker removes it without a word, the actor broker refuses and changes nothing.
   */
  lemma SelfConnectPolicies(reg: Registry, x: PeerId, alive: set<Handle>)
    requires x in reg
    ensures MpscBroker.ConnectPeers(reg, x, x) ==
              MpscBroker.Outcome(reg - {x}, [MpscProtocol.Send(reg[x], MpscProtocol.Close)])
    ensures OldBroker.ConnectPeers(reg, x, x) == OldBroker.Outcome(reg - {x}, [])
    ensures ActorBroker.HandleRequestConnectTo(reg, ActorProtocol.RequestConnectTo(x, x), alive) ==
              ActorBroker.Reply(reg, Err(ActorBroker.SelfConnect), [])
  {
    assert reg - {x, x} == reg - {x};
  }

  /**
   Two distinct registered, running peers: every broker removes both entries and hands
   each peer the other's mailbox.
   */
  lemma SuccessfulPairingAgrees(reg: Registry, a: PeerId, b: PeerId, alive: set<Handle>)
    requires a != b && a in reg && b in reg && reg[a] in alive && reg[b] in alive
    ensures var m := MpscBroker.ConnectPeers(reg, a, b);
            && m.registry == reg - {a, b}
            && m.sent == [MpscProtocol.Send(reg[a], MpscProtocol.Connected(reg[b], b)),
                          MpscProtocol.Send(reg[b], MpscProtocol.Connected(reg[a], a))]
    ensures var o := OldBroker.ConnectPeers(reg, a, b);
            && o.registry == reg - {a, b}
            && o.sent == [OldBroker.Send(reg[a], OldBroker.Connected(reg[b])),
                          OldBroker.Send(reg[b], OldBroker.Connected(reg[a]))]
    ensures var r := ActorBroker.HandleRequestConnectTo(reg, ActorProtocol.RequestConnectTo(a, b), alive);
            && r.registry == reg - {a, b}
            && r.result == Ok(reg[b])
            && r.sent == [ActorBroker.Notify(reg[b], ActorProtocol.ConnectedFrom(a, reg[a])),
                          ActorBroker.Notify(reg[a], ActorProtocol.ConnectedFrom(b, reg[b]))]
  {
  }

  /**
   The requester is unknown but the requested peer is registered: in every variant the
   requested peer loses its entry, and nobody is told anything.
   */
  lemma UnknownRequesterDropsTarget(reg: Registry, a: PeerId, b: PeerId, alive: set<Handle>)
    requires a != b && a !in reg && b in reg
    ensures MpscBroker.ConnectPeers(reg, a, b) == MpscBroker.Outcome(reg - {b}, [])
    ensures OldBroker.ConnectPeers(reg, a, b) == OldBroker.Outcome(reg - {b}, [])
    ensures var r := ActorBroker.HandleRequestConnectTo(reg, ActorProtocol.RequestConnectTo(a, b), alive);
            && r.registry == reg - {b}
            && r.result.Err?
            && r.sent == []
  {
    assert reg - {a, b} == reg - {b};
  }

  /**
   A second pairing notice to a paired peer: the channel peer ignores it, the actor
   replaces its correspondent and tells its client the new id.
   */
  lemma SecondNoticePolicies(mp: MpscPeer.Peer, ap: ActorPeer.Peer, other: Handle, id: PeerId)
    requires mp.correspondent.Some? && ap.correspondent.Some?
    ensures MpscPeer.HandleBrokerMsg(mp, MpscProtocol.Connected(other, id)).peer == mp
    ensures MpscPeer.HandleBrokerMsg(mp, MpscProtocol.Connected(other, id)).effects == []
    ensures ActorPeer.HandleConnectedFrom(ap, ActorProtocol.ConnectedFrom(id, other)).peer.correspondent == Some(other)
  {
  }
}
