/**
 Messages of the channel-based variants (src/broker.rs, src/peer.rs and their copies under
 src/basic/): what a peer sends to the broker and what arrives in a peer's mailbox.
 */
module MpscProtocol {
  import opened PeerRegistry

  /** Peer to broker. */
  datatype BrokerMsg =
    | Register(uuid: PeerId, peer: Handle)
    | Connect(from: PeerId, to: PeerId)

  /** Broker or correspondent to peer. */
  datatype PeerMessage =
    | P2P(content: string)
    | Connected(other: Handle, otherId: PeerId)
    | Disconnected
    | Ping
    | Close

  /** One attempted send of `msg` into the mailbox behind `to`. */
  datatype Send = Send(to: Handle, msg: PeerMessage)
}
