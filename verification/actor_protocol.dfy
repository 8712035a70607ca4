/**
 Messages of the actor variant (src/actors/protocol.rs). Actor addresses are weak: a
 `Handle` that may outlive the actor behind it.
 */
module ActorProtocol {
  import opened PeerRegistry

  /** 1. A peer registers its address under its id. */
  datatype Register = Register(id: PeerId, addr: Handle)

  /** 2. The active peer asks the broker to pair it with the passive one. */
  datatype RequestConnectTo = RequestConnectTo(active: PeerId, passive: PeerId)

  /** 3. A peer learns that `id`, behind `addr`, is now its correspondent. */
  datatype ConnectedFrom = ConnectedFrom(id: PeerId, addr: Handle)

  /** Relayed client text, from one peer to the other. */
  datatype Forward = Forward(text: string)
}
