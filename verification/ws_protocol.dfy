/**
 The JSON protocol between the server and its browser clients (`WsProtocol` in
 src/ws_protocol.rs, `Protocol` in src/peer.rs), and the websocket frames that carry it.

 The JSON text itself is produced and read by serde, which is not part of this model: a
 frame the server writes is either a protocol message (serialised by serde) or relayed
 text written verbatim, and reading a frame is a `parse` function that the peer steps
 take as a parameter. The shape the browser decodes is described in `ServerJson`.
 */
module Wire {
  import opened Wrappers
  import opened PeerRegistry

  /** Messages of the websocket protocol. `Subscribed` exists only in src/ws_protocol.rs. */
  datatype WsProtocol =
    | Welcome(welcome: PeerId)
    | Connect(connect: PeerId)
    | Connected(connected: PeerId)
    | Subscribed
    | Bye(reason: string)

  /** Reading a text frame as a protocol message (serde_json), abstracted. */
  type Parser = string -> Option<WsProtocol>

  /** A text frame the server writes to its client. */
  datatype ServerFrame =
    | Proto(msg: WsProtocol)   // a protocol message, serialised as JSON
    | Raw(text: string)        // relayed content, written as it was received

  /** What the server reads from a client's websocket. */
  datatype WsEvent =
    | WsText(text: string)  // a text frame
    | WsClose               // a close frame
    | WsOther               // a binary, ping or pong frame
    | WsError               // the stream yielded an error

  /** The reasons a Bye carries. */
  const ByeKicked: string := "kicked"
  const ByeDisconnected: string := "disconnected"
}
