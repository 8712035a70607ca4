# cast-me rendezvous relay, modelled in Dafny

cast-me pairs two browser clients over a websocket server so that they can exchange
WebRTC signalling. Each connection gets a **peer agent** with a fresh human-readable id.
The agent greets its client with `Welcome(id)` and registers with a singleton **broker**.
A client that sends `Connect(other-id)` asks the broker to pair the two agents. The broker
removes both from its registry of unpaired peers and tells each agent about the other.
From then on every text frame a client sends is relayed verbatim to the other client.
When one websocket closes, the other client is told `Bye { reason: "disconnected" }`.

The repository holds three generations of the server and a TypeScript client. This
project models all of them:

| module | models |
|---|---|
| `PeerRegistry` | the registry shared by all brokers: map operations and the dead-peer sweep |
| `OldBroker` | the oldest broker, src/main.rs (sender-only notifications, no sweep) |
| `MpscProtocol`, `MpscBroker` | the channel broker, src/broker.rs and its copy src/basic/broker.rs |
| `MpscPeer` | the channel peer loop, src/peer.rs and its copy src/basic/peer.rs |
| `MpscPairing` | channel broker and peers together: registration, mutual pairing, relaying, a full rendezvous |
| `ActorProtocol`, `ActorBroker` | the actor broker, src/actors/broker.rs and src/actors/protocol.rs |
| `ActorPeer`, `ActorPairing` | the peer actor, src/actors/peer.rs, and its pairing call to the broker |
| `Variants` | where the variants agree and where they differ |
| `Wire`, `ServerJson` | the websocket protocol, src/ws_protocol.rs, and the JSON shape the browser decodes |
| `ClientProtocol` | the client's type guards, app/src/protocol.ts |
| `ClientNetwork` | the client's filtered streams and the `sendAsType` envelope, app/src/network.ts |
| `ClientStores`, `ClientSession` | the client's stores and the 101-frame message history, app/src/stores.ts |

Modelling choices:

- Every handler is a pure function. It returns the new state, the effects it emits in
  order, and (for the channel peer) whether its loop breaks.
- Effects are frames to the own client, messages to the broker, and sends to another
  peer's mailbox.
- Which peers still run is one snapshot `alive: set<Handle>` per step. A send into a
  mailbox, `WeakAddr::stopped`, `WeakAddr::upgrade` and an actor send all succeed exactly
  for handles in `alive`.
- Reading a client frame as JSON is a parameter `parse: string -> Option<WsProtocol>`.
  Every peer step takes it.
- JavaScript values are undefined, booleans, integer numbers, strings, and objects with
  their own keys.
- An rxjs stream is the sequence of frames received so far. Each observable is the
  sequence it has emitted by then.

src/basic/broker.rs and src/basic/peer.rs repeat src/broker.rs and src/peer.rs line for
line. The differences are ids passed by reference, `tracing` for logging, and
`WsProtocol` for `Protocol`. The rows below cite the src/ copies. The basic/ counterparts
are:

| src/ | src/basic/ |
|---|---|
| src/broker.rs register_peer, 33-42 | src/basic/broker.rs:32-45 |
| src/broker.rs connect_peers, 44-75 | src/basic/broker.rs:47-78 |
| src/broker.rs clean_out_dead_peers, 77-85 | src/basic/broker.rs:80-88 |
| src/broker.rs dispatch loop, 95-107 | src/basic/broker.rs:98-110 |
| src/peer.rs register_at_broker, 133-138 | src/basic/peer.rs:88-93 |
| src/peer.rs websocket arm of `start`, 144-182 | src/basic/peer.rs:99-137 |
| src/peer.rs send_to_correspondent, 202-213 | src/basic/peer.rs:157-168 |
| src/peer.rs handle_broker_msg, 223-270 | src/basic/peer.rs:178-225 |

The three generations differ on these points; the model follows each one's code:

- The actor peer replaces its correspondent when a second `ConnectedFrom` arrives
  (src/actors/peer.rs:129). The channel peer keeps its first correspondent and ignores a
  second `Connected` (src/peer.rs:237) (`Variants.SecondNoticePolicies`).
- A self-connect is refused only by the actor broker. The channel broker kicks the named
  peer with `Bye { reason: "kicked" }`. The oldest broker drops that peer's entry without
  a word (`Variants.SelfConnectPolicies`).
- The actor broker first refuses a self-connect, which deregisters no one
  (src/actors/broker.rs:65-68). Otherwise it removes the requester's own entry before
  any other check (src/actors/broker.rs:70). So a refused request deregisters the
  requester as well as the passive peer. After that, until a Register for its id
  arrives, every request the actor makes fails and nobody can ask for it
  (`ActorPairing.FailedRequestLocksOutRequester`). A request for an unregistered or
  stopped target fails with "passive peer not found" or "passive peer not running". A
  request for a registered, running target fails with "active peer not found" and also
  removes that target's entry (`ActorPairing.LockedOutRequestCostsTarget`). The actor
  sends Register only once, from `started`, so in the code the lockout lasts for the
  rest of the actor's life; a fresh Register would end it
  (`ActorPairing.RegisterEndsLockout`).

## Model

| member | source | states |
|---|---|---|
| PeerRegistry.RegisterPeer | src/broker.rs:33-42 | the id now names the new sender; other entries are kept; a collision is reported iff the id was already registered (src/main.rs:66-79 is the same function) |
| PeerRegistry.Retain | src/broker.rs:77-85 | an id stays registered exactly when its peer is alive, with its handle unchanged |
| PeerRegistry.RetainShrinks | src/actors/broker.rs:35-41 | a sweep only removes entries; afterwards every entry is alive; the size is unchanged iff all were alive |
| PeerRegistry.RetainIdempotent | src/actors/broker.rs:37 | sweeping twice equals sweeping once; a sweep of live peers changes nothing |
| MpscBroker.ConnectPeers | src/broker.rs:44-75 | the full case table: registered self-connect removes and kicks the peer; distinct registered ids are both removed and told about each other; an unregistered requester still loses the target's entry; otherwise nothing changes |
| MpscBroker.CleanOutDeadPeers | src/broker.rs:77-85 | keeps exactly the entries whose Ping send would be delivered |
| MpscBroker.Step | src/broker.rs:95-107 | a Register sweeps dead peers, then registers the sender; every other live entry stays, with its handle unchanged, and no dead one does; a Connect is `connect_peers`, with its registry and its sends |
| MpscBroker.ConnectFrame | src/broker.rs:44-75 | ids that are neither endpoint of a connect keep their entries |
| MpscBroker.ConnectNotifiesIffPaired | src/broker.rs:55-71 | a connect only removes its two endpoints; peers are told about each other iff two distinct registered ids were named; every notification has its mirror image |
| OldBroker.ConnectPeers | src/main.rs:81-102 | both ids are always gone afterwards; mutual `Connected` sends happen iff two distinct registered ids were named |
| OldBroker.Step | src/main.rs:112-123 | dispatch with no sweep: Register inserts; Connect removes both named ids and makes exactly the mutual `Connected` sends of `connect_peers` |
| OldBroker.RegisterThenConnect | src/main.rs:112-123 | from any registry, two peers that register under distinct ids and then connect are told about each other, and both ids leave the registry while every other entry stays |
| ActorBroker.Gc | src/actors/broker.rs:33-44 | keeps exactly the entries whose actor still runs, so every remaining entry is alive |
| ActorBroker.HandleRegister | src/actors/broker.rs:47-52 | the id now maps to the address; other entries are kept |
| ActorBroker.HandleRequestConnectTo | src/actors/broker.rs:55-111 | a self-connect is refused and changes nothing; otherwise both ids are removed whatever happens; error precedence is passive not found, passive not running, active not found; on success the caller gets the passive address, and the passive side is notified before the active side |
| ActorBroker.RequestSucceedsIffPairable | src/actors/broker.rs:61-109 | a request succeeds iff both ends are distinct, registered and running; "failed to connect to peer" needs a race the model excludes |
| MpscPeer.New | src/peer.rs:115-131 | a new peer is unpaired and not retiring |
| MpscPeer.RegisterAtBroker | src/peer.rs:133-138 | the broker is given this peer's id and its own mailbox |
| MpscPeer.SendWelcome | src/peer.rs:196-200 | the client's first protocol frame is `Welcome` with its own id |
| MpscPeer.SendToCorrespondent | src/peer.rs:202-213 | no correspondent gives `NoCorrespondant` and no send; otherwise one send, which fails iff the correspondent is gone |
| MpscPeer.HandleBrokerMsg | src/peer.rs:223-270 | relayed text goes to the client verbatim; a pairing notice is taken only while unpaired; Close and Disconnected retire the peer with the matching Bye reason; Ping does nothing; the loop breaks iff the peer retired |
| MpscPeer.OnFrame | src/peer.rs:142-182 | close: retire, tell the correspondent, break; stream error: break; unpaired text: a broker Connect iff it parses as `Connect`; paired text: forwarded unread, and the loop breaks iff the forward fails |
| MpscPeer.Next | src/peer.rs:141-194 | no step changes id or mailbox or drops a correspondent; a step that retires the peer ends the loop |
| MpscPeer.Run | src/peer.rs:141-194 | over any input sequence: a paired peer keeps its correspondent and never addresses the broker again; a retired peer has left the loop |
| MpscPairing.RegisterAllAddsEach | src/broker.rs:97-101 | N running peers registering under distinct fresh ids add exactly N entries, each under its own id, and the earlier entries stay |
| MpscPairing.PairingIsMutual | src/peer.rs:237-244 | after a successful connect, each peer adopts the other and its client reads the other's id; neither id stays registered |
| MpscPairing.RelayIsTransparent | src/peer.rs:169-174 | a paired client's text reaches the other client exactly as written, even text that parses as `Connect`, and neither peer changes |
| MpscPairing.PeerStartUp | src/routes.rs:26-33 | for any registry, id, mailbox and liveness: the Register maps the id to the mailbox, sends nothing, keeps exactly the other live entries; the welcome carries the id; any other live registered peer that asks for the new one is paired with it |
| MpscPairing.StartUpAtA | src/routes.rs:26-33 | for any state of two peers: `register_at_broker` then `send_welcome` changes the registry as the broker's Register step does and appends exactly the welcome to the client's transcript |
| MpscPairing.WelcomedState | src/routes.rs:26-33 | after two connections, both peers are registered and unpaired, and each client has read its own welcome |
| MpscPairing.BrokerPairsThem | src/broker.rs:103-105 | the broker answers the request by emptying the registry and notifying both sides |
| MpscPairing.NotificationsPairThem | src/peer.rs:239-244 | delivering both notifications pairs the peers and shows each client the other's id |
| MpscPairing.ConnectStep | src/peer.rs:158-168 | A's `Connect` text, handled end to end, yields the paired state |
| MpscPairing.HelloStep | src/peer.rs:169-174 | A's "hello" appears verbatim in B's transcript and nothing else changes |
| MpscPairing.CloseStep | src/peer.rs:148-155 | B's close retires both peers and A's client reads `Bye { reason: "disconnected" }` |
| MpscPairing.RendezvousTranscript | src/peer.rs:141-194 | the full rendezvous: each client reads welcome, the other's id, then the relayed text or the goodbye; the registry ends empty |
| ActorPeer.New | src/actors/peer.rs:22-28 | a new actor is unpaired |
| ActorPeer.Started | src/actors/peer.rs:58-72 | on start, the actor first greets its client with its id; it registers its own id and address, and only if the greeting was written |
| ActorPeer.Correspondent | src/actors/peer.rs:30-32 | the correspondent counts iff its actor still runs |
| ActorPeer.HandleWsMessage | src/actors/peer.rs:34-43 | only `Connect(id)` makes a pairing call, naming this actor as active and `id` as passive |
| ActorPeer.OnConnectReply | src/actors/peer.rs:44-51 | an Ok reply makes the passive address the correspondent; an error changes nothing |
| ActorPeer.HandleStream | src/actors/peer.rs:82-118 | with a live correspondent, text is forwarded unread; otherwise it is parsed, and only `Connect` makes a call; close stops the actor (`ctx.stop()`) without telling anyone; other frames are ignored |
| ActorPeer.HandleConnectedFrom | src/actors/peer.rs:126-138 | the notifier becomes the correspondent, whatever was there, and the client reads its id |
| ActorPeer.HandleForward | src/actors/peer.rs:141-148 | relayed text is written to the client as it is, with no state change |
| ActorPeer.StoppedCorrespondentIsUnpaired | src/actors/peer.rs:85-107 | a stopped correspondent makes the actor behave exactly as if it were unpaired |
| ActorPeer.PairedNeverParses | src/actors/peer.rs:88-91 | with a live correspondent, no text is read as a command |
| ActorPairing.ClientText | src/actors/peer.rs:34-54 | a client text emits exactly the stream handler's effects; with no call, registry, notifications and actor are as the stream handler leaves them; with a call, the broker handles it, and the actor takes the passive address iff the pair was pairable and is otherwise unchanged |
| ActorPairing.ActorPairingIsMutual | src/actors/broker.rs:87-108 | a successful request pairs both actors both ways; each client reads the other's id; neither id stays registered |
| ActorPairing.FailedPairingLeavesActorUnpaired | src/actors/peer.rs:48-50 | a refused request leaves the asking actor as it was and notifies nobody; the broker still forgets both ids |
| ActorPairing.FailedRequestLocksOutRequester | src/actors/broker.rs:70-85 | after a refused request that is not a self-connect, the requester is unregistered; its later requests fail, and requests for it fail too |
| ActorPairing.LockedOutRequestCostsTarget | src/actors/broker.rs:70-85 | a locked-out actor's request for a registered, running target fails with "active peer not found" and removes the target's entry |
| ActorPairing.UnregisteredCannotPair | src/actors/broker.rs:65-85 | in any registry without the id, every request it makes and every request for it fails, and none puts the id back: the lockout is a property of the handler, not of one trace |
| ActorPairing.RegisterEndsLockout | src/actors/broker.rs:47-52 | after a Register for the locked-out id with a running address, its request for any other registered, running actor succeeds |
| ActorPairing.ActorStartUp | src/actors/peer.rs:58-72 | for any registry: the client first reads `Welcome` with the actor's id; the broker's handling of the Register maps the id to the address and keeps every other entry, so other running registered actors can pair with it; a failed greeting sends no Register |
| ActorPairing.ActorRelayIsTransparent | src/actors/peer.rs:85-147 | while the correspondent runs, any client text is forwarded unread and the correspondent writes exactly that text to its client; neither actor changes |
| Variants.SelfConnectPolicies | src/broker.rs:45-53 | self-connect: the channel broker kicks, the oldest broker silently drops, the actor broker refuses and changes nothing |
| Variants.SuccessfulPairingAgrees | src/main.rs:82-89 | for two running registered peers, all three brokers remove both and hand each the other's mailbox |
| Variants.UnknownRequesterDropsTarget | src/broker.rs:55 | an unregistered requester still costs the target its entry in every broker, and nobody is told |
| Variants.SecondNoticePolicies | src/peer.rs:237 | a second pairing notice is ignored by the channel peer but replaces the actor's correspondent |
| ClientProtocol.CommandGuardsPartition | app/src/protocol.ts:26-34 | each command guard accepts exactly the objects whose `type` is its tag as a string; no value passes two of them |
| ClientProtocol.IsCommand | app/src/protocol.ts:26-27 | a command is an object with its own `type` key, whatever that key holds |
| ClientProtocol.IsXCommand | app/src/protocol.ts:29-30 | a tagged command is a command whose `type` is strictly equal to the tag string, so a non-string `type` never matches |
| ClientProtocol.IsOfferCommand | app/src/protocol.ts:32 | the command guard for the tag "offer" |
| ClientProtocol.IsAnswerCommand | app/src/protocol.ts:33 | the command guard for the tag "answer" |
| ClientProtocol.IsCandidateCommand | app/src/protocol.ts:34 | the command guard for the tag "candidate" |
| ClientProtocol.IsXMessage | app/src/protocol.ts:39-40 | a server message with a key is any object with that own key; no `type` is needed |
| ClientProtocol.IsWelcomeMsg | app/src/protocol.ts:58 | the message guard for the key "welcome" |
| ClientProtocol.IsConnectedMsg | app/src/protocol.ts:59 | the message guard for the key "connected" |
| ClientProtocol.IsByeMsg | app/src/protocol.ts:60 | the message guard for the key "bye" |
| ClientProtocol.NonStringTypeMatchesNoTag | app/src/protocol.ts:29-30 | a command with a non-string `type` passes no tagged guard |
| ClientProtocol.MessageGuardsNeedOnlyTheirKey | app/src/protocol.ts:39-41 | `{tag: x}` passes the message guard for `tag` whatever `x` is, and is no command |
| ClientProtocol.NonObjectsPassNoGuard | app/src/protocol.ts:26-40 | strings, numbers, booleans and undefined pass no guard |
| ClientNetwork.PayloadMsg | app/src/network.ts:56 | a frame appears iff it was received and is not a server message; never longer than the input |
| ClientNetwork.IsProtocolCmd | app/src/network.ts:27-32 | an object carrying any one of the server's four message keys, whatever else it holds |
| ClientNetwork.ProtocolFrames | app/src/network.ts:27-32 | a frame appears iff it was received and carries a server message key |
| ClientNetwork.PayloadPartition | app/src/network.ts:27-56 | `payloadMsg` and `isProtocolCmd` split the stream: lengths add up, and multisets add up to the input |
| ClientNetwork.PayloadMsgAppend | app/src/network.ts:56 | filtering distributes over concatenation |
| ClientNetwork.CommandsAppend | app/src/network.ts:58-63 | the command filter distributes over concatenation, so commands come out in arrival order, each as often as it arrived |
| ClientNetwork.Commands | app/src/network.ts:58-63 | a frame appears iff it was received and passes the command guard for the tag |
| ClientNetwork.Messages | app/src/network.ts:35-52 | a frame appears iff it was received and passes the message guard for the key |
| ClientNetwork.Pluck | app/src/network.ts:37 | the property if present, `undefined` otherwise |
| ClientNetwork.PluckAll | app/src/network.ts:58 | one output per input, each the plucked property |
| ClientNetwork.First | app/src/network.ts:38 | nothing until the first value, then that value |
| ClientNetwork.Signals | app/src/network.ts:58-63 | one output per command with the tag, each the `payload` of that command, in order |
| ClientNetwork.OwnPeerId | app/src/network.ts:49-52 | one output per welcome message, each its `welcome` field, in order |
| ClientNetwork.Offers | app/src/network.ts:58 | `offers` is the signalling stream for the tag "offer" |
| ClientNetwork.Answers | app/src/network.ts:59 | `answers` is the signalling stream for the tag "answer" |
| ClientNetwork.Candidates | app/src/network.ts:60-63 | `candidates` is the signalling stream for the tag "candidate" |
| ClientNetwork.FirstField | app/src/network.ts:35-46 | `filter`, `pluck` and `first()` over the stream: the field of the first message carrying the key, once there is one |
| ClientNetwork.ConnectReceived | app/src/network.ts:42-46 | `connectReceived`: the id in the first connected message |
| ClientNetwork.ByeReceived | app/src/network.ts:35-39 | `byeReceived`: the `bye` object of the first bye message |
| ClientNetwork.FirstFieldIsFirstMessage | app/src/network.ts:35-46 | `connectReceived`/`byeReceived` emit nothing until a matching message arrives, then the first one's field; later ones are never seen |
| ClientNetwork.SendAsType | app/src/network.ts:65-66 | the envelope has exactly the keys `type` and `payload`, passes its tag's guard, and plucks back to the payload |
| ClientNetwork.SendAsOffer | app/src/network.ts:68 | `sendAsOffer` wraps a payload in an envelope tagged "offer" |
| ClientNetwork.SendAsAnswer | app/src/network.ts:69 | `sendAsAnswer` wraps a payload in an envelope tagged "answer" |
| ClientNetwork.SendAsCandidate | app/src/network.ts:70 | `sendAsCandidate` wraps a payload in an envelope tagged "candidate" |
| ClientNetwork.EnvelopeIsPayload | app/src/network.ts:65-70 | an envelope is never a server message, and passes the command guard of its own tag only |
| ClientNetwork.SignalsDemultiplex | app/src/network.ts:58-70 | for any mix of offers, answers and candidates passed to `socket.next`, each stream yields exactly the payloads sent with its tag, in order, with the JSON codec taken as the identity |
| ClientNetwork.EnvelopesArePayload | app/src/network.ts:56-70 | every sent envelope passes `payloadMsg` |
| ClientNetwork.OffersRoundTrip | app/src/network.ts:58-68 | offers sent in turn come out of `offers` unchanged and in order; `answers` and `candidates` stay empty |
| ServerJson.ToJson | src/ws_protocol.rs:7-15 | `Subscribed` is the string "subscribed"; every other message is a one-key object |
| ServerJson.FromJson | src/ws_protocol.rs:7-15 | a string reads as a message iff it is "subscribed"; a non-unit message comes from a one-key object |
| ServerJson.JsonRoundTrip | src/ws_protocol.rs:7-15 | every server message reads back as itself |
| ServerJson.ClientReadsServerMessages | app/src/network.ts:27-52 | the client's guards classify each server message by its own key only and never as a command; plucking yields the id or reason the server sent |
| ServerJson.ServerSaysNoPayload | app/src/network.ts:56 | nothing the server says reaches `payloadMsg` |
| ServerJson.OwnPeerIdReadsWelcomes | app/src/network.ts:49-52 | for any sequence of server messages, `ownPeerId` yields exactly the ids of the `Welcome` messages, in order |
| ServerJson.ServerMessageLeavesSignals | app/src/network.ts:58-63 | a server message arriving anywhere in the stream leaves every signalling stream unchanged |
| ClientStores.SliceFrom | app/src/stores.ts:26 | `slice(start)` is a suffix of the array; a negative start keeps at most `-start` elements |
| ClientStores.AppendToHistory | app/src/stores.ts:26 | the new history is the last 100 old entries followed by the new frame; below 100 entries it is a plain append |
| ClientStores.AppendKeepsLatest | app/src/stores.ts:26 | one update leaves the latest 101 frames |
| ClientStores.ReplayKeepsLatest | app/src/stores.ts:22-31 | from any history, after one or more frames the history is the latest 101 of all frames in arrival order |
| ClientStores.MessageHistoryIsLatest | app/src/stores.ts:22-31 | starting empty, the history is the latest 101 payload frames, so never more than 101 |
| ClientStores.CreateStore | app/src/stores.ts:6-15 | a new store holds `false` |
| ClientStores.Set | app/src/stores.ts:9-12 | `set` replaces the value and keeps the name |
| ClientStores.SetLastWins | app/src/stores.ts:9-12 | the last `set` wins; setting the current value changes nothing |
| ClientSession.Initial | app/src/stores.ts:17-23 | both stores hold `false`, the history is empty, and no `first()` stream has emitted |
| ClientSession.Receive | app/src/stores.ts:24-41 | a payload frame is appended to the history; the first connected message sets `oppositePeerId`; the first bye message sets the left reason; later ones change nothing |
| ClientSession.FirstFieldSnoc | app/src/network.ts:35-46 | once a `first()` stream has emitted it is fixed; before that, the next matching frame sets it |
| ClientSession.HistoryFollowsPayloadMsg | app/src/stores.ts:22-31 | frame by frame, the history is the replay of exactly the frames `payloadMsg` emitted |
| ClientSession.PeerIdFollowsConnectReceived | app/src/stores.ts:33-36 | `oppositePeerId` holds what `connectReceived` emitted, `false` until it emits |
| ClientSession.ReasonFollowsByeReceived | app/src/stores.ts:38-41 | `oppositePeerLeftReason` holds the `reason` of what `byeReceived` emitted, `false` until it emits |
| ClientSession.SessionAfter | app/src/stores.ts:17-41 | after any frames, the history is the latest 101 payload frames, `oppositePeerId` is the first connected id, and the left reason is the first bye's reason |

## Left out

- Concurrency is not modelled. Every handler runs as one atomic step, and the interleaving
  of tokio tasks, `select!` arms and actor mailboxes is not explored. The scenario lemmas
  fix one delivery order.
- ActorBroker.HandleRequestConnectTo: the "failed to connect to peer" branch is kept but
  is unreachable. With one liveness snapshot per step, the passive actor cannot stop
  between `upgrade` and the send.
- ActorBroker.HandleRequestConnectTo: the panic of `active_addr.upgrade().unwrap()`
  (src/actors/broker.rs:97-99) needs the active actor to stop mid-handler, so it is not
  modelled either.
- Writes to a client websocket (`send_to_remote`, `ws_sender.send`) always succeed,
  except the actor's greeting in `started`. Elsewhere their failures are only logged.
- ActorPeer.Started: a failed greeting write makes `started` return the error before the
  Register (src/actors/peer.rs:60-62). The model sends no Register then. What the actor
  library does with an actor whose `started` failed is not modelled.
- `send_to_broker`'s `unwrap` (src/peer.rs:272-274) is not modelled, nor is the actor's
  `call(...).await?` error. Both need the broker gone, and the broker lives as long as
  the process.
- The mpsc sweep's Ping sends are not emitted as effects. `HashMap` iteration order is
  unspecified, and a receiver ignores Ping. Their whole effect is the registry they leave.
- The actor broker's two-second GC timer is not modelled. `ActorBroker.Gc` is a step that
  may be applied at any time.
- Peer id generation (`Uuid::new_v4` and `human_hash`) is not modelled. Ids are
  parameters, and the oldest broker's `Uuid` keys are strings here.
- serde_json is not modelled. Peers read frames through the `parse` parameter.
- ClientNetwork.SignalsDemultiplex: the client's JSON codec is taken to be the identity.
  rxjs `webSocket` sends `JSON.stringify` of each value and `JSON.parse`s each frame. The
  model therefore ignores three things. Keys holding `undefined` are dropped on the wire.
  `RTCSessionDescription` and `RTCIceCandidate` payloads arrive as the plain objects their
  `toJSON()` gives. A frame that is not JSON errors the socket subject and every stream
  derived from it. The lemma is about the values passed to `socket.next` and the values
  read back.
- ServerJson.FromJson: this covers only the object and string forms of serde's external
  tagging, as decoded values. JSON text, escaping, and the array form of `Bye` are left
  out.
- Logging and tracing are left out, and so is every `warn!`/`error!` branch whose only
  effect is a log line.
- JavaScript `null`, arrays, fractional numbers and keys inherited through the prototype
  chain are not modelled. `typeof null === "object"`, and `"type" in null` throws; with
  no `null` here, the guards never meet that case.
- `sendAsRaw` and `socket.next("subscribed")` are left out. Both put their argument on
  the wire unchanged.
- The `window["API"]` export is left out.
- The `iInitiatedTheCall` store is left out: nothing in these files writes it.
- The `goFullScreen` store is left out. It subscribes to `goFullScreenReceived`, which
  app/src/network.ts does not export.
- The JavaScript copies (app/src/network.js, app/src/stores.js) are not part of this
  model, and neither are app/src/peering.ts and src/peer_actor.rs. Of src/routes.rs only
  the channel generation's `peer_connected` (lines 26-33) is modelled; the axum handler
  and the filter wiring around it are left out.
