/**
 How the channel-based broker and peers work together: registration of many peers,
 mutual pairing, transparent relaying, and the rendezvous of two clients from welcome
 to goodbye.
 */
module MpscPairing {
  import opened Wrappers
  import opened PeerRegistry
  import opened MpscProtocol
  import MpscBroker
  import opened MpscPeer
  import Wire

  /** The broker handles a Register for each (id, mailbox) pair, in order. */
  function RegisterAll(reg: Registry, peers: seq<(PeerId, Handle)>, alive: set<Handle>): Registry
    decreases |peers|
  {
    if |peers| == 0 then reg
    else RegisterAll(MpscBroker.Step(reg, Register(peers[0].0, peers[0].1), alive).registry, peers[1..], alive)
  }

  /** The ids are pairwise distinct and none is registered yet. */
  ghost predicate FreshIds(reg: Registry, peers: seq<(PeerId, Handle)>) {
    && (forall i, j :: 0 <= i < j < |peers| ==> peers[i].0 != peers[j].0)
    && (forall i :: 0 <= i < |peers| ==> peers[i].0 !in reg)
  }

  /**
   Peers that register with distinct fresh ids while running all end up in the registry,
   each under its own id with its own mailbox: N registrations add exactly N entries.
   */
  lemma {:induction false} RegisterAllAddsEach(reg: Registry, peers: seq<(PeerId, Handle)>, alive: set<Handle>)
    requires AllAlive(reg, alive)
    requires forall i :: 0 <= i < |peers| ==> peers[i].1 in alive
    requires FreshIds(reg, peers)
    ensures |RegisterAll(reg, peers, alive)| == |reg| + |peers|
    ensures forall i :: 0 <= i < |peers| ==>
              peers[i].0 in RegisterAll(reg, peers, alive) && RegisterAll(reg, peers, alive)[peers[i].0] == peers[i].1
    ensures forall k :: k in reg ==> k in RegisterAll(reg, peers, alive) && RegisterAll(reg, peers, alive)[k] == reg[k]
    decreases |peers|
  {
    if |peers| > 0 {
      var (id, h) := peers[0];
      var next := MpscBroker.Step(reg, Register(id, h), alive).registry;
      RetainIdempotent(reg, alive);
      assert next == reg[id := h];
      var rest := peers[1..];
      assert FreshIds(next, rest) by {
        forall i | 0 <= i < |rest| ensures rest[i].0 !in next {
          assert rest[i] == peers[i + 1];
        }
        forall i, j | 0 <= i < j < |rest| ensures rest[i].0 != rest[j].0 {
          assert rest[i] == peers[i + 1] && rest[j] == peers[j + 1];
        }
      }
      RegisterAllAddsEach(next, rest, alive);
      forall i | 0 <= i < |peers|
        ensures peers[i].0 in RegisterAll(reg, peers, alive)
        ensures RegisterAll(reg, peers, alive)[peers[i].0] == peers[i].1
      {
        if i > 0 {
          assert peers[i] == rest[i - 1];
        }
      }
    }
  }

  /**
   When two distinct registered, unpaired peers are paired, each mailbox message the
   broker sends makes its receiver adopt the other peer and tell its client the other's id;
   neither id stays registered.
   */
  lemma PairingIsMutual(reg: Registry, a: Peer, b: Peer)
    requires a.id != b.id && a.id in reg && b.id in reg
    requires reg[a.id] == a.mailbox && reg[b.id] == b.mailbox
    requires a.correspondent.None? && b.correspondent.None?
    ensures var o := MpscBroker.ConnectPeers(reg, a.id, b.id);
            && |o.sent| == 2 && o.sent[0].to == a.mailbox && o.sent[1].to == b.mailbox
            && HandleBrokerMsg(a, o.sent[0].msg).peer.correspondent == Some(b.mailbox)
            && HandleBrokerMsg(b, o.sent[1].msg).peer.correspondent == Some(a.mailbox)
            && HandleBrokerMsg(a, o.sent[0].msg).effects == [ToClient(Wire.Proto(Wire.Connected(b.id)))]
            && HandleBrokerMsg(b, o.sent[1].msg).effects == [ToClient(Wire.Proto(Wire.Connected(a.id)))]
            && a.id !in o.registry && b.id !in o.registry
  {
  }

  /**
   Relay transparency: text a paired peer's client sends, even text that reads as a
   `Connect` command, reaches the correspondent's client exactly as it was written, and
   neither peer's state changes.
   */
  lemma RelayIsTransparent(a: Peer, b: Peer, text: string, alive: set<Handle>, parse: Wire.Parser)
    requires a.correspondent == Some(b.mailbox)
    ensures var sa := OnFrame(a, Wire.WsText(text), alive, parse);
            && sa.peer == a
            && sa.effects == [ToPeer(Send(b.mailbox, P2P(text)))]
            && var sb := HandleBrokerMsg(b, sa.effects[0].send.msg);
               sb.peer == b && sb.effects == [ToClient(Wire.Raw(text))]
  {
  }

  /**
   Two peers, A and B, with the broker between them: the registry, both peer states and
   every frame each client has read so far.
   */
  datatype Pair = Pair(reg: Registry, a: Peer, b: Peer, clientA: seq<Wire.ServerFrame>, clientB: seq<Wire.ServerFrame>)

  /** The frames among `effects` that go to the peer's own client, in order. */
  function ClientFrames(effects: seq<Effect>): (frames: seq<Wire.ServerFrame>)
    ensures |frames| <= |effects|
    ensures forall f :: f in frames <==> ToClient(f) in effects
  {
    if |effects| == 0 then []
    else (if effects[0].ToClient? then [effects[0].frame] else []) + ClientFrames(effects[1..])
  }

  /**
   A mailbox message reaches A or B (and is handled at once), or nobody: a send to a
   mailbox that no longer accepts, or to a peer that has left its loop, changes nothing.
   */
  function Deliver(w: Pair, s: Send, alive: set<Handle>): Pair {
    if !Delivers(alive, s.to) then w
    else if s.to == w.a.mailbox && !w.a.retire then
      var st := HandleBrokerMsg(w.a, s.msg);
      w.(a := st.peer, clientA := w.clientA + ClientFrames(st.effects))
    else if s.to == w.b.mailbox && !w.b.retire then
      var st := HandleBrokerMsg(w.b, s.msg);
      w.(b := st.peer, clientB := w.clientB + ClientFrames(st.effects))
    else w
  }

  /** The broker's sends, delivered in the order it made them. */
  function DeliverAll(w: Pair, sends: seq<Send>, alive: set<Handle>): Pair
    decreases |sends|
  {
    if |sends| == 0 then w else DeliverAll(Deliver(w, sends[0], alive), sends[1..], alive)
  }

  /**
   The effects of one of A's (`fromA`) or B's steps, played out in order: frames reach
   that peer's client, broker messages are handled by the broker, and sends to a running
   peer are handled by it.
   */
  function Apply(w: Pair, fromA: bool, effects: seq<Effect>, alive: set<Handle>): Pair
    decreases |effects|
  {
    if |effects| == 0 then w
    else Apply(ApplyOne(w, fromA, effects[0], alive), fromA, effects[1..], alive)
  }

  /** One effect of A's (`fromA`) or B's step, played out. */
  function ApplyOne(w: Pair, fromA: bool, e: Effect, alive: set<Handle>): Pair {
    match e
    case ToClient(f) =>
      if fromA then w.(clientA := w.clientA + [f]) else w.(clientB := w.clientB + [f])
    case ToBroker(m) =>
      var o := MpscBroker.Step(w.reg, m, alive);
      DeliverAll(w.(reg := o.registry), o.sent, alive)
    case ToPeer(s) =>
      Deliver(w, s, alive)
  }

  /** Playing out a single effect. */
  lemma ApplySingle(w: Pair, fromA: bool, e: Effect, alive: set<Handle>)
    ensures Apply(w, fromA, [e], alive) == ApplyOne(w, fromA, e, alive)
  {
    assert [e][1..] == [];
  }

  /** Playing out two effects. */
  lemma ApplyTwo(w: Pair, fromA: bool, e1: Effect, e2: Effect, alive: set<Handle>)
    ensures Apply(w, fromA, [e1, e2], alive) == ApplyOne(ApplyOne(w, fromA, e1, alive), fromA, e2, alive)
  {
    assert [e1, e2][1..] == [e2];
    ApplySingle(ApplyOne(w, fromA, e1, alive), fromA, e2, alive);
  }

  /** A single frame to the own client. */
  lemma ClientFramesSingle(e: Effect)
    ensures ClientFrames([e]) == if e.ToClient? then [e.frame] else []
  {
    assert [e][1..] == [];
  }

  /** A's websocket yields `ws`. */
  function FrameAtA(w: Pair, ws: Wire.WsEvent, alive: set<Handle>, parse: Wire.Parser): Pair {
    var st := OnFrame(w.a, ws, alive, parse);
    Apply(w.(a := st.peer), true, st.effects, alive)
  }

  /** B's websocket yields `ws`. */
  function FrameAtB(w: Pair, ws: Wire.WsEvent, alive: set<Handle>, parse: Wire.Parser): Pair {
    var st := OnFrame(w.b, ws, alive, parse);
    Apply(w.(b := st.peer), false, st.effects, alive)
  }

  /**
   Start-up, for any registry, liveness and peer: the broker sweeps dead peers and maps
   the new id to the new mailbox, sending nothing; every live entry under another id
   stays; the client's first frame is `Welcome` with its own id; and any other live
   registered peer that asks for the new one is paired with it.
   */
  lemma PeerStartUp(reg: Registry, id: PeerId, m: Handle, q: PeerId, alive: set<Handle>)
    ensures var p := New(id, m);
            && RegisterAtBroker(p).ToBroker?
            && SendWelcome(p) == ToClient(Wire.Proto(Wire.Welcome(id)))
            && var o := MpscBroker.Step(reg, RegisterAtBroker(p).msg, alive);
               && id in o.registry && o.registry[id] == m && o.sent == []
               && (forall k :: k in reg && k != id && reg[k] in alive ==> k in o.registry && o.registry[k] == reg[k])
               && (forall k :: k in o.registry && k != id ==> k in reg && reg[k] in alive)
               && (q != id && q in reg && reg[q] in alive ==>
                     MpscBroker.ConnectPeers(o.registry, q, id).sent ==
                       [Send(reg[q], Connected(m, id)), Send(m, Connected(reg[q], q))])
  {
  }

  /**
   `peer_connected` of the channel generation, for any state of the pair: registering
   and welcoming A changes the registry as the broker's Register step does and adds
   exactly A's welcome to its client's transcript; both peers are left as they were.
   */
  lemma StartUpAtA(w: Pair, alive: set<Handle>)
    ensures Apply(w, true, [RegisterAtBroker(w.a), SendWelcome(w.a)], alive) ==
              w.(reg := MpscBroker.Step(w.reg, Register(w.a.id, w.a.mailbox), alive).registry,
                 clientA := w.clientA + [Wire.Proto(Wire.Welcome(w.a.id))])
  {
    ApplyTwo(w, true, RegisterAtBroker(w.a), SendWelcome(w.a), alive);
    var w1 := w.(reg := MpscBroker.Step(w.reg, Register(w.a.id, w.a.mailbox), alive).registry);
    assert ApplyOne(w, true, RegisterAtBroker(w.a), alive) == DeliverAll(w1, [], alive);
  }

  const HandleA: Handle := Handle(1)
  const HandleB: Handle := Handle(2)
  const Both: set<Handle> := {HandleA, HandleB}

  /** A ("alpha-bravo") and B ("charlie-delta") connect, register and are welcomed. */
  function Welcomed(): Pair {
    var a, b := New("alpha-bravo", HandleA), New("charlie-delta", HandleB);
    var w := Pair(map[], a, b, [], []);
    Apply(Apply(w, true, [RegisterAtBroker(a), SendWelcome(a)], Both), false, [RegisterAtBroker(b), SendWelcome(b)], Both)
  }

  /** After the welcome, both peers are registered and unpaired and each client read its id. */
  lemma WelcomedState()
    ensures Welcomed() == Pair(map["alpha-bravo" := HandleA, "charlie-delta" := HandleB],
                               New("alpha-bravo", HandleA), New("charlie-delta", HandleB),
                               [Wire.Proto(Wire.Welcome("alpha-bravo"))],
                               [Wire.Proto(Wire.Welcome("charlie-delta"))])
  {
    var a, b := New("alpha-bravo", HandleA), New("charlie-delta", HandleB);
    var w0 := Pair(map[], a, b, [], []);
    ApplyTwo(w0, true, RegisterAtBroker(a), SendWelcome(a), Both);
    assert ApplyOne(w0, true, RegisterAtBroker(a), Both) == w0.(reg := map["alpha-bravo" := HandleA]);
    var w1 := Apply(w0, true, [RegisterAtBroker(a), SendWelcome(a)], Both);
    assert w1 == Pair(map["alpha-bravo" := HandleA], a, b, [Wire.Proto(Wire.Welcome("alpha-bravo"))], []);
    ApplyTwo(w1, false, RegisterAtBroker(b), SendWelcome(b), Both);
    assert ApplyOne(w1, false, RegisterAtBroker(b), Both) ==
             w1.(reg := map["alpha-bravo" := HandleA, "charlie-delta" := HandleB]);
  }

  /** The pair after A's client sent a text that reads as `Connect("charlie-delta")`. */
  const PairedUp: Pair :=
    Pair(map[],
         New("alpha-bravo", HandleA).(correspondent := Some(HandleB)),
         New("charlie-delta", HandleB).(correspondent := Some(HandleA)),
         [Wire.Proto(Wire.Welcome("alpha-bravo")), Wire.Proto(Wire.Connected("charlie-delta"))],
         [Wire.Proto(Wire.Welcome("charlie-delta")), Wire.Proto(Wire.Connected("alpha-bravo"))])

  /** The broker's answer to A's request: both entries go, and each side is told about the other. */
  lemma BrokerPairsThem()
    ensures MpscBroker.Step(Welcomed().reg, Connect("alpha-bravo", "charlie-delta"), Both) ==
              MpscBroker.Outcome(map[], [Send(HandleA, Connected(HandleB, "charlie-delta")),
                                         Send(HandleB, Connected(HandleA, "alpha-bravo"))])
  {
    WelcomedState();
    var reg := map["alpha-bravo" := HandleA, "charlie-delta" := HandleB];
    assert reg - {"alpha-bravo", "charlie-delta"} == map[];
  }

  /** Both notifications delivered: each peer adopts the other and its client reads the other's id. */
  lemma NotificationsPairThem()
    ensures DeliverAll(Welcomed().(reg := map[]),
                       [Send(HandleA, Connected(HandleB, "charlie-delta")),
                        Send(HandleB, Connected(HandleA, "alpha-bravo"))], Both) == PairedUp
  {
    WelcomedState();
    var w0 := Welcomed().(reg := map[]);
    var s1, s2 := Send(HandleA, Connected(HandleB, "charlie-delta")), Send(HandleB, Connected(HandleA, "alpha-bravo"));
    assert [s1, s2][1..] == [s2];
    assert [s2][1..] == [];
    ClientFramesSingle(ToClient(Wire.Proto(Wire.Connected("charlie-delta"))));
    ClientFramesSingle(ToClient(Wire.Proto(Wire.Connected("alpha-bravo"))));
    var w1 := Deliver(w0, s1, Both);
    assert w1 == w0.(a := PairedUp.a, clientA := PairedUp.clientA);
    var w2 := Deliver(w1, s2, Both);
    assert w2 == PairedUp;
    assert DeliverAll(w0, [s1, s2], Both) == DeliverAll(w1, [s2], Both);
    assert DeliverAll(w1, [s2], Both) == DeliverAll(w2, [], Both);
  }

  /** A asks for B: the broker pairs them, and each client reads the other's id. */
  lemma ConnectStep(parse: Wire.Parser, connectText: string)
    requires parse(connectText) == Some(Wire.Connect("charlie-delta"))
    ensures FrameAtA(Welcomed(), Wire.WsText(connectText), Both, parse) == PairedUp
  {
    WelcomedState();
    var w := Welcomed();
    var m := Connect("alpha-bravo", "charlie-delta");
    assert OnFrame(w.a, Wire.WsText(connectText), Both, parse) == Step(w.a, [ToBroker(m)], false);
    ApplySingle(w, true, ToBroker(m), Both);
    BrokerPairsThem();
    NotificationsPairThem();
  }

  /** A's client says "hello": B's client reads exactly that. */
  lemma HelloStep(parse: Wire.Parser)
    ensures FrameAtA(PairedUp, Wire.WsText("hello"), Both, parse) ==
              PairedUp.(clientB := PairedUp.clientB + [Wire.Raw("hello")])
  {
    var e := ToPeer(Send(HandleB, P2P("hello")));
    assert OnFrame(PairedUp.a, Wire.WsText("hello"), Both, parse) == Step(PairedUp.a, [e], false);
    ApplySingle(PairedUp, true, e, Both);
    ClientFramesSingle(ToClient(Wire.Raw("hello")));
  }

  /** B's websocket closes: B retires and A's client reads a Bye saying B disconnected. */
  lemma CloseStep(parse: Wire.Parser)
    ensures var w := PairedUp.(clientB := PairedUp.clientB + [Wire.Raw("hello")]);
            FrameAtB(w, Wire.WsClose, Both, parse) ==
              w.(a := w.a.(retire := true), b := w.b.(retire := true),
                 clientA := w.clientA + [Wire.Proto(Wire.Bye(Wire.ByeDisconnected))])
  {
    var w := PairedUp.(clientB := PairedUp.clientB + [Wire.Raw("hello")]);
    var e := ToPeer(Send(HandleA, Disconnected));
    assert OnFrame(w.b, Wire.WsClose, Both, parse) == Step(w.b.(retire := true), [e], true);
    ApplySingle(w.(b := w.b.(retire := true)), false, e, Both);
    ClientFramesSingle(ToClient(Wire.Proto(Wire.Bye(Wire.ByeDisconnected))));
  }

  /**
   Two clients meet: A and B connect and are welcomed; A sends `connectText`; A sends
   "hello"; B's websocket closes.
   */
  function Rendezvous(parse: Wire.Parser, connectText: string): Pair {
    var w1 := FrameAtA(Welcomed(), Wire.WsText(connectText), Both, parse);
    var w2 := FrameAtA(w1, Wire.WsText("hello"), Both, parse);
    FrameAtB(w2, Wire.WsClose, Both, parse)
  }

  /**
   The rendezvous, for any reading of JSON under which A's text is
   `Connect("charlie-delta")`: A reads its welcome, B's id and a goodbye saying B
   disconnected; B reads its welcome, A's id and exactly "hello"; nobody stays registered.
   */
  lemma RendezvousTranscript(parse: Wire.Parser, connectText: string)
    requires parse(connectText) == Some(Wire.Connect("charlie-delta"))
    ensures Rendezvous(parse, connectText).clientA ==
              [Wire.Proto(Wire.Welcome("alpha-bravo")), Wire.Proto(Wire.Connected("charlie-delta")),
               Wire.Proto(Wire.Bye(Wire.ByeDisconnected))]
    ensures Rendezvous(parse, connectText).clientB ==
              [Wire.Proto(Wire.Welcome("charlie-delta")), Wire.Proto(Wire.Connected("alpha-bravo")),
               Wire.Raw("hello")]
    ensures Rendezvous(parse, connectText).reg == map[]
  {
    ConnectStep(parse, connectText);
    HelloStep(parse);
    CloseStep(parse);
  }
}
