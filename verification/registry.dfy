/**
 The broker's registry of unpaired peers, shared by every broker variant.

 A registry maps a `PeerId` to a handle on the peer's mailbox: an mpsc sender in
 src/broker.rs, src/basic/broker.rs and src/main.rs, a weak actor address in
 src/actors/broker.rs. Which peers are still running is not part of the registry;
 it is an explicit `alive` set of handles that every step is given.
 */
module PeerRegistry {
  import opened Wrappers

  /** A peer identifier: an opaque string compared by value. */
  type PeerId = string

  /** A non-owning reference to a peer's mailbox. */
  datatype Handle = Handle(slot: nat)

  type Registry = map<PeerId, Handle>

  /** A send to `h` succeeds exactly when the peer behind `h` is still running. */
  predicate Delivers(alive: set<Handle>, h: Handle) {
    h in alive
  }

  /** `HashMap::insert`: `id` now maps to `h`, replacing any earlier entry. */
  function Insert(reg: Registry, id: PeerId, h: Handle): (r: Registry)
    ensures id in r && r[id] == h
    ensures r.Keys == reg.Keys + {id}
    ensures forall k :: k in reg && k != id ==> r[k] == reg[k]
    ensures |r| == if id in reg then |reg| else |reg| + 1
  {
    reg[id := h]
  }

  /** The registry after `register_peer`, and whether it logged a uuid collision. */
  datatype Registered = Registered(registry: Registry, collision: bool)

  /**
   `register_peer`, the same in src/main.rs and src/broker.rs: `uuid` now names `peer`;
   an earlier entry is replaced, with only a warning.
   */
  function RegisterPeer(reg: Registry, uuid: PeerId, peer: Handle): (r: Registered)
    ensures uuid in r.registry && r.registry[uuid] == peer
    ensures r.registry.Keys == reg.Keys + {uuid}
    ensures forall k :: k in reg && k != uuid ==> r.registry[k] == reg[k]
    ensures r.collision <==> uuid in reg
  {
    Registered(Insert(reg, uuid, peer), uuid in reg)
  }

  /** What `HashMap::remove` hands back: the removed value, if any, and the map without it. */
  datatype Taken = Taken(value: Option<Handle>, rest: Registry)

  /** `HashMap::remove`. */
  function Remove(reg: Registry, id: PeerId): (t: Taken)
    ensures t.value.Some? <==> id in reg
    ensures t.value.Some? ==> t.value.value == reg[id]
    ensures t.rest == reg - {id}
    ensures t.rest.Keys == reg.Keys - {id}
    ensures |t.rest| == if id in reg then |reg| - 1 else |reg|
  {
    var rest := reg - {id};
    assert rest.Keys == reg.Keys - {id};
    Taken(if id in reg then Some(reg[id]) else None, rest)
  }

  /** Removing two keys one after the other removes both. */
  lemma RemoveBoth(reg: Registry, x: PeerId, y: PeerId)
    ensures (reg - {x}) - {y} == reg - {x, y}
  {
    var l := (reg - {x}) - {y};
    var r := reg - {x, y};
    assert l.Keys == r.Keys;
    forall k | k in l ensures l[k] == r[k] {}
  }

  /** `HashMap::retain` with "the peer behind the entry is alive" as the predicate. */
  function Retain(reg: Registry, alive: set<Handle>): (r: Registry)
    ensures forall k :: k in r <==> k in reg && reg[k] in alive
    ensures forall k :: k in r ==> r[k] == reg[k]
  {
    map k | k in reg && reg[k] in alive :: reg[k]
  }

  /** Every entry left by a sweep refers to a running peer. */
  ghost predicate AllAlive(reg: Registry, alive: set<Handle>) {
    forall k :: k in reg ==> reg[k] in alive
  }

  /** A sweep keeps every live entry, drops every dead one, and never grows the registry. */
  lemma RetainShrinks(reg: Registry, alive: set<Handle>)
    ensures Retain(reg, alive).Keys <= reg.Keys
    ensures |Retain(reg, alive)| <= |reg|
    ensures AllAlive(Retain(reg, alive), alive)
    ensures |Retain(reg, alive)| == |reg| <==> AllAlive(reg, alive)
  {
    var r := Retain(reg, alive);
    assert r.Keys <= reg.Keys;
    if AllAlive(reg, alive) {
      assert r.Keys == reg.Keys;
    } else {
      var k :| k in reg && reg[k] !in alive;
      SubsetCardinality(r.Keys, reg.Keys - {k});
    }
    SubsetCardinality(r.Keys, reg.Keys);
  }

  /** A subset is no larger than its superset. */
  lemma {:induction false} SubsetCardinality<T>(a: set<T>, b: set<T>)
    requires a <= b
    ensures |a| <= |b|
  {
    if a != {} {
      var x :| x in a;
      SubsetCardinality(a - {x}, b - {x});
    }
  }

  /** Sweeping twice is sweeping once, and sweeping a registry of live peers changes nothing. */
  lemma RetainIdempotent(reg: Registry, alive: set<Handle>)
    ensures Retain(Retain(reg, alive), alive) == Retain(reg, alive)
    ensures AllAlive(reg, alive) ==> Retain(reg, alive) == reg
  {
  }
}
