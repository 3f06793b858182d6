/**
 Honest relays, as the protocol documentation describes them: a relay derives its key when a circuit
 is created or extended to it, opens what is sealed for it with that key, forwards the rest to its
 successor, and seals the answer to a relayed command.
 */
module Overlay {
  import opened Basics
  import opened Crypto
  import opened Layers

  /** A relay's memory of one circuit: its key with the client, and the hop it extended to. */
  datatype Hop = Hop(key: Key, next: Option<RelayId>)

  datatype Node = Node(address: string, circuits: map<CircuitId, Hop>)

  type Net = map<RelayId, Node>

  /** What a link does with one query: any query may be lost before or after it was acted on. */
  datatype Fate = Delivered | RequestLost | ReplyLost

  /** Everything outside the protocol, by depth of the call: link fates and the relays' random reads. */
  datatype Env = Env(fate: nat -> Fate, scalar: nat -> nat, nonce: nat -> nat, size: nat -> nat)

  type Answer = (Net, Option<Message>)

  function Lossy(answer: Answer, before: Net, fate: Fate): Answer {
    match fate
    case Delivered => answer
    case RequestLost => (before, None)
    case ReplyLost => (answer.0, None)
  }

  /** CircuitCreate: pick a scalar, derive the key, remember it, answer with the public key. */
  function Create(net: Net, at: RelayId, id: CircuitId, clientKey: PublicKey, scalar: nat): Answer {
    if at !in net then (net, None)
    else
      match ComputeSharedKey(scalar, clientKey)
      case None => (net, None)
      case Some(key) =>
        (net[at := net[at].(circuits := net[at].circuits[id := Hop(key, None)])],
         Some(CircuitCreated(id, Pub(scalar))))
  }

  function SetNext(net: Net, at: RelayId, id: CircuitId, next: RelayId): Net
    requires at in net && id in net[at].circuits
  {
    net[at := net[at].(circuits := net[at].circuits[id := net[at].circuits[id].(next := Some(next))])]
  }

  /**
   CircuitExtend: open the payload, create the circuit at the named relay, provided that relay is
   reached at the address given, and pass its public key back.
   */
  function Extend(net: Net, at: RelayId, id: CircuitId, next: RelayId, encrypted: Bytes, env: Env, depth: nat): Answer {
    if at !in net || id !in net[at].circuits then (net, None)
    else
      match DecryptPayload(encrypted, Some(net[at].circuits[id].key))
      case Err(_) => (net, None)
      case Ok(payload) =>
        if !payload.ExtendPayload? || payload.addrLen != |payload.addr| then (net, None)
        else if next !in net || net[next].address != payload.addr then (net, None)
        else
          var created := Lossy(Create(net, next, id, payload.clientKey, env.scalar(depth)), net, env.fate(depth));
          match created.1
          case Some(CircuitCreated(_, relayKey)) =>
            (SetNext(created.0, at, id, next), Some(CircuitExtended(id, relayKey)))
          case _ => (created.0, None)
  }

  /** A relay's handler. A relayed command goes to the successor and its answer comes back sealed. */
  function Handle(net: Net, at: RelayId, msg: Message, env: Env, depth: nat): Answer
    decreases msg
  {
    match msg
    case CircuitCreate(id, clientKey) => Create(net, at, id, clientKey, env.scalar(depth))
    case CircuitExtend(id, next, encrypted) => Extend(net, at, id, next, encrypted, env, depth + 1)
    case CircuitRelay(id, encrypted) =>
      if at !in net || id !in net[at].circuits || net[at].circuits[id].next.None? then (net, None)
      else
        var hop := net[at].circuits[id];
        (match DecryptPayload(encrypted, Some(hop.key))
         case Ok(Serialized(inner, _)) =>
           var forwarded := Lossy(Handle(net, hop.next.value, inner, env, depth + 1), net, env.fate(depth + 1));
           (match forwarded.1
            case None => (forwarded.0, None)
            case Some(reply) =>
              (forwarded.0, Some(CircuitRelayResponse(id,
                Sealed(hop.key, env.nonce(depth), Serialized(reply, env.size(depth)))))))
         case _ => (net, None))
    case _ => (net, None)
  }

  /** The client's query to its entry relay. */
  function Query(net: Net, entry: RelayId, msg: Message, env: Env): Answer {
    Lossy(Handle(net, entry, msg, env, 0), net, env.fate(0))
  }

  /** A payload on its way out: each relay peels one layer and forwards; the last one keeps the rest. */
  function Forward(net: Net, at: RelayId, id: CircuitId, m: Bytes): Option<Bytes>
    decreases m
  {
    if at !in net || id !in net[at].circuits then None
    else
      match DecryptPayload(m, Some(net[at].circuits[id].key))
      case Err(_) => None
      case Ok(inner) =>
        match net[at].circuits[id].next
        case None => Some(inner)
        case Some(next) => Forward(net, next, id, inner)
  }

  /** The same circuit, whatever other circuits did in between. */
  predicate SameCircuit(a: Net, b: Net, id: CircuitId) {
    && a.Keys == b.Keys
    && forall r :: r in a ==>
         && a[r].address == b[r].address
         && (id in a[r].circuits <==> id in b[r].circuits)
         && (id in a[r].circuits ==> a[r].circuits[id] == b[r].circuits[id])
  }

  /** The same relays at the same addresses. */
  predicate SameRelays(a: Net, b: Net) {
    a.Keys == b.Keys && forall r :: r in a ==> a[r].address == b[r].address
  }

  lemma SameRelaysFollows(a: Net, b: Net, c: Net)
    requires SameRelays(a, b) && SameRelays(b, c)
    ensures SameRelays(a, c)
  {
  }

  /** The message, or a command sealed inside it, is for this circuit. */
  predicate Mentions(msg: Message, id: CircuitId) {
    match msg
    case CircuitRelay(circuit, Sealed(_, _, Serialized(inner, _))) => circuit == id || Mentions(inner, id)
    case _ => msg.circuitId == id
  }

  /** A query of some client to some entry relay. */
  datatype Asked = Asked(entry: RelayId, msg: Message, env: Env)

  /** None of the queries is about this circuit. */
  ghost predicate Foreign(queries: seq<Asked>, id: CircuitId) {
    forall q :: q in queries ==> !Mentions(q.msg, id)
  }

  /** The overlay after a run of queries. */
  function AfterQueries(net: Net, queries: seq<Asked>): Net {
    if queries == [] then net
    else
      var q := queries[|queries| - 1];
      Query(AfterQueries(net, queries[..|queries| - 1]), q.entry, q.msg, q.env).0
  }

  /** Relay i of the path holds keys[i] and leads to relay i+1; the last one leads nowhere. */
  ghost predicate HopAt(net: Net, id: CircuitId, path: seq<RelayId>, keys: seq<Key>, i: int)
    requires 0 <= i < |path| == |keys|
  {
    && path[i] in net && id in net[path[i]].circuits
    && net[path[i]].circuits[id] == Hop(keys[i], if i + 1 < |path| then Some(path[i + 1]) else None)
  }

  ghost predicate Established(net: Net, id: CircuitId, path: seq<RelayId>, keys: seq<Key>) {
    |path| == |keys| && forall i :: 0 <= i < |path| ==> HopAt(net, id, path, keys, i)
  }

  ghost predicate Distinct<T>(xs: seq<T>) {
    forall i, j :: 0 <= i < j < |xs| ==> xs[i] != xs[j]
  }

  /** On an established circuit of any length the last relay receives exactly the client's payload. */
  lemma {:induction false} EstablishedCircuitDelivers(
      net: Net, id: CircuitId, path: seq<RelayId>, keys: seq<Key>, nonces: seq<nat>, data: Bytes)
    requires Established(net, id, path, keys) && |nonces| == |keys| && path != []
    ensures Forward(net, path[0], id, Onion(keys, nonces, data)) == Some(data)
  {
    assert HopAt(net, id, path, keys, 0);
    if |path| > 1 {
      forall i | 0 <= i < |path| - 1 ensures HopAt(net, id, path[1..], keys[1..], i) {
        assert HopAt(net, id, path, keys, i + 1);
      }
      EstablishedCircuitDelivers(net, id, path[1..], keys[1..], nonces[1..], data);
    } else {
      assert keys[1..] == [] && Onion(keys[1..], nonces[1..], data) == data;
    }
  }

  lemma CreatingKeepsOtherCircuits(net: Net, at: RelayId, circuit: CircuitId, clientKey: PublicKey, scalar: nat,
                                   id: CircuitId)
    requires circuit != id
    ensures SameCircuit(net, Create(net, at, circuit, clientKey, scalar).0, id)
  {
  }

  lemma ExtendingKeepsOtherCircuits(net: Net, at: RelayId, circuit: CircuitId, next: RelayId, encrypted: Bytes,
                                    env: Env, depth: nat, id: CircuitId)
    requires circuit != id
    ensures SameCircuit(net, Extend(net, at, circuit, next, encrypted, env, depth).0, id)
  {
    if at in net && circuit in net[at].circuits {
      var inside := DecryptPayload(encrypted, Some(net[at].circuits[circuit].key));
      if inside.Ok? && inside.value.ExtendPayload? {
        CreatingKeepsOtherCircuits(net, next, circuit, inside.value.clientKey, env.scalar(depth), id);
      }
    }
  }

  /** Where a relayed command is acted on, if anywhere: the successor, and the message it is handed. */
  lemma RelayingActsAtSuccessor(net: Net, at: RelayId, circuit: CircuitId, encrypted: Bytes, env: Env, depth: nat)
    ensures var after := Handle(net, at, CircuitRelay(circuit, encrypted), env, depth).0;
      after == net ||
      (&& encrypted.Sealed? && encrypted.body.Serialized? && at in net && circuit in net[at].circuits
       && net[at].circuits[circuit].next.Some?
       && after == Handle(net, net[at].circuits[circuit].next.value, encrypted.body.msg, env, depth + 1).0)
  {
  }

  lemma CreatingKeepsRelays(net: Net, at: RelayId, circuit: CircuitId, clientKey: PublicKey, scalar: nat)
    ensures SameRelays(net, Create(net, at, circuit, clientKey, scalar).0)
  {
  }

  lemma ExtendingKeepsRelays(net: Net, at: RelayId, circuit: CircuitId, next: RelayId, encrypted: Bytes, env: Env,
                             depth: nat)
    ensures SameRelays(net, Extend(net, at, circuit, next, encrypted, env, depth).0)
  {
    if at in net && circuit in net[at].circuits {
      var inside := DecryptPayload(encrypted, Some(net[at].circuits[circuit].key));
      if inside.Ok? && inside.value.ExtendPayload? {
        CreatingKeepsRelays(net, next, circuit, inside.value.clientKey, env.scalar(depth));
      }
    }
  }

  /** No query adds, removes or moves a relay. */
  lemma {:induction false} HandlingKeepsRelays(net: Net, at: RelayId, msg: Message, env: Env, depth: nat)
    ensures SameRelays(net, Handle(net, at, msg, env, depth).0)
    decreases msg
  {
    match msg {
      case CircuitCreate(circuit, clientKey) =>
        CreatingKeepsRelays(net, at, circuit, clientKey, env.scalar(depth));
      case CircuitExtend(circuit, next, encrypted) =>
        ExtendingKeepsRelays(net, at, circuit, next, encrypted, env, depth + 1);
      case CircuitRelay(circuit, encrypted) =>
        RelayingActsAtSuccessor(net, at, circuit, encrypted, env, depth);
        if encrypted.Sealed? && encrypted.body.Serialized? && at in net && circuit in net[at].circuits
           && net[at].circuits[circuit].next.Some? {
          HandlingKeepsRelays(net, net[at].circuits[circuit].next.value, encrypted.body.msg, env, depth + 1);
        }
      case _ =>
    }
  }

  /** A relay acting on a query of another circuit, however deep that one is forwarded, leaves this one alone. */
  lemma {:induction false} HandlingKeepsOtherCircuits(net: Net, at: RelayId, msg: Message, env: Env, depth: nat,
                                                      id: CircuitId)
    requires !Mentions(msg, id)
    ensures SameCircuit(net, Handle(net, at, msg, env, depth).0, id)
    decreases msg
  {
    match msg {
      case CircuitCreate(circuit, clientKey) =>
        CreatingKeepsOtherCircuits(net, at, circuit, clientKey, env.scalar(depth), id);
      case CircuitExtend(circuit, next, encrypted) =>
        ExtendingKeepsOtherCircuits(net, at, circuit, next, encrypted, env, depth + 1, id);
      case CircuitRelay(circuit, encrypted) =>
        RelayingActsAtSuccessor(net, at, circuit, encrypted, env, depth);
        if encrypted.Sealed? && encrypted.body.Serialized? && at in net && circuit in net[at].circuits
           && net[at].circuits[circuit].next.Some? {
          HandlingKeepsOtherCircuits(net, net[at].circuits[circuit].next.value, encrypted.body.msg, env, depth + 1, id);
        }
      case _ =>
    }
  }

  /** Over every run of queries about other circuits, with any relays, contents, losses and random reads. */
  lemma {:induction false} OtherCircuitsAreSeparate(net: Net, queries: seq<Asked>, id: CircuitId)
    requires Foreign(queries, id)
    ensures SameCircuit(net, AfterQueries(net, queries), id)
  {
    if queries != [] {
      var before, q := queries[..|queries| - 1], queries[|queries| - 1];
      OtherCircuitsAreSeparate(net, before, id);
      HandlingKeepsOtherCircuits(AfterQueries(net, before), q.entry, q.msg, q.env, 0, id);
    }
  }

  /** So an agreed circuit stays agreed, whatever other circuits do. */
  lemma EstablishedIsStable(net: Net, queries: seq<Asked>, id: CircuitId, path: seq<RelayId>, keys: seq<Key>)
    requires Foreign(queries, id) && Established(net, id, path, keys)
    ensures Established(AfterQueries(net, queries), id, path, keys)
  {
    OtherCircuitsAreSeparate(net, queries, id);
    forall i | 0 <= i < |path| ensures HopAt(AfterQueries(net, queries), id, path, keys, i) {
      assert HopAt(net, id, path, keys, i);
    }
  }

  /**
   With pairwise different keys, relays can hold all of them only if no relay is on the path twice:
   a relay has room for one key per circuit.
   */
  lemma AgreementNeedsDistinctRelays(net: Net, id: CircuitId, path: seq<RelayId>, keys: seq<Key>)
    requires Established(net, id, path, keys) && Distinct(keys)
    ensures Distinct(path)
  {
    forall i, j | 0 <= i < j < |path| ensures path[i] != path[j] {
      assert HopAt(net, id, path, keys, i) && HopAt(net, id, path, keys, j);
    }
  }
}
