/** NewClientCircuit: the telescopic construction of a three-hop circuit. */
module CircuitBuild {
  import opened Basics
  import opened Crypto
  import opened Layers
  import opened Overlay

  datatype RelayInfo = RelayInfo(address: string, publicKey: RelayId)

  /** The client's random reads: circuit id, one scalar per hop, one nonce per sealed payload. */
  datatype RandomReads = RandomReads(circuitId: Option<CircuitId>, scalar: nat -> nat, nonce: nat -> Option<nat>,
                                     size: nat)

  datatype StepError = SealFailed(cause: CryptoError) | QueryFailed | ReplyUnreadable | KeyRejected

  datatype BuildError =
    | NeedThreeRelays
    | NoCircuitId
    | ConnectFailed
    | CreateFailed(cause: StepError)
    | ExtendToMiddleFailed(cause: StepError)
    | ExtendToExitFailed(cause: StepError)

  function Ids(relays: seq<RelayInfo>): seq<RelayId> {
    seq(|relays|, i requires 0 <= i < |relays| => relays[i].publicKey)
  }

  /** The payload states the address length in two bytes. */
  function BuildExtendPayload(relay: RelayInfo, scalar: nat): Bytes {
    ExtendPayload(|relay.address| % 0x1_0000, relay.address, Pub(scalar))
  }

  /** A query of this client: the relay it goes to, and the message. */
  datatype Sent = Sent(entry: RelayId, msg: Message)

  /** The overlay network as the client meets it; `log` lists the client's own queries. */
  class Network {
    var net: Net
    ghost var log: seq<Sent>

    constructor (net: Net)
      ensures this.net == net && log == []
    {
      this.net := net;
      log := [];
    }

    method Ask(entry: RelayId, msg: Message, env: Env) returns (reply: Option<Message>)
      modifies this
      ensures (net, reply) == Query(old(net), entry, msg, env)
      ensures log == old(log) + [Sent(entry, msg)]
      ensures SameRelays(old(net), net)
    {
      log := log + [Sent(entry, msg)];
      HandlingKeepsRelays(net, entry, msg, env, 0);
      var answer := Query(net, entry, msg, env);
      net := answer.0;
      reply := answer.1;
    }

    /** Other clients' queries reach the relays; theirs are about other circuits. */
    method OthersMove(id: CircuitId, queries: seq<Asked>)
      requires Foreign(queries, id)
      modifies this`net
      ensures net == AfterQueries(old(net), queries)
      ensures SameCircuit(old(net), net, id) && SameRelays(old(net), net)
    {
      ghost var before := net;
      for i := 0 to |queries|
        invariant net == AfterQueries(before, queries[..i]) && SameRelays(before, net)
      {
        assert queries[..i + 1][..i] == queries[..i];
        var q := queries[i];
        HandlingKeepsRelays(net, q.entry, q.msg, q.env, 0);
        net := Query(net, q.entry, q.msg, q.env).0;
      }
      assert queries[..|queries|] == queries;
      OtherCircuitsAreSeparate(before, queries, id);
    }
  }

  /** A relay can be extended to: it exists at its address, and the address fits its length field. */
  ghost predicate Extendable(net: Net, relay: RelayInfo) {
    && relay.publicKey in net && net[relay.publicKey].address == relay.address
    && |relay.address| < 0x1_0000
  }

  /** The calls at depths 0 to n-1 all get through. */
  ghost predicate Lossless(env: Env, n: nat) {
    forall d :: 0 <= d < n ==> env.fate(d).Delivered?
  }

  // ----- where a key comes from -----

  /** Hop i's key is that of the scalar the client drew for it and the one the relay drew. */
  predicate HopKey(key: Key, draws: RandomReads, env: Env, i: nat) {
    ComputeSharedKey(draws.scalar(i), Pub(env.scalar(i))) == Some(key)
  }

  /** A relay that answers an extend passes on the public key the next relay drew. */
  lemma ExtendAnswer(net: Net, at: RelayId, msg: Message, env: Env, depth: nat)
    requires msg.CircuitExtend?
    ensures var reply := Handle(net, at, msg, env, depth).1;
      reply.Some? ==> reply.value.CircuitExtended? && reply.value.relayKey == Pub(env.scalar(depth + 1))
  {
  }

  /** And so does the answer to an extend inside a relayed command, once it is opened. */
  lemma NestedAnswer(net: Net, at: RelayId, id: CircuitId, key: Key, nonce: nat, inner: Message, size: nat, env: Env)
    requires inner.CircuitExtend?
    ensures var reply := Handle(net, at, CircuitRelay(id, Sealed(key, nonce, Serialized(inner, size))), env, 0).1;
      reply.Some? ==> && reply.value.CircuitRelayResponse? && reply.value.encrypted.Sealed?
                      && reply.value.encrypted.key == key && reply.value.encrypted.body.Serialized?
                      && reply.value.encrypted.body.msg.CircuitExtended?
                      && reply.value.encrypted.body.msg.relayKey == Pub(env.scalar(2))
  {
    if at in net && id in net[at].circuits && net[at].circuits[id].next.Some? {
      ExtendAnswer(net, net[at].circuits[id].next.value, inner, env, 1);
    }
  }

  /** The queries of a build, in order: what each carries, and under which keys. */
  function CreateQuery(id: CircuitId, entry: RelayId, draws: RandomReads): Sent {
    Sent(entry, CircuitCreate(id, Pub(draws.scalar(0))))
  }

  function ExtendQuery(id: CircuitId, entry: RelayId, relay: RelayInfo, draws: RandomReads, k0: Key): Sent
    requires draws.nonce(0).Some?
  {
    var payload := ExtendPayload(|relay.address| % 65536, relay.address, Pub(draws.scalar(1)));
    Sent(entry, CircuitExtend(id, relay.publicKey, Sealed(k0, draws.nonce(0).value, payload)))
  }

  function NestedQuery(id: CircuitId, entry: RelayId, relay: RelayInfo, draws: RandomReads, k0: Key, k1: Key): Sent
    requires draws.nonce(1).Some? && draws.nonce(2).Some?
  {
    var payload := ExtendPayload(|relay.address| % 65536, relay.address, Pub(draws.scalar(2)));
    var inner := CircuitExtend(id, relay.publicKey, Sealed(k1, draws.nonce(1).value, payload));
    Sent(entry, CircuitRelay(id, Sealed(k0, draws.nonce(2).value, Serialized(inner, draws.size))))
  }

  lemma CreateEstablishes(net: Net, entry: RelayId, id: CircuitId, scalar: nat, env: Env)
    ensures var (net', reply) := Query(net, entry, CircuitCreate(id, Pub(scalar)), env);
      match reply
      case None => !(entry in net && Lossless(env, 1))
      case Some(m) => && m.CircuitCreated? && m.relayKey == Pub(env.scalar(0))
                      && ComputeSharedKey(scalar, m.relayKey).Some?
                      && Established(net', id, [entry], [ComputeSharedKey(scalar, m.relayKey).value])
                      && SameRelays(net, net')
  {
    KeyExchangeAgrees(scalar, env.scalar(0), 0, 0);
  }

  lemma ExtendEstablishes(net: Net, entry: RelayId, next: RelayInfo, id: CircuitId, k0: Key,
                          nonce: nat, scalar: nat, env: Env)
    requires Established(net, id, [entry], [k0]) && entry != next.publicKey
    ensures var payload := Sealed(k0, nonce, BuildExtendPayload(next, scalar));
      var (net', reply) := Query(net, entry, CircuitExtend(id, next.publicKey, payload), env);
      match reply
      case None => !(Extendable(net, next) && Lossless(env, 2))
      case Some(m) => && m.CircuitExtended? && ComputeSharedKey(scalar, m.relayKey).Some?
                      && Established(net', id, [entry, next.publicKey],
                                     [k0, ComputeSharedKey(scalar, m.relayKey).value])
                      && SameRelays(net, net')
  {
    assert HopAt(net, id, [entry], [k0], 0);
    KeyExchangeAgrees(scalar, env.scalar(1), 0, 0);
  }

  /** What an extend through the last relay of an established two-hop path does at that relay. */
  lemma InnerExtendEstablishes(net: Net, path: seq<RelayId>, keys: seq<Key>, next: RelayInfo, id: CircuitId,
                               nonce: nat, scalar: nat, env: Env)
    requires |path| == 2 && Established(net, id, path, keys) && Distinct(path + [next.publicKey])
    ensures var payload := Sealed(keys[1], nonce, BuildExtendPayload(next, scalar));
      var (net', reply) := Handle(net, path[1], CircuitExtend(id, next.publicKey, payload), env, 1);
      match reply
      case None => !(Extendable(net, next) && env.fate(2).Delivered?)
      case Some(m) => && m.CircuitExtended? && ComputeSharedKey(scalar, m.relayKey).Some?
                      && Established(net', id, path + [next.publicKey],
                                     keys + [ComputeSharedKey(scalar, m.relayKey).value])
  {
    assert HopAt(net, id, path, keys, 0) && HopAt(net, id, path, keys, 1);
    var all := path + [next.publicKey];
    assert all[0] != all[1] && all[0] != all[2] && all[1] != all[2];
    KeyExchangeAgrees(scalar, env.scalar(2), 0, 0);
  }

  /** The same from the client: the command is relayed by the entry, and its answer is opened with the entry's key. */
  lemma RelayedExtendEstablishes(net: Net, entry: RelayId, middle: RelayId, k0: Key, k1: Key, next: RelayInfo,
                                 id: CircuitId, draws: RandomReads, env: Env)
    requires draws.nonce(1).Some? && draws.nonce(2).Some?
    requires Established(net, id, [entry, middle], [k0, k1]) && Distinct([entry, middle, next.publicKey])
    ensures var (net', reply) := Query(net, entry, NestedQuery(id, entry, next, draws, k0, k1).msg, env);
      match reply
      case None => !(Extendable(net, next) && Lossless(env, 3))
      case Some(m) => && m.CircuitRelayResponse? && m.encrypted.Sealed? && m.encrypted.body.Serialized?
                      && m.encrypted.body.msg.CircuitExtended?
                      && var key := ComputeSharedKey(draws.scalar(2), m.encrypted.body.msg.relayKey);
                        && key.Some?
                        && Established(net', id, [entry, middle, next.publicKey], [k0, k1, key.value])
  {
    var path, keys, nonce := [entry, middle], [k0, k1], draws.nonce(1).value;
    assert path + [next.publicKey] == [entry, middle, next.publicKey];
    InnerExtendEstablishes(net, path, keys, next, id, nonce, draws.scalar(2), env);
    assert HopAt(net, id, path, keys, 0);
    var inner := CircuitExtend(id, next.publicKey, Sealed(k1, nonce, BuildExtendPayload(next, draws.scalar(2))));
    var answer := Handle(net, middle, inner, env, 1).1;
    if answer.Some? {
      var key := ComputeSharedKey(draws.scalar(2), answer.value.relayKey).value;
      assert keys + [key] == [k0, k1, key];
    }
  }

  /** The client's end of a circuit. */
  class ClientCircuit {
    const id: CircuitId
    const entry: RelayId
    const overlay: Network
    var sharedKeys: seq<Option<Key>>

    constructor (id: CircuitId, entry: RelayId, overlay: Network)
      ensures this.id == id && this.entry == entry && this.overlay == overlay
      ensures sharedKeys == [None, None, None]
    {
      this.id, this.entry, this.overlay := id, entry, overlay;
      sharedKeys := [None, None, None];
    }

    method CreateCircuit(draws: RandomReads, env: Env) returns (r: Result<Key, StepError>)
      modifies overlay
      ensures overlay.log == old(overlay.log) + [CreateQuery(id, entry, draws)]
      ensures r.Ok? ==> HopKey(r.value, draws, env, 0)
      ensures r.Ok? ==> Established(overlay.net, id, [entry], [r.value])
      ensures r.Err? ==> !(entry in old(overlay.net) && Lossless(env, 1))
      ensures SameRelays(old(overlay.net), overlay.net)
    {
      var scalar := draws.scalar(0);
      CreateEstablishes(overlay.net, entry, id, scalar, env);
      var reply := overlay.Ask(entry, CircuitCreate(id, Pub(scalar)), env);
      match reply {
        case Some(CircuitCreated(_, relayKey)) =>
          match ComputeSharedKey(scalar, relayKey) {
            case Some(key) => return Ok(key);
            case None => return Err(KeyRejected);
          }
        case _ => return Err(QueryFailed);
      }
    }

    method ExtendCircuit(relay: RelayInfo, draws: RandomReads, env: Env) returns (r: Result<Key, StepError>)
      requires |sharedKeys| == 3
      modifies overlay
      ensures SameRelays(old(overlay.net), overlay.net)
      ensures overlay.log == if sharedKeys[0].None? || draws.nonce(0).None? then old(overlay.log)
        else old(overlay.log) + [ExtendQuery(id, entry, relay, draws, sharedKeys[0].value)]
      ensures r.Ok? ==> sharedKeys[0].Some? && draws.nonce(0).Some? && HopKey(r.value, draws, env, 1)
      ensures r.Err? && r.error.SealFailed? <==> sharedKeys[0].None? || draws.nonce(0).None?
      ensures sharedKeys[0].Some? && entry != relay.publicKey
              && Established(old(overlay.net), id, [entry], [sharedKeys[0].value]) ==>
        && (r.Ok? ==> && Established(overlay.net, id, [entry, relay.publicKey], [sharedKeys[0].value, r.value])
                      && SameRelays(old(overlay.net), overlay.net))
        && (Extendable(old(overlay.net), relay) && draws.nonce(0).Some? && Lossless(env, 2) ==> r.Ok?)
    {
      var scalar := draws.scalar(1);
      var sealed := EncryptPayload(BuildExtendPayload(relay, scalar), sharedKeys[0], draws.nonce(0));
      if sealed.Err? {
        return Err(SealFailed(sealed.error));
      }
      ghost var k0 := sharedKeys[0].value;
      if entry != relay.publicKey && Established(overlay.net, id, [entry], [k0]) {
        ExtendEstablishes(overlay.net, entry, relay, id, k0, draws.nonce(0).value, scalar, env);
      }
      var query := CircuitExtend(id, relay.publicKey, sealed.value);
      ExtendAnswer(overlay.net, entry, query, env, 0);
      var reply := overlay.Ask(entry, query, env);
      match reply {
        case Some(CircuitExtended(_, relayKey)) =>
          match ComputeSharedKey(scalar, relayKey) {
            case Some(key) => return Ok(key);
            case None => return Err(KeyRejected);
          }
        case _ => return Err(QueryFailed);
      }
    }

    method ExtendCircuitViaRelay(relay: RelayInfo, draws: RandomReads, env: Env, ghost middle: RelayId)
      returns (r: Result<Key, StepError>)
      requires |sharedKeys| == 3
      modifies overlay
      ensures SameRelays(old(overlay.net), overlay.net)
      ensures overlay.log ==
        if sharedKeys[0].None? || sharedKeys[1].None? || draws.nonce(1).None? || draws.nonce(2).None?
        then old(overlay.log)
        else old(overlay.log) + [NestedQuery(id, entry, relay, draws, sharedKeys[0].value, sharedKeys[1].value)]
      ensures r.Ok? ==> sharedKeys[0].Some? && sharedKeys[1].Some? && draws.nonce(1).Some? && draws.nonce(2).Some?
      ensures r.Ok? ==> HopKey(r.value, draws, env, 2)
      ensures r.Err? && r.error.SealFailed? <==>
        sharedKeys[0].None? || sharedKeys[1].None? || draws.nonce(1).None? || draws.nonce(2).None?
      ensures sharedKeys[0].Some? && sharedKeys[1].Some? && Distinct([entry, middle, relay.publicKey])
              && Established(old(overlay.net), id, [entry, middle], [sharedKeys[0].value, sharedKeys[1].value]) ==>
        && (r.Ok? ==> Established(overlay.net, id, [entry, middle, relay.publicKey],
                                  [sharedKeys[0].value, sharedKeys[1].value, r.value]))
        && (Extendable(old(overlay.net), relay) && draws.nonce(1).Some? && draws.nonce(2).Some? && Lossless(env, 3)
            ==> r.Ok?)
    {
      var scalar := draws.scalar(2);
      var sealed := EncryptPayload(BuildExtendPayload(relay, scalar), sharedKeys[1], draws.nonce(1));
      if sealed.Err? {
        return Err(SealFailed(sealed.error));
      }
      var inner := Serialized(CircuitExtend(id, relay.publicKey, sealed.value), draws.size);
      var outer := EncryptPayload(inner, sharedKeys[0], draws.nonce(2));
      if outer.Err? {
        return Err(SealFailed(outer.error));
      }
      ghost var k0, k1 := sharedKeys[0].value, sharedKeys[1].value;
      if Distinct([entry, middle, relay.publicKey]) && Established(overlay.net, id, [entry, middle], [k0, k1]) {
        RelayedExtendEstablishes(overlay.net, entry, middle, k0, k1, relay, id, draws, env);
      }
      NestedAnswer(overlay.net, entry, id, k0, draws.nonce(2).value, inner.msg, draws.size, env);
      var reply := overlay.Ask(entry, CircuitRelay(id, outer.value), env);
      match reply {
        case Some(CircuitRelayResponse(_, encrypted)) =>
          var answer := DecryptPayload(encrypted, sharedKeys[0]);
          match answer {
            case Ok(Serialized(CircuitExtended(_, relayKey), _)) =>
              match ComputeSharedKey(scalar, relayKey) {
                case Some(key) => return Ok(key);
                case None => return Err(KeyRejected);
              }
            case _ => return Err(ReplyUnreadable);
          }
        case _ => return Err(QueryFailed);
      }
    }
  }

  /** A lossless network that knows every relay of the path, and a working random source. */
  ghost predicate Healthy(net: Net, relays: seq<RelayInfo>, draws: RandomReads, env: nat -> Env) {
    && |relays| == 3 && Distinct(Ids(relays))
    && relays[0].publicKey in net && Extendable(net, relays[1]) && Extendable(net, relays[2])
    && draws.circuitId.Some? && draws.nonce(0).Some? && draws.nonce(1).Some? && draws.nonce(2).Some?
    && Lossless(env(0), 1) && Lossless(env(1), 2) && Lossless(env(2), 3)
  }

  /** The run gets as far as having an entry connection. */
  predicate Connected(relays: seq<RelayInfo>, draws: RandomReads, connects: bool) {
    |relays| == 3 && draws.circuitId.Some? && connects
  }

  /**
   Builds a circuit against the given link fates (`env(i)` for query i) while the queries `others(i)` of
   other circuits reach the relays before query i. `sent` lists the client's one-way messages.

   Every circuit it returns is established: each relay holds the key in the client's slot for it.
   Every failure after the connection sends one CircuitDestroy, and nothing else sends one.
   */
  method NewClientCircuit(overlay: Network, relays: seq<RelayInfo>, draws: RandomReads, connects: bool,
                          env: nat -> Env, others: nat -> seq<Asked>)
    returns (r: Result<ClientCircuit, BuildError>, sent: seq<Message>)
    requires draws.circuitId.Some? ==> forall i :: Foreign(others(i), draws.circuitId.value)
    modifies overlay
    ensures SameRelays(old(overlay.net), overlay.net)
    ensures r.Ok? ==> && Connected(relays, draws, connects)
                      && fresh(r.value) && r.value.overlay == overlay && r.value.id == draws.circuitId.value
                      && |r.value.sharedKeys| == 3 && forall i :: 0 <= i < 3 ==> r.value.sharedKeys[i].Some?
    ensures r.Ok? ==> && r.value.entry == relays[0].publicKey && Negotiated(r.value.sharedKeys, draws, env)
                      && AllAsked(old(overlay.log), overlay.log, r.value.id, relays, draws, r.value.sharedKeys)
    ensures r.Err? ==> if !Connected(relays, draws, connects) then overlay.log == old(overlay.log)
      else AskedUpTo(old(overlay.log), overlay.log, draws.circuitId.value, relays, draws, r.error)
    ensures r == Err(NoCircuitId) <==> |relays| == 3 && draws.circuitId.None?
    ensures r == Err(ConnectFailed) <==> |relays| == 3 && draws.circuitId.Some? && !connects
    ensures r.Ok? && DifferentPairs(draws, env) ==>
      (Distinct(Ids(relays)) <==>
       Established(overlay.net, r.value.id, Ids(relays), Values(r.value.sharedKeys, 0)))
    ensures r.Ok? && Distinct(Ids(relays)) ==>
      Established(overlay.net, r.value.id, Ids(relays), Values(r.value.sharedKeys, 0))
    ensures r.Ok? && Distinct(Values(r.value.sharedKeys, 0)) ==>
      (Distinct(Ids(relays)) <==>
       Established(overlay.net, r.value.id, Ids(relays), Values(r.value.sharedKeys, 0)))
    ensures sent == if r.Err? && Connected(relays, draws, connects) then [CircuitDestroy(draws.circuitId.value)] else []
    ensures connects && Healthy(old(overlay.net), relays, draws, env) ==> r.Ok?
    ensures |relays| != 3 ==> r == Err(NeedThreeRelays) && overlay.net == old(overlay.net)
  {
    sent := [];
    if |relays| != 3 {
      return Err(NeedThreeRelays), sent;
    }
    if draws.circuitId.None? {
      return Err(NoCircuitId), sent;
    }
    if !connects {
      return Err(ConnectFailed), sent;
    }
    var circuit := new ClientCircuit(draws.circuitId.value, relays[0].publicKey, overlay);
    var outcome := BuildHops(circuit, relays, draws, env, others);
    match outcome {
      case Some(error) =>
        sent := sent + [CircuitDestroy(circuit.id)];
        return Err(error), sent;
      case None =>
        ghost var keys := Values(circuit.sharedKeys, 0);
        DifferentPairsGiveDistinctKeys(circuit.sharedKeys, draws, env);
        if Distinct(keys) && Established(overlay.net, circuit.id, Ids(relays), keys) {
          AgreementNeedsDistinctRelays(overlay.net, circuit.id, Ids(relays), keys);
        }
        return Ok(circuit), sent;
    }
  }

  /** Whatever happened in between, the overlay is as healthy as it was. */
  lemma StillHealthy(net: Net, later: Net, relays: seq<RelayInfo>, draws: RandomReads, env: nat -> Env)
    requires SameRelays(net, later)
    ensures Healthy(net, relays, draws, env) ==> Healthy(later, relays, draws, env)
  {
  }

  lemma ThreeRelays(relays: seq<RelayInfo>)
    requires |relays| == 3
    ensures var ids := Ids(relays);
      && ids == [relays[0].publicKey, relays[1].publicKey, relays[2].publicKey]
      && (Distinct(ids) ==> ids[0] != ids[1] && ids[0] != ids[2] && ids[1] != ids[2])
  {
  }

  /** Every slot is filled, with the key of the scalars drawn for just that hop. */
  ghost predicate Negotiated(slots: seq<Option<Key>>, draws: RandomReads, env: nat -> Env) {
    |slots| == 3 && forall i :: 0 <= i < 3 ==> slots[i].Some? && HopKey(slots[i].value, draws, env(i), i)
  }

  /** The client has asked its three queries, each with a key pair of its own, and nothing else. */
  ghost predicate AllAsked(before: seq<Sent>, after: seq<Sent>, id: CircuitId, relays: seq<RelayInfo>,
                           draws: RandomReads, slots: seq<Option<Key>>)
    requires |relays| == 3 && |slots| == 3 && forall i :: 0 <= i < 3 ==> slots[i].Some?
  {
    var entry, k0, k1 := relays[0].publicKey, slots[0].value, slots[1].value;
    && draws.nonce(0).Some? && draws.nonce(1).Some? && draws.nonce(2).Some?
    && after == before + [CreateQuery(id, entry, draws), ExtendQuery(id, entry, relays[1], draws, k0),
                          NestedQuery(id, entry, relays[2], draws, k0, k1)]
  }

  lemma ThreeKeys(slots: seq<Option<Key>>, before: seq<Sent>, after: seq<Sent>, id: CircuitId, relays: seq<RelayInfo>,
                  draws: RandomReads, env: nat -> Env, k0: Key, k1: Key, k2: Key)
    requires |relays| == 3 && |slots| == 3 && slots[0] == Some(k0) && slots[1] == Some(k1) && slots[2] == Some(k2)
    requires HopKey(k0, draws, env(0), 0) && HopKey(k1, draws, env(1), 1) && HopKey(k2, draws, env(2), 2)
    requires draws.nonce(0).Some? && draws.nonce(1).Some? && draws.nonce(2).Some?
    requires var entry := relays[0].publicKey;
      after == before + [CreateQuery(id, entry, draws), ExtendQuery(id, entry, relays[1], draws, k0)]
               + [NestedQuery(id, entry, relays[2], draws, k0, k1)]
    ensures Values(slots, 0) == [k0, k1, k2]
    ensures Negotiated(slots, draws, env) && AllAsked(before, after, id, relays, draws, slots)
  {
  }

  /** A failing build has asked up to the query that failed, that one included if it could be sealed. */
  ghost predicate AskedUpTo(before: seq<Sent>, after: seq<Sent>, id: CircuitId, relays: seq<RelayInfo>,
                            draws: RandomReads, error: BuildError)
    requires |relays| == 3
  {
    var first := before + [CreateQuery(id, relays[0].publicKey, draws)];
    match error
    case CreateFailed(_) => after == first
    case ExtendToMiddleFailed(_) =>
      first <= after && |after| == |first| + if draws.nonce(0).None? then 0 else 1
    case ExtendToExitFailed(_) =>
      first <= after && |after| == |first| + if draws.nonce(1).None? || draws.nonce(2).None? then 1 else 2
    case _ => false
  }

  /** Key pairs that are pairwise different as unordered pairs give pairwise different keys. */
  ghost predicate DifferentPairs(draws: RandomReads, env: nat -> Env) {
    forall i: nat, j: nat :: i < j < 3 ==>
      multiset{draws.scalar(i), env(i).scalar(i)} != multiset{draws.scalar(j), env(j).scalar(j)}
  }

  lemma DifferentPairsGiveDistinctKeys(slots: seq<Option<Key>>, draws: RandomReads, env: nat -> Env)
    requires Negotiated(slots, draws, env)
    ensures DifferentPairs(draws, env) <==> Distinct(Values(slots, 0))
  {
    var keys := Values(slots, 0);
    forall i: nat, j: nat | i < j < 3
      ensures keys[i] != keys[j] <==>
              multiset{draws.scalar(i), env(i).scalar(i)} != multiset{draws.scalar(j), env(j).scalar(j)}
    {
      KeyExchangeAgrees(draws.scalar(i), env(i).scalar(i), draws.scalar(j), env(j).scalar(j));
    }
  }

  /** The three negotiations in order; the first that fails ends the run. */
  method BuildHops(circuit: ClientCircuit, relays: seq<RelayInfo>, draws: RandomReads, env: nat -> Env,
                   others: nat -> seq<Asked>)
    returns (error: Option<BuildError>)
    requires |relays| == 3 && draws.circuitId.Some?
    requires forall i :: Foreign(others(i), circuit.id)
    requires circuit.entry == relays[0].publicKey && circuit.sharedKeys == [None, None, None]
    modifies circuit, circuit.overlay
    ensures SameRelays(old(circuit.overlay.net), circuit.overlay.net)
    ensures error.None? ==> |circuit.sharedKeys| == 3 && forall i :: 0 <= i < 3 ==> circuit.sharedKeys[i].Some?
    ensures error.None? ==> Negotiated(circuit.sharedKeys, draws, env)
    ensures error.None? ==> AllAsked(old(circuit.overlay.log), circuit.overlay.log, circuit.id, relays, draws,
                                     circuit.sharedKeys)
    ensures error.Some? ==> AskedUpTo(old(circuit.overlay.log), circuit.overlay.log, circuit.id, relays, draws,
                                      error.value)
    ensures error.None? && Distinct(Ids(relays)) ==>
      Established(circuit.overlay.net, circuit.id, Ids(relays), Values(circuit.sharedKeys, 0))
    ensures Healthy(old(circuit.overlay.net), relays, draws, env) ==> error.None?
  {
    var overlay := circuit.overlay;
    ghost var ids := Ids(relays);
    ghost var start, log := overlay.net, overlay.log;
    ThreeRelays(relays);
    error := BuildTwoHops(circuit, relays, draws, env, others);
    if error.Some? {
      return;
    }
    ghost var k0, k1 := circuit.sharedKeys[0].value, circuit.sharedKeys[1].value;
    ghost var extended := overlay.net;
    overlay.OthersMove(circuit.id, others(2));
    SameRelaysFollows(start, extended, overlay.net);
    StillHealthy(start, overlay.net, relays, draws, env);
    if Distinct(ids) {
      EstablishedIsStable(extended, others(2), circuit.id, [ids[0], ids[1]], [k0, k1]);
    }
    var key3 := circuit.ExtendCircuitViaRelay(relays[2], draws, env(2), ids[1]);
    if key3.Err? {
      return Some(ExtendToExitFailed(key3.error));
    }
    circuit.sharedKeys := circuit.sharedKeys[2 := Some(key3.value)];
    ThreeKeys(circuit.sharedKeys, log, overlay.log, circuit.id, relays, draws, env, k0, k1, key3.value);
    return None;
  }

  /** The first two negotiations. */
  method BuildTwoHops(circuit: ClientCircuit, relays: seq<RelayInfo>, draws: RandomReads, env: nat -> Env,
                      others: nat -> seq<Asked>)
    returns (error: Option<BuildError>)
    requires |relays| == 3 && draws.circuitId.Some?
    requires forall i :: Foreign(others(i), circuit.id)
    requires circuit.entry == relays[0].publicKey && circuit.sharedKeys == [None, None, None]
    modifies circuit, circuit.overlay
    ensures SameRelays(old(circuit.overlay.net), circuit.overlay.net)
    ensures error.None? ==> && |circuit.sharedKeys| == 3 && circuit.sharedKeys[0].Some? && circuit.sharedKeys[1].Some?
                            && circuit.sharedKeys[2].None? && draws.nonce(0).Some?
    ensures error.None? ==> var k0, k1 := circuit.sharedKeys[0].value, circuit.sharedKeys[1].value;
      && HopKey(k0, draws, env(0), 0) && HopKey(k1, draws, env(1), 1)
      && circuit.overlay.log == old(circuit.overlay.log) +
         [CreateQuery(circuit.id, circuit.entry, draws), ExtendQuery(circuit.id, circuit.entry, relays[1], draws, k0)]
      && (relays[0].publicKey != relays[1].publicKey ==>
            Established(circuit.overlay.net, circuit.id, [relays[0].publicKey, relays[1].publicKey], [k0, k1]))
    ensures error.Some? ==>
      && (error.value.CreateFailed? || error.value.ExtendToMiddleFailed?)
      && AskedUpTo(old(circuit.overlay.log), circuit.overlay.log, circuit.id, relays, draws, error.value)
    ensures Healthy(old(circuit.overlay.net), relays, draws, env) ==> error.None?
  {
    var overlay := circuit.overlay;
    ghost var start, log := overlay.net, overlay.log;
    ghost var entry, middle := relays[0].publicKey, relays[1].publicKey;
    ThreeRelays(relays);
    overlay.OthersMove(circuit.id, others(0));
    StillHealthy(start, overlay.net, relays, draws, env);
    var key1 := circuit.CreateCircuit(draws, env(0));
    if key1.Err? {
      return Some(CreateFailed(key1.error));
    }
    circuit.sharedKeys := circuit.sharedKeys[0 := Some(key1.value)];

    ghost var created := overlay.net;
    assert SameRelays(start, created);
    overlay.OthersMove(circuit.id, others(1));
    SameRelaysFollows(start, created, overlay.net);
    StillHealthy(start, overlay.net, relays, draws, env);
    EstablishedIsStable(created, others(1), circuit.id, [entry], [key1.value]);
    ghost var moved := overlay.net;
    var key2 := circuit.ExtendCircuit(relays[1], draws, env(1));
    SameRelaysFollows(start, moved, overlay.net);
    if key2.Err? {
      return Some(ExtendToMiddleFailed(key2.error));
    }
    circuit.sharedKeys := circuit.sharedKeys[1 := Some(key2.value)];
    return None;
  }

  /**
   On an agreed circuit, after any queries of other circuits: what `EncryptLayers` seals is what the exit
   receives, and what the exit seals with its own key is what the last key slot opens.
   */
  lemma CircuitCarriesTraffic(net: Net, queries: seq<Asked>, id: CircuitId, path: seq<RelayId>, slots: seq<Option<Key>>,
                              nonces: seq<nat>, data: Bytes, replyNonce: nat, reply: Bytes)
    requires path != [] && (forall i :: 0 <= i < |slots| ==> slots[i].Some?) && |nonces| == |slots|
    requires Established(net, id, path, Values(slots, 0)) && Foreign(queries, id)
    ensures Forward(AfterQueries(net, queries), path[0], id, Onion(Values(slots, 0), nonces, data)) == Some(data)
    ensures var exit, later := path[|path| - 1], AfterQueries(net, queries);
      && exit in later && id in later[exit].circuits
      && DecryptPayload(Sealed(later[exit].circuits[id].key, replyNonce, reply), slots[|slots| - 1]) == Ok(reply)
  {
    var keys, later := Values(slots, 0), AfterQueries(net, queries);
    EstablishedIsStable(net, queries, id, path, keys);
    EstablishedCircuitDelivers(later, id, path, keys, nonces, data);
    assert HopAt(later, id, path, keys, |path| - 1);
  }

  /**
   A path that visits its entry again as exit: all three negotiations succeed, yet the entry no longer
   holds the key the client has for it.
   */
  lemma RelayReuseBreaksAgreement() returns (net: Net, env: Env, n1: Net, n2: Net, n3: Net, k1: Key, k2: Key, k3: Key)
    ensures Query(net, [1], CircuitCreate(0, Pub(10)), env) == (n1, Some(CircuitCreated(0, Pub(env.scalar(0)))))
    ensures ComputeSharedKey(10, Pub(env.scalar(0))) == Some(k1)
    ensures Query(n1, [1], CircuitExtend(0, [2], Sealed(k1, 0, ExtendPayload(1, "b", Pub(11)))), env)
            == (n2, Some(CircuitExtended(0, Pub(env.scalar(1)))))
    ensures ComputeSharedKey(11, Pub(env.scalar(1))) == Some(k2)
    ensures var inner := CircuitExtend(0, [1], Sealed(k2, 2, ExtendPayload(1, "a", Pub(12))));
      Query(n2, [1], CircuitRelay(0, Sealed(k1, 1, Serialized(inner, 0))), env)
      == (n3, Some(CircuitRelayResponse(0, Sealed(k1, env.nonce(0),
                Serialized(CircuitExtended(0, Pub(env.scalar(2))), env.size(0))))))
    ensures ComputeSharedKey(12, Pub(env.scalar(2))) == Some(k3)
    ensures [1] in n3 && 0 in n3[[1]].circuits && n3[[1]].circuits[0].key == k3 != k1
  {
    env := Env(_ => Delivered, d => 20 + d, _ => 3, _ => 0);
    k1, k2, k3 := Key(10, 20), Key(11, 21), Key(12, 22);
    net := map[[1] := Node("a", map[]), [2] := Node("b", map[])];
    n1 := Query(net, [1], CircuitCreate(0, Pub(10)), env).0;
    assert n1[[1]].circuits[0] == Hop(k1, None) && n1[[2]] == net[[2]];
    n2 := Query(n1, [1], CircuitExtend(0, [2], Sealed(k1, 0, ExtendPayload(1, "b", Pub(11)))), env).0;
    assert n2[[1]] == Node("a", map[0 := Hop(k1, Some([2]))]) && n2[[2]] == Node("b", map[0 := Hop(k2, None)]);
    n3 := InnerStep(n2, k1, k2, k3, env);
  }

  lemma InnerStep(n2: Net, k1: Key, k2: Key, k3: Key, env: Env) returns (n3: Net)
    requires [1] in n2 && [2] in n2
    requires n2[[1]] == Node("a", map[0 := Hop(k1, Some([2]))]) && n2[[2]] == Node("b", map[0 := Hop(k2, None)])
    requires Lossless(env, 3) && ComputeSharedKey(env.scalar(2), Pub(12)) == Some(k3)
    ensures var inner := CircuitExtend(0, [1], Sealed(k2, 2, ExtendPayload(1, "a", Pub(12))));
      Query(n2, [1], CircuitRelay(0, Sealed(k1, 1, Serialized(inner, 0))), env)
      == (n3, Some(CircuitRelayResponse(0, Sealed(k1, env.nonce(0),
                Serialized(CircuitExtended(0, Pub(env.scalar(2))), env.size(0))))))
    ensures [1] in n3 && 0 in n3[[1]].circuits && n3[[1]].circuits[0].key == k3
  {
    var inner := CircuitExtend(0, [1], Sealed(k2, 2, ExtendPayload(1, "a", Pub(12))));
    var created := Create(n2, [1], 0, Pub(12), env.scalar(2));
    assert created.0[[1]].circuits[0] == Hop(k3, None) && created.0[[2]] == n2[[2]];
    var answer := Handle(n2, [2], inner, env, 1);
    assert answer == (SetNext(created.0, [2], 0, [1]), Some(CircuitExtended(0, Pub(env.scalar(2)))));
    n3 := answer.0;
  }
}
