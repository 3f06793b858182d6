/** The start-up path: select relays from the directory, build a circuit through them, try again on failure. */
module CircuitRetry {
  import opened Basics
  import opened Crypto
  import opened Layers
  import opened Overlay
  import opened CircuitBuild
  import opened RelayDirectory

  /** Everything one attempt takes from outside. */
  datatype Attempt = Attempt(select: RelayDirectory.Draws, client: CircuitBuild.RandomReads, connects: bool,
                             env: nat -> Env, others: nat -> seq<Asked>)

  /** During the attempt nobody else uses its circuit id. */
  ghost predicate OwnId(a: Attempt) {
    a.client.circuitId.Some? ==> forall i :: Foreign(a.others(i), a.client.circuitId.value)
  }

  /** No suitable triple has three well-formed keys. */
  ghost predicate Hopeless(directory: seq<RelayDirectory.Relay>) {
    forall t :: Suitable(directory, t) ==> !WellFormed(t)
  }

  ghost predicate Filled(slots: seq<Option<Key>>) {
    |slots| == 3 && forall i :: 0 <= i < 3 ==> slots[i].Some?
  }

  /** The triple's relays hold the client's keys. */
  ghost predicate Agreed(net: Net, id: CircuitId, slots: seq<Option<Key>>, t: Triple)
    requires WellFormed(t) && Filled(slots)
  {
    Established(net, id, Ids(Infos(t)), Values(slots, 0))
  }

  /**
   The circuit runs through the suitable triple that the attempt selects, with the keys of the attempt's own key
   pairs. If the directory never lists one relay in two letter cases, its relays hold the client's keys; and in
   any directory, if the three keys differ, they do exactly when the triple is of three different relays.
   */
  ghost predicate Through(directory: seq<RelayDirectory.Relay>, a: Attempt, net: Net, id: CircuitId,
                          slots: seq<Option<Key>>, t: Triple) {
    && a.client.circuitId == Some(id) && Filled(slots) && CircuitBuild.Negotiated(slots, a.client, a.env)
    && Selects(directory, a, t) && Suitable(directory, t) && WellFormed(t)
    && (CaseSafe(directory) ==> Agreed(net, id, slots, t))
    && (Distinct(Values(slots, 0)) ==> (DifferBeyondCase(t) <==> Agreed(net, id, slots, t)))
  }

  ghost predicate ThroughSome(directory: seq<RelayDirectory.Relay>, a: Attempt, net: Net, id: CircuitId,
                              slots: seq<Option<Key>>) {
    exists t :: Through(directory, a, net, id, slots, t)
  }

  /** The attempt selects three relays with well-formed keys and gets as far as having an entry connection. */
  ghost predicate Reaches(directory: seq<RelayDirectory.Relay>, a: Attempt) {
    a.connects && a.client.circuitId.Some? && exists t :: Selects(directory, a, t)
  }

  /** What the first n attempts send when all of them fail: one CircuitDestroy each if it gets that far. */
  ghost function Destroys(directory: seq<RelayDirectory.Relay>, attempts: nat -> Attempt, n: nat): seq<Message> {
    if n == 0 then []
    else Destroys(directory, attempts, n - 1) + Farewell(directory, attempts(n - 1))
  }

  ghost function Farewell(directory: seq<RelayDirectory.Relay>, a: Attempt): seq<Message> {
    if Reaches(directory, a) then [CircuitDestroy(a.client.circuitId.value)] else []
  }

  lemma {:induction false} HopelessSendsNothing(directory: seq<RelayDirectory.Relay>, attempts: nat -> Attempt, n: nat)
    requires Hopeless(directory)
    ensures Destroys(directory, attempts, n) == []
  {
    if n > 0 {
      HopelessSendsNothing(directory, attempts, n - 1);
      var last := attempts(n - 1);
      if t :| Selects(directory, last, t) {
        SelectableIffSuitable(directory, t);
      }
    }
  }

  /** What NewClientCircuit promises about the triple's infos, as a statement about the triple. */
  lemma BuiltThrough(directory: seq<RelayDirectory.Relay>, a: Attempt, net: Net, id: CircuitId,
                     slots: seq<Option<Key>>, t: Triple)
    requires a.client.circuitId == Some(id) && Filled(slots) && CircuitBuild.Negotiated(slots, a.client, a.env)
    requires Selects(directory, a, t) && Suitable(directory, t) && WellFormed(t)
    requires Distinct(Ids(Infos(t))) ==> Established(net, id, Ids(Infos(t)), Values(slots, 0))
    requires Distinct(Values(slots, 0)) ==>
      (Distinct(Ids(Infos(t))) <==> Established(net, id, Ids(Infos(t)), Values(slots, 0)))
    ensures Through(directory, a, net, id, slots, t)
  {
    DistinctKeysIffBeyondCase(t);
    DistinctKeysAreDistinctRelays(Infos(t));
  }

  lemma DistinctKeysAreDistinctRelays(infos: seq<CircuitBuild.RelayInfo>)
    ensures DistinctKeys(infos) <==> Distinct(Ids(infos))
  {
    var ids := Ids(infos);
    if DistinctKeys(infos) {
      forall i, j | 0 <= i < j < |ids| ensures ids[i] != ids[j] {
        assert infos[i].publicKey != infos[j].publicKey;
      }
    }
    if Distinct(ids) {
      forall i, j | 0 <= i < j < |infos| ensures infos[i].publicKey != infos[j].publicKey {
        assert ids[i] != ids[j];
      }
    }
  }

  /** The triple is what the attempt selects, with well-formed keys. */
  ghost predicate Selects(directory: seq<RelayDirectory.Relay>, a: Attempt, t: Triple) {
    Selected(directory, a.select, t) && WellFormed(t)
  }

  /** The attempt reaches the entry, the relays are three different ones, and every link and random read works. */
  ghost predicate Works(net: Net, a: Attempt, t: Triple)
    requires WellFormed(t)
  {
    a.connects && Healthy(net, Infos(t), a.client, a.env)
  }

  /** The attempt is bound to yield a circuit. */
  ghost predicate Promising(net: Net, directory: seq<RelayDirectory.Relay>, a: Attempt) {
    exists t :: Selects(directory, a, t) && Works(net, a, t)
  }

  ghost predicate NonePromising(net: Net, directory: seq<RelayDirectory.Relay>, attempts: nat -> Attempt, n: int) {
    forall i: nat :: i < n ==> !Promising(net, directory, attempts(i))
  }

  lemma NonePromisingGrows(net: Net, directory: seq<RelayDirectory.Relay>, attempts: nat -> Attempt, n: nat)
    requires NonePromising(net, directory, attempts, n) && !Promising(net, directory, attempts(n))
    ensures NonePromising(net, directory, attempts, n + 1)
  {
  }

  lemma StillWorks(net: Net, later: Net, a: Attempt, t: Triple)
    requires SameRelays(net, later) && WellFormed(t) && Works(net, a, t)
    ensures Works(later, a, t)
  {
    StillHealthy(net, later, Infos(t), a.client, a.env);
  }

  /** Queries before the attempt do not make it less promising. */
  lemma StillPromising(net: Net, later: Net, directory: seq<RelayDirectory.Relay>, a: Attempt)
    requires SameRelays(net, later) && Promising(net, directory, a)
    ensures Promising(later, directory, a)
  {
    var t :| Selects(directory, a, t) && Works(net, a, t);
    StillWorks(net, later, a, t);
  }

  /** An attempt selects only one triple, so it is the one that works. */
  lemma PromisingWorks(net: Net, directory: seq<RelayDirectory.Relay>, a: Attempt, t: Triple)
    requires Promising(net, directory, a) && Selects(directory, a, t)
    ensures Works(net, a, t)
  {
    var u :| Selects(directory, a, u) && Works(net, a, u);
    var at, last :| Picks(directory, a.select, u, at, last);
    PicksOnce(directory, a.select, u, at, last);
  }

  /** The selection of one pass, as infos and as the triple they are of. */
  method SelectOnce(directory: seq<RelayDirectory.Relay>, a: Attempt)
    returns (infos: Option<seq<CircuitBuild.RelayInfo>>, ghost t: Option<Triple>)
    ensures infos.Some? <==> exists u :: Selects(directory, a, u)
    ensures infos.Some? <==> t.Some?
    ensures t.Some? ==> Selects(directory, a, t.value) && Suitable(directory, t.value) && infos.value == Infos(t.value)
  {
    infos := SelectCircuitRelays(directory, a.select);
    t := None;
    if infos.Some? {
      ghost var u :| && Suitable(directory, u) && Selected(directory, a.select, u)
                     && WellFormed(u) && infos.value == Infos(u);
      assert Selects(directory, a, u);
      t := Some(u);
    } else {
      forall u ensures !Selects(directory, a, u) {
      }
    }
  }

  /** One pass of the loop: a selection, and a circuit through it if there is one. */
  method TryOnce(overlay: Network, directory: seq<RelayDirectory.Relay>, a: Attempt, ghost start: Net)
    returns (circuit: Option<ClientCircuit>, sent: seq<Message>)
    requires OwnId(a) && SameRelays(start, overlay.net)
    modifies overlay
    ensures circuit.Some? ==> fresh(circuit.value) && circuit.value.overlay == overlay && sent == []
    ensures circuit.Some? ==> ThroughSome(directory, a, overlay.net, circuit.value.id, circuit.value.sharedKeys)
    ensures circuit.None? ==> sent == Farewell(directory, a)
    ensures Hopeless(directory) ==> circuit.None? && sent == []
    ensures Promising(start, directory, a) ==> circuit.Some?
    ensures SameRelays(start, overlay.net)
  {
    ghost var before := overlay.net;
    var infos;
    ghost var t;
    infos, t := SelectOnce(directory, a);
    if infos.None? {
      return None, [];
    }
    if Promising(start, directory, a) {
      StillPromising(start, before, directory, a);
      PromisingWorks(before, directory, a, t.value);
    }
    var r;
    r, sent := NewClientCircuit(overlay, infos.value, a.client, a.connects, a.env, a.others);
    SameRelaysFollows(start, before, overlay.net);
    if r.Err? {
      return None, sent;
    }
    BuiltThrough(directory, a, overlay.net, r.value.id, r.value.sharedKeys, t.value);
    return Some(r.value), sent;
  }

  /**
   The attempts are made in order until one yields a circuit: `failed` is the number of those before it, or of
   all. The circuit is the one of that attempt, through a suitable triple of the directory. No failed attempt was
   promising on the overlay as it was at the start, whatever the attempts before did, so one that is promising
   is enough. What is sent is one CircuitDestroy for each failed attempt that got an entry connection.
   */
  method BuildCircuitWithRetry(overlay: Network, directory: seq<RelayDirectory.Relay>, maxRetries: int,
                               attempts: nat -> Attempt)
    returns (circuit: Option<ClientCircuit>, sent: seq<Message>, ghost failed: nat)
    requires forall i :: OwnId(attempts(i))
    modifies overlay
    ensures circuit.Some? ==> fresh(circuit.value) && circuit.value.overlay == overlay && failed < maxRetries
    ensures circuit.Some? ==>
      ThroughSome(directory, attempts(failed), overlay.net, circuit.value.id, circuit.value.sharedKeys)
    ensures circuit.None? ==> failed == if maxRetries < 0 then 0 else maxRetries
    ensures NonePromising(old(overlay.net), directory, attempts, failed)
    ensures sent == Destroys(directory, attempts, failed)
    ensures Hopeless(directory) ==> circuit.None? && sent == []
  {
    sent, failed := [], 0;
    ghost var start := overlay.net;
    for attempt := 0 to if maxRetries < 0 then 0 else maxRetries
      invariant failed == attempt
      invariant sent == Destroys(directory, attempts, attempt)
      invariant SameRelays(start, overlay.net)
      invariant NonePromising(start, directory, attempts, attempt)
    {
      var a := attempts(attempt);
      assert OwnId(a);
      var destroyed;
      circuit, destroyed := TryOnce(overlay, directory, a, start);
      if circuit.Some? {
        return;
      }
      sent := sent + destroyed;
      NonePromisingGrows(start, directory, attempts, attempt);
      failed := failed + 1;
    }
    if Hopeless(directory) {
      HopelessSendsNothing(directory, attempts, failed);
    }
    return None, sent, failed;
  }
}
