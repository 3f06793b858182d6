/**
 Circuit rotation against requests in flight. Any number of ServeHTTP requests and RotateCircuit calls
 run at once; a step is one lock operation, one field access, one WaitGroup operation or one call on a
 backend. A run is any sequence of enabled steps.
 */
module Rotation {
  import opened Basics

  /** A request holds the read lock up to and including `Counted`. */
  datatype Request =
    | Locked
    | GotBackend(backend: Option<nat>)
    | GotPair(backend: Option<nat>, wg: nat)
    | Counted(backend: Option<nat>, wg: nat)
    | Running(backend: Option<nat>, wg: nat)
    | Streaming(backend: Option<nat>, wg: nat)
    | Leaving(backend: Option<nat>, wg: nat)     // stream closed or never opened; Done not yet run
    | Finished(backend: Option<nat>)

  /** A rotation holds the write lock from `Exclusive` to `Swapped`. */
  datatype Rotator =
    | Built(built: nat)
    | Exclusive(built: nat)
    | Saved(built: nat, prior: Option<nat>, priorWg: nat)
    | BackendSet(built: nat, prior: Option<nat>, priorWg: nat)
    | Swapped(prior: Option<nat>, priorWg: nat)
    | Draining(draining: nat, priorWg: nat)     // lock released; waiting for the old WaitGroup
    | Drained(draining: nat, priorWg: nat)
    | Expired(draining: nat, priorWg: nat)      // two minutes passed first
    | Over(priorWg: nat)

  /**
   History: `owner` is the backend each WaitGroup was installed with and `installed` its inverse, `closed`
   counts the closes rotations made, `expired` has the backends whose drain timed out.
   */
  datatype State = State(
    backend: Option<nat>,
    wg: nat,
    nextBackend: nat,
    readers: set<nat>,
    writer: Option<nat>,
    counts: map<nat, nat>,
    owner: map<nat, Option<nat>>,
    requests: map<nat, Request>,
    rotators: map<nat, Rotator>,
    installed: map<nat, nat>,
    closed: multiset<nat>,
    expired: set<nat>)

  /** The handler as constructed; direct callers may leave the first backend nil. */
  function Initial(first: bool): State {
    var b := if first then Some(0) else None;
    State(b, 0, 1, {}, None, map[0 := 0], map[0 := b], map[], map[],
          if first then map[0 := 0] else map[], multiset{}, {})
  }

  datatype Action =
    | RLock(q: nat) | ReadBackend(q: nat) | ReadWg(q: nat) | Add(q: nat) | RUnlock(q: nat)
    | OpenStream(q: nat) | FailOpen(q: nat) | CloseStream(q: nat) | Done(q: nat)
    | Build(r: nat) | Lock(r: nat) | Save(r: nat) | SetBackend(r: nat) | SetWg(r: nat) | Unlock(r: nat)
    | WaitReturns(r: nat) | Timeout(r: nat) | CloseOld(r: nat)

  function SetRequest(s: State, q: nat, pc: Request): State { s.(requests := s.requests[q := pc]) }

  function SetRotator(s: State, r: nat, pc: Rotator): State { s.(rotators := s.rotators[r := pc]) }

  function Step(s: State, a: Action): Option<State> {
    match a
    case RLock(q) =>
      if s.writer.Some? || q in s.requests then None
      else Some(SetRequest(s, q, Locked).(readers := s.readers + {q}))
    case ReadBackend(q) =>
      if q !in s.requests || !s.requests[q].Locked? then None
      else Some(SetRequest(s, q, GotBackend(s.backend)))
    case ReadWg(q) =>
      if q !in s.requests || !s.requests[q].GotBackend? then None
      else Some(SetRequest(s, q, GotPair(s.requests[q].backend, s.wg)))
    case Add(q) =>
      if q !in s.requests || !s.requests[q].GotPair? || s.requests[q].wg !in s.counts then None
      else
        var p := s.requests[q];
        Some(SetRequest(s, q, Counted(p.backend, p.wg)).(counts := s.counts[p.wg := s.counts[p.wg] + 1]))
    case RUnlock(q) =>
      if q !in s.requests || !s.requests[q].Counted? then None
      else Some(SetRequest(s, q, Running(s.requests[q].backend, s.requests[q].wg)).(readers := s.readers - {q}))
    case OpenStream(q) =>
      if q !in s.requests || !s.requests[q].Running? || s.requests[q].backend.None? then None
      else Some(SetRequest(s, q, Streaming(s.requests[q].backend, s.requests[q].wg)))
    case FailOpen(q) =>
      if q !in s.requests || !s.requests[q].Running? then None
      else Some(SetRequest(s, q, Leaving(s.requests[q].backend, s.requests[q].wg)))
    case CloseStream(q) =>
      if q !in s.requests || !s.requests[q].Streaming? then None
      else Some(SetRequest(s, q, Leaving(s.requests[q].backend, s.requests[q].wg)))
    case Done(q) =>
      if q !in s.requests || !s.requests[q].Leaving? || s.requests[q].wg !in s.counts
         || s.counts[s.requests[q].wg] == 0 then None
      else
        var p := s.requests[q];
        Some(SetRequest(s, q, Finished(p.backend)).(counts := s.counts[p.wg := s.counts[p.wg] - 1]))
    case Build(r) =>
      if r in s.rotators then None
      else Some(SetRotator(s, r, Built(s.nextBackend)).(nextBackend := s.nextBackend + 1))
    case Lock(r) =>
      if r !in s.rotators || !s.rotators[r].Built? || s.writer.Some? || s.readers != {} then None
      else Some(SetRotator(s, r, Exclusive(s.rotators[r].built)).(writer := Some(r)))
    case Save(r) =>
      if r !in s.rotators || !s.rotators[r].Exclusive? then None
      else Some(SetRotator(s, r, Saved(s.rotators[r].built, s.backend, s.wg)))
    case SetBackend(r) =>
      if r !in s.rotators || !s.rotators[r].Saved? then None
      else
        var p := s.rotators[r];
        Some(SetRotator(s, r, BackendSet(p.built, p.prior, p.priorWg)).(backend := Some(p.built)))
    case SetWg(r) =>
      if r !in s.rotators || !s.rotators[r].BackendSet? then None
      else
        var p, g := s.rotators[r], |s.owner|;
        Some(SetRotator(s, r, Swapped(p.prior, p.priorWg)).(
             wg := g, counts := s.counts[g := 0], owner := s.owner[g := Some(p.built)],
             installed := s.installed[p.built := g]))
    case Unlock(r) =>
      if r !in s.rotators || !s.rotators[r].Swapped? then None
      else
        var p := s.rotators[r];
        Some(SetRotator(s, r, if p.prior.Some? then Draining(p.prior.value, p.priorWg) else Over(p.priorWg))
             .(writer := None))
    case WaitReturns(r) =>
      if r !in s.rotators || !s.rotators[r].Draining? || s.rotators[r].priorWg !in s.counts
         || s.counts[s.rotators[r].priorWg] != 0 then None
      else Some(SetRotator(s, r, Drained(s.rotators[r].draining, s.rotators[r].priorWg)))
    case Timeout(r) =>
      if r !in s.rotators || !s.rotators[r].Draining? then None
      else
        var p := s.rotators[r];
        Some(SetRotator(s, r, Expired(p.draining, p.priorWg)).(expired := s.expired + {p.draining}))
    case CloseOld(r) =>
      if r !in s.rotators || !(s.rotators[r].Drained? || s.rotators[r].Expired?) then None
      else
        var p := s.rotators[r];
        Some(SetRotator(s, r, Over(p.priorWg)).(closed := s.closed + multiset{p.draining}))
  }

  ghost function Run(first: bool, actions: seq<Action>): Option<State> {
    if actions == [] then Some(Initial(first))
    else
      var before := Run(first, actions[..|actions| - 1]);
      if before.None? then None else Step(before.value, actions[|actions| - 1])
  }

  // ----- the invariant -----

  predicate InFlight(p: Request, w: nat) {
    (p.Counted? || p.Running? || p.Streaming? || p.Leaving?) && p.wg == w
  }

  ghost function InFlightOn(s: State, w: nat): set<nat> {
    set q | q in s.requests && InFlight(s.requests[q], w)
  }

  predicate HoldsReadLock(p: Request) {
    p.Locked? || p.GotBackend? || p.GotPair? || p.Counted?
  }

  predicate HoldsWriteLock(p: Rotator) {
    p.Exclusive? || p.Saved? || p.BackendSet? || p.Swapped?
  }

  /** The backend a rotation built is not installed with a WaitGroup yet. */
  predicate Uninstalled(p: Rotator) {
    p.Built? || p.Exclusive? || p.Saved? || p.BackendSet?
  }

  /** The old pair has been replaced. */
  predicate Replaced(p: Rotator) {
    p.Swapped? || p.Draining? || p.Drained? || p.Expired? || p.Over?
  }

  ghost predicate ReadLockOk(s: State, q: nat)
    requires q in s.requests
  {
    HoldsReadLock(s.requests[q]) ==> q in s.readers
  }

  ghost predicate WriteLockOk(s: State, r: nat)
    requires r in s.rotators
  {
    HoldsWriteLock(s.rotators[r]) <==> s.writer == Some(r)
  }

  ghost predicate Locks(s: State) {
    && (s.writer.Some? ==> s.readers == {} && s.writer.value in s.rotators)
    && (forall q {:trigger ReadLockOk(s, q)} :: q in s.requests ==> ReadLockOk(s, q))
    && (forall r {:trigger WriteLockOk(s, r)} :: r in s.rotators ==> WriteLockOk(s, r))
  }

  /** WaitGroups are numbered in order of installation; no backend is installed twice. */
  ghost predicate Pairs(s: State) {
    && s.counts.Keys == s.owner.Keys
    && (forall w :: w in s.owner <==> 0 <= w < |s.owner|)
    && s.wg in s.owner
    && (forall w :: w in s.owner && s.owner[w].Some? ==>
          s.owner[w].value < s.nextBackend && s.owner[w].value in s.installed && s.installed[s.owner[w].value] == w)
    && (forall b :: b in s.installed ==> s.installed[b] in s.owner && s.owner[s.installed[b]] == Some(b))
    && (s.owner[s.wg] == s.backend || (s.writer.Some? && s.writer.value in s.rotators
                                       && s.rotators[s.writer.value].BackendSet?))
  }

  /** What a request has read is what is current while it holds the lock, and a matching pair ever after. */
  ghost predicate RequestOk(s: State, p: Request) {
    match p
    case Locked => true
    case GotBackend(b) => b == s.backend
    case GotPair(b, w) => b == s.backend && w == s.wg
    case Counted(b, w) => w in s.owner && s.owner[w] == b && w == s.wg
    case Running(b, w) => w in s.owner && s.owner[w] == b
    case Streaming(b, w) => w in s.owner && s.owner[w] == b
    case Leaving(b, w) => w in s.owner && s.owner[w] == b
    case Finished(_) => true
  }

  ghost predicate RotatorOk(s: State, p: Rotator)
    requires s.counts.Keys == s.owner.Keys
  {
    && (Uninstalled(p) ==> p.built < s.nextBackend && p.built !in s.installed)
    && (p.Saved? ==> p.prior == s.backend && p.priorWg == s.wg)
    && (p.BackendSet? ==>
          p.priorWg == s.wg && s.wg in s.owner && p.prior == s.owner[s.wg] && s.backend == Some(p.built))
    && (Replaced(p) ==> p.priorWg in s.owner && p.priorWg < s.wg)
    && (p.Swapped? ==> s.owner[p.priorWg] == p.prior && (p.prior.Some? ==> s.closed[p.prior.value] == 0))
    && (p.Draining? || p.Drained? || p.Expired? ==>
          s.owner[p.priorWg] == Some(p.draining) && s.closed[p.draining] == 0)
    && (p.Drained? ==> s.counts[p.priorWg] == 0)
    && (p.Expired? ==> p.draining in s.expired)
  }

  /** Two rotations neither bring in nor replace the same thing. */
  predicate Apart(p: Rotator, o: Rotator) {
    && (Uninstalled(p) && Uninstalled(o) ==> p.built != o.built)
    && (Replaced(p) && Replaced(o) ==> p.priorWg != o.priorWg)
  }

  ghost predicate RotatorsApart(s: State) {
    forall r, o {:trigger Apart(s.rotators[r], s.rotators[o])} ::
      r in s.rotators && o in s.rotators && r != o ==> Apart(s.rotators[r], s.rotators[o])
  }

  /** A closed backend was replaced, and nothing uses it any more unless its drain timed out. */
  ghost predicate ClosedOk(s: State)
    requires s.counts.Keys == s.owner.Keys
  {
    forall b :: b in s.closed ==>
      && s.closed[b] == 1
      && b in s.installed && s.installed[b] in s.counts && s.installed[b] < s.wg
      && (b in s.expired || s.counts[s.installed[b]] == 0)
  }

  ghost predicate CountsExact(s: State)
    requires s.counts.Keys == s.owner.Keys
  {
    forall w {:trigger InFlightOn(s, w)} :: w in s.counts ==> s.counts[w] == |InFlightOn(s, w)|
  }

  ghost predicate Inv(s: State) {
    && Locks(s) && Pairs(s)
    && (forall q {:trigger RequestOk(s, s.requests[q])} :: q in s.requests ==> RequestOk(s, s.requests[q]))
    && (forall r {:trigger RotatorOk(s, s.rotators[r])} :: r in s.rotators ==> RotatorOk(s, s.rotators[r]))
    && RotatorsApart(s) && ClosedOk(s) && CountsExact(s)
  }

  // ----- every step keeps it -----

  /** A request's move keeps the invariant if it keeps its lock, its own part, and the counts in order. */
  lemma RequestMoves(s: State, t: State, q: nat, p: Request)
    requires Inv(s)
    requires t == s.(requests := s.requests[q := p], readers := t.readers, counts := t.counts)
    requires s.writer.Some? ==> t.readers == {}
    requires forall o :: o in s.readers && o != q ==> o in t.readers
    requires HoldsReadLock(p) ==> q in t.readers
    requires RequestOk(s, p)
    requires t.counts.Keys == s.counts.Keys && CountsExact(t)
    requires forall w :: w in s.counts && w < s.wg && s.counts[w] == 0 ==> t.counts[w] == 0
    ensures Inv(t)
  {
    forall o | o in t.requests ensures RequestOk(t, t.requests[o]) && ReadLockOk(t, o) {
      assert o in s.requests && o != q ==> RequestOk(s, s.requests[o]) && ReadLockOk(s, o);
    }
    forall r | r in t.rotators ensures RotatorOk(t, t.rotators[r]) && WriteLockOk(t, r) {
      assert RotatorOk(s, s.rotators[r]) && WriteLockOk(s, r);
    }
  }

  predicate WasInFlight(s: State, q: nat, w: nat) { q in s.requests && InFlight(s.requests[q], w) }

  lemma OnlyOneMoves(s: State, t: State, q: nat, p: Request, w: nat)
    requires t.requests == s.requests[q := p]
    ensures InFlightOn(t, w) - {q} == InFlightOn(s, w) - {q}
    ensures q in InFlightOn(t, w) <==> InFlight(p, w)
    ensures q in InFlightOn(s, w) <==> WasInFlight(s, q, w)
  {
    forall o | o != q ensures o in InFlightOn(t, w) <==> o in InFlightOn(s, w) {
      assert o in t.requests <==> o in s.requests;
    }
  }

  lemma InFlightFollows(s: State, t: State, q: nat, p: Request, w: nat)
    requires t.requests == s.requests[q := p]
    ensures |InFlightOn(t, w)| == |InFlightOn(s, w)| + One(InFlight(p, w)) - One(WasInFlight(s, q, w))
  {
    OnlyOneMoves(s, t, q, p, w);
    SizeWithout(InFlightOn(s, w), q);
    SizeWithout(InFlightOn(t, w), q);
  }

  lemma SizeWithout(x: set<nat>, q: nat)
    ensures |x| == |x - {q}| + One(q in x)
  {
  }

  /** Counts that follow one request's entering and leaving stay exact. */
  lemma CountsFollow(s: State, t: State, q: nat, p: Request)
    requires s.counts.Keys == s.owner.Keys && CountsExact(s)
    requires t.requests == s.requests[q := p] && t.owner == s.owner && t.counts.Keys == s.counts.Keys
    requires forall w :: w in s.counts ==> t.counts[w] == s.counts[w] + One(InFlight(p, w)) - One(WasInFlight(s, q, w))
    ensures CountsExact(t)
  {
    forall w | w in t.counts ensures t.counts[w] == |InFlightOn(t, w)| {
      InFlightFollows(s, t, q, p, w);
    }
  }

  lemma RLockKeepsInv(s: State, q: nat)
    requires Inv(s) && Step(s, RLock(q)).Some?
    ensures Inv(Step(s, RLock(q)).value)
  {
    var t := Step(s, RLock(q)).value;
    CountsFollow(s, t, q, t.requests[q]);
    RequestMoves(s, t, q, t.requests[q]);
  }

  lemma ReadBackendKeepsInv(s: State, q: nat)
    requires Inv(s) && Step(s, ReadBackend(q)).Some?
    ensures Inv(Step(s, ReadBackend(q)).value)
  {
    var t := Step(s, ReadBackend(q)).value;
    assert RequestOk(s, s.requests[q]) && ReadLockOk(s, q);
    CountsFollow(s, t, q, t.requests[q]);
    RequestMoves(s, t, q, t.requests[q]);
  }

  lemma ReadWgKeepsInv(s: State, q: nat)
    requires Inv(s) && Step(s, ReadWg(q)).Some?
    ensures Inv(Step(s, ReadWg(q)).value)
  {
    var t := Step(s, ReadWg(q)).value;
    assert RequestOk(s, s.requests[q]) && ReadLockOk(s, q);
    CountsFollow(s, t, q, t.requests[q]);
    RequestMoves(s, t, q, t.requests[q]);
  }

  lemma AddKeepsInv(s: State, q: nat)
    requires Inv(s) && Step(s, Add(q)).Some?
    ensures Inv(Step(s, Add(q)).value)
  {
    var t := Step(s, Add(q)).value;
    assert RequestOk(s, s.requests[q]) && ReadLockOk(s, q);
    CountsFollow(s, t, q, t.requests[q]);
    RequestMoves(s, t, q, t.requests[q]);
  }

  lemma RUnlockKeepsInv(s: State, q: nat)
    requires Inv(s) && Step(s, RUnlock(q)).Some?
    ensures Inv(Step(s, RUnlock(q)).value)
  {
    var t := Step(s, RUnlock(q)).value;
    assert RequestOk(s, s.requests[q]) && ReadLockOk(s, q);
    CountsFollow(s, t, q, t.requests[q]);
    RequestMoves(s, t, q, t.requests[q]);
  }

  lemma OpenStreamKeepsInv(s: State, q: nat)
    requires Inv(s) && Step(s, OpenStream(q)).Some?
    ensures Inv(Step(s, OpenStream(q)).value)
  {
    var t := Step(s, OpenStream(q)).value;
    assert RequestOk(s, s.requests[q]) && ReadLockOk(s, q);
    CountsFollow(s, t, q, t.requests[q]);
    RequestMoves(s, t, q, t.requests[q]);
  }

  lemma FailOpenKeepsInv(s: State, q: nat)
    requires Inv(s) && Step(s, FailOpen(q)).Some?
    ensures Inv(Step(s, FailOpen(q)).value)
  {
    var t := Step(s, FailOpen(q)).value;
    assert RequestOk(s, s.requests[q]) && ReadLockOk(s, q);
    CountsFollow(s, t, q, t.requests[q]);
    RequestMoves(s, t, q, t.requests[q]);
  }

  lemma CloseStreamKeepsInv(s: State, q: nat)
    requires Inv(s) && Step(s, CloseStream(q)).Some?
    ensures Inv(Step(s, CloseStream(q)).value)
  {
    var t := Step(s, CloseStream(q)).value;
    assert RequestOk(s, s.requests[q]) && ReadLockOk(s, q);
    CountsFollow(s, t, q, t.requests[q]);
    RequestMoves(s, t, q, t.requests[q]);
  }

  lemma DoneKeepsInv(s: State, q: nat)
    requires Inv(s) && Step(s, Done(q)).Some?
    ensures Inv(Step(s, Done(q)).value)
  {
    var t := Step(s, Done(q)).value;
    assert RequestOk(s, s.requests[q]) && ReadLockOk(s, q);
    CountsFollow(s, t, q, t.requests[q]);
    RequestMoves(s, t, q, t.requests[q]);
  }

  /** A rotation's move that leaves the current pair alone. */
  ghost predicate RotatorMove(s: State, t: State, r: nat, p: Rotator) {
    && t == s.(rotators := s.rotators[r := p], writer := t.writer, nextBackend := t.nextBackend,
               closed := t.closed, expired := t.expired)
    && (t.writer == s.writer || (s.writer.None? && s.readers == {} && t.writer == Some(r))
        || (s.writer == Some(r) && t.writer.None?))
    && (HoldsWriteLock(p) <==> t.writer == Some(r))
    && !p.BackendSet? && (r in s.rotators ==> !s.rotators[r].BackendSet?)
    && s.nextBackend <= t.nextBackend && s.expired <= t.expired
    && (Uninstalled(p) ==> p.built == s.nextBackend < t.nextBackend ||
                           (r in s.rotators && Uninstalled(s.rotators[r]) && p.built == s.rotators[r].built))
    && (Replaced(p) ==> r in s.rotators && Replaced(s.rotators[r]) && p.priorWg == s.rotators[r].priorWg)
    && (t.closed == s.closed || (&& r in s.rotators && (s.rotators[r].Drained? || s.rotators[r].Expired?)
                                 && t.closed == s.closed + multiset{s.rotators[r].draining}))
  }

  lemma MoveKeepsOther(s: State, t: State, r: nat, p: Rotator, o: nat)
    requires Inv(s) && RotatorMove(s, t, r, p) && o in s.rotators && o != r
    ensures RotatorOk(t, s.rotators[o]) && Apart(s.rotators[o], p) && Apart(p, s.rotators[o])
  {
    assert RotatorOk(s, s.rotators[o]);
    if r in s.rotators {
      assert RotatorOk(s, s.rotators[r]) && Apart(s.rotators[o], s.rotators[r]);
    }
  }

  lemma MoveKeepsLocks(s: State, t: State, r: nat, p: Rotator)
    requires Inv(s) && RotatorMove(s, t, r, p)
    ensures Locks(t) && Pairs(t)
  {
    assert r in s.rotators ==> WriteLockOk(s, r);
    forall o | o in t.rotators ensures WriteLockOk(t, o) {
      assert o in s.rotators ==> WriteLockOk(s, o);
    }
    forall q | q in t.requests ensures ReadLockOk(t, q) {
      assert ReadLockOk(s, q);
    }
  }

  lemma MoveKeepsShared(s: State, t: State, r: nat, p: Rotator)
    requires Inv(s) && RotatorMove(s, t, r, p)
    ensures t.counts.Keys == t.owner.Keys && CountsExact(t)
    ensures forall q {:trigger RequestOk(t, t.requests[q])} :: q in t.requests ==> RequestOk(t, t.requests[q])
  {
    forall q | q in t.requests ensures RequestOk(t, t.requests[q]) {
      assert RequestOk(s, s.requests[q]);
    }
    forall w | w in t.counts ensures t.counts[w] == |InFlightOn(t, w)| {
      assert InFlightOn(t, w) == InFlightOn(s, w);
    }
  }

  lemma MoveKeepsClosed(s: State, t: State, r: nat, p: Rotator)
    requires Inv(s) && RotatorMove(s, t, r, p)
    ensures t.counts.Keys == t.owner.Keys && ClosedOk(t)
  {
    assert r in s.rotators ==> RotatorOk(s, s.rotators[r]);
  }

  lemma MoveKeepsApart(s: State, t: State, r: nat, p: Rotator)
    requires Inv(s) && RotatorMove(s, t, r, p)
    ensures RotatorsApart(t)
  {
    forall o | o in s.rotators && o != r ensures Apart(s.rotators[o], p) && Apart(p, s.rotators[o]) {
      MoveKeepsOther(s, t, r, p, o);
    }
  }

  lemma RotatorMoves(s: State, t: State, r: nat, p: Rotator)
    requires Inv(s) && RotatorMove(s, t, r, p) && RotatorOk(t, p)
    ensures Inv(t)
  {
    MoveKeepsLocks(s, t, r, p);
    MoveKeepsShared(s, t, r, p);
    MoveKeepsClosed(s, t, r, p);
    MoveKeepsApart(s, t, r, p);
    forall o | o in t.rotators ensures RotatorOk(t, t.rotators[o]) {
      if o != r {
        MoveKeepsOther(s, t, r, p, o);
      }
    }
  }

  lemma BuildKeepsInv(s: State, r: nat)
    requires Inv(s) && Step(s, Build(r)).Some?
    ensures Inv(Step(s, Build(r)).value)
  {
    var t := Step(s, Build(r)).value;
    RotatorMoves(s, t, r, t.rotators[r]);
  }

  lemma LockKeepsInv(s: State, r: nat)
    requires Inv(s) && Step(s, Lock(r)).Some?
    ensures Inv(Step(s, Lock(r)).value)
  {
    var t := Step(s, Lock(r)).value;
    assert RotatorOk(s, s.rotators[r]) && WriteLockOk(s, r);
    RotatorMoves(s, t, r, t.rotators[r]);
  }

  lemma SaveKeepsInv(s: State, r: nat)
    requires Inv(s) && Step(s, Save(r)).Some?
    ensures Inv(Step(s, Save(r)).value)
  {
    var t := Step(s, Save(r)).value;
    assert RotatorOk(s, s.rotators[r]) && WriteLockOk(s, r);
    RotatorMoves(s, t, r, t.rotators[r]);
  }

  lemma UnlockKeepsInv(s: State, r: nat)
    requires Inv(s) && Step(s, Unlock(r)).Some?
    ensures Inv(Step(s, Unlock(r)).value)
  {
    var t := Step(s, Unlock(r)).value;
    assert RotatorOk(s, s.rotators[r]) && WriteLockOk(s, r);
    RotatorMoves(s, t, r, t.rotators[r]);
  }

  lemma WaitReturnsKeepsInv(s: State, r: nat)
    requires Inv(s) && Step(s, WaitReturns(r)).Some?
    ensures Inv(Step(s, WaitReturns(r)).value)
  {
    var t := Step(s, WaitReturns(r)).value;
    assert RotatorOk(s, s.rotators[r]) && WriteLockOk(s, r);
    RotatorMoves(s, t, r, t.rotators[r]);
  }

  lemma TimeoutKeepsInv(s: State, r: nat)
    requires Inv(s) && Step(s, Timeout(r)).Some?
    ensures Inv(Step(s, Timeout(r)).value)
  {
    var t := Step(s, Timeout(r)).value;
    assert RotatorOk(s, s.rotators[r]) && WriteLockOk(s, r);
    RotatorMoves(s, t, r, t.rotators[r]);
  }

  lemma CloseOldKeepsInv(s: State, r: nat)
    requires Inv(s) && Step(s, CloseOld(r)).Some?
    ensures Inv(Step(s, CloseOld(r)).value)
  {
    var t := Step(s, CloseOld(r)).value;
    assert RotatorOk(s, s.rotators[r]) && WriteLockOk(s, r);
    RotatorMoves(s, t, r, t.rotators[r]);
  }

  lemma SetBackendKeepsOther(s: State, r: nat, o: nat)
    requires Inv(s) && Step(s, SetBackend(r)).Some? && o in s.rotators && o != r
    ensures var t := Step(s, SetBackend(r)).value;
      RotatorOk(t, s.rotators[o]) && Apart(s.rotators[o], t.rotators[r]) && Apart(t.rotators[r], s.rotators[o])
  {
    assert RotatorOk(s, s.rotators[r]) && WriteLockOk(s, r);
    assert RotatorOk(s, s.rotators[o]) && WriteLockOk(s, o) && Apart(s.rotators[o], s.rotators[r]);
  }

  lemma SetBackendKeepsRequest(s: State, r: nat, q: nat)
    requires Inv(s) && Step(s, SetBackend(r)).Some? && q in s.requests
    ensures var t := Step(s, SetBackend(r)).value; RequestOk(t, t.requests[q]) && ReadLockOk(t, q)
  {
    assert WriteLockOk(s, r) && RequestOk(s, s.requests[q]) && ReadLockOk(s, q);
  }

  lemma SetWgKeepsOther(s: State, r: nat, o: nat)
    requires Inv(s) && Step(s, SetWg(r)).Some? && o in s.rotators && o != r
    ensures var t := Step(s, SetWg(r)).value;
      RotatorOk(t, s.rotators[o]) && Apart(s.rotators[o], t.rotators[r]) && Apart(t.rotators[r], s.rotators[o])
  {
    assert RotatorOk(s, s.rotators[r]) && WriteLockOk(s, r);
    assert RotatorOk(s, s.rotators[o]) && WriteLockOk(s, o) && Apart(s.rotators[o], s.rotators[r]);
  }

  lemma SetWgKeepsRequest(s: State, r: nat, q: nat)
    requires Inv(s) && Step(s, SetWg(r)).Some? && q in s.requests
    ensures var t := Step(s, SetWg(r)).value; RequestOk(t, t.requests[q]) && ReadLockOk(t, q)
  {
    assert WriteLockOk(s, r) && RequestOk(s, s.requests[q]) && ReadLockOk(s, q);
  }

  lemma SetBackendKeepsInv(s: State, r: nat)
    requires Inv(s) && Step(s, SetBackend(r)).Some?
    ensures Inv(Step(s, SetBackend(r)).value)
  {
    var t := Step(s, SetBackend(r)).value;
    assert RotatorOk(s, s.rotators[r]) && WriteLockOk(s, r);
    forall o | o in t.rotators ensures WriteLockOk(t, o) {
      assert WriteLockOk(s, o);
    }
    forall q | q in t.requests ensures RequestOk(t, t.requests[q]) && ReadLockOk(t, q) {
      SetBackendKeepsRequest(s, r, q);
    }
    assert Locks(t) && Pairs(t);
    forall o | o in t.rotators ensures RotatorOk(t, t.rotators[o]) {
      if o != r { SetBackendKeepsOther(s, r, o); }
    }
    SetBackendKeepsApart(s, r);
    forall w | w in t.counts ensures t.counts[w] == |InFlightOn(t, w)| {
      assert InFlightOn(t, w) == InFlightOn(s, w);
    }
  }

  lemma SetBackendKeepsApart(s: State, r: nat)
    requires Inv(s) && Step(s, SetBackend(r)).Some?
    ensures RotatorsApart(Step(s, SetBackend(r)).value)
  {
    forall o | o in s.rotators && o != r
      ensures Apart(s.rotators[o], Step(s, SetBackend(r)).value.rotators[r])
      ensures Apart(Step(s, SetBackend(r)).value.rotators[r], s.rotators[o])
    {
      SetBackendKeepsOther(s, r, o);
    }
  }

  lemma SetWgKeepsLocks(s: State, r: nat)
    requires Inv(s) && Step(s, SetWg(r)).Some?
    ensures Locks(Step(s, SetWg(r)).value)
  {
    var t := Step(s, SetWg(r)).value;
    assert WriteLockOk(s, r);
    forall o | o in t.rotators ensures WriteLockOk(t, o) {
      assert WriteLockOk(s, o);
    }
    forall q | q in t.requests ensures ReadLockOk(t, q) {
      assert ReadLockOk(s, q);
    }
  }

  lemma SetWgKeepsPairs(s: State, r: nat)
    requires Inv(s) && Step(s, SetWg(r)).Some?
    ensures Pairs(Step(s, SetWg(r)).value)
  {
    assert RotatorOk(s, s.rotators[r]) && WriteLockOk(s, r);
  }

  lemma SetWgKeepsClosed(s: State, r: nat)
    requires Inv(s) && Step(s, SetWg(r)).Some?
    ensures var t := Step(s, SetWg(r)).value; t.counts.Keys == t.owner.Keys && ClosedOk(t)
  {
    assert RotatorOk(s, s.rotators[r]) && WriteLockOk(s, r);
  }

  lemma SetWgKeepsCounts(s: State, r: nat)
    requires Inv(s) && Step(s, SetWg(r)).Some?
    ensures var t := Step(s, SetWg(r)).value; t.counts.Keys == t.owner.Keys && CountsExact(t)
  {
    var t := Step(s, SetWg(r)).value;
    forall w | w in t.counts ensures t.counts[w] == |InFlightOn(t, w)| {
      if w in s.counts {
        assert InFlightOn(t, w) == InFlightOn(s, w);
      } else {
        forall q | q in s.requests ensures !InFlight(s.requests[q], w) {
          assert RequestOk(s, s.requests[q]);
        }
        assert InFlightOn(t, w) == {};
      }
    }
  }

  lemma SetWgKeepsInv(s: State, r: nat)
    requires Inv(s) && Step(s, SetWg(r)).Some?
    ensures Inv(Step(s, SetWg(r)).value)
  {
    var t := Step(s, SetWg(r)).value;
    SetWgKeepsLocks(s, r);
    SetWgKeepsPairs(s, r);
    SetWgKeepsClosed(s, r);
    SetWgKeepsCounts(s, r);
    forall q | q in t.requests ensures RequestOk(t, t.requests[q]) {
      SetWgKeepsRequest(s, r, q);
    }
    forall o | o in t.rotators ensures RotatorOk(t, t.rotators[o]) {
      if o != r { SetWgKeepsOther(s, r, o); } else { assert RotatorOk(s, s.rotators[r]); }
    }
    SetWgKeepsApart(s, r);
  }

  lemma SetWgKeepsApart(s: State, r: nat)
    requires Inv(s) && Step(s, SetWg(r)).Some?
    ensures RotatorsApart(Step(s, SetWg(r)).value)
  {
    forall o | o in s.rotators && o != r
      ensures Apart(s.rotators[o], Step(s, SetWg(r)).value.rotators[r])
      ensures Apart(Step(s, SetWg(r)).value.rotators[r], s.rotators[o])
    {
      SetWgKeepsOther(s, r, o);
    }
  }

  lemma StepKeepsInv(s: State, a: Action)
    requires Inv(s) && Step(s, a).Some?
    ensures Inv(Step(s, a).value)
  {
    match a {
      case RLock(q) => RLockKeepsInv(s, q);
      case ReadBackend(q) => ReadBackendKeepsInv(s, q);
      case ReadWg(q) => ReadWgKeepsInv(s, q);
      case Add(q) => AddKeepsInv(s, q);
      case RUnlock(q) => RUnlockKeepsInv(s, q);
      case OpenStream(q) => OpenStreamKeepsInv(s, q);
      case FailOpen(q) => FailOpenKeepsInv(s, q);
      case CloseStream(q) => CloseStreamKeepsInv(s, q);
      case Done(q) => DoneKeepsInv(s, q);
      case Build(r) => BuildKeepsInv(s, r);
      case Lock(r) => LockKeepsInv(s, r);
      case Save(r) => SaveKeepsInv(s, r);
      case SetBackend(r) => SetBackendKeepsInv(s, r);
      case SetWg(r) => SetWgKeepsInv(s, r);
      case Unlock(r) => UnlockKeepsInv(s, r);
      case WaitReturns(r) => WaitReturnsKeepsInv(s, r);
      case Timeout(r) => TimeoutKeepsInv(s, r);
      case CloseOld(r) => CloseOldKeepsInv(s, r);
    }
  }

  lemma InitialInv(first: bool)
    ensures Inv(Initial(first))
  {
    InitialLocks(first);
    InitialCounts(first);
    InitialCloses(first);
  }

  lemma InitialLocks(first: bool)
    ensures Locks(Initial(first)) && Pairs(Initial(first))
  {
  }

  lemma InitialCounts(first: bool)
    ensures CountsExact(Initial(first))
  {
    assert InFlightOn(Initial(first), 0) == {};
  }

  lemma InitialCloses(first: bool)
    ensures RotatorsApart(Initial(first)) && ClosedOk(Initial(first))
  {
  }

  lemma {:induction false} RunKeepsInv(first: bool, actions: seq<Action>)
    requires Run(first, actions).Some?
    ensures Inv(Run(first, actions).value)
  {
    if actions == [] {
      InitialInv(first);
    } else {
      RunKeepsInv(first, actions[..|actions| - 1]);
      StepKeepsInv(Run(first, actions[..|actions| - 1]).value, actions[|actions| - 1]);
    }
  }

  // ----- what every run guarantees -----

  /** The request has captured this backend and has not yet run its deferred Done. */
  predicate Uses(p: Request, b: nat) {
    !p.Locked? && !p.Finished? && p.backend == Some(b)
  }

  /** What a request captured is one generation's pair, and each WaitGroup counts its requests in flight. */
  lemma CapturedPairsMatch(first: bool, actions: seq<Action>, q: nat)
    requires Run(first, actions).Some? && q in Run(first, actions).value.requests
    ensures var s := Run(first, actions).value; var p := s.requests[q];
      && (p.GotPair? || p.Counted? || p.Running? || p.Streaming? || p.Leaving? ==>
            p.wg in s.owner && s.owner[p.wg] == p.backend)
      && forall w :: w in s.counts ==> s.counts[w] == |InFlightOn(s, w)|
  {
    RunKeepsInv(first, actions);
    var s := Run(first, actions).value;
    assert RequestOk(s, s.requests[q]) && ReadLockOk(s, q);
    assert s.writer.Some? ==> WriteLockOk(s, s.writer.value);
  }

  /** Once replaced, a WaitGroup stays replaced and no request ever joins it again. */
  lemma ReplacedCountsNeverRise(first: bool, actions: seq<Action>, a: Action, w: nat)
    requires Run(first, actions).Some? && Step(Run(first, actions).value, a).Some?
    requires w in Run(first, actions).value.counts && w < Run(first, actions).value.wg
    ensures var s := Run(first, actions).value; var t := Step(s, a).value;
      w in t.counts && w < t.wg && t.counts[w] <= s.counts[w]
  {
    RunKeepsInv(first, actions);
    var s := Run(first, actions).value;
    if a.Add? {
      assert RequestOk(s, s.requests[a.q]);
    }
    if a.SetWg? {
      assert RotatorOk(s, s.rotators[a.r]);
    }
  }

  /**
   In every reachable state, a backend that rotation closed was closed once, is not the current one, and,
   unless its drain timed out, is used by no request: all that captured it have closed their streams and
   run Done.
   */
  lemma ClosedBackendsAreUnused(first: bool, actions: seq<Action>, b: nat)
    requires Run(first, actions).Some? && b in Run(first, actions).value.closed
    ensures var s := Run(first, actions).value;
      && s.closed[b] == 1 && s.backend != Some(b)
      && (b !in s.expired ==> forall q :: q in s.requests ==> !Uses(s.requests[q], b))
  {
    RunKeepsInv(first, actions);
    var s := Run(first, actions).value;
    if s.writer.Some? {
      assert WriteLockOk(s, s.writer.value) && RotatorOk(s, s.rotators[s.writer.value]);
    }
    if b !in s.expired {
      var w := s.installed[b];
      assert InFlightOn(s, w) == {};
      forall q | q in s.requests ensures !Uses(s.requests[q], b) {
        assert RequestOk(s, s.requests[q]);
        assert q !in InFlightOn(s, w);
      }
    }
  }

  lemma RunExtends(first: bool, actions: seq<Action>, a: Action)
    requires Run(first, actions).Some?
    ensures Run(first, actions + [a]) == Step(Run(first, actions).value, a)
  {
    assert (actions + [a])[..|actions|] == actions;
  }

  function TimedOutRotation(r: nat): seq<Action> {
    [Build(r), Lock(r), Save(r), SetBackend(r), SetWg(r), Unlock(r), Timeout(r), CloseOld(r)]
  }

  ghost predicate Extended(first: bool, actions: seq<Action>, requests: map<nat, Request>, r: nat, p: Rotator) {
    && Run(first, actions).Some? && Run(first, actions).value.requests == requests
    && r in Run(first, actions).value.rotators && Run(first, actions).value.rotators[r] == p
  }

  lemma RotationReachesSwap(first: bool, actions: seq<Action>, r: nat, b: nat)
    requires Run(first, actions).Some?
    requires var s := Run(first, actions).value;
      s.writer.None? && s.readers == {} && s.backend == Some(b) && r !in s.rotators
    ensures var s := Run(first, actions).value;
      Extended(first, actions + [Build(r)] + [Lock(r)] + [Save(r)], s.requests, r, Saved(s.nextBackend, Some(b), s.wg))
  {
    RunExtends(first, actions, Build(r));
    RunExtends(first, actions + [Build(r)], Lock(r));
    RunExtends(first, actions + [Build(r)] + [Lock(r)], Save(r));
  }

  /** One more step of a rotation that only the rotation's own position matters to. */
  lemma Advances(first: bool, actions: seq<Action>, requests: map<nat, Request>, r: nat, p: Rotator, a: Action,
                 to: Rotator)
    requires Extended(first, actions, requests, r, p)
    requires match p
      case Saved(n, b, w) => a == SetBackend(r) && to == BackendSet(n, b, w)
      case BackendSet(n, b, w) => a == SetWg(r) && to == Swapped(b, w)
      case Swapped(b, w) => a == Unlock(r) && b.Some? && to == Draining(b.value, w)
      case Draining(b, w) => a == Timeout(r) && to == Expired(b, w)
      case Expired(b, w) => a == CloseOld(r) && to == Over(w)
      case _ => false
    ensures Extended(first, actions + [a], requests, r, to)
    ensures p.Draining? ==> p.draining in Run(first, actions + [a]).value.expired
    ensures p.Expired? ==> p.draining in Run(first, actions + [a]).value.closed
                           && Run(first, actions + [a]).value.expired == Run(first, actions).value.expired
  {
    RunExtends(first, actions, a);
  }

  lemma SameActions(actions: seq<Action>, r: nat)
    ensures actions + [Build(r)] + [Lock(r)] + [Save(r)] + [SetBackend(r)] + [SetWg(r)] + [Unlock(r)]
            + [Timeout(r)] + [CloseOld(r)] == actions + TimedOutRotation(r)
  {
  }

  lemma RotationFinishes(first: bool, as3: seq<Action>, requests: map<nat, Request>, r: nat, n: nat, b: nat, w: nat)
    requires Extended(first, as3, requests, r, Saved(n, Some(b), w))
    ensures var all := as3 + [SetBackend(r)] + [SetWg(r)] + [Unlock(r)] + [Timeout(r)] + [CloseOld(r)];
      && Extended(first, all, requests, r, Over(w))
      && b in Run(first, all).value.closed && b in Run(first, all).value.expired
  {
    Advances(first, as3, requests, r, Saved(n, Some(b), w), SetBackend(r), BackendSet(n, Some(b), w));
    var as4 := as3 + [SetBackend(r)];
    Advances(first, as4, requests, r, BackendSet(n, Some(b), w), SetWg(r), Swapped(Some(b), w));
    var as5 := as4 + [SetWg(r)];
    Advances(first, as5, requests, r, Swapped(Some(b), w), Unlock(r), Draining(b, w));
    var as6 := as5 + [Unlock(r)];
    Advances(first, as6, requests, r, Draining(b, w), Timeout(r), Expired(b, w));
    Advances(first, as6 + [Timeout(r)], requests, r, Expired(b, w), CloseOld(r), Over(w));
  }

  /**
   The timeout is a real exception: from any reachable state with the lock free, a rotation whose drain
   times out ends with the old backend closed under every request that is streaming on it.
   */
  lemma TimeoutClosesUnderOpenStreams(first: bool, actions: seq<Action>, r: nat, b: nat)
    requires Run(first, actions).Some?
    requires var s := Run(first, actions).value;
      s.writer.None? && s.readers == {} && s.backend == Some(b) && r !in s.rotators
    ensures var end := Run(first, actions + TimedOutRotation(r));
      && end.Some? && b in end.value.closed && b in end.value.expired
      && end.value.requests == Run(first, actions).value.requests
  {
    var s := Run(first, actions).value;
    RotationReachesSwap(first, actions, r, b);
    var w, n := s.wg, s.nextBackend;
    var swapping := actions + [Build(r)] + [Lock(r)] + [Save(r)];
    assert Extended(first, swapping, s.requests, r, Saved(n, Some(b), w));
    RotationFinishes(first, swapping, s.requests, r, n, b, w);
    SameActions(actions, r);
  }
}
