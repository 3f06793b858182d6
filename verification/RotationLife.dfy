/** Whole requests and whole rotations, from any state the handler can be in; and what every run closes. */
module RotationLife {
  import opened Basics
  import opened Rotation

  /** The state after more steps, if all of them are enabled. */
  function Steps(s: State, actions: seq<Action>): Option<State> {
    if actions == [] then Some(s)
    else
      match Steps(s, actions[..|actions| - 1])
      case None => None
      case Some(t) => Step(t, actions[|actions| - 1])
  }

  lemma StepAfter(s: State, actions: seq<Action>, t: State, a: Action)
    requires Steps(s, actions) == Some(t)
    ensures Steps(s, actions + [a]) == Step(t, a)
  {
    assert (actions + [a])[..|actions|] == actions;
  }

  lemma StepTo(start: State, before: seq<Action>, s: State, a: Action, t: State)
    requires Steps(start, before) == Some(s) && Step(s, a) == Some(t)
    ensures Steps(start, before + [a]) == Some(t)
  {
    StepAfter(start, before, s, a);
  }

  lemma TwoSteps(s: State, a: Action, t: State, c: Action)
    requires Step(s, a) == Some(t)
    ensures Steps(s, [a, c]) == Step(t, c)
  {
    StepTo(s, [], s, a, t);
    StepAfter(s, [] + [a], t, c);
    assert [] + [a] + [c] == [a, c];
  }

  lemma RunSplits(first: bool, before: seq<Action>, shorter: seq<Action>, a: Action)
    ensures Run(first, before + (shorter + [a])) ==
            if Run(first, before + shorter).None? then None else Step(Run(first, before + shorter).value, a)
  {
    var all := before + (shorter + [a]);
    assert all[..|all| - 1] == before + shorter && all[|all| - 1] == a;
  }

  /** Such steps continue a run. */
  lemma {:induction false} StepsContinueRun(first: bool, before: seq<Action>, more: seq<Action>)
    requires Run(first, before).Some?
    ensures Run(first, before + more) == Steps(Run(first, before).value, more)
  {
    if more == [] {
      assert before + more == before;
    } else {
      var shorter, a := more[..|more| - 1], more[|more| - 1];
      StepsContinueRun(first, before, shorter);
      RunSplits(first, before, shorter, a);
      assert more == shorter + [a];
    }
  }

  // ----- a request -----

  function Capture(q: nat): seq<Action> { [RLock(q), ReadBackend(q), ReadWg(q), Add(q), RUnlock(q)] }

  /** The state with this request where it stands, one more or not on the current WaitGroup. */
  function WithRequest(s: State, q: nat, p: Request, counted: nat): State
    requires s.wg in s.counts
  {
    s.(requests := s.requests[q := p], counts := s.counts[s.wg := s.counts[s.wg] + counted])
  }

  /** With no rotation inside the lock a request captures the current pair and is counted on it. */
  lemma RequestCaptures(s: State, q: nat)
    requires s.writer.None? && q !in s.requests && q !in s.readers && s.wg in s.counts
    ensures Steps(s, Capture(q)) == Some(WithRequest(s, q, Running(s.backend, s.wg), 1))
  {
    var locked := SetRequest(s, q, Locked).(readers := s.readers + {q});
    var read := SetRequest(locked, q, GotBackend(s.backend));
    var pair := SetRequest(read, q, GotPair(s.backend, s.wg));
    var counted := SetRequest(pair, q, Counted(s.backend, s.wg)).(counts := s.counts[s.wg := s.counts[s.wg] + 1]);
    StepAfter(s, [], s, RLock(q));
    StepAfter(s, [] + [RLock(q)], locked, ReadBackend(q));
    StepAfter(s, [] + [RLock(q)] + [ReadBackend(q)], read, ReadWg(q));
    StepAfter(s, [] + [RLock(q)] + [ReadBackend(q)] + [ReadWg(q)], pair, Add(q));
    StepAfter(s, [] + [RLock(q)] + [ReadBackend(q)] + [ReadWg(q)] + [Add(q)], counted, RUnlock(q));
    assert [] + [RLock(q)] + [ReadBackend(q)] + [ReadWg(q)] + [Add(q)] + [RUnlock(q)] == Capture(q);
    assert counted.readers - {q} == s.readers;
    assert counted.requests[q := Running(s.backend, s.wg)] == s.requests[q := Running(s.backend, s.wg)];
  }

  /** A captured request that opens a stream closes it and leaves the count as it was. */
  lemma RequestServes(s: State, q: nat, b: nat, w: nat)
    requires q in s.requests && s.requests[q] == Running(Some(b), w) && w in s.counts && s.counts[w] > 0
    ensures Steps(s, [OpenStream(q), CloseStream(q), Done(q)]) ==
            Some(s.(requests := s.requests[q := Finished(Some(b))], counts := s.counts[w := s.counts[w] - 1]))
  {
    var streaming := SetRequest(s, q, Streaming(Some(b), w));
    var leaving := SetRequest(streaming, q, Leaving(Some(b), w));
    StepAfter(s, [], s, OpenStream(q));
    StepAfter(s, [] + [OpenStream(q)], streaming, CloseStream(q));
    StepAfter(s, [] + [OpenStream(q)] + [CloseStream(q)], leaving, Done(q));
    assert [] + [OpenStream(q)] + [CloseStream(q)] + [Done(q)] == [OpenStream(q), CloseStream(q), Done(q)];
    assert leaving.requests[q := Finished(Some(b))] == s.requests[q := Finished(Some(b))];
  }

  /** One that cannot, because there is no backend or opening fails, leaves the count as it was, too. */
  lemma RequestFails(s: State, q: nat, b: Option<nat>, w: nat)
    requires q in s.requests && s.requests[q] == Running(b, w) && w in s.counts && s.counts[w] > 0
    ensures Steps(s, [FailOpen(q), Done(q)]) ==
            Some(s.(requests := s.requests[q := Finished(b)], counts := s.counts[w := s.counts[w] - 1]))
    ensures b.None? ==> Step(s, OpenStream(q)).None?
  {
    var leaving := SetRequest(s, q, Leaving(b, w));
    StepAfter(s, [], s, FailOpen(q));
    StepAfter(s, [] + [FailOpen(q)], leaving, Done(q));
    assert [] + [FailOpen(q)] + [Done(q)] == [FailOpen(q), Done(q)];
    assert leaving.requests[q := Finished(b)] == s.requests[q := Finished(b)];
  }

  /** A request that opened its stream: still streaming, or it has closed it. */
  ghost predicate DefersInOrder(s: State, actions: seq<Action>, q: nat) {
    && (OpenStream(q) in actions ==>
          && q in s.requests && (s.requests[q].Streaming? || s.requests[q].Leaving? || s.requests[q].Finished?)
          && (s.requests[q].Streaming? || CloseStream(q) in actions))
    && (q in s.requests && s.requests[q].Finished? ==> Done(q) in actions)
    && (q in s.requests && s.requests[q].Streaming? ==> s.requests[q].backend.Some?)
  }

  lemma DefersStep(s: State, actions: seq<Action>, a: Action, q: nat)
    requires DefersInOrder(s, actions, q) && Step(s, a).Some?
    ensures DefersInOrder(Step(s, a).value, actions + [a], q)
  {
  }

  lemma {:induction false} RunDefersInOrder(first: bool, actions: seq<Action>, q: nat)
    requires Run(first, actions).Some?
    ensures DefersInOrder(Run(first, actions).value, actions, q)
  {
    if actions != [] {
      var before, a := actions[..|actions| - 1], actions[|actions| - 1];
      assert actions == before + [a];
      RunDefersInOrder(first, before, q);
      DefersStep(Run(first, before).value, before, a, q);
    }
  }

  /**
   Over every run a request runs Done only after closing the stream it opened, if it opened one; and it opens
   one only on a backend.
   */
  lemma StreamsCloseBeforeDone(first: bool, actions: seq<Action>, q: nat)
    requires Run(first, actions).Some? && Step(Run(first, actions).value, Done(q)).Some?
    ensures OpenStream(q) in actions ==> CloseStream(q) in actions
  {
    RunDefersInOrder(first, actions, q);
  }

  // ----- a rotation -----

  function Swap(r: nat): seq<Action> { [Build(r), Lock(r), Save(r), SetBackend(r), SetWg(r), Unlock(r)] }

  /** The state after a swap: the new backend with a new WaitGroup, and the rotation where it stands. */
  function AfterSwap(s: State, r: nat, p: Rotator): State {
    var n, g := s.nextBackend, |s.owner|;
    s.(backend := Some(n), wg := g, nextBackend := n + 1, counts := s.counts[g := 0], owner := s.owner[g := Some(n)],
       installed := s.installed[n := g], rotators := s.rotators[r := p])
  }

  /** The lock is taken and the old pair saved. */
  function Entered(s: State, r: nat): State {
    s.(rotators := s.rotators[r := Saved(s.nextBackend, s.backend, s.wg)], nextBackend := s.nextBackend + 1,
       writer := Some(r))
  }

  function Begun(s: State, r: nat): State {
    s.(rotators := s.rotators[r := Built(s.nextBackend)], nextBackend := s.nextBackend + 1)
  }

  function Inside(s: State, r: nat): State {
    s.(rotators := s.rotators[r := Exclusive(s.nextBackend)], nextBackend := s.nextBackend + 1, writer := Some(r))
  }

  lemma Locking(s: State, r: nat)
    requires s.writer.None? && s.readers == {}
    ensures Step(Begun(s, r), Lock(r)) == Some(Inside(s, r))
  {
    var p := Exclusive(s.nextBackend);
    assert Begun(s, r).rotators[r := p] == s.rotators[r := p];
  }

  lemma Saving(s: State, r: nat)
    ensures Step(Inside(s, r), Save(r)) == Some(Entered(s, r))
  {
    var p := Saved(s.nextBackend, s.backend, s.wg);
    assert Inside(s, r).rotators[r := p] == s.rotators[r := p];
  }

  lemma RotationEnters(s: State, r: nat)
    requires s.writer.None? && s.readers == {} && r !in s.rotators
    ensures Steps(s, [Build(r)] + [Lock(r)] + [Save(r)]) == Some(Entered(s, r))
  {
    TwoSteps(s, Build(r), Begun(s, r), Lock(r));
    assert [Build(r)] + [Lock(r)] == [Build(r), Lock(r)];
    Locking(s, r);
    Saving(s, r);
    StepTo(s, [Build(r)] + [Lock(r)], Inside(s, r), Save(r), Entered(s, r));
  }

  function Halfway(s: State, r: nat, n: nat): State {
    s.(rotators := s.rotators[r := BackendSet(n, s.backend, s.wg)], backend := Some(n))
  }

  /** Where a rotation is after the swap: it lets the old backend drain, if there is one. */
  function Left(prior: Option<nat>, w: nat): Rotator {
    if prior.Some? then Draining(prior.value, w) else Over(w)
  }

  function Installed(s: State, r: nat, n: nat): State {
    var g := |s.owner|;
    s.(backend := Some(n), wg := g, counts := s.counts[g := 0], owner := s.owner[g := Some(n)],
       installed := s.installed[n := g], rotators := s.rotators[r := Swapped(s.backend, s.wg)])
  }

  lemma WritingBackend(s: State, r: nat, n: nat)
    requires r in s.rotators && s.rotators[r] == Saved(n, s.backend, s.wg)
    ensures Step(s, SetBackend(r)) == Some(Halfway(s, r, n))
  {
  }

  lemma WritingWg(s: State, r: nat, n: nat)
    ensures Step(Halfway(s, r, n), SetWg(r)) == Some(Installed(s, r, n))
  {
    var p := Swapped(s.backend, s.wg);
    assert Halfway(s, r, n).rotators[r := p] == s.rotators[r := p];
  }

  lemma Unlocking(s: State, r: nat, n: nat)
    ensures Step(Installed(s, r, n), Unlock(r)) ==
            Some(Installed(s, r, n).(rotators := s.rotators[r := Left(s.backend, s.wg)], writer := None))
  {
    var p := Left(s.backend, s.wg);
    assert Installed(s, r, n).rotators[r := p] == s.rotators[r := p];
  }

  /** Both fields are written, one after the other, and the lock is released. */
  lemma RotationInstalls(start: State, before: seq<Action>, s: State, r: nat, n: nat)
    requires Steps(start, before) == Some(s)
    requires r in s.rotators && s.rotators[r] == Saved(n, s.backend, s.wg)
    ensures Steps(start, before + [SetBackend(r)] + [SetWg(r)] + [Unlock(r)]) ==
            Some(Installed(s, r, n).(rotators := s.rotators[r := Left(s.backend, s.wg)], writer := None))
  {
    WritingBackend(s, r, n);
    StepTo(start, before, s, SetBackend(r), Halfway(s, r, n));
    WritingWg(s, r, n);
    StepTo(start, before + [SetBackend(r)], Halfway(s, r, n), SetWg(r), Installed(s, r, n));
    Unlocking(s, r, n);
    StepAfter(start, before + [SetBackend(r)] + [SetWg(r)], Installed(s, r, n), Unlock(r));
  }

  lemma InstalledIsAfterSwap(s: State, r: nat, p: Rotator)
    ensures var entered := Entered(s, r);
      Installed(entered, r, s.nextBackend).(rotators := entered.rotators[r := p], writer := None) ==
      AfterSwap(s, r, p).(writer := None)
  {
    assert Entered(s, r).rotators[r := p] == s.rotators[r := p];
  }

  lemma SwapIs(r: nat)
    ensures [Build(r)] + [Lock(r)] + [Save(r)] + [SetBackend(r)] + [SetWg(r)] + [Unlock(r)] == Swap(r)
  {
  }

  /** With the lock free a rotation puts a new pair in and lets the old backend, if there is one, drain. */
  lemma RotationSwaps(s: State, r: nat)
    requires s.writer.None? && s.readers == {} && r !in s.rotators
    ensures Steps(s, Swap(r)) ==
            Some(AfterSwap(s, r, Left(s.backend, s.wg)))
  {
    RotationEnters(s, r);
    var before := [Build(r)] + [Lock(r)] + [Save(r)];
    RotationInstalls(s, before, Entered(s, r), r, s.nextBackend);
    SwapIs(r);
    InstalledIsAfterSwap(s, r, Left(s.backend, s.wg));
  }

  function Closed(s: State, r: nat, b: nat, w: nat): State {
    s.(rotators := s.rotators[r := Over(w)], closed := s.closed + multiset{b})
  }

  function Ended(s: State, r: nat, p: Rotator, expired: set<nat>): State {
    s.(rotators := s.rotators[r := p], expired := expired)
  }

  lemma ClosingOld(s: State, r: nat, b: nat, w: nat, p: Rotator, expired: set<nat>)
    requires p == Drained(b, w) || p == Expired(b, w)
    ensures Step(Ended(s, r, p, expired), CloseOld(r)) == Some(Closed(s, r, b, w).(expired := expired))
  {
    assert Ended(s, r, p, expired).rotators[r := Over(w)] == s.rotators[r := Over(w)];
  }

  lemma Waiting(s: State, r: nat, b: nat, w: nat)
    requires r in s.rotators && s.rotators[r] == Draining(b, w)
    ensures Step(s, WaitReturns(r)) ==
            if w in s.counts && s.counts[w] == 0 then Some(Ended(s, r, Drained(b, w), s.expired)) else None
    ensures Step(s, Timeout(r)) == Some(Ended(s, r, Expired(b, w), s.expired + {b}))
    ensures Step(s, CloseOld(r)).None?
  {
  }

  lemma FirstStepFails(s: State, a: Action, c: Action)
    requires Step(s, a).None?
    ensures Steps(s, [a, c]).None?
  {
    StepAfter(s, [], s, a);
    assert [a, c][..1] == [] + [a];
  }

  /** A drain ends in the close of the old backend, and before it ends nothing is closed. */
  lemma DrainCloses(s: State, r: nat, b: nat, w: nat)
    requires r in s.rotators && s.rotators[r] == Draining(b, w) && w in s.counts
    ensures Steps(s, [WaitReturns(r), CloseOld(r)]) ==
            if s.counts[w] == 0 then Some(Closed(s, r, b, w)) else None
    ensures Step(s, CloseOld(r)).None?
  {
    Waiting(s, r, b, w);
    if s.counts[w] == 0 {
      TwoSteps(s, WaitReturns(r), Ended(s, r, Drained(b, w), s.expired), CloseOld(r));
      ClosingOld(s, r, b, w, Drained(b, w), s.expired);
    } else {
      FirstStepFails(s, WaitReturns(r), CloseOld(r));
    }
  }

  /** After the timeout it ends so whatever the count is. */
  lemma TimeoutCloses(s: State, r: nat, b: nat, w: nat)
    requires r in s.rotators && s.rotators[r] == Draining(b, w)
    ensures Steps(s, [Timeout(r), CloseOld(r)]) == Some(Closed(s, r, b, w).(expired := s.expired + {b}))
  {
    Waiting(s, r, b, w);
    TwoSteps(s, Timeout(r), Ended(s, r, Expired(b, w), s.expired + {b}), CloseOld(r));
    ClosingOld(s, r, b, w, Expired(b, w), s.expired + {b});
  }

  /** From any reachable state with the lock free and no request in flight, a rotation closes what it replaced. */
  lemma QuietRotation(s: State, r: nat, b: nat)
    requires s.writer.None? && s.readers == {} && r !in s.rotators && s.backend == Some(b)
    requires s.wg in s.counts && s.counts[s.wg] == 0 && s.wg < |s.owner|
    ensures var swapped := Steps(s, Swap(r));
      && swapped.Some?
      && Steps(swapped.value, [WaitReturns(r), CloseOld(r)]) ==
         Some(AfterSwap(s, r, Over(s.wg)).(closed := s.closed + multiset{b}))
  {
    RotationSwaps(s, r);
    var swapped := AfterSwap(s, r, Draining(b, s.wg));
    DrainCloses(swapped, r, b, s.wg);
    ClosedAfterSwap(s, r, b);
  }

  lemma ClosedAfterSwap(s: State, r: nat, b: nat)
    ensures Closed(AfterSwap(s, r, Draining(b, s.wg)), r, b, s.wg) ==
            AfterSwap(s, r, Over(s.wg)).(closed := s.closed + multiset{b})
  {
    assert s.rotators[r := Draining(b, s.wg)][r := Over(s.wg)] == s.rotators[r := Over(s.wg)];
  }

  predicate ReadersKnown(s: State) {
    forall q :: q in s.readers ==> q in s.requests
  }

  lemma ReadersKnownStep(s: State, a: Action)
    requires ReadersKnown(s) && Step(s, a).Some?
    ensures ReadersKnown(Step(s, a).value)
  {
    assert Step(s, a).value.readers <= s.readers + if a.RLock? then {a.q} else {};
  }

  /** So a request that has not begun holds no read lock. */
  lemma {:induction false} ReadersAreRequests(first: bool, actions: seq<Action>)
    requires Run(first, actions).Some?
    ensures ReadersKnown(Run(first, actions).value)
  {
    if actions != [] {
      var before, a := actions[..|actions| - 1], actions[|actions| - 1];
      ReadersAreRequests(first, before);
      ReadersKnownStep(Run(first, before).value, a);
    }
  }

  /**
   From any reachable state with the lock free and no request in flight on the current backend: a rotation ends
   with that backend closed, once more than before, the new one current, and every request untouched.
   */
  lemma DrainedRotationCloses(first: bool, actions: seq<Action>, r: nat, b: nat)
    requires Run(first, actions).Some?
    requires var s := Run(first, actions).value;
      && s.writer.None? && s.readers == {} && s.backend == Some(b) && r !in s.rotators
      && s.wg in s.counts && s.counts[s.wg] == 0
    ensures var s, end := Run(first, actions).value, Run(first, actions + Swap(r) + [WaitReturns(r), CloseOld(r)]);
      && end == Some(AfterSwap(s, r, Over(s.wg)).(closed := s.closed + multiset{b}))
      && end.value.closed[b] == 1
  {
    var s := Run(first, actions).value;
    RunKeepsInv(first, actions);
    QuietRotation(s, r, b);
    StepsContinueRun(first, actions, Swap(r));
    StepsContinueRun(first, actions + Swap(r), [WaitReturns(r), CloseOld(r)]);
    ClosedBackendsAreUnused(first, actions + Swap(r) + [WaitReturns(r), CloseOld(r)], b);
  }

  // ----- what every run closes -----

  /** The rotation is going to close this backend. */
  predicate WillClose(p: Rotator, b: nat) {
    (p.Swapped? && p.prior == Some(b)) || ((p.Draining? || p.Drained? || p.Expired?) && p.draining == b)
  }

  ghost predicate Closing(s: State, b: nat) {
    exists r :: r in s.rotators && WillClose(s.rotators[r], b)
  }

  /** The backend was current once and no longer is. */
  predicate WasReplaced(s: State, b: nat) {
    b in s.installed && s.installed[b] < s.wg
  }

  /** The newest WaitGroup is the current one, and every replaced backend is closed or going to be. */
  ghost predicate NothingLeaks(s: State) {
    s.wg + 1 == |s.owner| && forall b :: WasReplaced(s, b) ==> b in s.closed || Closing(s, b)
  }

  /** A rotation that moves on keeps what it is going to close, or closes it. */
  lemma RotatorStepKeepsClosing(s: State, t: State, r: nat, p: Rotator, b: nat)
    requires t.rotators == s.rotators[r := p] && s.closed <= t.closed
    requires r in s.rotators && WillClose(s.rotators[r], b) ==> WillClose(p, b) || b in t.closed
    requires b in s.closed || Closing(s, b)
    ensures b in t.closed || Closing(t, b)
  {
    if b !in s.closed {
      var o :| o in s.rotators && WillClose(s.rotators[o], b);
      assert o in t.rotators && (o != r ==> t.rotators[o] == s.rotators[o]);
    } else {
      assert s.closed[b] <= t.closed[b];
    }
  }

  lemma SwapKeepsNothingLeaks(s: State, r: nat)
    requires Inv(s) && NothingLeaks(s) && Step(s, SetWg(r)).Some?
    ensures NothingLeaks(Step(s, SetWg(r)).value)
  {
    var t, p := Step(s, SetWg(r)).value, s.rotators[r];
    assert RotatorOk(s, p);
    forall b | WasReplaced(t, b) ensures b in t.closed || Closing(t, b) {
      if WasReplaced(s, b) {
        RotatorStepKeepsClosing(s, t, r, t.rotators[r], b);
      } else {
        assert s.installed[b] == s.wg && s.owner[s.wg] == Some(b);
        assert WillClose(t.rotators[r], b);
      }
    }
  }

  /** Any other step of a rotation, with what it does to the backend this rotation is going to close. */
  lemma RotatorMoves(s: State, a: Action, b: nat)
    requires Step(s, a).Some?
    requires a.Build? || a.Lock? || a.Save? || a.SetBackend? || a.Unlock? || a.WaitReturns? || a.Timeout? || a.CloseOld?
    ensures var t := Step(s, a).value;
      && a.r in t.rotators && t.rotators == s.rotators[a.r := t.rotators[a.r]] && s.closed <= t.closed
      && (a.r in s.rotators && WillClose(s.rotators[a.r], b) ==> WillClose(t.rotators[a.r], b) || b in t.closed)
  {
  }

  lemma RequestMovesNoRotator(s: State, a: Action)
    requires Step(s, a).Some?
    requires a.RLock? || a.ReadBackend? || a.ReadWg? || a.Add? || a.RUnlock? || a.OpenStream? || a.FailOpen?
          || a.CloseStream? || a.Done?
    ensures Step(s, a).value.rotators == s.rotators && Step(s, a).value.closed == s.closed
  {
  }

  lemma OnlySetWgInstalls(s: State, a: Action)
    requires Step(s, a).Some? && !a.SetWg?
    ensures var t := Step(s, a).value; t.owner == s.owner && t.wg == s.wg && t.installed == s.installed
  {
  }

  lemma OtherStepsKeepNothingLeaks(s: State, a: Action)
    requires NothingLeaks(s) && Step(s, a).Some? && !a.SetWg?
    ensures NothingLeaks(Step(s, a).value)
  {
    var t := Step(s, a).value;
    OnlySetWgInstalls(s, a);
    forall b | WasReplaced(t, b) ensures b in t.closed || Closing(t, b) {
      assert WasReplaced(s, b);
      if a.RLock? || a.ReadBackend? || a.ReadWg? || a.Add? || a.RUnlock? || a.OpenStream? || a.FailOpen?
         || a.CloseStream? || a.Done? {
        RequestMovesNoRotator(s, a);
      } else {
        RotatorMoves(s, a, b);
        RotatorStepKeepsClosing(s, t, a.r, t.rotators[a.r], b);
      }
    }
  }

  lemma {:induction false} RunLeaksNothing(first: bool, actions: seq<Action>)
    requires Run(first, actions).Some?
    ensures NothingLeaks(Run(first, actions).value)
  {
    if actions != [] {
      var before, a := actions[..|actions| - 1], actions[|actions| - 1];
      RunLeaksNothing(first, before);
      RunKeepsInv(first, before);
      if a.SetWg? {
        SwapKeepsNothingLeaks(Run(first, before).value, a.r);
      } else {
        OtherStepsKeepNothingLeaks(Run(first, before).value, a);
      }
    }
  }

  /**
   Over every run, a replaced backend is closed or a rotation is on its way to closing it; so when none is, the
   closed ones are exactly the replaced ones, each closed once.
   */
  lemma ReplacedBackendsAreClosed(first: bool, actions: seq<Action>, b: nat)
    requires Run(first, actions).Some?
    ensures var s := Run(first, actions).value;
      && (WasReplaced(s, b) ==> b in s.closed || Closing(s, b))
      && (!Closing(s, b) ==> s.closed[b] == if WasReplaced(s, b) then 1 else 0)
  {
    RunLeaksNothing(first, actions);
    RunKeepsInv(first, actions);
  }

  /** Never a rotation inside the lock with a request or another rotation. */
  lemma LockIsExclusive(first: bool, actions: seq<Action>, r: nat)
    requires Run(first, actions).Some?
    requires r in Run(first, actions).value.rotators && HoldsWriteLock(Run(first, actions).value.rotators[r])
    ensures var s := Run(first, actions).value;
      && (forall q :: q in s.requests ==> !HoldsReadLock(s.requests[q]))
      && (forall o :: o in s.rotators && o != r ==> !HoldsWriteLock(s.rotators[o]))
  {
    RunKeepsInv(first, actions);
    var s := Run(first, actions).value;
    assert WriteLockOk(s, r);
    forall q | q in s.requests ensures !HoldsReadLock(s.requests[q]) {
      assert ReadLockOk(s, q);
    }
    forall o | o in s.rotators && o != r ensures !HoldsWriteLock(s.rotators[o]) {
      assert WriteLockOk(s, o);
    }
  }
}
