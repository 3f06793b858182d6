/** Whole calls of ResolveToADNL, from any state the cache can be in. */
module CacheLife {
  import opened Basics
  import opened AdnlHex
  import opened ResolverCache
  import opened CacheRuns

  /** The state after more steps, if all of them are enabled. */
  ghost function Steps(tlds: set<string>, encode: Encoder, s: State, actions: seq<Action>): Option<State>
    decreases |actions|
  {
    if actions == [] then Some(s)
    else
      match Step(tlds, encode, s, actions[0])
      case None => None
      case Some(t) => Steps(tlds, encode, t, actions[1..])
  }

  /** Such steps continue a run. */
  lemma {:induction false} StepsContinueRun(tlds: set<string>, encode: Encoder, before: seq<Action>, more: seq<Action>)
    requires Run(tlds, encode, before).Some?
    ensures Run(tlds, encode, before + more) == Steps(tlds, encode, Run(tlds, encode, before).value, more)
    decreases |more|
  {
    if more == [] {
      assert before + more == before;
    } else {
      var next := before + [more[0]];
      assert next[..|next| - 1] == before;
      assert before + more == next + more[1..];
      if Run(tlds, encode, next).Some? {
        StepsContinueRun(tlds, encode, next, more[1..]);
      } else {
        FailedStaysFailed(tlds, encode, next, more[1..]);
      }
    }
  }

  lemma {:induction false} FailedStaysFailed(tlds: set<string>, encode: Encoder, before: seq<Action>, more: seq<Action>)
    requires Run(tlds, encode, before).None?
    ensures Run(tlds, encode, before + more).None?
  {
    if more == [] {
      assert before + more == before;
    } else {
      FailedStaysFailed(tlds, encode, before, more[..|more| - 1]);
      assert (before + more)[..|before + more| - 1] == before + more[..|more| - 1];
    }
  }

  lemma OneStep(tlds: set<string>, encode: Encoder, s: State, a: Action)
    ensures Steps(tlds, encode, s, [a]) == Step(tlds, encode, s, a)
  {
    assert [a][1..] == [];
  }

  lemma TwoSteps(tlds: set<string>, encode: Encoder, s: State, a: Action, b: Action)
    ensures Steps(tlds, encode, s, [a, b]) ==
            match Step(tlds, encode, s, a) case None => None case Some(t) => Step(tlds, encode, t, b)
  {
    assert [a, b][1..] == [b];
    if Step(tlds, encode, s, a).Some? {
      OneStep(tlds, encode, Step(tlds, encode, s, a).value, b);
    }
  }

  lemma ThreeSteps(tlds: set<string>, encode: Encoder, s: State, a: Action, b: Action, c: Action)
    ensures Steps(tlds, encode, s, [a, b, c]) ==
            match Step(tlds, encode, s, a) case None => None case Some(t) => Steps(tlds, encode, t, [b, c])
  {
    assert [a, b, c][1..] == [b, c];
  }

  lemma FourSteps(tlds: set<string>, encode: Encoder, s: State, a: Action, b: Action, c: Action, d: Action)
    ensures Steps(tlds, encode, s, [a, b, c, d]) ==
            match Step(tlds, encode, s, a) case None => None case Some(t) => Steps(tlds, encode, t, [b, c, d])
  {
    assert [a, b, c, d][1..] == [b, c, d];
  }

  /** An entry stored less than five minutes ago is returned, and nothing else changes. */
  lemma FreshEntryIsServed(tlds: set<string>, encode: Encoder, s: State, call: nat, domain: string, to: int)
    requires call !in s.calls && domain in s.cache && s.now <= to < s.cache[domain].expiresAt
    ensures Steps(tlds, encode, s, [Lookup(call, domain), Tick(to), Check(call)]) ==
            Some(s.(now := to, hits := s.hits + {Hit(domain, s.cache[domain].adnlHost, to)}))
  {
    var looked := s.(calls := s.calls[call := Found(domain, s.cache[domain])]);
    ThreeSteps(tlds, encode, s, Lookup(call, domain), Tick(to), Check(call));
    TwoSteps(tlds, encode, looked, Tick(to), Check(call));
    assert looked.calls - {call} == s.calls;
  }

  /** An entry whose five minutes are over is not: the call drops it and goes on to the chain. */
  lemma StaleEntryIsDropped(tlds: set<string>, encode: Encoder, s: State, call: nat, domain: string, to: int)
    requires call !in s.calls && domain in s.cache && s.now <= to && s.cache[domain].expiresAt <= to
    ensures Steps(tlds, encode, s, [Lookup(call, domain), Tick(to), Check(call), Forget(call)]) ==
            Some(s.(now := to, cache := s.cache - {domain}, calls := s.calls[call := Missing(domain)]))
  {
    var looked := s.(calls := s.calls[call := Found(domain, s.cache[domain])]);
    var ticked := looked.(now := to);
    var checked := ticked.(calls := ticked.calls[call := Stale(domain)]);
    FourSteps(tlds, encode, s, Lookup(call, domain), Tick(to), Check(call), Forget(call));
    ThreeSteps(tlds, encode, looked, Tick(to), Check(call), Forget(call));
    TwoSteps(tlds, encode, ticked, Check(call), Forget(call));
    assert checked.calls == s.calls[call := Stale(domain)];
    assert checked.calls[call := Missing(domain)] == s.calls[call := Missing(domain)];
  }

  /** A domain that is not cached is asked for, encoded, stored for five minutes, and returned. */
  lemma MissIsFetchedAndStored(tlds: set<string>, encode: Encoder, s: State, call: nat, domain: string,
                               rawHex: string, room: Cache, at: int)
    requires call !in s.calls && domain !in s.cache && Routable(tlds, domain) && encode(rawHex).Some?
    requires Evicts(s.cache, room, s.now) && s.now <= at
    ensures var host := encode(rawHex).value;
      Steps(tlds, encode, s, [Lookup(call, domain), Ask(call, Some(rawHex)), Store(call, room, at)]) ==
      Some(State(room[domain := Entry(host, at + 300_000_000_000)], at, s.calls,
                 s.answers + {Answer(domain, rawHex, s.now)}, s.stores + {Stored(domain, host, at)}, s.hits,
                 s.fetched + {Fetched(domain, rawHex, s.now, host, at)}))
  {
    var host := encode(rawHex).value;
    var looked := s.(calls := s.calls[call := Missing(domain)]);
    var heard := looked.(answers := s.answers + {Answer(domain, rawHex, s.now)},
                         calls := looked.calls[call := Resolved(domain, rawHex, s.now, host)]);
    ThreeSteps(tlds, encode, s, Lookup(call, domain), Ask(call, Some(rawHex)), Store(call, room, at));
    TwoSteps(tlds, encode, looked, Ask(call, Some(rawHex)), Store(call, room, at));
    assert Step(tlds, encode, looked, Ask(call, Some(rawHex))) == Some(heard);
    assert heard.calls - {call} == s.calls;
  }

  /** Without a resolver, with an error, or with a string that is no address, the call ends and stores nothing. */
  lemma FailureStoresNothing(tlds: set<string>, encode: Encoder, s: State, call: nat, domain: string,
                             answer: Option<string>)
    requires call !in s.calls && domain !in s.cache
    requires !Routable(tlds, domain) || answer.None? || encode(answer.value).None?
    ensures var end := Steps(tlds, encode, s, [Lookup(call, domain), Ask(call, answer)]);
      && end.Some? && s.answers <= end.value.answers
      && end.value == s.(answers := end.value.answers)
  {
    var looked := s.(calls := s.calls[call := Missing(domain)]);
    TwoSteps(tlds, encode, s, Lookup(call, domain), Ask(call, answer));
    assert looked.calls - {call} == s.calls;
  }

  /** One pass of the cleaner removes exactly the entries whose expiry the clock read is past. */
  lemma CleanerDropsExpired(tlds: set<string>, encode: Encoder, s: State, readAt: int, domain: string)
    requires readAt <= s.now
    ensures var end := Step(tlds, encode, s, Clean(readAt));
      && end.Some? && end.value == s.(cache := end.value.cache)
      && (domain in end.value.cache <==> domain in s.cache && readAt <= s.cache[domain].expiresAt)
      && (domain in end.value.cache ==> end.value.cache[domain] == s.cache[domain])
  {
  }

  /** A lookup decided at time `to`: it hits exactly if that is before the entry's expiry. */
  lemma ServedIffFresh(tlds: set<string>, encode: Encoder, s: State, call: nat, domain: string, to: int)
    requires call !in s.calls && domain in s.cache && s.now <= to
    ensures var end := Steps(tlds, encode, s, [Lookup(call, domain), Tick(to), Check(call)]);
      end.Some? && end.value.hits == if to < s.cache[domain].expiresAt
                                     then s.hits + {Hit(domain, s.cache[domain].adnlHost, to)} else s.hits
  {
    if to < s.cache[domain].expiresAt {
      FreshEntryIsServed(tlds, encode, s, call, domain, to);
    } else {
      var looked := s.(calls := s.calls[call := Found(domain, s.cache[domain])]);
      ThreeSteps(tlds, encode, s, Lookup(call, domain), Tick(to), Check(call));
      TwoSteps(tlds, encode, looked, Tick(to), Check(call));
    }
  }

  /** What the first call fetches, and a later one is given for exactly five minutes if nothing evicts it. */
  lemma FetchedThenServed(tlds: set<string>, s: State, first: nat, second: nat, domain: string, rawHex: string,
                          host: string, room: Cache, at: int, to: int)
    requires first !in s.calls && second !in s.calls && domain !in s.cache && Routable(tlds, domain)
    requires IsHostOf(rawHex, host) && Evicts(s.cache, room, s.now) && s.now <= at <= to
    ensures var fetch := [Lookup(first, domain), Ask(first, Some(rawHex)), Store(first, room, at)];
      var stored := Steps(tlds, HostFor, s, fetch);
      && stored.Some? && Fetched(domain, rawHex, s.now, host, at) in stored.value.fetched
      && var end := Steps(tlds, HostFor, stored.value, [Lookup(second, domain), Tick(to), Check(second)]);
         end.Some? && end.value.hits == if to < at + 300_000_000_000 then s.hits + {Hit(domain, host, to)} else s.hits
  {
    HostForIff(rawHex, host);
    MissIsFetchedAndStored(tlds, HostFor, s, first, domain, rawHex, room, at);
    var fetch := [Lookup(first, domain), Ask(first, Some(rawHex)), Store(first, room, at)];
    ServedIffFresh(tlds, HostFor, Steps(tlds, HostFor, s, fetch).value, second, domain, to);
  }
}
