/**
 ResolveToADNL under concurrency: any number of calls and the cleaner share the cache, each locked
 section is one step, clock reads are separate, and the chain answers as it likes at any time. A run is
 any sequence of enabled steps.
 */
module CacheRuns {
  import opened Basics
  import opened Routing
  import opened AdnlHex
  import opened AdnlAddress
  import opened ResolverCache

  /** What the chain resolver really returned, for whom and when. */
  datatype Answer = Answer(domain: string, rawHex: string, time: int)

  /** An entry that was really put into the cache, and the clock read its expiry was counted from. */
  datatype Stored = Stored(domain: string, host: string, at: int)

  /** A host that a call returned from the cache, and the clock read it was judged by. */
  datatype Hit = Hit(domain: string, host: string, clock: int)

  /** A host that a call returned after asking the chain: what the chain said, when, and when it was stored. */
  datatype Fetched = Fetched(domain: string, rawHex: string, asked: int, host: string, at: int)

  /** Where a call stands. */
  datatype Call =
    | Found(domain: string, entry: Entry)      // read under the read lock; freshness not checked yet
    | Stale(domain: string)                    // about to take the lock and delete
    | Missing(domain: string)                  // about to ask the chain
    | Resolved(domain: string, rawHex: string, asked: int, host: string) // about to store

  /** `answers`, `stores`, `hits` and `fetched` are the history of the run so far. */
  datatype State = State(
    cache: Cache,
    now: int,
    calls: map<nat, Call>,
    answers: set<Answer>,
    stores: set<Stored>,
    hits: set<Hit>,
    fetched: set<Fetched>)

  datatype Action =
    | Tick(to: int)
    | Lookup(call: nat, domain: string)
    | Check(call: nat)
    | Forget(call: nat)
    | Ask(call: nat, answer: Option<string>)
    | Store(call: nat, room: Cache, storeAt: int)
    | Clean(readAt: int)

  /** From a resolver's string to a routable host, if it is one; any such function will do below. */
  type Encoder = string -> Option<string>

  ghost predicate Routable(tlds: set<string>, domain: string) {
    exists tld :: tld in tlds && HasSuffix(domain, tld)
  }

  /** `room` is the cache the eviction leaves, which the map's iteration order may influence. */
  ghost function Step(tlds: set<string>, encode: Encoder, s: State, a: Action): Option<State> {
    match a
    case Tick(to) => if to < s.now then None else Some(s.(now := to))
    case Lookup(call, domain) =>
      if call in s.calls then None
      else
        var c := if domain in s.cache then Found(domain, s.cache[domain]) else Missing(domain);
        Some(s.(calls := s.calls[call := c]))
    case Check(call) =>
      if call !in s.calls || !s.calls[call].Found? then None
      else
        var c := s.calls[call];
        if s.now < c.entry.expiresAt
        then Some(s.(calls := s.calls - {call}, hits := s.hits + {Hit(c.domain, c.entry.adnlHost, s.now)}))
        else Some(s.(calls := s.calls[call := Stale(c.domain)]))
    case Forget(call) =>
      if call !in s.calls || !s.calls[call].Stale? then None
      else
        var domain := s.calls[call].domain;
        Some(s.(cache := s.cache - {domain}, calls := s.calls[call := Missing(domain)]))
    case Ask(call, answer) =>
      if call !in s.calls || !s.calls[call].Missing? then None
      else
        var domain := s.calls[call].domain;
        if !Routable(tlds, domain) || answer.None? then Some(s.(calls := s.calls - {call}))
        else
          var heard := s.(answers := s.answers + {Answer(domain, answer.value, s.now)});
          (match encode(answer.value)
           case None => Some(heard.(calls := s.calls - {call}))
           case Some(host) => Some(heard.(calls := s.calls[call := Resolved(domain, answer.value, s.now, host)])))
    case Store(call, room, storeAt) =>
      if call !in s.calls || !s.calls[call].Resolved? || storeAt < s.now || !Evicts(s.cache, room, s.now) then None
      else
        var c := s.calls[call];
        Some(s.(cache := room[c.domain := Entry(c.host, storeAt + RESOLVE_CACHE_TTL)],
                now := storeAt, calls := s.calls - {call},
                stores := s.stores + {Stored(c.domain, c.host, storeAt)},
                fetched := s.fetched + {Fetched(c.domain, c.rawHex, c.asked, c.host, storeAt)}))
    case Clean(readAt) =>
      if readAt > s.now then None else Some(s.(cache := Live(s.cache, readAt)))
  }

  ghost function Run(tlds: set<string>, encode: Encoder, actions: seq<Action>): Option<State> {
    if actions == [] then Some(State(map[], 0, map[], {}, {}, {}, {}))
    else
      var before := Run(tlds, encode, actions[..|actions| - 1]);
      if before.None? then None else Step(tlds, encode, before.value, actions[|actions| - 1])
  }

  /** By `time` the chain had given for this domain a string whose host this is. */
  ghost predicate Genuine(encode: Encoder, answers: set<Answer>, domain: string, host: string, time: int) {
    exists a :: a in answers && a.domain == domain && a.time <= time && encode(a.rawHex) == Some(host)
  }

  /** A store of a genuine host, not in the future. */
  ghost predicate StoreOk(encode: Encoder, s: State, st: Stored) {
    st.domain != "" && st.at <= s.now && Genuine(encode, s.answers, st.domain, st.host, st.at)
  }

  /** The store an entry comes from: its expiry is five minutes after it. */
  function Origin(domain: string, entry: Entry): Stored {
    Stored(domain, entry.adnlHost, entry.expiresAt - RESOLVE_CACHE_TTL)
  }

  ghost predicate EntryOk(s: State, domain: string, entry: Entry) {
    Origin(domain, entry) in s.stores
  }

  ghost predicate CallOk(encode: Encoder, s: State, c: Call) {
    match c
    case Found(domain, entry) => EntryOk(s, domain, entry)
    case Stale(_) => true
    case Missing(_) => true
    case Resolved(domain, rawHex, asked, host) =>
      domain != "" && asked <= s.now && Answer(domain, rawHex, asked) in s.answers && encode(rawHex) == Some(host)
  }

  /** The hit is what some store put there less than five minutes before the hit's clock read. */
  ghost predicate HitOk(stores: set<Stored>, h: Hit) {
    exists st ::
      st in stores && st.domain == h.domain && st.host == h.host && h.clock - RESOLVE_CACHE_TTL < st.at <= h.clock
  }

  /** What a call fetched and returned is what it was told, and it is on record as stored. */
  ghost predicate FetchedOk(encode: Encoder, s: State, f: Fetched) {
    && f.asked <= f.at && Answer(f.domain, f.rawHex, f.asked) in s.answers && encode(f.rawHex) == Some(f.host)
    && Stored(f.domain, f.host, f.at) in s.stores
  }

  ghost predicate Inv(encode: Encoder, s: State) {
    && |s.cache| <= MAX_CACHE_ENTRIES + 1
    && (forall st {:trigger StoreOk(encode, s, st)} :: st in s.stores ==> StoreOk(encode, s, st))
    && (forall d {:trigger EntryOk(s, d, s.cache[d])} :: d in s.cache ==> EntryOk(s, d, s.cache[d]))
    && (forall c {:trigger CallOk(encode, s, s.calls[c])} :: c in s.calls ==> CallOk(encode, s, s.calls[c]))
    && (forall h {:trigger HitOk(s.stores, h)} :: h in s.hits ==> HitOk(s.stores, h))
    && (forall f {:trigger FetchedOk(encode, s, f)} :: f in s.fetched ==> FetchedOk(encode, s, f))
  }

  // ----- every step keeps it -----

  lemma GenuineGrows(encode: Encoder, a: set<Answer>, b: set<Answer>, domain: string, host: string, time: int,
                     later: int)
    requires Genuine(encode, a, domain, host, time) && a <= b && time <= later
    ensures Genuine(encode, b, domain, host, later)
  {
  }

  lemma StoreGrows(encode: Encoder, s: State, t: State, st: Stored)
    requires StoreOk(encode, s, st) && s.now <= t.now && s.answers <= t.answers
    ensures StoreOk(encode, t, st)
  {
    GenuineGrows(encode, s.answers, t.answers, st.domain, st.host, st.at, st.at);
  }

  lemma CallGrows(encode: Encoder, s: State, t: State, c: Call)
    requires CallOk(encode, s, c) && s.now <= t.now && s.answers <= t.answers && s.stores <= t.stores
    ensures CallOk(encode, t, c)
  {
  }

  lemma HitGrows(a: set<Stored>, b: set<Stored>, h: Hit)
    requires HitOk(a, h) && a <= b
    ensures HitOk(b, h)
  {
  }

  /** Time only moves forward and the history only grows. */
  ghost predicate Later(s: State, t: State) {
    s.now <= t.now && s.answers <= t.answers && s.stores <= t.stores
  }

  /** Whatever is new after a forward move is checked, and everything else was there before. */
  lemma Moves(encode: Encoder, s: State, t: State)
    requires Inv(encode, s) && Later(s, t) && |t.cache| <= MAX_CACHE_ENTRIES + 1
    requires forall st :: st in t.stores && st !in s.stores ==> StoreOk(encode, t, st)
    requires forall d :: d in t.cache && !(d in s.cache && t.cache[d] == s.cache[d]) ==> EntryOk(t, d, t.cache[d])
    requires forall c :: c in t.calls && !(c in s.calls && t.calls[c] == s.calls[c]) ==> CallOk(encode, t, t.calls[c])
    requires forall h :: h in t.hits && h !in s.hits ==> HitOk(t.stores, h)
    requires forall f :: f in t.fetched && f !in s.fetched ==> FetchedOk(encode, t, f)
    ensures Inv(encode, t)
  {
    forall st | st in t.stores ensures StoreOk(encode, t, st) {
      if st in s.stores {
        StoreGrows(encode, s, t, st);
      }
    }
    forall d | d in t.cache ensures EntryOk(t, d, t.cache[d]) {
      if d in s.cache && t.cache[d] == s.cache[d] {
        assert EntryOk(s, d, s.cache[d]);
      }
    }
    forall c | c in t.calls ensures CallOk(encode, t, t.calls[c]) {
      if c in s.calls && t.calls[c] == s.calls[c] {
        CallGrows(encode, s, t, s.calls[c]);
      }
    }
    forall h | h in t.hits ensures HitOk(t.stores, h) {
      if h in s.hits {
        HitGrows(s.stores, t.stores, h);
      }
    }
    forall f | f in t.fetched ensures FetchedOk(encode, t, f) {
      if f in s.fetched {
        assert FetchedOk(encode, s, f);
      }
    }
  }

  lemma NoEmptyKey(encode: Encoder, s: State)
    requires Inv(encode, s)
    ensures "" !in s.cache
  {
    forall d | d in s.cache ensures d != "" {
      assert EntryOk(s, d, s.cache[d]);
      assert StoreOk(encode, s, Origin(d, s.cache[d]));
    }
  }

  lemma CheckKeepsInv(tlds: set<string>, encode: Encoder, s: State, call: nat)
    requires Inv(encode, s) && Step(tlds, encode, s, Check(call)).Some?
    ensures Inv(encode, Step(tlds, encode, s, Check(call)).value)
  {
    var c := s.calls[call];
    assert CallOk(encode, s, c);
    if s.now < c.entry.expiresAt {
      assert StoreOk(encode, s, Origin(c.domain, c.entry));
      assert HitOk(s.stores, Hit(c.domain, c.entry.adnlHost, s.now));
    }
    Moves(encode, s, Step(tlds, encode, s, Check(call)).value);
  }

  lemma AskKeepsInv(tlds: set<string>, encode: Encoder, s: State, call: nat, answer: Option<string>)
    requires "" !in tlds && Inv(encode, s) && Step(tlds, encode, s, Ask(call, answer)).Some?
    ensures Inv(encode, Step(tlds, encode, s, Ask(call, answer)).value)
  {
    var t := Step(tlds, encode, s, Ask(call, answer)).value;
    if call in t.calls {
      var domain := s.calls[call].domain;
      assert domain != "";
      assert Answer(domain, answer.value, s.now) in t.answers;
    }
    Moves(encode, s, t);
  }

  /** After the eviction there is room, and what is not new was there before. */
  lemma RoomForOneMore(encode: Encoder, s: State, room: Cache, domain: string, entry: Entry)
    requires Inv(encode, s) && Evicts(s.cache, room, s.now)
    ensures |room[domain := entry]| <= MAX_CACHE_ENTRIES + 1
    ensures forall d :: d in room ==> d in s.cache && room[d] == s.cache[d]
  {
    NoEmptyKey(encode, s);
    EvictionMakesRoom(s.cache, room, s.now);
    OneMore(room, domain, entry);
  }

  /** What a storing step does. */
  lemma StoringStep(tlds: set<string>, encode: Encoder, s: State, call: nat, room: Cache, at: int)
    requires Step(tlds, encode, s, Store(call, room, at)).Some?
    ensures call in s.calls && s.calls[call].Resolved? && s.now <= at && Evicts(s.cache, room, s.now)
    ensures Step(tlds, encode, s, Store(call, room, at)).value == Stores(s, call, room, at)
  {
  }

  /** The state with the host of the call stored. */
  ghost function Stores(s: State, call: nat, room: Cache, at: int): State
    requires call in s.calls && s.calls[call].Resolved?
  {
    var c := s.calls[call];
    State(room[c.domain := Entry(c.host, at + RESOLVE_CACHE_TTL)], at, s.calls - {call}, s.answers,
          s.stores + {Stored(c.domain, c.host, at)}, s.hits,
          s.fetched + {Fetched(c.domain, c.rawHex, c.asked, c.host, at)})
  }

  lemma StoreKeepsInv(tlds: set<string>, encode: Encoder, s: State, call: nat, room: Cache, at: int)
    requires Inv(encode, s) && Step(tlds, encode, s, Store(call, room, at)).Some?
    ensures Inv(encode, Step(tlds, encode, s, Store(call, room, at)).value)
  {
    StoringStep(tlds, encode, s, call, room, at);
    var c := s.calls[call];
    RoomForOneMore(encode, s, room, c.domain, Entry(c.host, at + RESOLVE_CACHE_TTL));
    StoringMoves(encode, s, call, room, at);
  }

  /** What is new after a store is checked. */
  lemma StoredIsChecked(encode: Encoder, s: State, call: nat, room: Cache, at: int)
    requires call in s.calls && s.calls[call].Resolved? && CallOk(encode, s, s.calls[call]) && s.now <= at
    ensures var c, t := s.calls[call], Stores(s, call, room, at);
      && StoreOk(encode, t, Stored(c.domain, c.host, at)) && EntryOk(t, c.domain, t.cache[c.domain])
      && FetchedOk(encode, t, Fetched(c.domain, c.rawHex, c.asked, c.host, at))
  {
    var c, t := s.calls[call], Stores(s, call, room, at);
    assert Answer(c.domain, c.rawHex, c.asked) in t.answers;
  }

  lemma StoringMoves(encode: Encoder, s: State, call: nat, room: Cache, at: int)
    requires Inv(encode, s) && call in s.calls && s.calls[call].Resolved? && s.now <= at
    requires |Stores(s, call, room, at).cache| <= MAX_CACHE_ENTRIES + 1
    requires forall d :: d in room ==> d in s.cache && room[d] == s.cache[d]
    ensures Inv(encode, Stores(s, call, room, at))
  {
    var c, t := s.calls[call], Stores(s, call, room, at);
    assert CallOk(encode, s, c);
    StoredIsChecked(encode, s, call, room, at);
    forall st | st in t.stores && st !in s.stores ensures StoreOk(encode, t, st) {
      assert st == Stored(c.domain, c.host, at);
    }
    forall d | d in t.cache && !(d in s.cache && t.cache[d] == s.cache[d]) ensures EntryOk(t, d, t.cache[d]) {
      assert d == c.domain;
    }
    forall f | f in t.fetched && f !in s.fetched ensures FetchedOk(encode, t, f) {
      assert f == Fetched(c.domain, c.rawHex, c.asked, c.host, at);
    }
    Moves(encode, s, t);
  }

  lemma OneMore(room: Cache, domain: string, entry: Entry)
    ensures |room[domain := entry]| <= |room| + 1
  {
    var grown := room[domain := entry];
    assert grown.Keys == room.Keys + {domain};
    assert |grown| == |grown.Keys| && |room| == |room.Keys|;
  }

  lemma LookupKeepsInv(tlds: set<string>, encode: Encoder, s: State, call: nat, domain: string)
    requires Inv(encode, s) && Step(tlds, encode, s, Lookup(call, domain)).Some?
    ensures Inv(encode, Step(tlds, encode, s, Lookup(call, domain)).value)
  {
    var t := Step(tlds, encode, s, Lookup(call, domain)).value;
    if domain in s.cache {
      assert EntryOk(s, domain, s.cache[domain]);
    }
    Moves(encode, s, t);
  }

  /** Deleting entries, whoever stored them, can only lose them. */
  lemma DeletingKeepsInv(encode: Encoder, s: State, t: State)
    requires Inv(encode, s) && s.now == t.now && s.answers == t.answers && s.stores == t.stores
    requires s.hits == t.hits && s.fetched == t.fetched
    requires t.cache.Keys <= s.cache.Keys && forall d :: d in t.cache ==> t.cache[d] == s.cache[d]
    requires forall c :: c in t.calls && !(c in s.calls && t.calls[c] == s.calls[c]) ==> t.calls[c].Missing?
    ensures Inv(encode, t)
  {
    SmallerMap(t.cache, s.cache);
    Moves(encode, s, t);
  }

  lemma StepKeepsInv(tlds: set<string>, encode: Encoder, s: State, a: Action)
    requires "" !in tlds && Inv(encode, s) && Step(tlds, encode, s, a).Some?
    ensures Inv(encode, Step(tlds, encode, s, a).value)
  {
    match a {
      case Tick(to) => Moves(encode, s, s.(now := to));
      case Lookup(call, domain) => LookupKeepsInv(tlds, encode, s, call, domain);
      case Check(call) => CheckKeepsInv(tlds, encode, s, call);
      case Forget(call) => DeletingKeepsInv(encode, s, Step(tlds, encode, s, Forget(call)).value);
      case Ask(call, answer) => AskKeepsInv(tlds, encode, s, call, answer);
      case Store(call, room, storeAt) => StoreKeepsInv(tlds, encode, s, call, room, storeAt);
      case Clean(readAt) => DeletingKeepsInv(encode, s, s.(cache := Live(s.cache, readAt)));
    }
  }

  lemma {:induction false} RunKeepsInv(tlds: set<string>, encode: Encoder, actions: seq<Action>)
    requires "" !in tlds && Run(tlds, encode, actions).Some?
    ensures Inv(encode, Run(tlds, encode, actions).value)
  {
    if actions != [] {
      RunKeepsInv(tlds, encode, actions[..|actions| - 1]);
      StepKeepsInv(tlds, encode, Run(tlds, encode, actions[..|actions| - 1]).value, actions[|actions| - 1]);
    }
  }

  // ----- what every run guarantees -----

  /** The pipeline of ResolveToADNL from a resolver's string to a host. */
  function HostFor(rawHex: string): Option<string> {
    match DecodeResolved(rawHex)
    case Err(_) => None
    case Ok(addr) =>
      match SerializeADNLAddress(addr)
      case Err(_) => None
      case Ok(b32) => Some(b32 + ".adnl")
  }

  /**
   What a host is, without the pipeline: 55 characters that read as an address, prefix and checksum included,
   and the suffix; the address is the one that the chain's string parses to.
   */
  ghost predicate IsHostOf(rawHex: string, host: string) {
    && |host| == 60 && host[55..] == ".adnl"
    && ParseADNLAddress(rawHex).Ok? && ReadADNLAddress(host[..55]) == Some(ParseADNLAddress(rawHex).value)
  }

  /** The pipeline gives that host, and gives one exactly when the string parses. */
  lemma HostForIff(rawHex: string, host: string)
    ensures HostFor(rawHex) == Some(host) <==> IsHostOf(rawHex, host)
    ensures HostFor(rawHex).None? <==> ParseADNLAddress(rawHex).Err?
  {
    if DecodeResolved(rawHex).Ok? {
      var addr := DecodeResolved(rawHex).value;
      ParsersAgree(rawHex, addr);
      var b32 := SerializeADNLAddress(addr).value;
      assert (b32 + ".adnl")[..55] == b32 && (b32 + ".adnl")[55..] == ".adnl";
      ReadingInvertsSerializing(b32, addr);
      if |host| == 60 && host[55..] == ".adnl" {
        assert host == host[..55] + ".adnl";
        ReadingInvertsSerializing(host[..55], addr);
      }
    } else if ParseADNLAddress(rawHex).Ok? {
      ParsersAgree(rawHex, ParseADNLAddress(rawHex).value);
    }
  }

  /** By `time` the chain had given for this domain a string that this is the host of. */
  ghost predicate Given(answers: set<Answer>, domain: string, host: string, time: int) {
    exists a :: a in answers && a.domain == domain && a.time <= time && IsHostOf(a.rawHex, host)
  }

  /**
   Over every run: a host returned from the cache is one that a call really stored for that same domain
   less than five minutes before the clock read that let it through, and at the time of that store the
   chain had given for the domain a string whose address the host spells out.
   */
  lemma CachedHostsAreGenuine(tlds: set<string>, actions: seq<Action>, h: Hit)
    requires "" !in tlds && Run(tlds, HostFor, actions).Some? && h in Run(tlds, HostFor, actions).value.hits
    ensures var s := Run(tlds, HostFor, actions).value;
      exists st :: && st in s.stores && st.domain == h.domain && st.host == h.host
                   && h.clock - 300_000_000_000 < st.at <= h.clock
                   && Given(s.answers, st.domain, st.host, st.at)
  {
    RunKeepsInv(tlds, HostFor, actions);
    var s := Run(tlds, HostFor, actions).value;
    assert HitOk(s.stores, h);
    var st :| && st in s.stores && st.domain == h.domain && st.host == h.host
              && h.clock - RESOLVE_CACHE_TTL < st.at <= h.clock;
    assert StoreOk(HostFor, s, st);
    var a :| a in s.answers && a.domain == st.domain && a.time <= st.at && HostFor(a.rawHex) == Some(st.host);
    HostForIff(a.rawHex, st.host);
    assert Given(s.answers, st.domain, st.host, st.at);
  }

  /** And a host returned after asking the chain spells out the address of the very string it gave. */
  lemma FetchedHostsAreGenuine(tlds: set<string>, actions: seq<Action>, f: Fetched)
    requires "" !in tlds && Run(tlds, HostFor, actions).Some? && f in Run(tlds, HostFor, actions).value.fetched
    ensures var s := Run(tlds, HostFor, actions).value;
      && IsHostOf(f.rawHex, f.host) && f.asked <= f.at && Answer(f.domain, f.rawHex, f.asked) in s.answers
      && Stored(f.domain, f.host, f.at) in s.stores
  {
    RunKeepsInv(tlds, HostFor, actions);
    assert FetchedOk(HostFor, Run(tlds, HostFor, actions).value, f);
    HostForIff(f.rawHex, f.host);
  }

  /** Step k of the run put just this into the cache. */
  ghost predicate StoredAt(tlds: set<string>, encode: Encoder, actions: seq<Action>, st: Stored, k: int)
    requires 0 <= k < |actions|
  {
    var after := Run(tlds, encode, actions[..k + 1]);
    && actions[k].Store? && actions[k].storeAt == st.at && after.Some?
    && st.domain in after.value.cache && after.value.cache[st.domain] == Entry(st.host, st.at + RESOLVE_CACHE_TTL)
  }

  lemma NewStoreIsStep(tlds: set<string>, encode: Encoder, s: State, a: Action, st: Stored)
    requires Step(tlds, encode, s, a).Some? && st in Step(tlds, encode, s, a).value.stores && st !in s.stores
    ensures a.Store? && a.storeAt == st.at
    ensures var cache := Step(tlds, encode, s, a).value.cache;
      st.domain in cache && cache[st.domain] == Entry(st.host, st.at + RESOLVE_CACHE_TTL)
  {
    if a.Store? {
      StoringStep(tlds, encode, s, a.call, a.room, a.storeAt);
    } else {
      OnlyStoringRecords(tlds, encode, s, a);
    }
  }

  lemma OnlyStoringRecords(tlds: set<string>, encode: Encoder, s: State, a: Action)
    requires Step(tlds, encode, s, a).Some? && !a.Store?
    ensures Step(tlds, encode, s, a).value.stores == s.stores
  {
  }

  /** A store is on record only because a step of the run put it into the cache. */
  lemma {:induction false} StoresAreSteps(tlds: set<string>, encode: Encoder, actions: seq<Action>, st: Stored)
    returns (k: nat)
    requires Run(tlds, encode, actions).Some? && st in Run(tlds, encode, actions).value.stores
    ensures k < |actions| && StoredAt(tlds, encode, actions, st, k)
  {
    k := |actions| - 1;
    var before := actions[..k];
    var s := Run(tlds, encode, before).value;
    if st in s.stores {
      k := StoresAreSteps(tlds, encode, before, st);
      assert before[..k + 1] == actions[..k + 1];
    } else {
      assert actions[..k + 1] == actions;
      NewStoreIsStep(tlds, encode, s, actions[k], st);
    }
  }

  /** Two hosts are equal only if the chain's strings name the same address. */
  lemma HostsNameAddresses(a: string, b: string)
    requires HostFor(a).Some? && HostFor(a) == HostFor(b)
    ensures ParseADNLAddress(a).Ok? && ParseADNLAddress(a) == ParseADNLAddress(b)
  {
    var x, y := DecodeResolved(a).value, DecodeResolved(b).value;
    ParsersAgree(a, x);
    ParsersAgree(b, y);
    var s, t := SerializeADNLAddress(x).value, SerializeADNLAddress(y).value;
    assert (s + ".adnl")[..55] == s && (t + ".adnl")[..55] == t;
    SerializingIsInjective(x, y);
  }

  /** Over every run the cache never holds more than one entry above the limit, and never an empty key. */
  lemma CacheStaysBounded(tlds: set<string>, encode: Encoder, actions: seq<Action>)
    requires "" !in tlds && Run(tlds, encode, actions).Some?
    ensures |Run(tlds, encode, actions).value.cache| <= 10001 && "" !in Run(tlds, encode, actions).value.cache
  {
    RunKeepsInv(tlds, encode, actions);
    NoEmptyKey(encode, Run(tlds, encode, actions).value);
  }
}
