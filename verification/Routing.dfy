/** Routing a domain to the resolver of its TLD, and registering the resolvers at start-up. */
module Routing {
  import opened Basics

  type ResolverId = nat

  predicate HasSuffix(s: string, suffix: string) {
    |suffix| <= |s| && s[|s| - |suffix|..] == suffix
  }

  /** Ending in a suffix is being some text followed by it. */
  lemma HasSuffixIff(s: string, suffix: string)
    ensures HasSuffix(s, suffix) <==> exists start :: s == start + suffix
  {
    if HasSuffix(s, suffix) {
      assert s == s[..|s| - |suffix|] + suffix;
    }
    forall start | s == start + suffix ensures HasSuffix(s, suffix) {
    }
  }

  /** A leading dot and no other. */
  predicate WellFormedTld(tld: string) {
    tld != [] && tld[0] == '.' && forall i :: 0 < i < |tld| ==> tld[i] != '.'
  }

  /** The TLDs of the chains that register themselves at start-up. */
  const REGISTRY: seq<string> := [
    ".eth", ".sol", ".btc", ".bnb",
    ".crypto", ".x", ".wallet", ".nft", ".dao", ".blockchain", ".bitcoin", ".zil"]

  lemma RegistryIsWellFormed()
    ensures forall i :: 0 <= i < |REGISTRY| ==> WellFormedTld(REGISTRY[i])
    ensures forall i, j :: 0 <= i < j < |REGISTRY| ==> REGISTRY[i] != REGISTRY[j]
  {
  }

  /** Some order in which a range over the map may visit its keys, each of them once. */
  ghost predicate IterationOrder(order: seq<string>, tlds: set<string>) {
    && (forall tld :: tld in order <==> tld in tlds)
    && forall i, j :: 0 <= i < j < |order| ==> order[i] != order[j]
  }

  /** The first TLD of an order that the domain ends in. */
  ghost function FirstMatch(order: seq<string>, domain: string): Option<string> {
    if order == [] then None
    else if HasSuffix(domain, order[0]) then Some(order[0])
    else FirstMatch(order[1..], domain)
  }

  /** The loop of Resolve: the resolver of the first match in iteration order. */
  method Resolve(resolvers: map<string, ResolverId>, order: seq<string>, domain: string) returns (r: Option<ResolverId>)
    requires IterationOrder(order, resolvers.Keys)
    ensures r == match FirstMatch(order, domain)
                 case None => None
                 case Some(tld) => if tld in resolvers then Some(resolvers[tld]) else None
    ensures r.Some? <==> exists tld :: tld in resolvers && HasSuffix(domain, tld)
    ensures r.Some? ==> exists tld :: tld in resolvers && HasSuffix(domain, tld) && r.value == resolvers[tld]
  {
    for i := 0 to |order|
      invariant forall j :: 0 <= j < i ==> !HasSuffix(domain, order[j])
      invariant FirstMatch(order, domain) == FirstMatch(order[i..], domain)
    {
      if HasSuffix(domain, order[i]) {
        assert order[i] in order;
        return Some(resolvers[order[i]]);
      }
    }
    forall tld | tld in resolvers ensures !HasSuffix(domain, tld) {
      assert tld in order;
    }
    return None;
  }

  /** The loop of Supports. */
  method Supports(resolvers: map<string, ResolverId>, order: seq<string>, domain: string) returns (supported: bool)
    requires IterationOrder(order, resolvers.Keys)
    ensures supported <==> exists tld :: tld in resolvers && HasSuffix(domain, tld)
  {
    for i := 0 to |order|
      invariant forall j :: 0 <= j < i ==> !HasSuffix(domain, order[j])
    {
      if HasSuffix(domain, order[i]) {
        assert order[i] in order;
        return true;
      }
    }
    forall tld | tld in resolvers ensures !HasSuffix(domain, tld) {
      assert tld in order;
    }
    return false;
  }

  /** No registered TLD ends in another one. */
  ghost predicate SuffixFree(tlds: set<string>) {
    forall a, b :: a in tlds && b in tlds && HasSuffix(b, a) ==> a == b
  }

  /** Routing never depends on the order in which the map is visited. */
  ghost predicate OrderIndependent(tlds: set<string>) {
    forall o, p, domain :: IterationOrder(o, tlds) && IterationOrder(p, tlds) ==>
      FirstMatch(o, domain) == FirstMatch(p, domain)
  }

  lemma {:induction false} FirstMatchIsAMatch(order: seq<string>, domain: string)
    ensures var m := FirstMatch(order, domain);
      if m.Some? then m.value in order && HasSuffix(domain, m.value)
      else forall tld :: tld in order ==> !HasSuffix(domain, tld)
  {
    if order != [] {
      FirstMatchIsAMatch(order[1..], domain);
    }
  }

  lemma SuffixesNest(domain: string, a: string, b: string)
    requires HasSuffix(domain, a) && HasSuffix(domain, b) && |a| <= |b|
    ensures HasSuffix(b, a)
  {
    assert b[|b| - |a|..] == domain[|domain| - |a|..];
  }

  lemma {:induction false} SomeOrder(tlds: set<string>) returns (order: seq<string>)
    ensures IterationOrder(order, tlds)
    decreases |tlds|, 1
  {
    if tld :| tld in tlds {
      order := OrderFrom(tlds, tld);
    } else {
      order := [];
    }
  }

  /** A range over the map may begin with any of its keys. */
  lemma {:induction false} OrderFrom(tlds: set<string>, first: string) returns (order: seq<string>)
    requires first in tlds
    ensures IterationOrder(order, tlds) && order[0] == first
    decreases |tlds|, 0
  {
    var rest := SomeOrder(tlds - {first});
    order := [first] + rest;
    forall tld ensures tld in order <==> tld in tlds {
      assert tld in order <==> tld == first || tld in rest;
    }
    assert first !in rest;
  }

  /** Exactly the suffix-free sets of TLDs route every domain the same way in every order. */
  lemma OrderIndependentIffSuffixFree(tlds: set<string>)
    ensures OrderIndependent(tlds) <==> SuffixFree(tlds)
  {
    if SuffixFree(tlds) {
      forall o, p, domain | IterationOrder(o, tlds) && IterationOrder(p, tlds)
        ensures FirstMatch(o, domain) == FirstMatch(p, domain)
      {
        FirstMatchIsAMatch(o, domain);
        FirstMatchIsAMatch(p, domain);
        var m, n := FirstMatch(o, domain), FirstMatch(p, domain);
        if m.Some? && n.Some? {
          if |m.value| <= |n.value| {
            SuffixesNest(domain, m.value, n.value);
          } else {
            SuffixesNest(domain, n.value, m.value);
          }
        }
      }
    } else {
      var a, b :| a in tlds && b in tlds && HasSuffix(b, a) && a != b;
      var o := OrderFrom(tlds, a);
      var p := OrderFrom(tlds, b);
      assert FirstMatch(o, b) == Some(a) && FirstMatch(p, b) == Some(b);
      assert !OrderIndependent(tlds);
    }
  }

  /** Well-formed TLDs are suffix-free, so a domain has at most one resolver. */
  lemma WellFormedTldsAreSuffixFree(tlds: set<string>)
    requires forall tld :: tld in tlds ==> WellFormedTld(tld)
    ensures SuffixFree(tlds)
  {
    forall a, b | a in tlds && b in tlds && HasSuffix(b, a) ensures a == b {
      assert b[|b| - |a|] == a[0] == '.';
      assert |b| == |a|;
    }
  }

  /** The empty domain has no resolver, since no TLD is empty. */
  lemma EmptyDomainIsUnrouted(order: seq<string>, tlds: set<string>)
    requires IterationOrder(order, tlds) && "" !in tlds
    ensures FirstMatch(order, "").None?
  {
    FirstMatchIsAMatch(order, "");
  }

  // ----- InitAll -----

  /** What one goroutine reports for its chain: a resolver, or a warning text. */
  datatype InitResult = InitResult(tld: string, resolver: ResolverId, warning: string)

  datatype ChainConfig = ChainConfig(tld: string, name: string)

  /** What each chain's constructor does when it is called. */
  type Outcomes = ChainConfig -> Result<ResolverId, string>

  /** A chain's initialisation; the error text is formatted behind its name and TLD. */
  function Initialise(cfg: ChainConfig, outcome: Result<ResolverId, string>): (r: InitResult)
    ensures r.warning != "" <==> outcome.Err?
  {
    match outcome
    case Ok(resolver) => InitResult(cfg.tld, resolver, "")
    case Err(error) => InitResult(cfg.tld, 0, cfg.name + " (" + cfg.tld + "): " + error)
  }

  /** The chains that are not disabled, in registry order. */
  ghost function Active(registry: seq<ChainConfig>, disabled: set<string>): seq<ChainConfig> {
    if registry == [] then []
    else
      var before, last := Active(registry[..|registry| - 1], disabled), registry[|registry| - 1];
      if last.tld in disabled then before else before + [last]
  }

  /** The reports of these chains, in registry order. */
  ghost function Reports(active: seq<ChainConfig>, outcomes: Outcomes): seq<InitResult> {
    if active == [] then []
    else
      var last := active[|active| - 1];
      Reports(active[..|active| - 1], outcomes) + [Initialise(last, outcomes(last))]
  }

  /** One text for each chain that fails, in registry order. */
  ghost function FailureTexts(active: seq<ChainConfig>, outcomes: Outcomes): seq<string> {
    if active == [] then []
    else
      var before, last := FailureTexts(active[..|active| - 1], outcomes), active[|active| - 1];
      match outcomes(last)
      case Ok(_) => before
      case Err(error) => before + [last.name + " (" + last.tld + "): " + error]
  }

  /** Registered results and warnings, as a function of the arrival order. */
  ghost function Registered(arrivals: seq<InitResult>): map<string, ResolverId> {
    if arrivals == [] then map[]
    else
      var before, last := Registered(arrivals[..|arrivals| - 1]), arrivals[|arrivals| - 1];
      if last.warning != "" then before else before[last.tld := last.resolver]
  }

  ghost function Warnings(arrivals: seq<InitResult>): seq<string> {
    if arrivals == [] then []
    else
      var before, last := Warnings(arrivals[..|arrivals| - 1]), arrivals[|arrivals| - 1];
      if last.warning != "" then before + [last.warning] else before
  }

  ghost predicate DistinctChains(registry: seq<ChainConfig>) {
    forall i, j :: 0 <= i < j < |registry| ==> registry[i].tld != registry[j].tld
  }

  /** The results that arrive are the active chains' reports, in some order. */
  ghost predicate ArrivalsOf(arrivals: seq<InitResult>, registry: seq<ChainConfig>, disabled: set<string>,
                             outcomes: Outcomes) {
    multiset(arrivals) == multiset(Reports(Active(registry, disabled), outcomes))
  }

  /** A registry entry's resolver is there exactly when its chain is enabled and came up. */
  ghost predicate RegisteredRight(resolvers: map<string, ResolverId>, cfg: ChainConfig, disabled: set<string>,
                                  outcomes: Outcomes) {
    && (cfg.tld in resolvers <==> cfg.tld !in disabled && outcomes(cfg).Ok?)
    && (cfg.tld in resolvers ==> resolvers[cfg.tld] == outcomes(cfg).value)
  }

  /**
   Start-up: filter, start every active chain, collect. With one chain per TLD, every enabled chain is
   registered with its own resolver or leaves its own warning, one warning per failure; a disabled chain
   does neither; and nothing else is registered.
   */
  method InitAll(registry: seq<ChainConfig>, disabled: set<string>, outcomes: Outcomes, arrivals: seq<InitResult>)
    returns (resolvers: map<string, ResolverId>, warnings: seq<string>)
    requires ArrivalsOf(arrivals, registry, disabled, outcomes)
    ensures resolvers == Registered(arrivals) && warnings == Warnings(arrivals)
    ensures multiset(warnings) == multiset(FailureTexts(Active(registry, disabled), outcomes))
    ensures DistinctChains(registry) ==>
      && (forall cfg :: cfg in registry ==> RegisteredRight(resolvers, cfg, disabled, outcomes))
      && (forall tld :: tld in resolvers ==> exists cfg :: cfg in registry && cfg.tld == tld)
      && |resolvers| + |warnings| == |Active(registry, disabled)|
  {
    var active := FilterActive(registry, disabled);
    ReportsSize(active, outcomes);
    assert |arrivals| == |multiset(arrivals)| == |active|;
    resolvers, warnings := Collect(arrivals);
    WarningsFollowMultiset(arrivals, Reports(active, outcomes));
    WarningsAreFailures(active, outcomes);
    if DistinctChains(registry) {
      EveryChainIsAccountedFor(registry, disabled, outcomes, arrivals);
    }
  }

  method FilterActive(registry: seq<ChainConfig>, disabled: set<string>) returns (active: seq<ChainConfig>)
    ensures active == Active(registry, disabled)
  {
    active := [];
    for i := 0 to |registry|
      invariant active == Active(registry[..i], disabled)
    {
      assert registry[..i + 1][..i] == registry[..i];
      if registry[i].tld !in disabled {
        active := active + [registry[i]];
      }
    }
    assert registry[..|registry|] == registry;
  }

  /** The collecting loop over the results in the order they arrive. */
  method Collect(arrivals: seq<InitResult>) returns (resolvers: map<string, ResolverId>, warnings: seq<string>)
    ensures resolvers == Registered(arrivals) && warnings == Warnings(arrivals)
  {
    resolvers, warnings := map[], [];
    for i := 0 to |arrivals|
      invariant resolvers == Registered(arrivals[..i]) && warnings == Warnings(arrivals[..i])
    {
      assert arrivals[..i + 1][..i] == arrivals[..i];
      var res := arrivals[i];
      if res.warning != "" {
        warnings := warnings + [res.warning];
        continue;
      }
      resolvers := resolvers[res.tld := res.resolver];
    }
    assert arrivals[..|arrivals|] == arrivals;
  }

  ghost predicate DistinctTlds(arrivals: seq<InitResult>) {
    forall i, j :: 0 <= i < j < |arrivals| ==> arrivals[i].tld != arrivals[j].tld
  }

  lemma {:induction false} RegisteredMeans(arrivals: seq<InitResult>, tld: string)
    requires DistinctTlds(arrivals)
    ensures tld in Registered(arrivals) <==> exists r :: r in arrivals && r.tld == tld && r.warning == ""
    ensures forall r :: r in arrivals && r.tld == tld && r.warning == "" ==>
      tld in Registered(arrivals) && Registered(arrivals)[tld] == r.resolver
  {
    if arrivals != [] {
      var before, last := arrivals[..|arrivals| - 1], arrivals[|arrivals| - 1];
      RegisteredMeans(before, tld);
      assert arrivals == before + [last];
    }
  }

  /** One registration or one warning per result. */
  lemma {:induction false} EveryResultIsCounted(arrivals: seq<InitResult>)
    requires DistinctTlds(arrivals)
    ensures |Registered(arrivals)| + |Warnings(arrivals)| == |arrivals|
  {
    if arrivals != [] {
      var before, last := arrivals[..|arrivals| - 1], arrivals[|arrivals| - 1];
      EveryResultIsCounted(before);
      RegisteredMeans(before, last.tld);
      assert forall r :: r in before ==> r.tld != last.tld;
    }
  }

  lemma {:induction false} ActiveMeans(registry: seq<ChainConfig>, disabled: set<string>)
    ensures forall cfg :: cfg in Active(registry, disabled) <==> cfg in registry && cfg.tld !in disabled
    ensures DistinctChains(registry) ==> DistinctChains(Active(registry, disabled))
  {
    if registry != [] {
      var before, last := registry[..|registry| - 1], registry[|registry| - 1];
      ActiveMeans(before, disabled);
      assert registry == before + [last];
      if DistinctChains(registry) {
        assert DistinctChains(before);
        assert forall cfg :: cfg in before ==> cfg.tld != last.tld;
      }
    }
  }

  lemma {:induction false} ReportsSize(active: seq<ChainConfig>, outcomes: Outcomes)
    ensures |Reports(active, outcomes)| == |active|
    ensures forall i :: 0 <= i < |active| ==> Reports(active, outcomes)[i] == Initialise(active[i], outcomes(active[i]))
  {
    if active != [] {
      ReportsSize(active[..|active| - 1], outcomes);
    }
  }

  lemma {:induction false} WarningsAreFailures(active: seq<ChainConfig>, outcomes: Outcomes)
    ensures Warnings(Reports(active, outcomes)) == FailureTexts(active, outcomes)
  {
    if active != [] {
      var before, last := active[..|active| - 1], active[|active| - 1];
      WarningsAreFailures(before, outcomes);
      var reports := Reports(active, outcomes);
      assert reports[..|reports| - 1] == Reports(before, outcomes);
    }
  }

  /** A result that arrives twice was reported twice. */
  lemma DistinctInAnyOrder(a: seq<InitResult>, b: seq<InitResult>)
    requires multiset(a) == multiset(b) && DistinctTlds(a)
    ensures DistinctTlds(b)
  {
    forall i, j | 0 <= i < j < |b| ensures b[i].tld != b[j].tld {
      assert b[i] in multiset(b) && b[j] in multiset(b);
      assert b[i] in a && b[j] in a;
      if b[i] == b[j] {
        assert b == b[..j] + b[j..] && b[i] in multiset(b[..j]) && b[j] in multiset(b[j..]);
        AtMostOnce(a, b[i]);
        assert false;
      }
    }
  }

  lemma {:induction false} AtMostOnce(a: seq<InitResult>, r: InitResult)
    requires DistinctTlds(a)
    ensures multiset(a)[r] <= 1
  {
    if a != [] {
      var before, last := a[..|a| - 1], a[|a| - 1];
      assert a == before + [last];
      AtMostOnce(before, r);
      if r == last {
        assert last !in before;
      }
    }
  }

  /**
   For every registry with one chain per TLD, every disabled set, every outcome of every chain and every
   completion order: each chain is registered with its own resolver exactly when it is enabled and came
   up, nothing else is registered, and registrations and warnings add up to the active chains.
   */
  lemma EveryChainIsAccountedFor(registry: seq<ChainConfig>, disabled: set<string>, outcomes: Outcomes,
                                 arrivals: seq<InitResult>)
    requires DistinctChains(registry) && ArrivalsOf(arrivals, registry, disabled, outcomes)
    ensures forall cfg :: cfg in registry ==> RegisteredRight(Registered(arrivals), cfg, disabled, outcomes)
    ensures forall tld :: tld in Registered(arrivals) ==> exists cfg :: cfg in registry && cfg.tld == tld
    ensures |Registered(arrivals)| + |Warnings(arrivals)| == |Active(registry, disabled)|
    ensures multiset(Warnings(arrivals)) == multiset(FailureTexts(Active(registry, disabled), outcomes))
  {
    var active := Active(registry, disabled);
    var reports := Reports(active, outcomes);
    ActiveMeans(registry, disabled);
    ReportsSize(active, outcomes);
    DistinctInAnyOrder(reports, arrivals);
    EveryResultIsCounted(arrivals);
    assert |arrivals| == |multiset(arrivals)| == |reports|;
    WarningsAreFailures(active, outcomes);
    WarningsFollowMultiset(arrivals, reports);
    forall cfg | cfg in registry ensures RegisteredRight(Registered(arrivals), cfg, disabled, outcomes) {
      ChainIsRegisteredRight(registry, disabled, outcomes, arrivals, cfg);
    }
    forall tld | tld in Registered(arrivals) ensures exists cfg :: cfg in registry && cfg.tld == tld {
      RegisteredMeans(arrivals, tld);
      var r :| r in arrivals && r.tld == tld && r.warning == "";
      var k := ReporterOf(active, outcomes, arrivals, r);
      assert active[k] in registry && active[k].tld == tld;
    }
  }

  /** Whose result this is. */
  lemma ReporterOf(active: seq<ChainConfig>, outcomes: Outcomes, arrivals: seq<InitResult>, r: InitResult)
    returns (k: nat)
    requires multiset(arrivals) == multiset(Reports(active, outcomes)) && r in arrivals
    ensures k < |active| && r == Initialise(active[k], outcomes(active[k])) && active[k] in active
  {
    ReportsSize(active, outcomes);
    assert r in multiset(arrivals);
    k :| 0 <= k < |active| && Reports(active, outcomes)[k] == r;
  }

  lemma ChainIsRegisteredRight(registry: seq<ChainConfig>, disabled: set<string>, outcomes: Outcomes,
                               arrivals: seq<InitResult>, cfg: ChainConfig)
    requires DistinctChains(registry) && ArrivalsOf(arrivals, registry, disabled, outcomes) && DistinctTlds(arrivals)
    requires cfg in registry
    ensures RegisteredRight(Registered(arrivals), cfg, disabled, outcomes)
  {
    var active := Active(registry, disabled);
    ActiveMeans(registry, disabled);
    ReportsSize(active, outcomes);
    RegisteredMeans(arrivals, cfg.tld);
    if cfg.tld in Registered(arrivals) {
      var r :| r in arrivals && r.tld == cfg.tld && r.warning == "";
      var k := ReporterOf(active, outcomes, arrivals, r);
      assert active[k] in registry && active[k].tld == cfg.tld;
      assert active[k] == cfg;
    }
    if cfg in active && outcomes(cfg).Ok? {
      var k :| 0 <= k < |active| && active[k] == cfg;
      var r := Reports(active, outcomes)[k];
      assert r in multiset(Reports(active, outcomes));
      assert r in multiset(arrivals);
    }
  }

  /** Chains with different TLDs end up registered the same way in every completion order. */
  lemma CompletionOrderDoesNotMatter(a: seq<InitResult>, b: seq<InitResult>)
    requires multiset(a) == multiset(b) && DistinctTlds(a)
    ensures Registered(a) == Registered(b)
    ensures multiset(Warnings(a)) == multiset(Warnings(b))
  {
    DistinctInAnyOrder(a, b);
    forall r ensures r in a <==> r in b {
      assert r in multiset(a) <==> r in multiset(b);
    }
    forall tld ensures tld in Registered(a) <==> tld in Registered(b) {
      RegisteredMeans(a, tld);
      RegisteredMeans(b, tld);
    }
    forall tld | tld in Registered(a) ensures Registered(a)[tld] == Registered(b)[tld] {
      RegisteredMeans(a, tld);
      RegisteredMeans(b, tld);
    }
    WarningsFollowMultiset(a, b);
  }

  lemma {:induction false} WarningsSplit(a: seq<InitResult>, b: seq<InitResult>)
    ensures Warnings(a + b) == Warnings(a) + Warnings(b)
  {
    if b == [] {
      assert a + b == a;
    } else {
      WarningsSplit(a, b[..|b| - 1]);
      var ab := a + b;
      assert ab[..|ab| - 1] == a + b[..|b| - 1] && ab[|ab| - 1] == b[|b| - 1];
    }
  }

  ghost function Bag(r: InitResult): multiset<string> {
    if r.warning != "" then multiset{r.warning} else multiset{}
  }

  lemma WarningsAround(p: seq<InitResult>, r: InitResult, q: seq<InitResult>)
    ensures multiset(Warnings(p + [r] + q)) == multiset(Warnings(p + q)) + Bag(r)
  {
    WarningsSplit(p + [r], q);
    WarningsSplit(p, [r]);
    WarningsSplit(p, q);
    assert [r][..0] == [];
  }

  /** One occurrence of a result, and what is around it. */
  lemma Around(b: seq<InitResult>, r: InitResult) returns (p: seq<InitResult>, q: seq<InitResult>)
    requires r in multiset(b)
    ensures b == p + [r] + q && multiset(p + q) == multiset(b) - multiset{r}
  {
    var k :| 0 <= k < |b| && b[k] == r;
    p, q := b[..k], b[k + 1..];
    assert b == p + [r] + q;
  }

  lemma {:induction false} WarningsFollowMultiset(a: seq<InitResult>, b: seq<InitResult>)
    requires multiset(a) == multiset(b)
    ensures multiset(Warnings(a)) == multiset(Warnings(b))
    decreases |a|
  {
    if a == [] {
      assert |multiset(b)| == 0;
    } else {
      var before, last := a[..|a| - 1], a[|a| - 1];
      assert a == before + [last];
      var p, q := Around(b, last);
      WarningsFollowMultiset(before, p + q);
      WarningsAround(before, last, []);
      WarningsAround(p, last, q);
      assert before + [] == before && before + [last] + [] == a;
    }
  }
}
