/** Choosing three different relays from the community directory. */
module RelayDirectory {
  import opened Basics
  import opened AdnlHex
  import CircuitBuild

  type RelayInfo = CircuitBuild.RelayInfo

  datatype Relay = Relay(name: string, pubkey: string, address: string, roles: seq<string>)

  const MAX_ATTEMPTS := 100

  /** A random 64-bit read; a failed read gives 0. */
  type Draws = nat -> nat

  method HasRole(relay: Relay, role: string) returns (found: bool)
    ensures found <==> role in relay.roles
  {
    for i := 0 to |relay.roles|
      invariant role !in relay.roles[..i]
    {
      if relay.roles[i] == role {
        return true;
      }
    }
    return false;
  }

  /** The relays with a role, in directory order. */
  ghost function WithRole(relays: seq<Relay>, role: string): seq<Relay> {
    if relays == [] then []
    else
      var rest := WithRole(relays[..|relays| - 1], role);
      if role in relays[|relays| - 1].roles then rest + [relays[|relays| - 1]] else rest
  }

  method FilterByRole(relays: seq<Relay>, role: string) returns (result: seq<Relay>)
    ensures result == WithRole(relays, role)
    ensures forall r :: r in result <==> r in relays && role in r.roles
  {
    result := [];
    for i := 0 to |relays|
      invariant result == WithRole(relays[..i], role)
    {
      assert relays[..i + 1][..i] == relays[..i];
      var has := HasRole(relays[i], role);
      if has {
        result := result + [relays[i]];
      }
    }
    assert relays[..|relays|] == relays;
    WithRoleMembers(relays, role);
  }

  lemma {:induction false} WithRoleMembers(relays: seq<Relay>, role: string)
    ensures forall r :: r in WithRole(relays, role) <==> r in relays && role in r.roles
  {
    if relays != [] {
      var before, last := relays[..|relays| - 1], relays[|relays| - 1];
      WithRoleMembers(before, role);
      assert relays == before + [last];
    }
  }

  /** The candidate's index is the residue of the draw, so draws a multiple of n apart pick the same one. */
  function RandInt(draw: nat, n: nat): (k: nat)
    ensures n > 0 ==> k < n && exists turns: nat :: draw == n * turns + k
  {
    if n == 0 then 0
    else
      assert draw == n * (draw / n) + draw % n;
      draw % n
  }

  datatype SelectError = NoEntry | NoMiddle | NoExit | TooFewMiddles | TooFewExits

  datatype Triple = Triple(entry: Relay, middle: Relay, exit: Relay)

  /** Roles held, taken from the directory, and three different key strings. */
  ghost predicate Suitable(relays: seq<Relay>, t: Triple) {
    && t.entry in relays && "entry" in t.entry.roles
    && t.middle in relays && "middle" in t.middle.roles
    && t.exit in relays && "exit" in t.exit.roles
    && t.entry.pubkey != t.middle.pubkey && t.entry.pubkey != t.exit.pubkey && t.middle.pubkey != t.exit.pubkey
  }

  /** The candidate an attempt draws. */
  function Drawn(candidates: seq<Relay>, draw: nat): Relay
    requires candidates != []
  {
    candidates[RandInt(draw, |candidates|)]
  }

  /** All the attempts from `from` on draw a relay whose key is taken. */
  ghost predicate AllTaken(candidates: seq<Relay>, draws: Draws, from: nat, taken: set<string>)
    requires candidates != []
  {
    forall i :: from <= i < from + MAX_ATTEMPTS ==> Drawn(candidates, draws(i)).pubkey in taken
  }

  /** Of the attempts from `from` on, the one at `at` is the first to draw an untaken key. */
  ghost predicate FirstUntaken(candidates: seq<Relay>, draws: Draws, from: nat, taken: set<string>, at: nat)
    requires candidates != []
  {
    && from <= at < from + MAX_ATTEMPTS
    && Drawn(candidates, draws(at)).pubkey !in taken
    && forall i :: from <= i < at ==> Drawn(candidates, draws(i)).pubkey in taken
  }

  /**
   The retry loop: up to 100 draws until one has an untaken key. The last draw is kept either way; `used`
   is the number of draws made.
   */
  method DrawUntaken(candidates: seq<Relay>, draws: Draws, from: nat, taken: set<string>)
    returns (relay: Relay, used: nat)
    requires candidates != []
    ensures relay in candidates && 1 <= used <= MAX_ATTEMPTS
    ensures relay == Drawn(candidates, draws(from + used - 1))
    ensures relay.pubkey in taken <==> AllTaken(candidates, draws, from, taken)
    ensures relay.pubkey in taken ==> used == MAX_ATTEMPTS
    ensures relay.pubkey !in taken ==> FirstUntaken(candidates, draws, from, taken, from + used - 1)
  {
    relay := Drawn(candidates, draws(from));
    used := 0;
    while used < MAX_ATTEMPTS
      invariant 0 <= used <= MAX_ATTEMPTS
      invariant used > 0 ==> relay == Drawn(candidates, draws(from + used - 1))
      invariant relay in candidates
      invariant forall i :: from <= i < from + used ==> Drawn(candidates, draws(i)).pubkey in taken
    {
      relay := Drawn(candidates, draws(from + used));
      used := used + 1;
      if relay.pubkey !in taken {
        break;
      }
    }
  }

  lemma NoneUntaken(candidates: seq<Relay>, draws: Draws, from: nat, taken: set<string>, at: nat)
    requires candidates != [] && AllTaken(candidates, draws, from, taken)
    ensures !FirstUntaken(candidates, draws, from, taken, at)
  {
  }

  lemma OnlyOneFirst(candidates: seq<Relay>, draws: Draws, from: nat, taken: set<string>, at: nat, other: nat)
    requires candidates != [] && FirstUntaken(candidates, draws, from, taken, at)
    ensures !AllTaken(candidates, draws, from, taken)
    ensures FirstUntaken(candidates, draws, from, taken, other) ==> other == at
  {
  }

  /** Some relay for every role. */
  ghost predicate Staffed(relays: seq<Relay>) {
    WithRole(relays, "entry") != [] && WithRole(relays, "middle") != [] && WithRole(relays, "exit") != []
  }

  /** The entry is whatever the first draw picks. */
  ghost function EntryDrawn(relays: seq<Relay>, draws: Draws): Relay
    requires Staffed(relays)
  {
    Drawn(WithRole(relays, "entry"), draws(0))
  }

  /** No attempt at a middle avoids the entry's key. */
  ghost predicate MiddlesTaken(relays: seq<Relay>, draws: Draws)
    requires Staffed(relays)
  {
    AllTaken(WithRole(relays, "middle"), draws, 1, {EntryDrawn(relays, draws).pubkey})
  }

  /** The middle is settled by the draw at `at`. */
  ghost predicate MiddleAt(relays: seq<Relay>, draws: Draws, at: nat)
    requires Staffed(relays)
  {
    FirstUntaken(WithRole(relays, "middle"), draws, 1, {EntryDrawn(relays, draws).pubkey}, at)
  }

  ghost function BothKeys(relays: seq<Relay>, draws: Draws, at: nat): set<string>
    requires Staffed(relays)
  {
    {EntryDrawn(relays, draws).pubkey, Drawn(WithRole(relays, "middle"), draws(at)).pubkey}
  }

  /** The middle is settled by the draw at `at`, and no attempt at an exit after it avoids both keys. */
  ghost predicate ExitsTaken(relays: seq<Relay>, draws: Draws, at: nat)
    requires Staffed(relays)
  {
    && MiddleAt(relays, draws, at)
    && AllTaken(WithRole(relays, "exit"), draws, at + 1, BothKeys(relays, draws, at))
  }

  /** The triple these draws pick: the middle with draw `at`, the exit with draw `last`. */
  ghost predicate Picks(relays: seq<Relay>, draws: Draws, t: Triple, at: nat, last: nat) {
    && Staffed(relays) && MiddleAt(relays, draws, at)
    && FirstUntaken(WithRole(relays, "exit"), draws, at + 1, BothKeys(relays, draws, at), last)
    && t.entry == EntryDrawn(relays, draws)
    && t.middle == Drawn(WithRole(relays, "middle"), draws(at))
    && t.exit == Drawn(WithRole(relays, "exit"), draws(last))
  }

  ghost predicate Selected(relays: seq<Relay>, draws: Draws, t: Triple) {
    exists at, last :: Picks(relays, draws, t, at, last)
  }

  /**
   These draws select at most the one triple, it is returned, and every failure has its exact cause: a
   role nobody holds, or 100 draws after the earlier choices that all hit a taken key.
   */
  method SelectCircuit(relays: seq<Relay>, draws: Draws) returns (r: Result<Triple, SelectError>)
    ensures r.Ok? ==> Suitable(relays, r.value)
    ensures forall t :: Selected(relays, draws, t) <==> r == Ok(t)
    ensures r == Err(NoEntry) <==> WithRole(relays, "entry") == []
    ensures r == Err(NoMiddle) <==> WithRole(relays, "entry") != [] && WithRole(relays, "middle") == []
    ensures r == Err(NoExit) <==>
      WithRole(relays, "entry") != [] && WithRole(relays, "middle") != [] && WithRole(relays, "exit") == []
    ensures r == Err(TooFewMiddles) <==> Staffed(relays) && MiddlesTaken(relays, draws)
    ensures r == Err(TooFewExits) <==> Staffed(relays) && exists at :: ExitsTaken(relays, draws, at)
  {
    var entries := FilterByRole(relays, "entry");
    var middles := FilterByRole(relays, "middle");
    var exits := FilterByRole(relays, "exit");
    if |entries| == 0 {
      return Err(NoEntry);
    }
    if |middles| == 0 {
      return Err(NoMiddle);
    }
    if |exits| == 0 {
      return Err(NoExit);
    }
    var entry := Drawn(entries, draws(0));
    var middle, usedMiddle := DrawUntaken(middles, draws, 1, {entry.pubkey});
    if middle.pubkey == entry.pubkey {
      NoMiddleLeft(relays, draws);
      return Err(TooFewMiddles);
    }
    ghost var at := usedMiddle;
    MiddleIsSettled(relays, draws, at);
    var exit, usedExit := DrawUntaken(exits, draws, 1 + usedMiddle, {entry.pubkey, middle.pubkey});
    if exit.pubkey == entry.pubkey || exit.pubkey == middle.pubkey {
      assert ExitsTaken(relays, draws, at);
      return Err(TooFewExits);
    }
    assert Picks(relays, draws, Triple(entry, middle, exit), at, at + usedExit);
    PicksOnce(relays, draws, Triple(entry, middle, exit), at, at + usedExit);
    SelectedIsSuitable(relays, draws, Triple(entry, middle, exit));
    return Ok(Triple(entry, middle, exit));
  }

  lemma NoMiddleLeft(relays: seq<Relay>, draws: Draws)
    requires Staffed(relays) && MiddlesTaken(relays, draws)
    ensures forall at :: !MiddleAt(relays, draws, at)
    ensures forall t :: !Selected(relays, draws, t)
  {
    forall at ensures !MiddleAt(relays, draws, at) {
      NoneUntaken(WithRole(relays, "middle"), draws, 1, {EntryDrawn(relays, draws).pubkey}, at);
    }
  }

  /** Once the middle is settled, only this draw settled it, and whether an exit follows depends on it. */
  lemma MiddleIsSettled(relays: seq<Relay>, draws: Draws, at: nat)
    requires Staffed(relays) && MiddleAt(relays, draws, at)
    ensures !MiddlesTaken(relays, draws)
    ensures forall other :: ExitsTaken(relays, draws, other) ==> other == at
    ensures ExitsTaken(relays, draws, at) ==> forall t :: !Selected(relays, draws, t)
  {
    var taken := {EntryDrawn(relays, draws).pubkey};
    OnlyOneFirst(WithRole(relays, "middle"), draws, 1, taken, at, at);
    forall other | MiddleAt(relays, draws, other) ensures other == at {
      OnlyOneFirst(WithRole(relays, "middle"), draws, 1, taken, at, other);
    }
    forall t, last: nat | Picks(relays, draws, t, at, last) ensures !ExitsTaken(relays, draws, at) {
      OnlyOneFirst(WithRole(relays, "exit"), draws, at + 1, BothKeys(relays, draws, at), last, last);
    }
  }

  lemma PicksOnce(relays: seq<Relay>, draws: Draws, t: Triple, at: nat, last: nat)
    requires Picks(relays, draws, t, at, last)
    ensures !MiddlesTaken(relays, draws) && forall other :: !ExitsTaken(relays, draws, other)
    ensures forall u :: Selected(relays, draws, u) <==> u == t
  {
    MiddleIsSettled(relays, draws, at);
    assert Selected(relays, draws, t);
    forall u, a, l | Picks(relays, draws, u, a, l) ensures u == t {
      OnlyOneFirst(WithRole(relays, "middle"), draws, 1, {EntryDrawn(relays, draws).pubkey}, at, a);
      OnlyOneFirst(WithRole(relays, "exit"), draws, at + 1, BothKeys(relays, draws, at), last, l);
    }
  }

  lemma SelectedIsSuitable(relays: seq<Relay>, draws: Draws, t: Triple)
    requires Selected(relays, draws, t)
    ensures Suitable(relays, t)
  {
    var at, last :| Picks(relays, draws, t, at, last);
    WithRoleMembers(relays, "entry");
    WithRoleMembers(relays, "middle");
    WithRoleMembers(relays, "exit");
    assert t.entry in WithRole(relays, "entry");
    assert t.middle in WithRole(relays, "middle");
    assert t.exit in WithRole(relays, "exit");
  }

  /** The draw that picks a candidate. */
  lemma DrawFor(candidates: seq<Relay>, relay: Relay) returns (draw: nat)
    requires relay in candidates
    ensures Drawn(candidates, draw) == relay
  {
    draw :| 0 <= draw < |candidates| && candidates[draw] == relay;
  }

  lemma DrawsFor(relays: seq<Relay>, t: Triple) returns (draws: Draws)
    requires Suitable(relays, t)
    ensures Selected(relays, draws, t)
  {
    WithRoleMembers(relays, "entry");
    WithRoleMembers(relays, "middle");
    WithRoleMembers(relays, "exit");
    var e := DrawFor(WithRole(relays, "entry"), t.entry);
    var m := DrawFor(WithRole(relays, "middle"), t.middle);
    var x := DrawFor(WithRole(relays, "exit"), t.exit);
    draws := i => if i == 0 then e else if i == 1 then m else x;
    assert Picks(relays, draws, t, 1, 2);
  }

  /** What draws can select is exactly what is suitable: nothing else, and nothing suitable is out of reach. */
  lemma SelectableIffSuitable(relays: seq<Relay>, t: Triple)
    ensures Suitable(relays, t) <==> exists draws: Draws :: Selected(relays, draws, t)
  {
    if Suitable(relays, t) {
      var draws := DrawsFor(relays, t);
    }
    forall draws: Draws | Selected(relays, draws, t) ensures Suitable(relays, t) {
      SelectedIsSuitable(relays, draws, t);
    }
  }

  function ToRelayInfo(relay: Relay): Option<RelayInfo> {
    match DecodeString(relay.pubkey)
    case None => None
    case Some(key) => if |key| != 32 then None else Some(CircuitBuild.RelayInfo(relay.address, key))
  }

  /** The info has the relay's own address, and the 32 bytes its key text spells out, in either case. */
  lemma ToRelayInfoIff(relay: Relay, info: RelayInfo)
    ensures ToRelayInfo(relay) == Some(info) <==>
      && info.address == relay.address && |info.publicKey| == 32
      && Lower(relay.pubkey) == EncodeToString(info.publicKey)
  {
    DecodesToExactly(relay.pubkey, info.publicKey);
  }

  /** The retries give up after exactly 100 draws. */
  lemma HundredDraws(candidates: seq<Relay>, draws: Draws, from: nat, taken: set<string>)
    requires candidates != []
    ensures AllTaken(candidates, draws, from, taken) <==>
      forall i :: from <= i < from + 100 ==> Drawn(candidates, draws(i)).pubkey in taken
    ensures (exists at :: FirstUntaken(candidates, draws, from, taken, at)) <==>
      exists i :: from <= i < from + 100 && Drawn(candidates, draws(i)).pubkey !in taken
  {
    if !AllTaken(candidates, draws, from, taken) {
      var at := FirstFrom(candidates, draws, from, taken, from);
    }
  }

  lemma {:induction false} FirstFrom(candidates: seq<Relay>, draws: Draws, from: nat, taken: set<string>, at: nat)
    returns (found: nat)
    requires candidates != [] && !AllTaken(candidates, draws, from, taken) && from <= at <= from + 100
    requires forall i :: from <= i < at ==> Drawn(candidates, draws(i)).pubkey in taken
    ensures FirstUntaken(candidates, draws, from, taken, found)
    decreases from + 100 - at
  {
    if Drawn(candidates, draws(at)).pubkey !in taken && at < from + 100 {
      found := at;
    } else {
      found := FirstFrom(candidates, draws, from, taken, at + 1);
    }
  }

  ghost predicate WellFormed(t: Triple) {
    ToRelayInfo(t.entry).Some? && ToRelayInfo(t.middle).Some? && ToRelayInfo(t.exit).Some?
  }

  /** The infos of the triple's relays, in path order. */
  ghost function Infos(t: Triple): (infos: seq<RelayInfo>)
    requires WellFormed(t)
    ensures |infos| == 3
    ensures infos[0].address == t.entry.address && infos[1].address == t.middle.address
            && infos[2].address == t.exit.address
  {
    [ToRelayInfo(t.entry).value, ToRelayInfo(t.middle).value, ToRelayInfo(t.exit).value]
  }

  /**
   The three relays as the client takes them, in path order. `None` exactly when no triple was selected or
   a key of the selected one is malformed.
   */
  method SelectCircuitRelays(relays: seq<Relay>, draws: Draws) returns (infos: Option<seq<RelayInfo>>)
    ensures infos.Some? <==> exists t :: Selected(relays, draws, t) && WellFormed(t)
    ensures infos.Some? ==>
      exists t :: Suitable(relays, t) && Selected(relays, draws, t) && WellFormed(t) && infos.value == Infos(t)
  {
    var r := SelectCircuit(relays, draws);
    if r.Err? {
      return None;
    }
    assert forall t :: Selected(relays, draws, t) ==> t == r.value;
    var entryInfo := ToRelayInfo(r.value.entry);
    var middleInfo := ToRelayInfo(r.value.middle);
    var exitInfo := ToRelayInfo(r.value.exit);
    if entryInfo.None? || middleInfo.None? || exitInfo.None? {
      return None;
    }
    assert Selected(relays, draws, r.value) && WellFormed(r.value);
    return Some([entryInfo.value, middleInfo.value, exitInfo.value]);
  }

  /** Two well-formed keys are one relay key exactly when they are equal up to letter case. */
  lemma SameKeyIffSameLowerCase(a: Relay, b: Relay)
    requires ToRelayInfo(a).Some? && ToRelayInfo(b).Some?
    ensures ToRelayInfo(a).value.publicKey == ToRelayInfo(b).value.publicKey <==> Lower(a.pubkey) == Lower(b.pubkey)
  {
    var x, y := DecodeString(a.pubkey).value, DecodeString(b.pubkey).value;
    DecodesToExactly(a.pubkey, x);
    DecodesToExactly(b.pubkey, y);
    DecodesToExactly(a.pubkey, y);
  }

  /** Written in lower case only. */
  ghost predicate Canonical(relays: seq<Relay>) {
    forall r :: r in relays ==> Lower(r.pubkey) == r.pubkey
  }

  /** No two of the three are one relay written in two letter cases. */
  ghost predicate DifferBeyondCase(t: Triple) {
    && Lower(t.entry.pubkey) != Lower(t.middle.pubkey)
    && Lower(t.entry.pubkey) != Lower(t.exit.pubkey)
    && Lower(t.middle.pubkey) != Lower(t.exit.pubkey)
  }

  ghost predicate DistinctKeys(infos: seq<RelayInfo>) {
    forall i, j :: 0 <= i < j < |infos| ==> infos[i].publicKey != infos[j].publicKey
  }

  lemma DistinctKeysIffBeyondCase(t: Triple)
    requires WellFormed(t)
    ensures DistinctKeys(Infos(t)) <==> DifferBeyondCase(t)
  {
    SameKeyIffSameLowerCase(t.entry, t.middle);
    SameKeyIffSameLowerCase(t.entry, t.exit);
    SameKeyIffSameLowerCase(t.middle, t.exit);
    if DistinctKeys(Infos(t)) {
      var infos := Infos(t);
      assert infos[0].publicKey != infos[1].publicKey && infos[0].publicKey != infos[2].publicKey
          && infos[1].publicKey != infos[2].publicKey;
    }
  }

  /** No suitable triple of well-formed keys has one relay twice; this is a property of the directory alone. */
  ghost predicate CaseSafe(relays: seq<Relay>) {
    forall t :: Suitable(relays, t) && WellFormed(t) ==> DifferBeyondCase(t)
  }

  /** Whatever is drawn, a selection that succeeds has three different decoded keys: exactly for such directories. */
  lemma AlwaysDistinctIffCaseSafe(relays: seq<Relay>)
    ensures CaseSafe(relays) <==>
      forall draws: Draws, t :: Selected(relays, draws, t) && WellFormed(t) ==> DistinctKeys(Infos(t))
  {
    forall draws: Draws, t | CaseSafe(relays) && Selected(relays, draws, t) && WellFormed(t)
      ensures DistinctKeys(Infos(t))
    {
      SelectableIffSuitable(relays, t);
      DistinctKeysIffBeyondCase(t);
    }
    if t :| Suitable(relays, t) && WellFormed(t) && !DifferBeyondCase(t) {
      SelectableIffSuitable(relays, t);
      DistinctKeysIffBeyondCase(t);
      var draws: Draws :| Selected(relays, draws, t);
    }
  }

  /** Directories with canonical keys are such: there a suitable triple has three different decoded keys. */
  lemma CanonicalTriplesAreDistinct(relays: seq<Relay>, t: Triple)
    requires Canonical(relays) && Suitable(relays, t) && WellFormed(t)
    ensures CaseSafe(relays) && DistinctKeys(Infos(t))
  {
    DistinctKeysIffBeyondCase(t);
  }

  /**
   The string comparison does not see letter case: in this directory, where the middle is the entry's key in
   lower case, every sequence of draws selects that relay for both.
   */
  lemma MixedCaseRelayIsPickedTwice(relay: Relay, twin: Relay, exit: Relay, draws: Draws)
    requires ToRelayInfo(relay).Some? && relay.roles == ["entry"] && twin.roles == ["middle"] && exit.roles == ["exit"]
    requires twin.pubkey == Lower(relay.pubkey) != relay.pubkey
    requires exit.pubkey != relay.pubkey && exit.pubkey != twin.pubkey
    ensures Selected([relay, twin, exit], draws, Triple(relay, twin, exit))
    ensures ToRelayInfo(twin).Some? && ToRelayInfo(twin).value.publicKey == ToRelayInfo(relay).value.publicKey
  {
    var key := DecodeString(relay.pubkey).value;
    DecodesToExactly(relay.pubkey, key);
    assert Lower(twin.pubkey) == twin.pubkey;
    DecodesToExactly(twin.pubkey, key);
    OneOfEach(relay, twin, exit);
    OnlyCandidatesAreSelected([relay, twin, exit], Triple(relay, twin, exit), draws);
  }

  /** One candidate for each role leaves the draws no choice. */
  lemma OnlyCandidatesAreSelected(relays: seq<Relay>, t: Triple, draws: Draws)
    requires WithRole(relays, "entry") == [t.entry]
    requires WithRole(relays, "middle") == [t.middle]
    requires WithRole(relays, "exit") == [t.exit]
    requires t.entry.pubkey != t.middle.pubkey && t.entry.pubkey != t.exit.pubkey && t.middle.pubkey != t.exit.pubkey
    ensures Selected(relays, draws, t)
  {
    assert MiddleAt(relays, draws, 1);
    assert Picks(relays, draws, t, 1, 2);
  }

  lemma WithRoleLast(relays: seq<Relay>, last: Relay, role: string)
    ensures WithRole(relays + [last], role) ==
            if role in last.roles then WithRole(relays, role) + [last] else WithRole(relays, role)
  {
    assert (relays + [last])[..|relays|] == relays;
  }

  lemma RolesOfThree(entry: Relay, middle: Relay, exit: Relay, role: string)
    requires entry.roles == ["entry"] && middle.roles == ["middle"] && exit.roles == ["exit"]
    ensures WithRole([entry, middle, exit], role) ==
      (if role == "entry" then [entry] else []) + (if role == "middle" then [middle] else []) +
      (if role == "exit" then [exit] else [])
  {
    WithRoleLast([], entry, role);
    WithRoleLast([entry], middle, role);
    WithRoleLast([entry, middle], exit, role);
    assert [] + [entry] == [entry] && [entry] + [middle] == [entry, middle];
    assert [entry, middle] + [exit] == [entry, middle, exit];
  }

  lemma OneOfEach(entry: Relay, middle: Relay, exit: Relay)
    requires entry.roles == ["entry"] && middle.roles == ["middle"] && exit.roles == ["exit"]
    ensures WithRole([entry, middle, exit], "entry") == [entry]
    ensures WithRole([entry, middle, exit], "middle") == [middle]
    ensures WithRole([entry, middle, exit], "exit") == [exit]
  {
    assert "entry"[0] != "middle"[0] && |"exit"| != |"entry"| && |"exit"| != |"middle"|;
    RolesOfThree(entry, middle, exit, "entry");
    RolesOfThree(entry, middle, exit, "middle");
    RolesOfThree(entry, middle, exit, "exit");
  }
}
