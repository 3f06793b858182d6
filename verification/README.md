# Verified model of tonnet-proxy

A Dafny model of the parts of the proxy where correctness is hardest to see by reading one function,
and proofs of what they promise. `dafny verify dfyconfig.toml` checks all of it.

The model covers, module by module:

- **Garlic circuits** (`Crypto`, `Layers`, `Overlay`, `CircuitBuild`). The client negotiates one key with
  each of three relays, the third through a command nested inside another, while links lose queries and
  other circuits keep changing the relays. Relays are honest and behave as the README and the message
  comments describe; a relay keeps one record per circuit id. Cryptography is symbolic: X25519 is an
  unordered pair of scalars, ChaCha20-Poly1305 a constructor only its key opens. Random reads, link fates
  and the moves of others are inputs, so every theorem speaks about all of them.
- **Chunk reassembly** (`ChunkReassembly`, `ChunkRuns`, `ChunkExactness`). One call is specified by its meaning, "every
  announced index is present"; the code's count gate is proved to amount to that. Runs are arbitrary
  sequences of calls, with indices and totals ranging over all integers and two clock reads per call.
- **Stream multiplexing** (`StreamIds`, `StreamMux`, `StreamLife`). The id counter across its wrap-around, and the
  `pending` map used by any number of concurrent calls and one message handler, as a transition system; `StreamLife` runs whole calls and messages through it.
- **Circuit rotation** (`Rotation`, `RotationLife`, `RotationDelay`). Requests and rotations interleave at the grain of
  single lock operations, field accesses and WaitGroup operations; `RotationLife` has whole requests and rotations, and
  what every run closes. The delay is computed in wrapping
  64-bit arithmetic with Go's truncating remainder.
- **Name resolution** (`Routing`, `ResolverCache`, `CacheRuns`, `CacheLife`, `AdnlHex`, `AdnlAddress`, `Crc16`,
  `CrcDivision`, `Bits`, `SnsPayload`). Routing by TLD, the TTL cache under racing callers and the cleaner, the hex and base32
  codecs, CRC-16/XMODEM as a shift register and as division of polynomials, and the two formats of a `.sol` record. The order in which Go visits a map is an
  input of the methods that range over one.
- **Relay selection** (`RelayDirectory`, `CircuitRetry`) for every directory and every sequence of random
  draws, and the start-up path that selects relays and builds a circuit through them until one succeeds.

`Basics` and `Arithmetic` hold shared types and remainder facts.

Results that differ from what the code or its documentation suggests, each shown by a lemma with the
input that brings it about and the exact condition beside it:

- The rotation interval's jitter is documented as plus or minus 30 percent. The signed remainder makes it
  minus 90 to plus 30 percent; the documented range holds exactly when the remainder is not negative. An
  interval of 1 ns divides by zero, and so does one of 2^62 ns: exactly the intervals whose product with 60 is
  within 99 of a multiple of 2^64 do (`RotationDelay.PanicsIff`).
- `SelectCircuit` compares key strings, so one relay listed in two letter cases can be chosen twice
  (`RelayDirectory.MixedCaseRelayIsPickedTwice`). Every success has three different decoded keys exactly when no
  suitable triple of the directory has two members that agree up to case
  (`RelayDirectory.AlwaysDistinctIffCaseSafe`).
- A path that visits a relay twice can be built, but that relay then holds only the later key. Agreement on
  three different keys holds exactly when the relays are distinct.
- A late copy of a chunk of a finished message reopens the stream's assembly and displaces a piece of the
  next message (`ChunkExactness.LateDuplicateSpoilsNextMessage`). An assembly left over for more than 60 s takes
  the first chunk of the next message with it (`ChunkExactness.StaleAssemblerSwallowsMessage`). All messages of n
  parts up to a size limit, sent within a span of time, come out as sent exactly when the stream is free, or its
  assembler stays in its own 60 s to the end of the span and is harmless to them: none of the n indices is held,
  the announced ones beyond are there and empty, and there is room for the limit (`ChunkExactness.ExactIff`, which
  also covers messages without a byte).
- A `.sol` text followed by white space and then NUL padding is read as raw bytes, and names another address
  (`SnsPayload.ZeroAddressIsMisread`). A record comes out as its text exactly when it does not have both white
  space and padding, or its text is the one that is its own encoding (`SnsPayload.RecordDecodesIff`).
- Rotation closes a backend under open streams when the two-minute drain timeout fires, and only then.
- An `OpenStream` refused by the exit leaves its id registered (`StreamMux.RefusalLeavesRegistration`). The
  registration lasts exactly until a `CloseStream` of that id (`StreamMux.RefusedLastsIffNotClosed`).

## Model

| member | source | states |
|---|---|---|
| Crypto.KeyExchangeAgrees | internal/client/circuit.go:629-659 | both ends of a key exchange derive the same key, and two exchanges share a key only if they have the same two scalars |
| Crypto.DecryptPayload | internal/client/circuit.go:687-706 | opening succeeds exactly for data sealed under the given, negotiated key, and yields the sealed body |
| Layers.EncryptLayers | internal/client/circuit.go:415-430 | sealing succeeds exactly when every key slot is filled and every nonce read succeeds, gives the path-ordered onion, and otherwise reports the first layer from the exit inwards that fails |
| Layers.PeelingFollowsThePath | README.md:66 | for any number of hops and any payload, after k peels in path order what remains is sealed under key k, and after all of them it is the payload |
| Layers.OnlyThePathOrderOpens | internal/client/circuit.go:415-437 | a sequence of keys opens an onion if and only if it is a prefix of the path's keys, and reaches the payload only if it is the whole path |
| Layers.CoalitionStopsAtFirstMissingKey | README.md:149-151 | holders of a set of keys see exactly up to the first hop whose key they lack, and reach the payload if and only if they hold every key |
| Layers.OnionLength | internal/client/circuit.go:661-685 | each hop adds exactly 28 bytes |
| Overlay.EstablishedCircuitDelivers | README.md:64-74 | on an agreed circuit of any length the last relay receives exactly what the client sealed |
| Overlay.HandlingKeepsOtherCircuits | internal/protocol/messages.go:87-99 | a relay acting on a query leaves every circuit alone that neither the query nor a command sealed inside it mentions |
| Overlay.OtherCircuitsAreSeparate | internal/protocol/messages.go:87-99 | over every run of queries about other circuits, with any relays, contents, losses and random reads, all records of this circuit stay as they are |
| Overlay.HandlingKeepsRelays | internal/protocol/messages.go:87-99 | no query adds, removes or moves a relay |
| Overlay.EstablishedIsStable | internal/protocol/messages.go:87-93 | an agreed circuit stays agreed over every run of queries about other circuits |
| Overlay.AgreementNeedsDistinctRelays | internal/client/circuit.go:131-150 | three different keys can all be held by their relays only if no relay is on the path twice |
| CircuitBuild.CreateEstablishes | internal/client/circuit.go:156-179 | a create query is answered exactly when the entry exists and the link holds, and then client and entry hold the same key |
| CircuitBuild.ExtendEstablishes | internal/client/circuit.go:181-219 | an extend through the entry, when answered, leaves a two-hop circuit on which both relays hold the client's keys, and it is answered on a lossless network that knows the relay |
| CircuitBuild.InnerExtendEstablishes | internal/client/circuit.go:221-289 | the extend nested in a relayed command establishes the third key at the exit and links the middle to it |
| CircuitBuild.ClientCircuit.CreateCircuit | internal/client/circuit.go:156-179 | asks one query that carries the public half of the first drawn key pair; the key returned is that of this pair and the entry's, and the one the entry holds |
| CircuitBuild.ClientCircuit.ExtendCircuit | internal/client/circuit.go:181-219 | asks one query with the public half of a second key pair, sealed for the entry, and none exactly if it cannot be sealed; the key returned is that of this pair and the next relay's, and the one that relay holds, the entry keeping its own |
| CircuitBuild.ClientCircuit.ExtendCircuitViaRelay | internal/client/circuit.go:221-289 | asks one relayed query whose nested command carries the public half of a third key pair, sealed for the middle inside a layer for the entry; the key returned is that of this pair and the exit's, and the one the exit holds, entry and middle keeping theirs |
| CircuitBuild.NewClientCircuit | internal/client/circuit.go:59-154 | for all link fates, random reads and queries of other circuits in between: a returned circuit has in slot i the key of the i-th key pair drawn and the relay's, and its three queries carried just those public keys; it is agreed over distinct relays, and only then if the pairs of scalars differ; a failure after the connection sends exactly one CircuitDestroy and nothing else sends any; a healthy network always yields a circuit |
| CircuitBuild.DifferentPairsGiveDistinctKeys | internal/client/circuit.go:59-154 | the three keys of a circuit are different if and only if the three pairs of scalars are, as unordered pairs |
| CircuitBuild.RelayedExtendEstablishes | internal/client/circuit.go:221-289 | the whole relayed extend, when answered, is answered under the entry's key with a public key that gives the exit's, and leaves a three-hop circuit agreed; it is answered on a lossless network that knows the relay |
| CircuitBuild.BuildHops | internal/client/circuit.go:131-150 | the three negotiations in order, each with a key pair of its own, leave all keys agreed, with queries of other circuits in between; a failing build has asked exactly up to the query that failed |
| CircuitBuild.CircuitCarriesTraffic | internal/client/circuit.go:415-437 | on a built circuit, after any queries of other circuits, every payload reaches the exit, and a reply sealed by the exit alone is recovered with the last key |
| CircuitBuild.RelayReuseBreaksAgreement | internal/client/circuit.go:59-154 | a concrete run with the entry reused as exit in which all negotiations succeed but the entry's key differs from the client's |
| ChunkReassembly.CountGateIsSound | internal/client/circuit.go:543-546 | holding all announced indices takes at least as many pieces, so a closed count gate never hides a complete message |
| ChunkReassembly.Reassembler.HandleChunk | internal/client/circuit.go:491-564 | one call advances exactly its own stream's assembler as specified and leaves every other stream's untouched |
| ChunkReassembly.Accept | internal/client/circuit.go:522-564 | timeout, duplicate, size and gate checks decide as specified: completion if and only if every announced index is present |
| ChunkReassembly.Reassemble | internal/client/circuit.go:548-561 | returns the pieces concatenated in index order, or the smallest missing index |
| ChunkReassembly.AdvanceKeepsIncomplete | internal/client/circuit.go:508-564 | a surviving assembler lacks an announced index and its byte total is exact and within the limit; a message completes exactly when an accepted chunk supplies the last missing index, whatever totals later chunks announce |
| ChunkReassembly.AdvanceDecides | internal/client/circuit.go:491-564 | every outcome has its exact cause, with 1024 chunks, 60 s and 104857600 bytes as the limits, and its exact effect: a rejected chunk changes nothing, a late or too large one frees the stream, a duplicate is ignored, any other is stored |
| ChunkRuns.RejectedChunksChangeNothing | internal/client/circuit.go:491-506 | after any run a chunk that announces no or too many chunks, or cannot be decrypted, leaves the whole table as it was |
| ChunkRuns.EveryAssemblerIsIncomplete | internal/client/circuit.go:491-564 | after every run every assembler in the table lacks some index it announced and has an exact byte total within 100 MB |
| ChunkRuns.StreamsDoNotInterfere | internal/client/circuit.go:511-520 | a stream's assembler and outcomes in any interleaving are those of its own deliveries alone |
| ChunkRuns.FirstCopiesAreReassembled | internal/client/circuit.go:522-564 | in any arrival order, with duplicates and stray indices, the assembler holds exactly the first copies, and the call bringing the last announced index returns their concatenation |
| ChunkRuns.MessageSurvivesChunking | internal/client/circuit.go:489-564 | a message cut into parts comes out byte for byte at the call that brings its last part, however streams are interleaved |
| ChunkExactness.FreeStreamIsExact | internal/client/circuit.go:489-564 | on a free stream, or one whose held pieces are harmless to the message, the call that brings the last part returns the message and no earlier call completes |
| ChunkExactness.MessageBytes | internal/client/circuit.go:527-535 | without stray indices the bytes the limit counts are the length of the message |
| ChunkExactness.SentMessageSurvives | internal/client/circuit.go:489-564 | a message of at most 100 MB cut into 1 to 1024 parts comes out byte for byte on a free stream in any order, with repetitions and other streams in between |
| ChunkExactness.SpoiledNeverComesOut | internal/client/circuit.go:512-564 | a message that what is held would complete wrongly is returned by no call of its run |
| ChunkExactness.StaleAssemblerSwallowsMessage | internal/client/circuit.go:522-526 | whatever is held, a message whose first call finds an assembler older than 60 s never completes, in any order, unless its first chunk is repeated |
| ChunkExactness.HeavyMessageIsLost | internal/client/circuit.go:533-537 | a message too large for the room left by what is held frees the stream and never completes |
| ChunkExactness.ExactIff | internal/client/circuit.go:508-564 | for every assembler that can be met, every n, size limit and span of time of at most 60 s: every message of n parts within the limit and the span comes out as sent if and only if the stream is free, or its assembler is in its window to the end of the span and what it holds lets such messages pass |
| ChunkExactness.AllMessagesExactIff | internal/client/circuit.go:508-564 | for all messages up to 100 MB: if and only if the stream is free, or its assembler is in its window, harmless and without a byte |
| ChunkExactness.FittingMessagesExactIff | internal/client/circuit.go:508-564 | for the messages that fit on top of what is held: if and only if the stream is free, or its assembler is in its window and harmless, or full and only empty messages are asked for and can come out |
| ChunkExactness.LateDuplicateSpoilsNextMessage | internal/client/circuit.go:512-531 | a finished message, a late copy of its first chunk, and the next message comes out with the old piece, different from what was sent |
| ChunkRuns.CompletionUsesItsOwnSegment | internal/client/circuit.go:533-564 | every reassembled message consists of payloads stored since the stream was last freed, exactly one for each index its assembler announced |
| ChunkRuns.SegmentsAreDisjoint | internal/client/circuit.go:563-564 | after a completion the next assembly starts later, so no stored chunk serves two messages |
| ChunkRuns.StoredCopiesAreConserved | internal/client/circuit.go:522-564 | for every index, copies stored equal copies delivered plus copies dropped plus the one still held |
| StreamIds.StreamCounter.NextStreamID | internal/client/circuit.go:291-300 | the id is the new counter value, the next nonzero one modulo 2^32 |
| StreamIds.NthIdClosedForm | internal/client/circuit.go:291-300 | the ids are those of a counter modulo 2^32 - 1 shifted by one, hence never 0 |
| StreamIds.IdsInOrder | internal/client/circuit.go:291-300 | from a new counter the ids are 1, 2 and so on to 4294967295, and then 1 again |
| StreamIds.IdsRepeatOnlyAfterFullCycle | internal/client/circuit.go:291-300 | two allocations share an id if and only if a multiple of 2^32 - 1 allocations lies between them |
| StreamMux.StepKeepsInv | internal/client/circuit.go:303-413 | every atomic step of opening, receiving, dispatching and closing keeps channels faithful to their stream; what the calls return is stated by the rows of StreamLife |
| StreamMux.StreamsAreIsolated | internal/client/circuit.go:393-413 | over every run what is received from a channel is an in-order subsequence of what was dispatched for its stream since its registration, queues stay within capacity, and callers wait on channels of the stream they asked for |
| StreamMux.RegistrationsAreExclusive | internal/client/circuit.go:325-366 | distinct ids have distinct channels, no step takes over a registered id, and only CloseStream or a given-up OpenStream removes one |
| StreamMux.RefusedStaysPending | internal/client/circuit.go:346-365 | over every run without a CloseStream of that id, an id whose OpenStream was refused is pending at the end |
| StreamMux.RegistrationLastsIff | internal/client/circuit.go:325-366 | over every run and continuation a registration lasts exactly until its id is closed or an OpenStream waiting on it is given up, and one that is gone never comes back |
| StreamMux.UnawaitedLastsIffNotClosed | internal/client/circuit.go:325-366 | a registration that no OpenStream waits on lasts exactly until a later CloseStream of its id |
| StreamMux.RefusedLastsIffNotClosed | internal/client/circuit.go:346-365 | after a refusal the registration is still there at the end of a continuation if and only if the continuation has no CloseStream of the id |
| StreamMux.ClosingRemoves | internal/client/circuit.go:599-602 | a CloseStream after any run ends the registration |
| StreamMux.RefusalLeavesRegistration | internal/client/circuit.go:346-354 | allocate, register, answer, refuse: no call is left and the id is still registered |
| StreamLife.OpenedIffConfirmed | internal/client/circuit.go:346-356 | over every run an OpenStream on an id succeeded if and only if one waiting on it received an answer that reports success, and was refused if and only if one received an answer that does not |
| StreamLife.AnsweredOpen | internal/client/circuit.go:303-356 | from any state with the next id free: allocate, register, answer, take ends with the stream registered on a channel of its own, the answer consumed, and the outcome the answer reports |
| StreamLife.TakenIdFails | internal/client/circuit.go:325-330 | an OpenStream whose id is in use fails and leaves it to its holder |
| StreamLife.GivenUpOpenUnregisters | internal/client/circuit.go:332-365 | an OpenStream given up takes its registration back and changes nothing else |
| StreamLife.ReceivesOldest | internal/client/circuit.go:393-413 | RecvData on a registered stream returns the oldest message waiting there and takes just that one |
| StreamLife.RoutedAndSent | internal/client/circuit.go:440-487 | a message for a registered stream whose channel has room ends up last in that channel, and nothing else changes |
| StreamLife.FullChannelLosesMessage | internal/client/circuit.go:447-454 | with the channel full it cannot be sent, and giving up loses just that message |
| StreamLife.ChannelsConserveMessages | internal/client/circuit.go:393-413 | over every run what receivers took from a channel, followed by what waits in it, is exactly what was sent into it, in order |
| StreamLife.ReceivesAreInOrder | internal/client/circuit.go:393-413 | over every run the next receive returns the message that follows those already taken among all sent into the channel |
| StreamLife.RoutedAreAccountedFor | internal/client/circuit.go:440-487 | over every run each message routed to a registered stream was sent, was given up, or is the one being sent |
| StreamLife.AllocationsAreApart | internal/client/circuit.go:291-324 | over every run of concurrent calls two OpenStream calls are given one id if and only if a multiple of 4294967295 allocations lies between theirs |
| Rotation.StepKeepsInv | internal/proxy/handler.go:183-214 | every micro-step of requests and rotations keeps locks, pairs, counts and closes consistent |
| Rotation.CapturedPairsMatch | internal/proxy/handler.go:183-191 | over every run a request's backend and WaitGroup are of one generation, and each WaitGroup counts exactly the requests in flight on it |
| Rotation.ReplacedCountsNeverRise | internal/proxy/handler.go:322-327 | a swapped-out WaitGroup stays swapped out and its count never rises again |
| Rotation.ClosedBackendsAreUnused | internal/proxy/handler.go:322-343 | over every run a backend closed by rotation was closed once and is not current, and unless its drain timed out every request that captured it has closed its stream and run Done; that replaced ones do get closed is RotationLife.ReplacedBackendsAreClosed |
| Rotation.TimeoutClosesUnderOpenStreams | internal/proxy/handler.go:336-341 | from any reachable state with the lock free, a timed-out drain closes the backend while its requests still stream |
| RotationLife.ReplacedBackendsAreClosed | internal/proxy/handler.go:322-343 | over every run each replaced backend is closed or has a rotation that will close it; with none underway exactly the replaced backends are closed, each once |
| RotationLife.DrainedRotationCloses | internal/proxy/handler.go:322-343 | from any reachable state with the lock free and the count at zero, a rotation that drains ends with the old backend closed once, the new one current with a new WaitGroup, and every request untouched |
| RotationLife.RotationSwaps | internal/proxy/handler.go:322-343 | with the lock free a rotation replaces backend and WaitGroup together and lets the old backend, if there is one, drain |
| RotationLife.DrainCloses | internal/proxy/handler.go:329-341 | a drain ends in the close of the old backend exactly when its count is zero, and nothing is closed before |
| RotationLife.TimeoutCloses | internal/proxy/handler.go:336-341 | after the timeout the close follows whatever the count is |
| RotationLife.RequestCaptures | internal/proxy/handler.go:183-191 | with no rotation inside the lock a request captures the current pair and is counted on it once |
| RotationLife.RequestServes | internal/proxy/handler.go:191-214 | a captured request that opens a stream closes it and gives its count back |
| RotationLife.RequestFails | internal/proxy/handler.go:191-212 | one that cannot, for want of a backend or because opening fails, gives it back too |
| RotationLife.StreamsCloseBeforeDone | internal/proxy/handler.go:191-214 | over every run a request runs Done only after closing the stream it opened |
| RotationLife.LockIsExclusive | internal/proxy/handler.go:186-191 | over every run a rotation inside the lock is there with no request and no other rotation |
| RotationDelay.DelayBounds | internal/proxy/handler.go:290-297 | for every draw the delay is positive and below 130 percent; it is at least 70 percent exactly when the signed remainder is not negative, as for every draw with the top bit clear |
| RotationDelay.DelayValue | internal/proxy/handler.go:290-297 | the exact delay of every draw: 70 percent of the interval plus the draw modulo 60 percent, or minus the complement's residue if the top bit is set |
| RotationDelay.EveryDelayIsDrawn | internal/proxy/handler.go:290-297 | a delay is drawn if and only if it lies within one jitter range of 70 percent of the interval |
| RotationDelay.PanicsIff | internal/proxy/handler.go:291-294 | for every 64-bit interval and every draw the remainder is by zero if and only if the interval's product with 60 is within 99 of a multiple of 2^64 |
| RotationDelay.OnlyOneNanosecondPanics | internal/proxy/handler.go:291-294 | among positive intervals whose arithmetic does not wrap this is the 1 ns interval alone |
| RotationDelay.LongIntervalPanics | internal/proxy/handler.go:291-294 | among those whose arithmetic wraps, the 2^62 ns interval is one |
| RotationDelay.TopBitDrawBreaksDocumentedBound | internal/proxy/handler.go:290-295 | with all bits set a 10 s interval waits less than 7 s |
| Routing.RegistryIsWellFormed | internal/resolver/unstoppable.go:23-24 | every chain that registers itself has a TLD of its own with a leading dot and no other |
| Routing.HasSuffixIff | internal/resolver/resolver.go:168-176 | a domain matches a TLD if and only if it is some text followed by it |
| Routing.Resolve | internal/resolver/resolver.go:168-176 | yields the resolver of the first match in iteration order, and one exactly when some TLD matches |
| Routing.Supports | internal/resolver/resolver.go:178-186 | true exactly when some registered TLD is a suffix of the domain |
| Routing.OrderIndependentIffSuffixFree | internal/resolver/resolver.go:168-176 | routing ignores map iteration order, each key visited once, for all domains if and only if no TLD is a suffix of another |
| Routing.WellFormedTldsAreSuffixFree | internal/resolver/resolver.go:163-176 | TLDs with one leading dot are never suffixes of each other |
| Routing.Collect | internal/resolver/resolver.go:241-252 | registrations and warnings as a function of the arrival order |
| Routing.InitAll | internal/resolver/resolver.go:210-253 | the filter and the collecting loop register and warn as accounted for below, for every completion order |
| Routing.EveryChainIsAccountedFor | internal/resolver/resolver.go:219-252 | for every registry with one chain per TLD, disabled set, outcome per chain and completion order: a chain is registered, with its own resolver, if and only if it is enabled and came up; nothing else is registered; the warnings are one text per enabled chain that failed |
| Routing.CompletionOrderDoesNotMatter | internal/resolver/resolver.go:227-252 | every completion order registers the same resolvers and gives the same warnings |
| ResolverCache.CacheTable.DropExpired | internal/resolver/resolver.go:117-125 | keeps exactly the entries not past their expiry |
| ResolverCache.CacheTable.EvictIfNeeded | internal/resolver/resolver.go:132-161 | up to the limit nothing; above it all expired entries, and if still above one entry of earliest expiry |
| ResolverCache.CacheTable.Store | internal/resolver/resolver.go:305-312 | eviction, then the entry with its five-minute expiry |
| ResolverCache.EvictionMakesRoom | internal/resolver/resolver.go:134-161 | without an empty key an eviction from one over the limit leaves at most the limit |
| ResolverCache.EvictionMeans | internal/resolver/resolver.go:132-161 | up to 10000 entries nothing goes; above, exactly the expired ones, and if more than 10000 remain one more that none of the others expires before |
| ResolverCache.LivesFiveMinutes | internal/resolver/resolver.go:117-125 | an entry stored at a time is kept by the cleaner up to 300000000000 ns later, and not a nanosecond longer |
| ResolverCache.EmptyKeyBlocksEviction | internal/resolver/resolver.go:158-160 | an oldest entry with an empty key would block eviction |
| Routing.EmptyDomainIsUnrouted | internal/resolver/resolver.go:169-176 | the empty domain has no resolver when no TLD is empty |
| CacheRuns.CachedHostsAreGenuine | internal/resolver/resolver.go:272-315 | over every interleaving of callers and cleaner a host returned from the cache was stored for that domain less than 300000000000 ns before the clock read, and is, by IsHostOf, 55 characters that read as the address of a string the chain had given for the domain by the time of that store, followed by .adnl |
| CacheRuns.HostForIff | internal/resolver/resolver.go:291-305 | the pipeline yields a host if and only if it is 55 characters that read as the address the string parses to, followed by .adnl, and yields none if and only if the string does not parse |
| CacheRuns.FetchedHostsAreGenuine | internal/resolver/resolver.go:286-315 | over every run a host returned after asking the chain spells out the address of the very string the chain gave for that domain, and was stored |
| CacheLife.ServedIffFresh | internal/resolver/resolver.go:272-280 | a cached host is returned if and only if the clock read is before its expiry |
| CacheLife.StaleEntryIsDropped | internal/resolver/resolver.go:272-285 | an entry whose five minutes are over is deleted and the chain asked |
| CacheLife.MissIsFetchedAndStored | internal/resolver/resolver.go:286-315 | a domain not cached is asked for, its host stored for 300000000000 ns after an eviction, and returned |
| CacheLife.FailureStoresNothing | internal/resolver/resolver.go:286-303 | without a resolver, with an error, or with a string that is no address, nothing is stored or returned |
| CacheLife.CleanerDropsExpired | internal/resolver/resolver.go:117-125 | one pass of the cleaner removes exactly the entries past their expiry |
| CacheLife.FetchedThenServed | internal/resolver/resolver.go:272-315 | what one call fetches a later one is given for exactly 300000000000 ns, if nothing evicts it |
| CacheRuns.StoresAreSteps | internal/resolver/resolver.go:305-312 | every store on record is a step of the run that put just that host into the cache, five minutes short of its expiry |
| CacheRuns.DeletingKeepsInv | internal/resolver/resolver.go:281-284 | deleting an entry, even one just refreshed by another caller, can only lose it |
| CacheRuns.HostsNameAddresses | internal/resolver/resolver.go:291-305 | equal hosts come only from strings that parse to the same address |
| CacheRuns.CacheStaysBounded | internal/resolver/resolver.go:134-161 | over every run the cache has at most 10001 entries and no empty key |
| AdnlHex.ParsersAgree | internal/resolver/resolver.go:291-303 | ParseADNLAddress and the pipeline inside ResolveToADNL accept the same strings with the same bytes: the case-insensitive encodings of 32 bytes after the prefix |
| AdnlHex.HexParses | internal/resolver/resolver.go:317-335 | hex text with either prefix, or none, and in any case parses to its address |
| AdnlHex.DecodesToExactly | internal/directory/directory.go:44-48 | text decodes to given bytes exactly when it is their encoding up to letter case |
| AdnlHex.HexAlphabet | internal/resolver/resolver.go:292-295 | the sixteen digits, lower case when written and either case when read |
| AdnlHex.StripsEachOnce | internal/resolver/resolver.go:291 | one 0x goes from the front and then one 0X, and nothing else |
| AdnlHex.ParseErrors | internal/resolver/resolver.go:317-335 | a text is refused for its length if and only if 64 characters do not remain, and for its characters if and only if 64 remain and one is no hex digit |
| Crc16.FeedIsLinear | internal/resolver/resolver.go:264 | the register is linear over GF(2) in its start value and its message |
| CrcDivision.ChecksumIsRemainder | internal/resolver/resolver.go:264 | for every message the checksum, and no other register, is the remainder of message times x^16 on division over GF(2) by the polynomial whose coefficients are the bits of 0x11021 |
| Crc16.ResidueDecides | internal/resolver/resolver.go:262-265 | an appended 16-bit field leaves residue 0 if and only if it is the checksum |
| Crc16.BurstsAreDetected | internal/resolver/resolver.go:262-265 | every nonzero error burst of at most 16 bits, anywhere in a message of any length, leaves a nonzero residue |
| Crc16.ChecksumByTable | internal/resolver/resolver.go:264 | the table-driven loop computes the bit-by-bit checksum |
| AdnlAddress.SerializeADNLAddress | internal/resolver/resolver.go:255-266 | succeeds exactly on 32 bytes, with 55 characters; which ones is AdnlAddress.SerializedCharacter |
| AdnlAddress.BlockLayout | internal/resolver/resolver.go:262-264 | what is encoded is 0x2d, the address, and the checksum of both with its high byte first |
| AdnlAddress.SerializedCharacter | internal/resolver/resolver.go:265 | character i is the lower-case base32 digit of bits 5(i+1) to 5(i+1)+4 of that block |
| AdnlAddress.FirstCharacterIsF | internal/resolver/resolver.go:262-265 | the block has 56 base32 characters and the dropped one is F for every address |
| AdnlAddress.ReadingInvertsSerializing | internal/resolver/resolver.go:258-266 | a text reads as an address, with prefix and checksum verified, if and only if that address serializes to it |
| AdnlAddress.SerializingIsInjective | internal/resolver/resolver.go:258-266 | different addresses have different texts |
| AdnlAddress.BurstErrorsAreDetected | internal/resolver/resolver.go:262-265 | no burst of up to 16 flipped bits in the 35-byte block passes the checksum |
| AdnlAddress.LocalAlterationsAreDetected | internal/resolver/resolver.go:255-266 | altering a serialized address within three neighbouring characters never yields a readable address |
| SnsPayload.HexTextDecodes | internal/resolver/sns.go:96-119 | hex text in any case, with either prefix or none and any NUL padding, comes out as the text and parses to the address |
| SnsPayload.RawBytesDecode | internal/resolver/sns.go:96-119 | raw bytes with any NUL padding come out as their encoding and parse to the address |
| SnsPayload.RecordDecodesIff | internal/resolver/sns.go:96-119 | for every prefix, hex text, white space and NUL padding, the record comes out as its text, and names its address, if and only if it lacks white space or padding, or the text is the one that is the encoding of its own beginning |
| SnsPayload.LedRecord | internal/resolver/sns.go:104-113 | white space before a record's prefix is always removed, and otherwise the record reads as without it |
| SnsPayload.AccountErrors | internal/resolver/sns.go:96-119 | an account is refused for want of data if and only if it has at most 96 bytes, and as invalid if and only if what is left is neither a 64-digit text nor 32 bytes |
| SnsPayload.SpacesAreWhiteSpace | internal/resolver/sns.go:104 | what is trimmed are the UTF-8 forms of exactly the code points with the White_Space property |
| SnsPayload.SpaceBeforePaddingStays | internal/resolver/sns.go:104-113 | text followed by white space and NUL padding is read as raw bytes |
| SnsPayload.OwnAddressIffSelfEncoding | internal/resolver/sns.go:110-113 | read as raw bytes, a text comes out as its own address if and only if it is the one self-encoding text for its prefix |
| SnsPayload.ZeroAddressIsMisread | internal/resolver/sns.go:104-113 | 64 zeros, a line feed and a NUL name another address than 64 zeros do |
| RelayDirectory.HasRole | internal/directory/directory.go:33-41 | membership in the relay's roles |
| RelayDirectory.FilterByRole | internal/directory/directory.go:92-101 | exactly the relays with the role, in directory order |
| RelayDirectory.DrawUntaken | internal/directory/directory.go:122-129 | stops at the first draw with an untaken key; keeps a taken one if and only if all 100 draws were taken |
| RelayDirectory.HundredDraws | internal/directory/directory.go:122-137 | a choice fails if and only if 100 draws in a row hit a taken key, and succeeds if and only if one of them does not |
| RelayDirectory.RandInt | internal/directory/directory.go:184-194 | the index is the draw's residue, in range and a multiple of n away from the draw |
| RelayDirectory.SelectCircuit | internal/directory/directory.go:103-147 | success gives three relays of the directory with their roles and pairwise different keys, the entry from the first draw, middle and exit from the first draws that avoid the keys taken; each error has its exact cause |
| RelayDirectory.SelectableIffSuitable | internal/directory/directory.go:103-147 | a triple is selected by some draws if and only if it is suitable: from the directory, with the roles, with different key strings |
| RelayDirectory.SelectCircuitRelays | internal/directory/directory.go:149-172 | succeeds if and only if the draws select a triple of well-formed keys, and gives its decoded relays in path order |
| RelayDirectory.ToRelayInfoIff | internal/directory/directory.go:43-58 | the client is given the relay's own address with the 32 bytes its key text encodes, in either case, and nothing else |
| RelayDirectory.SameKeyIffSameLowerCase | internal/directory/directory.go:43-58 | two well-formed keys decode equally if and only if they agree up to letter case |
| RelayDirectory.AlwaysDistinctIffCaseSafe | internal/directory/directory.go:119-172 | whatever is drawn, a success has three different decoded keys, if and only if no suitable triple of well-formed keys has two members equal up to case |
| RelayDirectory.CanonicalTriplesAreDistinct | internal/directory/directory.go:149-172 | with lower-case keys the three decoded keys are pairwise distinct |
| RelayDirectory.MixedCaseRelayIsPickedTwice | internal/directory/directory.go:119-144 | in a directory that lists a relay in two letter cases every sequence of draws selects it for two hops |
| CircuitRetry.BuildCircuitWithRetry | cmd/main.go:76-105 | the attempts are made in order until one yields a circuit, which is that attempt's: through the suitable triple it selects, with the keys of its own key pairs, held by the relays always if the directory is free of case twins, and otherwise, given that the three keys differ, exactly when the triple is; no attempt before it was bound to succeed; what is sent is exactly one CircuitDestroy for each failed attempt that got an entry connection |

## Left out

- Sockets, RLDP, DHT, HTTP, DNS, RPC calls, logging, flags and configuration: the parts that only move bytes are inputs of the model.
- The internals of X25519, ChaCha20-Poly1305 and SHA-256 are symbolic; `KeyHash` is not modelled because the client never reads it.
- TL serialization: messages are datatypes with a size that the TL library would decide; its byte format is not part of this model.
- Relay code: it is in another repository. A relay here derives, opens, forwards and seals as the README and internal/protocol/messages.go say, and keeps one record per circuit id.
- Routing.Collect: parallel start-up is reduced to the order in which results arrive on the channel.
- CircuitBuild.NewClientCircuit: assumes that no other client uses the same random 32-byte circuit id while the circuit is built.
- StreamMux.RefusedStaysPending: whether an answer parses and reports success is an input of the step, since its TL format is not part of this model.
- CircuitRetry.BuildCircuitWithRetry: one pass of the loop is a method of its own.
- CircuitBuild.BuildHops: the three negotiations, and the first two of them, are methods of their own.
- ResolverCache.CacheTable.Store: returns the intermediate cache only so that its contract can name it.
- StreamMux.StepKeepsInv: the message handler is assumed to run one message at a time; the library that calls it is not part of this model, and two handlers at once could reorder a stream's messages.
- Rotation.StepKeepsInv: reading the old backend and the old WaitGroup under the write lock is one step. The rotation protocol and the multiplexer are transition systems on values rather than classes, since their point is interleaving.
- ChunkReassembly.Accept: handleChunk's tail as a method of its own; the capacity computed for the output buffer has no effect and is not modelled, and assemblers are values put back into the table rather than shared objects.
- Process shutdown closing the current backend is outside the rotation theorem, which is about closes made by rotation.
- The ENS, Space ID, Unstoppable and BNS resolvers and header cleaning would add only easy members.
- The success probability of relay selection: the theorems quantify over all draws instead.
