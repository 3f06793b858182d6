/** Whole runs of chunk deliveries. */
module ChunkRuns {
  import opened Basics
  import opened ChunkReassembly

  /** A call of handleChunk with its two clock reads. */
  datatype Delivery = Delivery(chunk: Chunk, created: int, now: int)

  /** The circuit's table after a sequence of calls. */
  ghost function After(start: Table, ds: seq<Delivery>): Table {
    if ds == [] then start
    else
      var table := After(start, ds[..|ds| - 1]);
      var d := ds[|ds| - 1];
      Put(table, d.chunk.streamId, Advance(Get(table, d.chunk.streamId), d.chunk, d.created, d.now).0)
  }

  /** The outcome of the last call. */
  ghost function LastOutcome(start: Table, ds: seq<Delivery>): Outcome
    requires ds != []
  {
    var table := After(start, ds[..|ds| - 1]);
    var d := ds[|ds| - 1];
    Advance(Get(table, d.chunk.streamId), d.chunk, d.created, d.now).1
  }

  /** The same for a single stream, which needs only its own assembler. */
  ghost function StreamAfter(start: Option<Assembler>, es: seq<Delivery>): Option<Assembler> {
    if es == [] then start
    else
      var e := es[|es| - 1];
      Advance(StreamAfter(start, es[..|es| - 1]), e.chunk, e.created, e.now).0
  }

  ghost function StreamOutcome(start: Option<Assembler>, es: seq<Delivery>): Outcome
    requires es != []
  {
    var e := es[|es| - 1];
    Advance(StreamAfter(start, es[..|es| - 1]), e.chunk, e.created, e.now).1
  }

  ghost function OfStream(ds: seq<Delivery>, stream: int): seq<Delivery> {
    if ds == [] then []
    else
      var rest := OfStream(ds[..|ds| - 1], stream);
      if ds[|ds| - 1].chunk.streamId == stream then rest + [ds[|ds| - 1]] else rest
  }

  /** Isolation: a stream's assembler and outcomes are those of its own deliveries alone. */
  lemma {:induction false} StreamsDoNotInterfere(start: Table, ds: seq<Delivery>, stream: int)
    ensures Get(After(start, ds), stream) == StreamAfter(Get(start, stream), OfStream(ds, stream))
    ensures ds != [] && ds[|ds| - 1].chunk.streamId == stream ==>
      LastOutcome(start, ds) == StreamOutcome(Get(start, stream), OfStream(ds, stream))
  {
    if ds != [] {
      StreamsDoNotInterfere(start, ds[..|ds| - 1], stream);
      var rest, d := OfStream(ds[..|ds| - 1], stream), ds[|ds| - 1];
      var table := After(start, ds[..|ds| - 1]);
      var next := Advance(Get(table, d.chunk.streamId), d.chunk, d.created, d.now);
      GetPut(table, d.chunk.streamId, next.0, stream);
      if d.chunk.streamId == stream {
        var own := rest + [d];
        assert own[..|own| - 1] == rest;
        assert StreamAfter(Get(start, stream), own) == next.0;
      }
    }
  }

  /** Between calls of any run from an empty table every assembler lacks an index it announced. */
  lemma {:induction false} EveryAssemblerIsIncomplete(ds: seq<Delivery>)
    ensures forall s :: s in After(map[], ds) ==> Incomplete(After(map[], ds)[s])
  {
    if ds != [] {
      EveryAssemblerIsIncomplete(ds[..|ds| - 1]);
      var d := ds[|ds| - 1];
      AdvanceKeepsIncomplete(Get(After(map[], ds[..|ds| - 1]), d.chunk.streamId), d.chunk, d.created, d.now);
    }
  }

  /** A rejected chunk leaves the whole table as it was, whatever it announces and whatever stream it names. */
  lemma RejectedChunksChangeNothing(start: Table, ds: seq<Delivery>, d: Delivery)
    requires var o := LastOutcome(start, ds + [d]); o.ZeroTotal? || o.TooManyChunks? || o.DecryptFailed?
    ensures After(start, ds + [d]) == After(start, ds)
  {
    assert (ds + [d])[..|ds|] == ds;
    var table, stream := After(start, ds), d.chunk.streamId;
    AdvanceDecides(Get(table, stream), d.chunk, d.created, d.now);
    assert Put(table, stream, Get(table, stream)) == table;
  }

  // ----- exact reassembly -----

  /** For each index the first copy that arrived, on top of what was already held. */
  ghost function FirstCopies(held: map<int, seq<byte>>, es: seq<Delivery>): map<int, seq<byte>>
    requires forall e :: e in es ==> e.chunk.plain.Some?
  {
    if es == [] then held
    else
      var rest := FirstCopies(held, es[..|es| - 1]);
      var c := es[|es| - 1].chunk;
      if c.index in rest then rest else rest[c.index := c.plain.value]
  }

  /** The assembler the deliveries meet: the one in progress, or the one the first of them opens. */
  ghost function Opening(start: Option<Assembler>, es: seq<Delivery>): Assembler
    requires es != []
  {
    if start.Some? then start.value else Assembler(es[0].chunk.total, map[], es[0].created, 0)
  }

  /** Deliveries that no check rejects: they open, announce a legal total, and come inside the window. */
  ghost predicate Clean(start: Option<Assembler>, es: seq<Delivery>) {
    && es != []
    && (forall e :: e in es ==> && e.chunk.plain.Some?
                                && e.chunk.total != 0 && e.chunk.total <= MAX_CHUNK_COUNT
                                && e.now - Opening(start, es).createdAt <= CHUNK_ASSEMBLY_TIMEOUT)
    && TotalBytes(FirstCopies(Opening(start, es).received, es)) <= MAX_CHUNK_TOTAL_SIZE
  }

  lemma CleanPrefix(start: Option<Assembler>, es: seq<Delivery>)
    requires Clean(start, es) && |es| > 1
    ensures Clean(start, es[..|es| - 1])
  {
    var c := es[|es| - 1].chunk;
    var rest := FirstCopies(Opening(start, es).received, es[..|es| - 1]);
    if c.index !in rest {
      TotalBytesInsert(rest, c.index, c.plain.value);
    }
  }

  /** No proper prefix already holds all the announced indices. */
  ghost predicate OpenUntilLast(start: Option<Assembler>, es: seq<Delivery>)
    requires Clean(start, es)
  {
    forall k :: 0 < k < |es| ==> !HasAll(FirstCopies(Opening(start, es).received, es[..k]), Opening(start, es).total)
  }

  /** One clean delivery: the first copy of its index counts, and the last missing index completes. */
  lemma StoreFirstCopy(b: Assembler, index: int, data: seq<byte>, now: int)
    requires b.totalSize == TotalBytes(b.received) && now - b.createdAt <= CHUNK_ASSEMBLY_TIMEOUT
    requires index in b.received ==> !HasAll(b.received, b.total)
    requires index !in b.received ==> TotalBytes(b.received[index := data]) <= MAX_CHUNK_TOTAL_SIZE
    ensures var copies := if index in b.received then b.received else b.received[index := data];
      var (a, o) := Store(b, index, data, now);
      if HasAll(copies, b.total) then a == None && o == Complete(Join(copies, b.total))
      else a == Some(b.(received := copies, totalSize := TotalBytes(copies))) && !o.Complete?
  {
    if index !in b.received {
      TotalBytesInsert(b.received, index, data);
    }
  }

  /**
   Any arrival order, with duplicates, stray indices and other announced totals: while an announced index
   is missing the assembler holds exactly the first copies, and the call that brings the last one returns
   their concatenation in index order and frees the stream.
   */
  lemma {:induction false} FirstCopiesAreReassembled(start: Option<Assembler>, es: seq<Delivery>)
    requires start.Some? ==> Incomplete(start.value)
    requires Clean(start, es) && OpenUntilLast(start, es)
    ensures var b := Opening(start, es); var copies := FirstCopies(b.received, es);
      if HasAll(copies, b.total)
      then StreamAfter(start, es) == None && StreamOutcome(start, es) == Complete(Join(copies, b.total))
      else StreamAfter(start, es) == Some(b.(received := copies, totalSize := TotalBytes(copies)))
           && !StreamOutcome(start, es).Complete?
  {
    var b := Opening(start, es);
    var before, e := es[..|es| - 1], es[|es| - 1];
    var rest := FirstCopies(b.received, before);
    var current := b.(received := rest, totalSize := TotalBytes(rest));
    assert e in es;
    if |es| == 1 {
      assert before == [] && current == b;
      assert StreamAfter(start, before) == start;
    } else {
      CleanPrefix(start, es);
      forall k | 0 < k < |before| ensures !HasAll(FirstCopies(b.received, before[..k]), b.total) {
        assert before[..k] == es[..k];
      }
      FirstCopiesAreReassembled(start, before);
      assert !HasAll(FirstCopies(b.received, es[..|es| - 1]), b.total);
      assert StreamAfter(start, before) == Some(current);
    }
    assert Advance(StreamAfter(start, before), e.chunk, e.created, e.now)
        == Store(current, e.chunk.index, e.chunk.plain.value, e.now);
    StoreFirstCopy(current, e.chunk.index, e.chunk.plain.value, e.now);
  }

  ghost function Concat(parts: seq<seq<byte>>): seq<byte> {
    if parts == [] then [] else Concat(parts[..|parts| - 1]) + parts[|parts| - 1]
  }

  lemma {:induction false} JoinIsConcat(received: map<int, seq<byte>>, parts: seq<seq<byte>>)
    requires forall i :: 0 <= i < |parts| ==> i in received && received[i] == parts[i]
    ensures Join(received, |parts|) == Concat(parts)
  {
    if parts != [] {
      JoinIsConcat(received, parts[..|parts| - 1]);
    }
  }

  /** The deliveries carry the message cut into `parts`: the first copy of each index is that part. */
  ghost predicate Carries(es: seq<Delivery>, parts: seq<seq<byte>>) {
    && Clean(None, es) && OpenUntilLast(None, es) && es[0].chunk.total == |parts|
    && forall i :: 0 <= i < |parts| ==> i in FirstCopies(map[], es) && FirstCopies(map[], es)[i] == parts[i]
  }

  /**
   A message cut into any number of parts is delivered byte for byte at the call that brings its last
   part, however its chunks and those of other streams are interleaved.
   */
  lemma MessageSurvivesChunking(start: Table, ds: seq<Delivery>, stream: int, parts: seq<seq<byte>>)
    requires stream !in start && ds != [] && ds[|ds| - 1].chunk.streamId == stream
    requires Carries(OfStream(ds, stream), parts)
    ensures LastOutcome(start, ds) == Complete(Concat(parts)) && stream !in After(start, ds)
  {
    var es := OfStream(ds, stream);
    StreamsDoNotInterfere(start, ds, stream);
    FirstCopiesAreReassembled(None, es);
    assert HasAll(FirstCopies(map[], es), |parts|);
    JoinIsConcat(FirstCopies(map[], es), parts);
    assert Get(After(start, ds), stream) == None;
  }

  // ----- conservation -----

  predicate Removal(o: Outcome) {
    o.TimedOut? || o.TooLarge? || o.Complete?
  }

  predicate Stores(o: Outcome) {
    o.Waiting? || o.Missing? || o.Complete?
  }

  /** Where the assembly now in progress began: just after the last call that freed the stream. */
  ghost function SegmentStart(es: seq<Delivery>): (p: nat)
    ensures p <= |es|
  {
    if es == [] then 0
    else if Removal(StreamOutcome(None, es)) then |es|
    else SegmentStart(es[..|es| - 1])
  }

  /** Call p stored its chunk, whose index is i, with the given payload. */
  ghost predicate StoredAt(es: seq<Delivery>, p: int, i: int, data: seq<byte>)
    requires 0 <= p < |es|
  {
    && es[p].chunk.index == i && es[p].chunk.plain == Some(data)
    && Stores(StreamOutcome(None, es[..p + 1]))
  }

  ghost predicate StoredIn(es: seq<Delivery>, from: int, i: int, data: seq<byte>) {
    exists p :: 0 <= from <= p < |es| && StoredAt(es, p, i, data)
  }

  lemma StoredInGrows(es: seq<Delivery>, e: Delivery, from: int, i: int, data: seq<byte>)
    requires StoredIn(es, from, i, data)
    ensures StoredIn(es + [e], from, i, data)
  {
    var p :| 0 <= from <= p < |es| && StoredAt(es, p, i, data);
    assert (es + [e])[..p + 1] == es[..p + 1];
    assert StoredAt(es + [e], p, i, data);
  }

  /** One call on an assembler: it frees the stream, leaves what is held, or adds the chunk's payload. */
  lemma AdvanceKeepsOrAdds(a: Option<Assembler>, c: Chunk, created: int, now: int)
    ensures var (a', o) := Advance(a, c, created, now);
      && (a'.Some? ==> !Removal(o))
      && (a'.Some? ==> forall i :: i in a'.value.received ==>
           || (a.Some? && i in a.value.received && a'.value.received[i] == a.value.received[i])
           || (i == c.index && c.plain == Some(a'.value.received[i]) && (o.Waiting? || o.Missing?)))
  {
  }

  /** Everything an assembler holds was stored since it was last freed. */
  lemma {:induction false} HeldPiecesAreOfThisSegment(es: seq<Delivery>)
    ensures var a := StreamAfter(None, es); a.Some? ==>
      forall i :: i in a.value.received ==> StoredIn(es, SegmentStart(es), i, a.value.received[i])
  {
    if es != [] {
      var before, e := es[..|es| - 1], es[|es| - 1];
      HeldPiecesAreOfThisSegment(before);
      assert es == before + [e];
      var a, a' := StreamAfter(None, before), StreamAfter(None, es);
      var from := SegmentStart(before);
      var o := StreamOutcome(None, es);
      AdvanceKeepsOrAdds(a, e.chunk, e.created, e.now);
      if a'.Some? {
        assert from == SegmentStart(es);
        forall i | i in a'.value.received ensures StoredIn(es, from, i, a'.value.received[i]) {
          if a.Some? && i in a.value.received {
            StoredInGrows(before, e, from, i, a.value.received[i]);
          } else {
            assert es[..|es|] == es;
            assert StoredAt(es, |es| - 1, i, e.chunk.plain.value);
          }
        }
      }
    }
  }

  lemma CompletionJoins(a: Option<Assembler>, c: Chunk, created: int, now: int)
    requires Advance(a, c, created, now).1.Complete?
    ensures c.plain.Some?
    ensures var b := if a.Some? then a.value else Assembler(c.total, map[], created, 0);
      var received := b.received[c.index := c.plain.value];
      HasAll(received, b.total) && Advance(a, c, created, now).1 == Complete(Join(received, b.total))
  {
  }

  lemma PieceIsOfThisSegment(es: seq<Delivery>, i: int, data: seq<byte>)
    requires es != [] && StreamOutcome(None, es).Complete?
    requires var a := StreamAfter(None, es[..|es| - 1]); var c := es[|es| - 1].chunk;
      (c.index == i && c.plain == Some(data)) || (a.Some? && i in a.value.received && a.value.received[i] == data)
    ensures StoredIn(es, SegmentStart(es[..|es| - 1]), i, data)
  {
    var before, e := es[..|es| - 1], es[|es| - 1];
    HeldPiecesAreOfThisSegment(before);
    assert es == before + [e] && es[..|es|] == es;
    if e.chunk.index == i && e.chunk.plain == Some(data) {
      assert StoredAt(es, |es| - 1, i, data);
    } else {
      StoredInGrows(before, e, SegmentStart(before), i, data);
    }
  }

  /** The total that the assembler of the last call announces. */
  ghost function Announced(es: seq<Delivery>): int
    requires es != []
  {
    var a := StreamAfter(None, es[..|es| - 1]);
    if a.Some? then a.value.total else es[|es| - 1].chunk.total
  }

  /**
   Every reassembled message is the concatenation of payloads stored since the stream was last freed,
   one for each index that its assembler announced; a negative total announces none.
   */
  lemma CompletionUsesItsOwnSegment(es: seq<Delivery>) returns (parts: seq<seq<byte>>)
    requires es != [] && StreamOutcome(None, es).Complete?
    ensures StreamOutcome(None, es) == Complete(Concat(parts))
    ensures |parts| == if Announced(es) < 0 then 0 else Announced(es)
    ensures forall i :: 0 <= i < |parts| ==> StoredIn(es, SegmentStart(es[..|es| - 1]), i, parts[i])
  {
    var before, e := es[..|es| - 1], es[|es| - 1];
    var a := StreamAfter(None, before);
    var b := if a.Some? then a.value else Assembler(e.chunk.total, map[], e.created, 0);
    CompletionJoins(a, e.chunk, e.created, e.now);
    var received := b.received[e.chunk.index := e.chunk.plain.value];
    var n := if b.total < 0 then 0 else b.total;
    parts := seq(n, i requires 0 <= i < n => received[i]);
    JoinIsConcat(received, parts);
    forall i | 0 <= i < |parts| ensures StoredIn(es, SegmentStart(before), i, parts[i]) {
      PieceIsOfThisSegment(es, i, parts[i]);
    }
  }

  /** The segments of different completions are disjoint: the later one starts after the earlier ends. */
  lemma {:induction false} SegmentsAreDisjoint(es: seq<Delivery>, c: nat)
    requires c < |es| && StreamOutcome(None, es[..c + 1]).Complete?
    ensures SegmentStart(es) > c
  {
    if c + 1 < |es| {
      assert es[..|es| - 1][..c + 1] == es[..c + 1];
      SegmentsAreDisjoint(es[..|es| - 1], c);
    } else {
      assert es[..c + 1] == es;
    }
  }

  /** How often index i was stored, ended up in a message, or was dropped; and whether it is held now. */
  ghost function TimesStored(es: seq<Delivery>, i: int): nat {
    if es == [] then 0
    else
      var o := StreamOutcome(None, es);
      TimesStored(es[..|es| - 1], i) + One(es[|es| - 1].chunk.index == i && Stores(o))
  }

  ghost predicate Holds(a: Option<Assembler>, i: int) {
    a.Some? && i in a.value.received
  }

  /** A completing call with index i inside the announced total of its assembler. */
  ghost predicate Delivers(es: seq<Delivery>, i: int)
    requires es != []
  {
    StreamOutcome(None, es).Complete? && 0 <= i < Announced(es)
  }

  ghost function TimesDelivered(es: seq<Delivery>, i: int): nat {
    if es == [] then 0 else TimesDelivered(es[..|es| - 1], i) + One(Delivers(es, i))
  }

  /** Copies that leave without being delivered: timeouts, over-size, or a stray index at completion. */
  ghost function TimesDropped(es: seq<Delivery>, i: int): nat {
    if es == [] then 0
    else
      var o := StreamOutcome(None, es);
      var had := Holds(StreamAfter(None, es[..|es| - 1]), i);
      TimesDropped(es[..|es| - 1], i) +
      One(((o.TimedOut? || o.TooLarge?) && had) ||
          (o.Complete? && !Delivers(es, i) && (had || es[|es| - 1].chunk.index == i)))
  }

  /** What one call does with the copies of index i. */
  lemma OneCallConserves(a: Option<Assembler>, c: Chunk, created: int, now: int, i: int)
    ensures var (a', o) := Advance(a, c, created, now);
      && (o.Complete? ==> a' == None && c.plain.Some? && !(Holds(a, i) && c.index == i))
      && (o.Complete? && 0 <= i < (if a.Some? then a.value.total else c.total) ==> Holds(a, i) || c.index == i)
      && (o.TimedOut? || o.TooLarge? ==> a' == None)
      && (!Removal(o) ==> One(Holds(a', i)) == One(Holds(a, i)) + One(c.index == i && Stores(o)))
  {
    var (a', o) := Advance(a, c, created, now);
    if o.Complete? {
      var b := if a.Some? then a.value else Assembler(c.total, map[], created, 0);
      var received := b.received[c.index := c.plain.value];
      assert HasAll(received, b.total);
      assert 0 <= i < b.total ==> i in received;
    }
  }

  /** Conservation: every stored copy is delivered once, dropped once, or still held. */
  lemma {:induction false} StoredCopiesAreConserved(es: seq<Delivery>, i: int)
    ensures TimesStored(es, i) ==
            TimesDelivered(es, i) + TimesDropped(es, i) + One(Holds(StreamAfter(None, es), i))
  {
    if es != [] {
      StoredCopiesAreConserved(es[..|es| - 1], i);
      var a, e := StreamAfter(None, es[..|es| - 1]), es[|es| - 1];
      OneCallConserves(a, e.chunk, e.created, e.now, i);
    }
  }
}
