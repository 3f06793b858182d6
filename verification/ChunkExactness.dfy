/** When a message that is sent in chunks comes out as it was sent. */
module ChunkExactness {
  import opened Basics
  import opened ChunkReassembly
  import opened ChunkRuns

  // ----- messages in transit -----

  ghost predicate PieceOf(e: Delivery, parts: seq<seq<byte>>) {
    && e.chunk.total == |parts|
    && 0 <= e.chunk.index < |parts|
    && e.chunk.plain == Some(parts[e.chunk.index])
  }

  ghost predicate PiecesOf(es: seq<Delivery>, parts: seq<seq<byte>>) {
    |parts| <= MAX_CHUNK_COUNT && forall e :: e in es ==> PieceOf(e, parts)
  }

  ghost predicate Brings(es: seq<Delivery>, i: int) {
    exists p :: 0 <= p < |es| && es[p].chunk.index == i
  }

  /** The message in any order and with any repetitions, up to the call that brings the last part to arrive. */
  ghost predicate Sends(es: seq<Delivery>, parts: seq<seq<byte>>) {
    && es != [] && PiecesOf(es, parts)
    && (forall i :: 0 <= i < |parts| ==> Brings(es, i))
    && !Brings(es[..|es| - 1], es[|es| - 1].chunk.index)
  }

  function SizeOf(start: Option<Assembler>): int {
    if start.Some? then start.value.totalSize else 0
  }

  /** Neither the window nor the byte limit stands in the way. */
  ghost predicate Fits(start: Option<Assembler>, es: seq<Delivery>, parts: seq<seq<byte>>) {
    && es != []
    && (forall e :: e in es ==> e.now - Opening(start, es).createdAt <= CHUNK_ASSEMBLY_TIMEOUT)
    && SizeOf(start) + |Concat(parts)| <= MAX_CHUNK_TOTAL_SIZE
  }

  /** What the first copies are: what was held stays, and the message's own parts come on top. */
  lemma {:induction false} CopiesMean(held: map<int, seq<byte>>, es: seq<Delivery>, parts: seq<seq<byte>>)
    requires PiecesOf(es, parts)
    ensures var copies := FirstCopies(held, es);
      && (forall k :: k in copies <==> k in held || Brings(es, k))
      && (forall k :: k in held ==> copies[k] == held[k])
      && (forall k :: k in copies && k !in held ==> 0 <= k < |parts| && copies[k] == parts[k])
  {
    if es != [] {
      var before, e := es[..|es| - 1], es[|es| - 1];
      assert es == before + [e] && e in es;
      assert PiecesOf(before, parts);
      CopiesMean(held, before, parts);
      forall k ensures Brings(es, k) <==> Brings(before, k) || k == e.chunk.index {
        BringsOneMore(before, e, k);
      }
    }
  }

  lemma BringsOneMore(before: seq<Delivery>, e: Delivery, k: int)
    ensures Brings(before + [e], k) <==> Brings(before, k) || k == e.chunk.index
  {
    var es := before + [e];
    if Brings(before, k) {
      var p :| 0 <= p < |before| && before[p].chunk.index == k;
      assert es[p].chunk.index == k;
    }
    if k == e.chunk.index {
      assert es[|before|].chunk.index == k;
    }
  }

  lemma {:induction false} SameBytes(a: map<int, seq<byte>>, b: map<int, seq<byte>>)
    requires a.Keys == b.Keys && forall k :: k in a ==> a[k] == b[k]
    ensures TotalBytes(a) == TotalBytes(b)
    decreases |a|
  {
    if k :| k in a {
      TotalBytesRemove(a, k);
      TotalBytesRemove(b, k);
      SameBytes(a - {k}, b - {k});
    }
  }

  /** The bytes of held pieces and of parts on top of them; exactly all, when no part was held before. */
  lemma {:induction false} BytesOnTop(held: map<int, seq<byte>>, received: map<int, seq<byte>>, parts: seq<seq<byte>>)
    requires forall k :: k in held ==> k in received && received[k] == held[k]
    requires forall k :: k in received ==> k in held || (0 <= k < |parts| && received[k] == parts[k])
    ensures TotalBytes(received) <= TotalBytes(held) + |Concat(parts)|
    ensures (forall i :: 0 <= i < |parts| ==> i in received && i !in held) ==>
      TotalBytes(received) == TotalBytes(held) + |Concat(parts)|
  {
    if parts == [] {
      forall k ensures k in received <==> k in held {
        assert k in received ==> received[k] == received[k];
      }
      SameBytes(received, held);
    } else {
      var n := |parts| - 1;
      var before := parts[..n];
      if n in received && n !in held {
        TotalBytesRemove(received, n);
        BytesOnTop(held, received - {n}, before);
      } else {
        forall k | k in received ensures k in held || (0 <= k < |before| && received[k] == before[k]) {
          assert k == n ==> k in held;
        }
        BytesOnTop(held, received, before);
      }
    }
  }

  /** Without a stray index, the bytes the limit counts are those of the message. */
  lemma MessageBytes(es: seq<Delivery>, parts: seq<seq<byte>>)
    requires Sends(es, parts)
    ensures TotalBytes(FirstCopies(map[], es)) == |Concat(parts)|
  {
    CopiesMean(map[], es, parts);
    BytesOnTop(map[], FirstCopies(map[], es), parts);
  }

  lemma FittingIsClean(start: Option<Assembler>, es: seq<Delivery>, parts: seq<seq<byte>>)
    requires start.Some? ==> Incomplete(start.value)
    requires PiecesOf(es, parts) && Fits(start, es, parts)
    ensures Clean(start, es)
  {
    var held := Opening(start, es).received;
    CopiesMean(held, es, parts);
    BytesOnTop(held, FirstCopies(held, es), parts);
    forall e | e in es
      ensures e.chunk.plain.Some? && e.chunk.total != 0 && e.chunk.total <= MAX_CHUNK_COUNT
      ensures e.now - Opening(start, es).createdAt <= CHUNK_ASSEMBLY_TIMEOUT
    {
      assert PieceOf(e, parts);
    }
  }

  // ----- when a message is exact -----

  /**
   What is held can do no harm to a message of n parts: none of its indices is held, and what its assembler
   announces beyond them is there already, and empty. With the same total this is: none of them is held.
   */
  ghost predicate Harmless(a: Assembler, n: int) {
    && n <= a.total
    && (forall i :: 0 <= i < n ==> i !in a.received)
    && (forall i :: n <= i < a.total ==> i in a.received && a.received[i] == [])
  }

  /** The stream is free, or as good as free. */
  ghost predicate Free(start: Option<Assembler>, n: int) {
    start.None? || Harmless(start.value, n)
  }

  lemma {:induction false} JoinIgnoresEmptyTail(received: map<int, seq<byte>>, n: nat, total: int)
    requires n <= total && HasAll(received, total) && forall i :: n <= i < total ==> received[i] == []
    ensures HasAll(received, n) && Join(received, total) == Join(received, n)
    decreases total
  {
    if n < total {
      JoinIgnoresEmptyTail(received, n, total - 1);
    }
  }

  lemma BringsGrows(es: seq<Delivery>, k: int, m: int, i: int)
    requires 0 <= k <= m <= |es|
    ensures Brings(es[..k], i) ==> Brings(es[..m], i)
  {
    if Brings(es[..k], i) {
      var p :| 0 <= p < k && es[..k][p].chunk.index == i;
      assert es[..m][p].chunk.index == i;
    }
  }

  /** On a free stream the message is still open at every call before the last. */
  lemma FreeStaysOpen(start: Option<Assembler>, es: seq<Delivery>, parts: seq<seq<byte>>, k: int)
    requires Free(start, |parts|) && Sends(es, parts) && 0 < k < |es|
    requires PiecesOf(es[..k], parts)
    ensures !HasAll(FirstCopies(Opening(start, es).received, es[..k]), Opening(start, es).total)
  {
    var held, last := Opening(start, es).received, es[|es| - 1].chunk.index;
    assert es[|es| - 1] in es && es[0] in es;
    CopiesMean(held, es[..k], parts);
    BringsGrows(es, k, |es| - 1, last);
    assert last !in FirstCopies(held, es[..k]);
  }

  lemma PrefixFits(start: Option<Assembler>, es: seq<Delivery>, parts: seq<seq<byte>>, k: int)
    requires PiecesOf(es, parts) && Fits(start, es, parts) && 0 < k <= |es|
    ensures PiecesOf(es[..k], parts) && Fits(start, es[..k], parts) && Opening(start, es[..k]) == Opening(start, es)
  {
    assert forall e :: e in es[..k] ==> e in es;
  }

  lemma FreeIsOpenUntilLast(start: Option<Assembler>, es: seq<Delivery>, parts: seq<seq<byte>>, k: int)
    requires start.Some? ==> Incomplete(start.value)
    requires Free(start, |parts|) && Sends(es, parts) && Fits(start, es, parts) && 0 < k <= |es|
    ensures Clean(start, es[..k]) && OpenUntilLast(start, es[..k])
  {
    PrefixFits(start, es, parts, k);
    FittingIsClean(start, es[..k], parts);
    forall j | 0 < j < k
      ensures !HasAll(FirstCopies(Opening(start, es[..k]).received, es[..k][..j]), Opening(start, es[..k]).total)
    {
      assert es[..k][..j] == es[..j];
      PrefixFits(start, es, parts, j);
      FreeStaysOpen(start, es, parts, j);
    }
  }

  /** On a free stream every message comes out as it was sent, at the call that brings its last part and not before. */
  lemma FreeStreamIsExact(start: Option<Assembler>, es: seq<Delivery>, parts: seq<seq<byte>>)
    requires start.Some? ==> Incomplete(start.value)
    requires Free(start, |parts|) && Sends(es, parts) && Fits(start, es, parts)
    ensures StreamAfter(start, es) == None && StreamOutcome(start, es) == Complete(Concat(parts))
    ensures forall k :: 0 < k < |es| ==> !StreamOutcome(start, es[..k]).Complete?
  {
    var b := Opening(start, es);
    assert es[..|es|] == es && es[0] in es;
    FreeIsOpenUntilLast(start, es, parts, |es|);
    FirstCopiesAreReassembled(start, es);
    var copies := FirstCopies(b.received, es);
    CopiesMean(b.received, es, parts);
    assert HasAll(copies, b.total);
    JoinIgnoresEmptyTail(copies, |parts|, b.total);
    JoinIsConcat(copies, parts);
    forall k | 0 < k < |es| ensures !StreamOutcome(start, es[..k]).Complete? {
      FreeIsOpenUntilLast(start, es, parts, k);
      FirstCopiesAreReassembled(start, es[..k]);
      PrefixFits(start, es, parts, k);
      FreeStaysOpen(start, es, parts, k);
    }
  }

  /** For whole tables: a message of at most 100 MB survives being cut, shuffled, repeated and interleaved. */
  lemma SentMessageSurvives(start: Table, ds: seq<Delivery>, stream: int, parts: seq<seq<byte>>)
    requires stream !in start && ds != [] && ds[|ds| - 1].chunk.streamId == stream
    requires Sends(OfStream(ds, stream), parts) && Fits(None, OfStream(ds, stream), parts)
    ensures LastOutcome(start, ds) == Complete(Concat(parts)) && stream !in After(start, ds)
  {
    StreamsDoNotInterfere(start, ds, stream);
    FreeStreamIsExact(None, OfStream(ds, stream), parts);
    assert Get(After(start, ds), stream) == None;
  }

  // ----- and when it is not -----

  /** Some call of the run returns the message. */
  ghost predicate ComesOut(start: Option<Assembler>, es: seq<Delivery>, message: seq<byte>) {
    exists k :: 0 < k <= |es| && StreamOutcome(start, es[..k]) == Complete(message)
  }

  /** No call of the run completes. */
  ghost predicate NeverCompletes(start: Option<Assembler>, es: seq<Delivery>) {
    forall k :: 0 < k <= |es| ==> !StreamOutcome(start, es[..k]).Complete?
  }

  /** Every clock read of the run is between these times. */
  ghost predicate Within(es: seq<Delivery>, from: int, to: int) {
    forall e :: e in es ==> from <= e.created <= to && from <= e.now <= to
  }

  /** Every message of n parts and at most `limit` bytes that is sent between these times comes out. */
  ghost predicate Exact(start: Option<Assembler>, n: int, limit: int, from: int, to: int) {
    forall parts: seq<seq<byte>>, es ::
      |parts| == n && |Concat(parts)| <= limit && Sends(es, parts) && Within(es, from, to) ==>
        ComesOut(start, es, Concat(parts))
  }

  // ----- losing the first chunk -----

  /** The stream was freed and may have been reopened, without piece `lost` of a message of n parts. */
  ghost predicate Restarted(a: Option<Assembler>, n: int, lost: int) {
    a.Some? ==> a.value.total == n && lost !in a.value.received
  }

  /** A restarted stream does not complete on another piece than the lost one. */
  lemma RestartedStays(a: Option<Assembler>, c: Chunk, created: int, now: int, lost: int)
    requires Restarted(a, c.total, lost) && 0 <= lost < c.total && c.index != lost
    ensures Restarted(Advance(a, c, created, now).0, c.total, lost) && !Advance(a, c, created, now).1.Complete?
  {
    if c.total <= MAX_CHUNK_COUNT && c.plain.Some? {
      var b := if a.Some? then a.value else Assembler(c.total, map[], created, 0);
      assert lost !in b.received[c.index := c.plain.value];
      assert !HasAll(b.received[c.index := c.plain.value], b.total);
    }
  }

  /** The first call frees the stream without completing, and no later one brings its chunk again. */
  ghost predicate LosesFirst(start: Option<Assembler>, es: seq<Delivery>) {
    && es != [] && StreamAfter(start, es[..1]) == None && !StreamOutcome(start, es[..1]).Complete?
    && forall p :: 0 < p < |es| ==> es[p].chunk.index != es[0].chunk.index
  }

  lemma {:induction false} LosingFirstRestarts(start: Option<Assembler>, es: seq<Delivery>, parts: seq<seq<byte>>,
                                               k: int)
    requires PiecesOf(es, parts) && LosesFirst(start, es) && 0 < k <= |es|
    ensures Restarted(StreamAfter(start, es[..k]), |parts|, es[0].chunk.index)
    ensures !StreamOutcome(start, es[..k]).Complete?
  {
    if k > 1 {
      LosingFirstRestarts(start, es, parts, k - 1);
      assert es[..k][..k - 1] == es[..k - 1];
      assert PieceOf(es[0], parts) && PieceOf(es[k - 1], parts);
      var e := es[k - 1];
      RestartedStays(StreamAfter(start, es[..k - 1]), e.chunk, e.created, e.now, es[0].chunk.index);
    }
  }

  /** A message whose first chunk is lost, and not repeated, is lost. */
  lemma LosingFirstLosesAll(start: Option<Assembler>, es: seq<Delivery>, parts: seq<seq<byte>>)
    requires PiecesOf(es, parts) && LosesFirst(start, es)
    ensures NeverCompletes(start, es)
  {
    forall k | 0 < k <= |es| ensures !StreamOutcome(start, es[..k]).Complete? {
      LosingFirstRestarts(start, es, parts, k);
    }
  }

  lemma FirstCall(start: Option<Assembler>, es: seq<Delivery>)
    requires es != []
    ensures (StreamAfter(start, es[..1]), StreamOutcome(start, es[..1])) ==
            Advance(start, es[0].chunk, es[0].created, es[0].now)
  {
    assert es[..1][..0] == [];
  }

  /**
   Nothing removes an assembler in the background. The chunk that finds one older than 60 s is discarded with
   it, so the message it begins is lost unless that chunk is repeated: whatever is held, and in any order.
   */
  lemma StaleAssemblerSwallowsMessage(a: Assembler, es: seq<Delivery>, parts: seq<seq<byte>>)
    requires es != [] && PiecesOf(es, parts) && es[0].now - a.createdAt > CHUNK_ASSEMBLY_TIMEOUT
    requires forall p :: 0 < p < |es| ==> es[p].chunk.index != es[0].chunk.index
    ensures StreamOutcome(Some(a), es[..1]) == TimedOut && NeverCompletes(Some(a), es)
  {
    FirstCall(Some(a), es);
    assert PieceOf(es[0], parts);
    LosingFirstLosesAll(Some(a), es, parts);
  }

  // ----- messages in order -----

  /** The parts one after the other, all at the same time. */
  function InOrder(parts: seq<seq<byte>>, at: int): (es: seq<Delivery>)
    ensures |es| == |parts|
  {
    seq(|parts|, i requires 0 <= i < |parts| => Delivery(Chunk(0, i, |parts|, Some(parts[i])), at, at))
  }

  lemma InOrderSends(parts: seq<seq<byte>>, at: int)
    requires 1 <= |parts| <= MAX_CHUNK_COUNT
    ensures Sends(InOrder(parts, at), parts) && Within(InOrder(parts, at), at, at)
  {
    var es := InOrder(parts, at);
    forall i | 0 <= i < |parts| ensures Brings(es, i) {
      assert es[i].chunk.index == i;
    }
  }

  /** What is held after the first k parts. */
  ghost function Copies(a: Assembler, parts: seq<seq<byte>>, k: int): map<int, seq<byte>>
    requires k <= |parts|
    decreases k
  {
    if k <= 0 then a.received
    else
      var before := Copies(a, parts, k - 1);
      if k - 1 in before then before else before[k - 1 := parts[k - 1]]
  }

  lemma {:induction false} CopiesAre(a: Assembler, parts: seq<seq<byte>>, k: int)
    requires 0 <= k <= |parts|
    ensures var copies := Copies(a, parts, k);
      && (forall i :: i in copies <==> i in a.received || 0 <= i < k)
      && (forall i :: i in copies ==> copies[i] == if i in a.received then a.received[i] else parts[i])
    decreases k
  {
    if k > 0 {
      CopiesAre(a, parts, k - 1);
    }
  }

  /** Whenever these parts complete what is held, it is not to the message they are of. */
  ghost predicate Spoils(a: Assembler, parts: seq<seq<byte>>) {
    forall k :: 0 < k <= |parts| && HasAll(Copies(a, parts, k), a.total) ==>
      Join(Copies(a, parts, k), a.total) != Concat(parts)
  }

  ghost predicate InWindow(a: Assembler, to: int) {
    to - a.createdAt <= CHUNK_ASSEMBLY_TIMEOUT
  }

  /** Where the run stands after k parts: still on the held assembler, or past its end. */
  ghost predicate Underway(a: Assembler, parts: seq<seq<byte>>, k: int, now: Option<Assembler>)
    requires 0 <= k <= |parts|
  {
    var copies := Copies(a, parts, k);
    || (!HasAll(copies, a.total) && now == Some(a.(received := copies, totalSize := TotalBytes(copies))))
    || (k > 0 && Restarted(now, |parts|, 0))
  }

  lemma {:induction false} SpoiledRun(a: Assembler, parts: seq<seq<byte>>, at: int, k: int)
    requires Incomplete(a) && InWindow(a, at) && Spoils(a, parts)
    requires 1 <= |parts| <= MAX_CHUNK_COUNT && 0 <= k <= |parts|
    ensures var es := InOrder(parts, at);
      && Underway(a, parts, k, StreamAfter(Some(a), es[..k]))
      && (k > 0 ==> StreamOutcome(Some(a), es[..k]) != Complete(Concat(parts)))
  {
    var es := InOrder(parts, at);
    if k > 0 {
      SpoiledRun(a, parts, at, k - 1);
      assert es[..k][..k - 1] == es[..k - 1];
      SpoiledStep(a, parts, at, k, StreamAfter(Some(a), es[..k - 1]));
    }
  }

  /** One more part on a run that is underway. */
  lemma SpoiledStep(a: Assembler, parts: seq<seq<byte>>, at: int, k: int, current: Option<Assembler>)
    requires Incomplete(a) && InWindow(a, at) && |parts| <= MAX_CHUNK_COUNT && Spoils(a, parts) && 0 < k <= |parts|
    requires Underway(a, parts, k - 1, current)
    ensures var (after, o) := Advance(current, Chunk(0, k - 1, |parts|, Some(parts[k - 1])), at, at);
      Underway(a, parts, k, after) && o != Complete(Concat(parts))
  {
    var before, data := Copies(a, parts, k - 1), parts[k - 1];
    if !HasAll(before, a.total) && current == Some(a.(received := before, totalSize := TotalBytes(before))) {
      if k - 1 !in before {
        TotalBytesInsert(before, k - 1, data);
      }
      if k - 1 in before || TotalBytes(before) + |data| <= MAX_CHUNK_TOTAL_SIZE {
        StoreFirstCopy(current.value, k - 1, data, at);
      }
    } else {
      RestartedStays(current, Chunk(0, k - 1, |parts|, Some(data)), at, at, 0);
    }
  }

  /** A message that spoils is returned by no call of its run. */
  lemma SpoiledNeverComesOut(a: Assembler, parts: seq<seq<byte>>, at: int)
    requires Incomplete(a) && InWindow(a, at) && 1 <= |parts| <= MAX_CHUNK_COUNT && Spoils(a, parts)
    ensures !ComesOut(Some(a), InOrder(parts, at), Concat(parts))
  {
    var es := InOrder(parts, at);
    forall k | 0 < k <= |es| ensures StreamOutcome(Some(a), es[..k]) != Complete(Concat(parts)) {
      SpoiledRun(a, parts, at, k);
    }
  }

  // ----- messages without a byte -----

  /** The announced indices from n on are there, and every announced piece that is held is empty. */
  ghost predicate PassesEmpty(a: Assembler, n: int) {
    && (forall i :: n <= i < a.total ==> i in a.received)
    && (forall i :: 0 <= i < a.total && i in a.received ==> a.received[i] == [])
  }

  /** A run that brings what is missing completes at the first call after which nothing is. */
  lemma {:induction false} CompletesSomewhere(a: Assembler, es: seq<Delivery>, parts: seq<seq<byte>>) returns (k: int)
    requires Incomplete(a) && PiecesOf(es, parts) && Fits(Some(a), es, parts)
    requires HasAll(FirstCopies(a.received, es), a.total)
    ensures 0 < k <= |es| && PiecesOf(es[..k], parts) && HasAll(FirstCopies(a.received, es[..k]), a.total)
    ensures StreamOutcome(Some(a), es[..k]) == Complete(Join(FirstCopies(a.received, es[..k]), a.total))
    decreases |es|
  {
    forall e | e in es ensures e.chunk.plain.Some? {
      assert PieceOf(e, parts);
    }
    if j :| 0 < j < |es| && HasAll(FirstCopies(a.received, es[..j]), a.total) {
      PrefixFits(Some(a), es, parts, j);
      k := CompletesSomewhere(a, es[..j], parts);
      assert es[..j][..k] == es[..k];
    } else {
      k := |es|;
      assert es[..k] == es;
      FittingIsClean(Some(a), es, parts);
      FirstCopiesAreReassembled(Some(a), es);
    }
  }

  lemma {:induction false} EmptyConcat(parts: seq<seq<byte>>, i: int)
    requires Concat(parts) == [] && 0 <= i < |parts|
    ensures parts[i] == []
  {
    if i < |parts| - 1 {
      EmptyConcat(parts[..|parts| - 1], i);
    }
  }

  lemma EmptyMessageComesOut(a: Assembler, es: seq<Delivery>, parts: seq<seq<byte>>)
    requires Incomplete(a) && PassesEmpty(a, |parts|) && Concat(parts) == []
    requires Sends(es, parts) && Fits(Some(a), es, parts)
    ensures ComesOut(Some(a), es, Concat(parts))
  {
    CopiesMean(a.received, es, parts);
    var k := CompletesSomewhere(a, es, parts);
    CopiesMean(a.received, es[..k], parts);
    var copies := FirstCopies(a.received, es[..k]);
    forall i | 0 <= i < a.total ensures copies[i] == [] {
      if i !in a.received {
        EmptyConcat(parts, i);
      }
    }
    JoinOfEmpties(copies, a.total);
  }

  // ----- a message for every way of not being free -----

  /** n parts, all empty but for part i. */
  function Marked(n: nat, i: nat, data: seq<byte>): seq<seq<byte>>
    requires i < n
  {
    Blank(n)[i := data]
  }

  function Blank(n: nat): (parts: seq<seq<byte>>)
    ensures |parts| == n
  {
    seq(n, _ => [])
  }

  lemma {:induction false} ConcatBlank(n: nat)
    ensures Concat(Blank(n)) == []
  {
    if n > 0 {
      assert Blank(n)[..n - 1] == Blank(n - 1);
      ConcatBlank(n - 1);
    }
  }

  lemma {:induction false} ConcatMarked(n: nat, i: nat, data: seq<byte>)
    requires i < n
    ensures Concat(Marked(n, i, data)) == data
  {
    if i == n - 1 {
      assert Marked(n, i, data)[..n - 1] == Blank(n - 1);
      ConcatBlank(n - 1);
    } else {
      assert Marked(n, i, data)[..n - 1] == Marked(n - 1, i, data);
      ConcatMarked(n - 1, i, data);
    }
  }

  lemma {:induction false} JoinOfEmpties(received: map<int, seq<byte>>, n: int)
    requires HasAll(received, n) && forall i :: 0 <= i < n ==> received[i] == []
    ensures Join(received, n) == []
    decreases n
  {
    if n > 0 {
      JoinOfEmpties(received, n - 1);
    }
  }

  lemma {:induction false} JoinIsAsLong(received: map<int, seq<byte>>, n: int, i: int)
    requires HasAll(received, n) && 0 <= i < n
    ensures |Join(received, n)| >= |received[i]|
    decreases n
  {
    if i < n - 1 {
      JoinIsAsLong(received, n - 1, i);
    }
  }

  lemma {:induction false} JoinAgrees(a: map<int, seq<byte>>, b: map<int, seq<byte>>, n: int)
    requires HasAll(a, n) && HasAll(b, n) && forall i :: 0 <= i < n ==> a[i] == b[i]
    ensures Join(a, n) == Join(b, n)
    decreases n
  {
    if n > 0 {
      JoinAgrees(a, b, n - 1);
    }
  }

  /** The announced total goes beyond the message, and a piece out there is missing: nothing ever completes. */
  lemma MissingTailSpoils(a: Assembler, n: nat, i: int)
    requires n <= i < a.total && i !in a.received
    ensures Spoils(a, Blank(n))
  {
    forall k | 0 < k <= n ensures !HasAll(Copies(a, Blank(n), k), a.total) {
      CopiesAre(a, Blank(n), k);
      assert i !in Copies(a, Blank(n), k);
    }
  }

  /** A piece that is held and not empty shows up in an empty message. */
  lemma HeldBytesSpoil(a: Assembler, n: nat, i: int)
    requires 0 <= i < a.total && i in a.received && a.received[i] != []
    ensures Spoils(a, Blank(n))
  {
    ConcatBlank(n);
    forall k | 0 < k <= n && HasAll(Copies(a, Blank(n), k), a.total)
      ensures Join(Copies(a, Blank(n), k), a.total) != Concat(Blank(n))
    {
      CopiesAre(a, Blank(n), k);
      JoinIsAsLong(Copies(a, Blank(n), k), a.total, i);
    }
  }

  /** So an empty message spoils whatever does not pass one. */
  lemma NotPassingSpoilsBlank(a: Assembler, n: nat)
    requires !PassesEmpty(a, n)
    ensures Spoils(a, Blank(n)) && Concat(Blank(n)) == []
  {
    ConcatBlank(n);
    if i :| n <= i < a.total && i !in a.received {
      MissingTailSpoils(a, n, i);
    } else {
      var i :| 0 <= i < a.total && i in a.received && a.received[i] != [];
      HeldBytesSpoil(a, n, i);
    }
  }

  /** A piece that is held and empty displaces the only byte of a message. */
  lemma HeldGapSpoils(a: Assembler, n: nat, i: int)
    requires PassesEmpty(a, n) && 0 <= i < n && i in a.received && i < a.total
    ensures Spoils(a, Marked(n, i, [0]))
  {
    var parts := Marked(n, i, [0]);
    ConcatMarked(n, i, [0]);
    forall k | 0 < k <= n && HasAll(Copies(a, parts, k), a.total)
      ensures Join(Copies(a, parts, k), a.total) != Concat(parts)
    {
      CopiesAre(a, parts, k);
      JoinOfEmpties(Copies(a, parts, k), a.total);
    }
  }

  /** A total short of the message completes, to nothing, before the byte in its last part arrives. */
  lemma ShortTotalSpoils(a: Assembler, n: nat)
    requires PassesEmpty(a, n) && 0 <= a.total < n
    ensures Spoils(a, Marked(n, n - 1, [0]))
  {
    var parts := Marked(n, n - 1, [0]);
    ConcatMarked(n, n - 1, [0]);
    forall k | 0 < k <= n && HasAll(Copies(a, parts, k), a.total)
      ensures Join(Copies(a, parts, k), a.total) != Concat(parts)
    {
      CopiesAre(a, parts, k);
      JoinOfEmpties(Copies(a, parts, k), a.total);
    }
  }

  /** Whatever is not harmless is spoiled by a message of at most one byte. */
  lemma NotHarmlessHasSpoiler(a: Assembler, n: nat) returns (parts: seq<seq<byte>>)
    requires n >= 1 && a.total >= 0 && !Harmless(a, n)
    ensures |parts| == n && |Concat(parts)| <= 1 && Spoils(a, parts)
  {
    if !PassesEmpty(a, n) {
      parts := Blank(n);
      NotPassingSpoilsBlank(a, n);
    } else if a.total < n {
      parts := Marked(n, n - 1, [0]);
      ShortTotalSpoils(a, n);
      ConcatMarked(n, n - 1, [0]);
    } else {
      var i :| 0 <= i < n && i in a.received;
      parts := Marked(n, i, [0]);
      HeldGapSpoils(a, n, i);
      ConcatMarked(n, i, [0]);
    }
  }

  /** What is held leaves no room for a message of this size: its first part frees the stream, and it is lost. */
  lemma HeavyMessageIsLost(a: Assembler, n: nat, size: nat, at: int)
    requires 1 <= n <= MAX_CHUNK_COUNT && InWindow(a, at) && 0 !in a.received
    requires a.totalSize + size > MAX_CHUNK_TOTAL_SIZE
    ensures var parts := Marked(n, 0, seq(size, _ => 0));
      |Concat(parts)| == size && NeverCompletes(Some(a), InOrder(parts, at))
  {
    var parts := Marked(n, 0, seq(size, _ => 0));
    var es := InOrder(parts, at);
    ConcatMarked(n, 0, seq(size, _ => 0));
    InOrderSends(parts, at);
    FirstCall(Some(a), es);
    LosingFirstLosesAll(Some(a), es, parts);
  }

  // ----- the exact condition -----

  /** What is held lets every message of n parts and at most `limit` bytes pass. */
  ghost predicate Passes(a: Assembler, n: int, limit: int) {
    if limit == 0 then PassesEmpty(a, n)
    else Harmless(a, n) && a.totalSize + limit <= MAX_CHUNK_TOTAL_SIZE
  }

  /** One message that does not come out, at the end of the time, refutes exactness. */
  lemma Refutes(start: Option<Assembler>, parts: seq<seq<byte>>, limit: int, from: int, to: int)
    requires 1 <= |parts| <= MAX_CHUNK_COUNT && |Concat(parts)| <= limit && from <= to
    requires !ComesOut(start, InOrder(parts, to), Concat(parts))
    ensures !Exact(start, |parts|, limit, from, to)
  {
    InOrderSends(parts, to);
    assert Within(InOrder(parts, to), from, to);
  }

  lemma PassingIsExact(start: Option<Assembler>, limit: int, from: int, to: int, es: seq<Delivery>,
                       parts: seq<seq<byte>>)
    requires |Concat(parts)| <= limit <= MAX_CHUNK_TOTAL_SIZE && to - from <= CHUNK_ASSEMBLY_TIMEOUT
    requires start.Some? ==> Incomplete(start.value) && InWindow(start.value, to) && Passes(start.value, |parts|, limit)
    requires Sends(es, parts) && Within(es, from, to)
    ensures ComesOut(start, es, Concat(parts))
  {
    assert es[0] in es && es[..|es|] == es;
    assert Fits(start, es, parts);
    if start.None? || limit > 0 {
      FreeStreamIsExact(start, es, parts);
    } else {
      EmptyMessageComesOut(start.value, es, parts);
    }
  }

  lemma NotPassingIsNotExact(a: Assembler, n: nat, limit: int, from: int, to: int)
    requires 1 <= n <= MAX_CHUNK_COUNT && 0 <= limit && from <= to && Incomplete(a)
    requires !(InWindow(a, to) && Passes(a, n, limit))
    ensures !Exact(Some(a), n, limit, from, to)
  {
    if !InWindow(a, to) {
      ConcatBlank(n);
      InOrderSends(Blank(n), to);
      StaleAssemblerSwallowsMessage(a, InOrder(Blank(n), to), Blank(n));
      Refutes(Some(a), Blank(n), limit, from, to);
    } else if limit == 0 {
      NotPassingSpoilsBlank(a, n);
      SpoiledNeverComesOut(a, Blank(n), to);
      Refutes(Some(a), Blank(n), limit, from, to);
    } else if !Harmless(a, n) {
      var parts := NotHarmlessHasSpoiler(a, n);
      SpoiledNeverComesOut(a, parts, to);
      Refutes(Some(a), parts, limit, from, to);
    } else {
      HeavyMessageIsLost(a, n, limit, to);
      Refutes(Some(a), Marked(n, 0, seq(limit, _ => 0)), limit, from, to);
    }
  }

  /**
   For every assembler that can be met between calls, every number of parts, every size limit and every time
   span that a message itself may take: all such messages come out exactly when the stream is free, or its
   assembler stays inside its own 60 s to the end of the span and what it holds lets them pass.
   */
  lemma ExactIff(start: Option<Assembler>, n: nat, limit: int, from: int, to: int)
    requires 1 <= n <= MAX_CHUNK_COUNT && 0 <= limit <= MAX_CHUNK_TOTAL_SIZE
    requires from <= to <= from + CHUNK_ASSEMBLY_TIMEOUT
    requires start.Some? ==> Incomplete(start.value)
    ensures Exact(start, n, limit, from, to) <==>
      start.None? || (InWindow(start.value, to) && Passes(start.value, n, limit))
  {
    if start.None? || (InWindow(start.value, to) && Passes(start.value, n, limit)) {
      forall parts: seq<seq<byte>>, es |
        |parts| == n && |Concat(parts)| <= limit && Sends(es, parts) && Within(es, from, to)
        ensures ComesOut(start, es, Concat(parts))
      {
        PassingIsExact(start, limit, from, to, es, parts);
      }
    } else {
      NotPassingIsNotExact(start.value, n, limit, from, to);
    }
  }

  /** For all messages up to 100 MB: the assembler, if any, must be in its window, harmless, and without a byte. */
  lemma AllMessagesExactIff(start: Option<Assembler>, n: nat, from: int, to: int)
    requires 1 <= n <= MAX_CHUNK_COUNT && from <= to <= from + CHUNK_ASSEMBLY_TIMEOUT
    requires start.Some? ==> Incomplete(start.value)
    ensures Exact(start, n, MAX_CHUNK_TOTAL_SIZE, from, to) <==>
      start.None? ||
      (InWindow(start.value, to) && Harmless(start.value, n) && start.value.totalSize == 0)
  {
    ExactIff(start, n, MAX_CHUNK_TOTAL_SIZE, from, to);
  }

  /** For the messages that fit on top of what is held; on a full assembler these are the empty ones. */
  lemma FittingMessagesExactIff(start: Option<Assembler>, n: nat, from: int, to: int)
    requires 1 <= n <= MAX_CHUNK_COUNT && from <= to <= from + CHUNK_ASSEMBLY_TIMEOUT
    requires start.Some? ==> Incomplete(start.value)
    ensures Exact(start, n, MAX_CHUNK_TOTAL_SIZE - SizeOf(start), from, to) <==>
      start.None? ||
      (InWindow(start.value, to) &&
       (Harmless(start.value, n) || (start.value.totalSize == MAX_CHUNK_TOTAL_SIZE && PassesEmpty(start.value, n))))
  {
    ExactIff(start, n, MAX_CHUNK_TOTAL_SIZE - SizeOf(start), from, to);
  }

  // ----- the late copy -----

  function Piece(stream: int, i: int, data: seq<byte>): Delivery {
    Delivery(Chunk(stream, i, 2, Some(data)), 0, 0)
  }

  /** The first of two parts is held. */
  function Half(data: seq<byte>): Assembler {
    Assembler(2, map[0 := data], 0, |data|)
  }

  lemma FirstOpens(stream: int, data: seq<byte>)
    requires |data| <= MAX_CHUNK_TOTAL_SIZE
    ensures Advance(None, Piece(stream, 0, data).chunk, 0, 0) == (Some(Half(data)), Waiting)
  {
    assert 1 !in Half(data).received;
    assert map[][0 := data] == map[0 := data];
  }

  lemma FirstIsDuplicate(stream: int, data: seq<byte>, copy: seq<byte>)
    ensures Advance(Some(Half(data)), Piece(stream, 0, copy).chunk, 0, 0) == (Some(Half(data)), Duplicate)
  {
  }

  lemma SecondCompletes(stream: int, first: seq<byte>, second: seq<byte>)
    requires |first| + |second| <= MAX_CHUNK_TOTAL_SIZE
    ensures Advance(Some(Half(first)), Piece(stream, 1, second).chunk, 0, 0) ==
            (None, Complete(Concat([first, second])))
  {
    var received := Half(first).received[1 := second];
    assert HasAll(received, 2);
    JoinIsConcat(received, [first, second]);
  }

  lemma OneMoreCall(es: seq<Delivery>, e: Delivery)
    ensures (StreamAfter(None, es + [e]), StreamOutcome(None, es + [e])) ==
            Advance(StreamAfter(None, es), e.chunk, e.created, e.now)
  {
    assert (es + [e])[..|es|] == es;
  }

  lemma ConcatOfTwo(first: seq<byte>, second: seq<byte>)
    ensures Concat([first, second]) == first + second
  {
    assert [first, second][..1] == [first] && [first][..0] == [];
    assert Concat([first]) == [] + first;
  }

  /**
   For instance: both parts of a message arrive and it comes out; a late copy of its first part reopens the
   stream; the first part of the next message is then a duplicate, and that message comes out wrong.
   */
  lemma LateDuplicateSpoilsNextMessage(stream: int, old0: seq<byte>, old1: seq<byte>, new0: seq<byte>, new1: seq<byte>)
    requires old0 != new0 && |old0| + |old1| <= MAX_CHUNK_TOTAL_SIZE && |old0| + |new1| <= MAX_CHUNK_TOTAL_SIZE
    ensures var finished := [Piece(stream, 0, old0), Piece(stream, 1, old1)];
      var late := finished + [Piece(stream, 0, old0)] + [Piece(stream, 0, new0)];
      && StreamOutcome(None, finished) == Complete(Concat([old0, old1]))
      && StreamOutcome(None, late) == Duplicate
      && StreamOutcome(None, late + [Piece(stream, 1, new1)]) == Complete(Concat([old0, new1]))
      && Concat([old0, new1]) != Concat([new0, new1])
  {
    var e0, e1 := Piece(stream, 0, old0), Piece(stream, 1, old1);
    var first, finished := [e0], [e0, e1];
    assert first == [] + [e0] && finished == first + [e1];
    OneMoreCall([], e0);
    FirstOpens(stream, old0);
    OneMoreCall(first, e1);
    SecondCompletes(stream, old0, old1);
    OneMoreCall(finished, e0);
    OneMoreCall(finished + [e0], Piece(stream, 0, new0));
    FirstIsDuplicate(stream, old0, new0);
    OneMoreCall(finished + [e0] + [Piece(stream, 0, new0)], Piece(stream, 1, new1));
    SecondCompletes(stream, old0, new1);
    ConcatOfTwo(old0, new1);
    ConcatOfTwo(new0, new1);
    DifferentHeads(old0, new0, new1);
  }

  lemma DifferentHeads(a: seq<byte>, b: seq<byte>, tail: seq<byte>)
    requires a != b
    ensures a + tail != b + tail
  {
    var x, y := a + tail, b + tail;
    assert a == x[..|x| - |tail|] && b == y[..|y| - |tail|];
  }
}
