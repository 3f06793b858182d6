/** handleChunk: reassembly of chunked responses, one assembler per stream. */
module ChunkReassembly {
  import opened Basics

  const MAX_CHUNK_COUNT := 1024
  const MAX_CHUNK_TOTAL_SIZE := 100 * 1024 * 1024

  /** 60 s in nanoseconds. */
  const CHUNK_ASSEMBLY_TIMEOUT := 60_000_000_000

  /** `plain` is the payload opened with the exit key, `None` when it does not open. */
  datatype Chunk = Chunk(streamId: int, index: int, total: int, plain: Option<seq<byte>>)

  datatype Assembler = Assembler(total: int, received: map<int, seq<byte>>, createdAt: int, totalSize: int)

  type Table = map<int, Assembler>

  datatype Outcome =
    | ZeroTotal
    | TooManyChunks
    | DecryptFailed
    | TimedOut
    | Duplicate
    | TooLarge
    | Waiting
    | Missing(index: int)
    | Complete(message: seq<byte>)

  ghost predicate HasAll(received: map<int, seq<byte>>, total: int) {
    forall i :: 0 <= i < total ==> i in received
  }

  ghost predicate FirstGap(received: map<int, seq<byte>>, total: int, i: int) {
    0 <= i < total && i !in received && HasAll(received, i)
  }

  /** The pieces 0 to n-1, in order. */
  ghost function Join(received: map<int, seq<byte>>, n: int): seq<byte>
    requires HasAll(received, n)
  {
    if n <= 0 then [] else Join(received, n - 1) + received[n - 1]
  }

  ghost function TotalBytes(received: map<int, seq<byte>>): nat
    decreases |received|
  {
    if exists k :: k in received then
      var k :| k in received;
      |received[k]| + TotalBytes(received - {k})
    else 0
  }

  /**
   One chunk seen by its stream's assembler, `None` when there is none. Completion is stated by its
   meaning: every index the first chunk announced is present. `created` and `now` are the two clock
   reads of the call.
   */
  ghost function Advance(a: Option<Assembler>, c: Chunk, created: int, now: int): (Option<Assembler>, Outcome) {
    if c.total == 0 then (a, ZeroTotal)
    else if c.total > MAX_CHUNK_COUNT then (a, TooManyChunks)
    else if c.plain.None? then (a, DecryptFailed)
    else Store(if a.Some? then a.value else Assembler(c.total, map[], created, 0), c.index, c.plain.value, now)
  }

  ghost function Store(a: Assembler, index: int, data: seq<byte>, now: int): (Option<Assembler>, Outcome) {
    if now - a.createdAt > CHUNK_ASSEMBLY_TIMEOUT then (None, TimedOut)
    else if index in a.received then (Some(a), Duplicate)
    else if a.totalSize + |data| > MAX_CHUNK_TOTAL_SIZE then (None, TooLarge)
    else
      var b := a.(received := a.received[index := data], totalSize := a.totalSize + |data|);
      if HasAll(b.received, b.total) then (None, Complete(Join(b.received, b.total)))
      else if |b.received| < b.total then (Some(b), Waiting)
      else (Some(b), Missing(Gap(b.received, b.total)))
  }

  ghost function Gap(received: map<int, seq<byte>>, total: int): (i: int)
    requires !HasAll(received, total)
    ensures FirstGap(received, total, i)
    decreases total
  {
    if !HasAll(received, total - 1) then Gap(received, total - 1) else total - 1
  }

  function Get(table: Table, stream: int): Option<Assembler> {
    if stream in table then Some(table[stream]) else None
  }

  function Put(table: Table, stream: int, a: Option<Assembler>): Table {
    if a.Some? then table[stream := a.value] else table - {stream}
  }

  lemma GetPut(table: Table, stream: int, a: Option<Assembler>, other: int)
    ensures Get(Put(table, stream, a), other) == if other == stream then a else Get(table, other)
  {
  }

  /** Pigeonhole: fewer pieces than announced cannot be all of them. */
  lemma {:induction false} CountGateIsSound(received: map<int, seq<byte>>, total: int)
    requires HasAll(received, total)
    ensures |received| >= total
    decreases total
  {
    if total > 0 {
      var smaller := received - {total - 1};
      assert received.Keys == smaller.Keys + {total - 1};
      CountGateIsSound(smaller, total - 1);
    }
  }

  /** The reassembly state of a circuit. */
  class Reassembler {
    var chunks: Table

    constructor ()
      ensures chunks == map[]
    {
      chunks := map[];
    }

    /** Exactly one step of the addressed stream's assembler; every other stream's stays as it was. */
    method HandleChunk(chunk: Chunk, created: int, now: int) returns (outcome: Outcome)
      modifies this
      ensures var (a, o) := Advance(Get(old(chunks), chunk.streamId), chunk, created, now);
        chunks == Put(old(chunks), chunk.streamId, a) && outcome == o
    {
      if chunk.total == 0 {
        outcome := ZeroTotal;
      } else if chunk.total > MAX_CHUNK_COUNT {
        outcome := TooManyChunks;
      } else if chunk.plain.None? {
        outcome := DecryptFailed;
      } else {
        var assembler := if chunk.streamId in chunks then chunks[chunk.streamId]
                         else Assembler(chunk.total, map[], created, 0);
        var kept;
        kept, outcome := Accept(assembler, chunk.index, chunk.plain.value, now);
        chunks := Put(chunks, chunk.streamId, kept);
      }
    }
  }

  /** Timeout, duplicate and size checks, the new piece, and the count gate before the reassembly loop. */
  method Accept(assembler: Assembler, index: int, decrypted: seq<byte>, now: int)
    returns (kept: Option<Assembler>, outcome: Outcome)
    ensures (kept, outcome) == Store(assembler, index, decrypted, now)
  {
    if now - assembler.createdAt > CHUNK_ASSEMBLY_TIMEOUT {
      return None, TimedOut;
    }
    if index in assembler.received {
      return Some(assembler), Duplicate;
    }
    if assembler.totalSize + |decrypted| > MAX_CHUNK_TOTAL_SIZE {
      return None, TooLarge;
    }
    var updated := assembler.(received := assembler.received[index := decrypted],
                              totalSize := assembler.totalSize + |decrypted|);
    if |updated.received| < updated.total {
      if HasAll(updated.received, updated.total) {
        CountGateIsSound(updated.received, updated.total);
      }
      return Some(updated), Waiting;
    }
    outcome := Reassemble(updated);
    kept := if outcome.Complete? then None else Some(updated);
  }

  /** The reassembly loop: the pieces in index order, or the first index that is not there. */
  method Reassemble(assembler: Assembler) returns (outcome: Outcome)
    ensures outcome == if HasAll(assembler.received, assembler.total)
                       then Complete(Join(assembler.received, assembler.total))
                       else Missing(Gap(assembler.received, assembler.total))
  {
    var reassembled := [];
    var i := 0;
    while i < assembler.total
      invariant 0 <= i && (i <= assembler.total || i == 0)
      invariant HasAll(assembler.received, i)
      invariant reassembled == Join(assembler.received, i)
    {
      if i !in assembler.received {
        FirstGapUnique(assembler.received, assembler.total, i);
        return Missing(i);
      }
      reassembled := reassembled + assembler.received[i];
      i := i + 1;
    }
    return Complete(reassembled);
  }

  lemma FirstGapUnique(received: map<int, seq<byte>>, total: int, i: int)
    requires FirstGap(received, total, i)
    ensures !HasAll(received, total) && Gap(received, total) == i
  {
    assert i !in received;
    var g := Gap(received, total);
    assert g !in received;
  }

  // ----- sizes -----

  lemma {:induction false} TotalBytesRemove(received: map<int, seq<byte>>, k: int)
    requires k in received
    ensures TotalBytes(received) == |received[k]| + TotalBytes(received - {k})
    decreases |received|
  {
    var j :| j in received.Keys && TotalBytes(received) == |received[j]| + TotalBytes(received - {j});
    if j != k {
      TotalBytesRemove(received - {j}, k);
      TotalBytesRemove(received - {k}, j);
      assert received - {j} - {k} == received - {k} - {j};
    }
  }

  lemma TotalBytesInsert(received: map<int, seq<byte>>, k: int, data: seq<byte>)
    requires k !in received
    ensures TotalBytes(received[k := data]) == TotalBytes(received) + |data|
  {
    TotalBytesRemove(received[k := data], k);
    assert received[k := data] - {k} == received;
  }

  /** What holds of every assembler between calls. */
  ghost predicate Incomplete(a: Assembler) {
    && 1 <= a.total <= MAX_CHUNK_COUNT
    && !HasAll(a.received, a.total)
    && a.totalSize == TotalBytes(a.received) <= MAX_CHUNK_TOTAL_SIZE
  }

  /** The chunk gets past every check of a call whose assembler is `b`. */
  ghost predicate Accepted(b: Assembler, c: Chunk, now: int) {
    && c.total != 0 && c.total <= MAX_CHUNK_COUNT && c.plain.Some?
    && now - b.createdAt <= CHUNK_ASSEMBLY_TIMEOUT
    && c.index !in b.received
    && b.totalSize + |c.plain.value| <= MAX_CHUNK_TOTAL_SIZE
  }

  /** The chunk is well-formed and opens. */
  predicate Legal(c: Chunk) {
    c.total != 0 && c.total <= 1024 && c.plain.Some?
  }

  /** The assembler that a legal chunk is put to. */
  function Met(a: Option<Assembler>, c: Chunk, created: int): Assembler {
    if a.Some? then a.value else Assembler(c.total, map[], created, 0)
  }

  /**
   Each outcome with its exact cause, and what it leaves behind: a rejected chunk changes nothing; after 60 s or
   beyond 100 MB the assembler is dropped; a duplicate leaves it; any other chunk is stored, and kept unless it
   completes the message.
   */
  lemma AdvanceDecides(a: Option<Assembler>, c: Chunk, created: int, now: int)
    ensures var (a', o) := Advance(a, c, created, now);
      && (o.ZeroTotal? <==> c.total == 0)
      && (o.TooManyChunks? <==> c.total > 1024)
      && (o.DecryptFailed? <==> c.total != 0 && c.total <= 1024 && c.plain.None?)
      && (!Legal(c) ==> a' == a)
    ensures Legal(c) ==> var (a', o) := Advance(a, c, created, now); var b, size := Met(a, c, created), |c.plain.value|;
      var late, known := now - b.createdAt > 60_000_000_000, c.index in b.received;
      var large := b.totalSize + size > 104_857_600;
      var stored := b.(received := b.received[c.index := c.plain.value], totalSize := b.totalSize + size);
      && (o.TimedOut? <==> late)
      && (o.Duplicate? <==> !late && known)
      && (o.TooLarge? <==> !late && !known && large)
      && (o.TimedOut? || o.TooLarge? || o.Complete? ==> a' == None)
      && (o.Duplicate? ==> a' == Some(b))
      && (o.Waiting? || o.Missing? ==> a' == Some(stored))
      && (o.Waiting? <==> !late && !known && !large && |b.received| + 1 < b.total)
      && (o.Missing? ==> FirstGap(stored.received, b.total, o.index))
  {
    if Legal(c) {
      var b := Met(a, c, created);
      var received := b.received[c.index := c.plain.value];
      if c.index !in b.received {
        assert received.Keys == b.received.Keys + {c.index};
        assert |received| == |received.Keys| && |b.received| == |b.received.Keys|;
      }
      if HasAll(received, b.total) {
        CountGateIsSound(received, b.total);
      }
    }
  }

  /**
   Whatever chunk arrives, with whatever announced total and index, a surviving assembler still lacks an
   announced index; and a message completes exactly when the chunk is accepted and supplies the last one.
   A negative announced total completes at once, with nothing in it.
   */
  lemma AdvanceKeepsIncomplete(a: Option<Assembler>, c: Chunk, created: int, now: int)
    requires a.Some? ==> Incomplete(a.value)
    ensures var (a', o) := Advance(a, c, created, now);
      && (a'.Some? ==> Incomplete(a'.value))
      && (a.Some? && a'.Some? ==> a'.value.total == a.value.total && a'.value.createdAt == a.value.createdAt)
      && (a.Some? ==>
          (o.Complete? <==> && Accepted(a.value, c, now) && 0 <= c.index < a.value.total
                            && forall i :: 0 <= i < a.value.total && i != c.index ==> i in a.value.received))
      && (a.None? ==>
          (o.Complete? <==> && Accepted(Assembler(c.total, map[], created, 0), c, now)
                            && (c.total < 0 || (c.total == 1 && c.index == 0))))
  {
    if c.total != 0 && c.total <= MAX_CHUNK_COUNT && c.plain.Some? {
      var b := if a.Some? then a.value else Assembler(c.total, map[], created, 0);
      if c.index !in b.received {
        TotalBytesInsert(b.received, c.index, c.plain.value);
      }
      var received := b.received[c.index := c.plain.value];
      if a.Some? && HasAll(received, b.total) {
        var gap := Gap(a.value.received, a.value.total);
        assert gap in received;
      }
      if a.None? && b.total > 1 {
        assert 0 !in received || 1 !in received;
      }
      if HasAll(received, b.total) {
        forall i | 0 <= i < b.total && i != c.index ensures i in b.received {
          assert i in received;
        }
      }
    }
  }
}
