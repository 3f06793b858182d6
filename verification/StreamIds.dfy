/** nextStreamID: the uint32 stream counter, with 0 kept for the control stream. */
module StreamIds {
  import opened Arithmetic

  const UINT32_SIZE := 0x1_0000_0000

  type uint32 = x: int | 0 <= x < UINT32_SIZE

  /** The number of ids a counter can hand out. */
  const ID_COUNT := UINT32_SIZE - 1

  function Increment(counter: uint32): uint32 {
    (counter + 1) % UINT32_SIZE
  }

  /** Counting modulo 2^32 - 1 on the ids 1 to 2^32 - 1. */
  function NextId(counter: uint32): (id: uint32)
    ensures id == if Increment(counter) != 0 then Increment(counter) else Increment(Increment(counter))
    ensures id != 0
  {
    counter % ID_COUNT + 1
  }

  class StreamCounter {
    var nextStream: uint32

    constructor ()
      ensures nextStream == 0
    {
      nextStream := 0;
    }

    method NextStreamID() returns (id: int)
      modifies this
      ensures id == nextStream == NextId(old(nextStream))
    {
      while true
        invariant nextStream == old(nextStream) || (nextStream == 0 && Increment(old(nextStream)) == 0)
        decreases nextStream
      {
        nextStream := Increment(nextStream);
        if nextStream != 0 {
          return nextStream;
        }
      }
    }
  }

  /** The (k+1)-st id handed out by a counter. */
  ghost function NthId(counter: uint32, k: nat): uint32 {
    if k == 0 then NextId(counter) else NextId(NthId(counter, k - 1))
  }

  lemma NextOfResidue(x: nat)
    ensures x % ID_COUNT + 1 < UINT32_SIZE && NextId(x % ID_COUNT + 1) == (x + 1) % ID_COUNT + 1
  {
    ResidueOfSuccessor(x, ID_COUNT);
  }

  lemma {:induction false} NthIdClosedForm(counter: uint32, k: nat)
    ensures NthId(counter, k) == (counter + k) % ID_COUNT + 1
  {
    if k > 0 {
      NthIdClosedForm(counter, k - 1);
      NextOfResidue(counter + k - 1);
    }
  }

  /**
   Two allocations give the same id exactly when a multiple of 2^32 - 1 allocations lies between them; so
   any 2^32 - 1 consecutive ones, wherever the counter wraps, are pairwise distinct.
   */
  lemma IdsRepeatOnlyAfterFullCycle(counter: uint32, j: nat, k: nat)
    requires j < k
    ensures NthId(counter, j) == NthId(counter, k) <==> (k - j) % ID_COUNT == 0
    ensures k - j < ID_COUNT ==> NthId(counter, j) != NthId(counter, k)
  {
    NthIdClosedForm(counter, j);
    NthIdClosedForm(counter, k);
    SameResidue(counter + j, k - j, ID_COUNT);
    assert counter + j + (k - j) == counter + k;
    if k - j < ID_COUNT {
      SmallResidue(k - j, ID_COUNT);
    }
  }

  /** From a new counter the ids are 1, 2 and so on up to 4294967295, and then 1 again. */
  lemma IdsInOrder(k: nat)
    ensures NthId(0, k) == k % 4294967295 + 1
  {
    NthIdClosedForm(0, k);
  }

  lemma SmallResidue(d: nat, m: nat)
    requires d < m
    ensures d % m == d
  {
  }
}
