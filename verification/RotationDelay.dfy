/** The jittered delay between rotations, in 64-bit signed arithmetic. */
module RotationDelay {
  import opened Arithmetic
  import opened Basics

  const TWO_63 := 0x8000_0000_0000_0000
  const TWO_64 := 0x1_0000_0000_0000_0000
  const JITTER_PERCENT := 30

  type int64 = x: int | -TWO_63 <= x < TWO_63

  /** Reinterprets 64 bits as a signed number; arithmetic wraps this way. */
  function Wrap(x: int): int64 {
    (x + TWO_63) % TWO_64 - TWO_63
  }

  /** Division and remainder that truncate toward zero; the remainder has the dividend's sign. */
  function Quotient(a: int, b: int): int
    requires b > 0
  {
    if a >= 0 then a / b else -((-a) / b)
  }

  function Remainder(a: int, b: int): int
    requires b != 0
  {
    var m := if b > 0 then b else -b;
    if a >= 0 then a % m else -((-a) % m)
  }

  /** The width of the jitter range for an interval in nanoseconds. */
  function JitterRange(interval: int64): int {
    Quotient(Wrap(Wrap(interval * 2) * JITTER_PERCENT), 100)
  }

  function Jitter(interval: int64, draw: nat): int
    requires JitterRange(interval) != 0
  {
    Remainder(Wrap(draw), JitterRange(interval))
  }

  /** The timer's delay for a 64-bit draw; `None` when the remainder is by zero, which panics. */
  function Delay(interval: int64, draw: nat): Option<int> {
    if JitterRange(interval) == 0 then None
    else
      Some(Wrap(Wrap(interval - Quotient(Wrap(interval * JITTER_PERCENT), 100)) + Jitter(interval, draw)))
  }

  /** The intervals whose arithmetic does not wrap: up to some 4.8 years. */
  predicate Moderate(interval: int) {
    0 < interval && 2 * JITTER_PERCENT * interval < TWO_63
  }

  lemma WrapIsIdentity(x: int)
    requires -TWO_63 <= x < TWO_63
    ensures Wrap(x) == x
  {
  }

  lemma RemainderBounds(a: int, m: int)
    requires m > 0
    ensures -m < Remainder(a, m) < m
    ensures a >= 0 ==> Remainder(a, m) >= 0
  {
  }

  lemma PlainJitterRange(interval: int64)
    requires Moderate(interval)
    ensures JitterRange(interval) == 60 * interval / 100
    ensures 60 * interval - 100 < 100 * JitterRange(interval) <= 60 * interval
    ensures JitterRange(interval) > 0 <==> interval >= 2
  {
    WrapIsIdentity(interval * 2);
    assert Wrap(interval * 2) * JITTER_PERCENT == 60 * interval;
    WrapIsIdentity(60 * interval);
  }

  lemma PlainCut(interval: int64)
    requires Moderate(interval)
    ensures var cut := Quotient(Wrap(interval * JITTER_PERCENT), 100);
      && cut == 30 * interval / 100
      && 30 * interval - 100 < 100 * cut <= 30 * interval && 0 <= 10 * cut && 3 * interval - 9 <= 10 * cut
  {
    WrapIsIdentity(interval * JITTER_PERCENT);
    var cut := 30 * interval / 100;
    assert 30 * interval == 100 * cut + 30 * interval % 100;
  }

  lemma PlainDelay(interval: int64, draw: nat)
    requires Moderate(interval) && interval >= 2
    ensures JitterRange(interval) > 0
    ensures Delay(interval, draw) == Some(interval - 30 * interval / 100 + Jitter(interval, draw))
  {
    PlainJitterRange(interval);
    PlainCut(interval);
    RemainderBounds(Wrap(draw), JitterRange(interval));
    var kept := interval - 30 * interval / 100;
    WrapIsIdentity(kept);
    WrapIsIdentity(kept + Jitter(interval, draw));
  }

  lemma JitterSign(interval: int64, draw: nat)
    requires JitterRange(interval) > 0 && draw < TWO_64
    ensures Jitter(interval, draw) >= 0 <==> draw < TWO_63 || (TWO_64 - draw) % JitterRange(interval) == 0
  {
    if draw < TWO_63 {
      WrapIsIdentity(draw);
      RemainderBounds(Wrap(draw), JitterRange(interval));
    } else {
      assert Wrap(draw) == draw - TWO_64;
    }
  }

  /**
   For every draw the timer is positive and below 130 percent of the interval. It stays within the
   documented 30 percent below as well exactly when the signed remainder is not negative, which every
   draw with its top bit clear ensures.
   */
  lemma DelayBounds(interval: int64, draw: nat)
    requires Moderate(interval) && interval >= 2 && draw < TWO_64
    ensures Delay(interval, draw).Some?
    ensures interval + 10 <= 10 * Delay(interval, draw).value < 13 * interval
    ensures 7 * interval <= 10 * Delay(interval, draw).value <==> Jitter(interval, draw) >= 0
    ensures Jitter(interval, draw) >= 0 <==> draw < TWO_63 || (TWO_64 - draw) % JitterRange(interval) == 0
  {
    PlainDelay(interval, draw);
    PlainJitterRange(interval);
    PlainCut(interval);
    RemainderBounds(Wrap(draw), JitterRange(interval));
    JitterSign(interval, draw);
  }

  lemma LowJitter(interval: int64, draw: nat)
    requires JitterRange(interval) > 0 && draw < TWO_63
    ensures Jitter(interval, draw) == draw % JitterRange(interval)
  {
    WrapIsIdentity(draw);
  }

  lemma HighJitter(interval: int64, draw: nat)
    requires JitterRange(interval) > 0 && TWO_63 <= draw < TWO_64
    ensures Jitter(interval, draw) == -((TWO_64 - draw) % JitterRange(interval))
  {
    WrapIgnoresTurns(draw - TWO_64, 1);
    WrapIsIdentity(draw - TWO_64);
  }

  /** The exact delay: the draw's residue is added, or with the top bit set that of its complement taken off. */
  lemma DelayValue(interval: int64, draw: nat)
    requires Moderate(interval) && interval >= 2 && draw < TWO_64
    ensures var kept, range := interval - 30 * interval / 100, 60 * interval / 100;
      && range > 0
      && Delay(interval, draw) == Some(if draw < TWO_63 then kept + draw % range else kept - (TWO_64 - draw) % range)
  {
    PlainDelay(interval, draw);
    PlainJitterRange(interval);
    if draw < TWO_63 {
      LowJitter(interval, draw);
    } else {
      HighJitter(interval, draw);
    }
  }

  lemma SmallDraw(interval: int64, draw: nat)
    requires Moderate(interval) && interval >= 2 && draw < 60 * interval / 100
    ensures Delay(interval, draw) == Some(interval - 30 * interval / 100 + draw)
  {
    DelayValue(interval, draw);
    QuotientIsUnique(draw, 0, draw, 60 * interval / 100);
  }

  lemma LargeDraw(interval: int64, less: nat)
    requires Moderate(interval) && interval >= 2 && 0 < less < 60 * interval / 100
    ensures Delay(interval, TWO_64 - less) == Some(interval - 30 * interval / 100 - less)
  {
    DelayValue(interval, TWO_64 - less);
    QuotientIsUnique(less, 0, less, 60 * interval / 100);
  }

  lemma DelayWithin(interval: int64, draw: nat)
    requires Moderate(interval) && interval >= 2 && draw < TWO_64
    ensures var kept, range := interval - 30 * interval / 100, 60 * interval / 100;
      Delay(interval, draw).Some? && kept - range < Delay(interval, draw).value < kept + range
  {
    DelayValue(interval, draw);
    PlainJitterRange(interval);
    RemainderBounds(if draw < TWO_63 then draw else TWO_64 - draw, 60 * interval / 100);
  }

  ghost predicate SomeDrawGives(interval: int64, delay: int) {
    exists draw: nat :: draw < TWO_64 && Delay(interval, draw) == Some(delay)
  }

  /** And every delay strictly within one range of what is kept is really drawn. */
  lemma EveryDelayIsDrawn(interval: int64, delay: int)
    requires Moderate(interval) && interval >= 2
    ensures var kept, range := interval - 30 * interval / 100, 60 * interval / 100;
      SomeDrawGives(interval, delay) <==> kept - range < delay < kept + range
  {
    var kept, range := interval - 30 * interval / 100, 60 * interval / 100;
    PlainJitterRange(interval);
    if kept <= delay < kept + range {
      SmallDraw(interval, delay - kept);
    } else if kept - range < delay < kept {
      LargeDraw(interval, kept - delay);
    }
    if SomeDrawGives(interval, delay) {
      var draw: nat :| draw < TWO_64 && Delay(interval, draw) == Some(delay);
      DelayWithin(interval, draw);
    }
  }

  // ----- division by zero -----

  /** Wrapping takes whole turns of 2^64 away. */
  lemma WrapTakesTurns(x: int) returns (turns: int)
    ensures x == Wrap(x) + TWO_64 * turns
  {
    turns := (x + TWO_63) / TWO_64;
  }

  /** Numbers a whole number of turns apart wrap alike. */
  lemma WrapIgnoresTurns(x: int, turns: int)
    ensures Wrap(x + TWO_64 * turns) == Wrap(x)
  {
    MultiplesLeaveResidue(x + TWO_63, turns, TWO_64);
  }

  /** The two wrapping products come to one. */
  lemma WrapOnce(interval: int)
    ensures Wrap(Wrap(interval * 2) * JITTER_PERCENT) == Wrap(60 * interval)
  {
    var turns := WrapTakesTurns(interval * 2);
    assert 60 * interval == Wrap(interval * 2) * JITTER_PERCENT + TWO_64 * (JITTER_PERCENT * turns);
    WrapIgnoresTurns(Wrap(interval * 2) * JITTER_PERCENT, JITTER_PERCENT * turns);
  }

  /** A wrapped number is within 99 of zero exactly when the residue of the number is within 99 of a whole turn. */
  lemma WrapsNearZero(x: int)
    ensures -99 <= Wrap(x) <= 99 <==> (x + 99) % TWO_64 <= 198
  {
    var w, turns := Wrap(x), (x + TWO_63) / TWO_64;
    assert x == w + TWO_64 * turns;
    MultiplesLeaveResidue(w + 99, turns, TWO_64);
  }

  /**
   The remainder is by zero, which panics, exactly for the intervals whose product with 60 is within 99 of a
   multiple of 2^64; this is for every 64-bit interval, and whatever is drawn.
   */
  lemma PanicsIff(interval: int64, draw: nat)
    ensures Delay(interval, draw).None? <==> (60 * interval + 99) % TWO_64 <= 198
  {
    WrapOnce(interval);
    WrapsNearZero(60 * interval);
  }

  /** Among the positive intervals that do not wrap, only one nanosecond panics. */
  lemma OnlyOneNanosecondPanics(interval: int64, draw: nat)
    requires Moderate(interval)
    ensures Delay(interval, draw).None? <==> interval == 1
  {
    PanicsIff(interval, draw);
    QuotientIsUnique(60 * interval + 99, 0, 60 * interval + 99, TWO_64);
  }

  /** Among those that do, 2^62 ns panics: its product with 60 is fifteen whole turns. */
  lemma LongIntervalPanics(draw: nat)
    ensures Delay(0x4000_0000_0000_0000, draw).None?
  {
    PanicsIff(0x4000_0000_0000_0000, draw);
    MultiplesLeaveResidue(99, 15, TWO_64);
  }

  /** The documented bound fails for some draws: with all bits set, a 10 s interval waits under 7 s. */
  lemma TopBitDrawBreaksDocumentedBound()
    ensures Delay(10_000_000_000, 0xFFFF_FFFF_FFFF_FFFF) == Some(6_999_999_999)
  {
    PlainJitterRange(10_000_000_000);
    assert JitterRange(10_000_000_000) == 6_000_000_000;
    assert Wrap(0xFFFF_FFFF_FFFF_FFFF) == -1;
    assert Remainder(-1, 6_000_000_000) == -1;
    PlainDelay(10_000_000_000, 0xFFFF_FFFF_FFFF_FFFF);
  }
}
