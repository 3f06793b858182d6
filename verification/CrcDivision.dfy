/**
 What the checksum is: polynomial division over GF(2), stated without the shift register. A polynomial is the
 sequence of its coefficients, the one of the highest power first.
 */
module CrcDivision {
  import opened Bits
  import opened Crc16

  /** x^16 and the powers that the number 0x1021 has bits for. */
  function Generator(): (g: seq<bool>)
    ensures |g| == 17
  {
    ToBits(17, 0x1_1021)
  }

  /** p * x, with the generator added when the new coefficient is one. */
  function TimesXPlus(p: seq<bool>, coefficient: bool): (product: seq<bool>)
    requires |p| >= 16
    ensures |product| == |p| + 1
  {
    Xor(p + [false], Zeros(|p| - 16) + if coefficient then Generator() else Zeros(17))
  }

  /** The product of a polynomial with the generator, one coefficient after the other. */
  function TimesGenerator(q: seq<bool>): (p: seq<bool>)
    ensures |p| == |q| + 16
  {
    if q == [] then Zeros(16) else TimesXPlus(TimesGenerator(q[..|q| - 1]), q[|q| - 1])
  }

  /** message * x^16 == quotient * generator + rest, the rest of degree below 16. */
  ghost predicate Divides(message: seq<bool>, quotient: seq<bool>, rest: Register) {
    && |quotient| == |message|
    && message + Zeros(16) == Xor(TimesGenerator(quotient), Zeros(|message|) + rest)
  }

  lemma {:induction false} ZeroBits(n: nat, x: nat, k: nat)
    ensures ToBits(n + k, x * Pow2(k)) == ToBits(n, x) + Zeros(k)
  {
    if k == 0 {
      assert ToBits(n, x) + Zeros(k) == ToBits(n, x);
    } else {
      ZeroBits(n, x, k - 1);
      assert x * Pow2(k) == 2 * (x * Pow2(k - 1));
      assert ToBits(n, x) + Zeros(k) == ToBits(n, x) + Zeros(k - 1) + [false];
    }
  }

  /** k zeros and a one after the bits of a number. */
  lemma NextOne(n: nat, x: nat, k: nat)
    ensures ToBits(n + k + 1, 2 * (x * Pow2(k)) + 1) == ToBits(n, x) + Zeros(k) + [true]
  {
    ZeroBits(n, x, k);
  }

  lemma BitsOfGenerator(width: nat, x: nat)
    requires width == 17 && x == 0x1_1021
    ensures forall i :: 0 <= i < 17 ==> (ToBits(width, x)[i] <==> i == 0 || i == 4 || i == 11 || i == 16)
  {
    var n, k, l, m := 0, 3, 6, 4;
    assert Pow2(k) == 8 && Pow2(l) == 64 && Pow2(m) == 16;
    NextOne(n, n, n);
    NextOne(n + 1, 1, k);
    NextOne(n + 5, 0x11, l);
    NextOne(n + 12, 0x881, m);
  }

  lemma GeneratorBits()
    ensures forall i :: 0 <= i < 17 ==> (Generator()[i] <==> i == 0 || i == 4 || i == 11 || i == 16)
  {
    BitsOfGenerator(17, 0x1_1021);
  }

  /** A shift subtracts the generator from rest * x + bit * x^16 just when that leaves no x^16. */
  lemma ShiftSubtracts(rest: Register, bit: bool, i: nat)
    requires i < 17
    ensures var subtracted := if rest[0] != bit then Generator() else Zeros(17);
      ([bit] + Zeros(16))[i] == (((rest + [false])[i] != subtracted[i]) != ([false] + Shift(rest, bit))[i])
  {
    GeneratorBits();
  }

  /** One more message bit extends the quotient by the bit that the shift decides on. */
  lemma DivideOneMore(message: seq<bool>, quotient: seq<bool>, rest: Register, bit: bool)
    requires Divides(message, quotient, rest)
    ensures Divides(message + [bit], quotient + [rest[0] != bit], Shift(rest, bit))
  {
    var n, b := |message|, rest[0] != bit;
    assert (quotient + [b])[..n] == quotient;
    var p := TimesGenerator(quotient);
    assert TimesGenerator(quotient + [b]) == TimesXPlus(p, b);
    OneMoreBit(message, p, rest, bit);
  }

  lemma OneMoreBit(message: seq<bool>, p: seq<bool>, rest: Register, bit: bool)
    requires |p| == |message| + 16 && message + Zeros(16) == Xor(p, Zeros(|message|) + rest)
    ensures message + [bit] + Zeros(16) ==
            Xor(TimesXPlus(p, rest[0] != bit), Zeros(|message| + 1) + Shift(rest, bit))
  {
    var n, next := |message|, Shift(rest, bit);
    var subtracted := if rest[0] != bit then Generator() else Zeros(17);
    var left, right := message + [bit] + Zeros(16), Xor(TimesXPlus(p, rest[0] != bit), Zeros(n + 1) + next);
    var before := Xor(p, Zeros(n) + rest);
    forall i | 0 <= i < n + 17 ensures left[i] == right[i] {
      if i < n {
        assert before[i] == message[i] && (Zeros(n) + subtracted)[i] == false;
      } else {
        ShiftSubtracts(rest, bit, i - n);
        assert left[i] == ([bit] + Zeros(16))[i - n];
        assert (Zeros(n + 1) + next)[i] == ([false] + next)[i - n];
        assert (Zeros(n) + subtracted)[i] == subtracted[i - n];
        if i < n + 16 {
          assert before[i] == false && (Zeros(n) + rest)[i] == rest[i - n];
        }
      }
    }
    assert left == right;
  }

  lemma {:induction false} ChecksumDivides(message: seq<bool>) returns (quotient: seq<bool>)
    ensures Divides(message, quotient, Checksum(message))
  {
    if message == [] {
      quotient := [];
    } else {
      var n := |message| - 1;
      var before := ChecksumDivides(message[..n]);
      assert message == message[..n] + [message[n]];
      FeedConcat(Zeros(16), message[..n], [message[n]]);
      var rest := Checksum(message[..n]);
      assert Feed(rest, [message[n]]) == Shift(rest, message[n]);
      DivideOneMore(message[..n], before, rest, message[n]);
      quotient := before + [rest[0] != message[n]];
    }
  }

  /** Adding a polynomial of degree at most 16 leaves the higher coefficients and adds to the one of x^16. */
  lemma LowTermsStayLow(p: seq<bool>, n: nat, low: seq<bool>)
    requires |p| == n + 17 && |low| == 17
    ensures Xor(p, Zeros(n) + low)[..n] == p[..n]
    ensures Xor(p, Zeros(n) + low)[n] == (p[n] != low[0])
  {
    var sum := Xor(p, Zeros(n) + low);
    forall i | 0 <= i < n ensures sum[i] == p[i] {
      assert (Zeros(n) + low)[i] == Zeros(n)[i];
    }
    assert (Zeros(n) + low)[n] == low[0];
  }

  /** The leading coefficients: those of p, and then one that the new coefficient is added to. */
  lemma TimesXPlusLeads(p: seq<bool>, n: nat, coefficient: bool)
    requires |p| == n + 16
    ensures TimesXPlus(p, coefficient)[..n] == p[..n]
    ensures TimesXPlus(p, coefficient)[n] == (p[n] != coefficient)
  {
    LeadingBit(coefficient);
    LowTermsStayLow(p + [false], n, if coefficient then Generator() else Zeros(17));
    assert (p + [false])[..n] == p[..n];
  }

  lemma LeadingBit(b: bool)
    ensures (if b then Generator() else Zeros(17))[0] == b
  {
    GeneratorBits();
  }

  /** So they tell what was multiplied, and what was added. */
  lemma TimesXPlusIsDecided(p: seq<bool>, o: seq<bool>, n: nat, a: bool, b: bool)
    requires |p| == |o| == n + 16 && TimesXPlus(p, a)[..n + 1] == TimesXPlus(o, b)[..n + 1]
    ensures p[..n] == o[..n] && (p == o ==> a == b)
  {
    TimesXPlusLeads(p, n, a);
    TimesXPlusLeads(o, n, b);
    var left, right := TimesXPlus(p, a), TimesXPlus(o, b);
    assert left[..n] == left[..n + 1][..n] == right[..n];
    assert left[n] == left[..n + 1][n] == right[n];
  }

  /** The leading coefficients of a product decide the other factor. */
  lemma {:induction false} QuotientIsDecided(q: seq<bool>, r: seq<bool>)
    requires |q| == |r| && TimesGenerator(q)[..|q|] == TimesGenerator(r)[..|r|]
    ensures q == r
  {
    if q != [] {
      var n := |q| - 1;
      TimesXPlusIsDecided(TimesGenerator(q[..n]), TimesGenerator(r[..n]), n, q[n], r[n]);
      QuotientIsDecided(q[..n], r[..n]);
      assert q == q[..n] + [q[n]] && r == r[..n] + [r[n]];
    }
  }

  /**
   The checksum of any message is the remainder of message * x^16 on division by the generator, and the only
   one: the division has no other rest of degree below 16.
   */
  lemma ChecksumIsRemainder(message: seq<bool>, rest: Register)
    ensures Checksum(message) == rest <==> exists quotient :: Divides(message, quotient, rest)
  {
    var quotient := ChecksumDivides(message);
    if other :| Divides(message, other, rest) {
      var n := |message|;
      forall i | 0 <= i < n ensures TimesGenerator(quotient)[i] == TimesGenerator(other)[i] {
        assert (message + Zeros(16))[i] == TimesGenerator(quotient)[i];
        assert (message + Zeros(16))[i] == TimesGenerator(other)[i];
      }
      assert TimesGenerator(quotient)[..n] == TimesGenerator(other)[..n];
      QuotientIsDecided(quotient, other);
      RestIsDecided(message, quotient, Checksum(message), rest);
    }
  }

  lemma RestIsDecided(message: seq<bool>, quotient: seq<bool>, a: Register, b: Register)
    requires Divides(message, quotient, a) && Divides(message, quotient, b)
    ensures a == b
  {
    var n, p := |message|, TimesGenerator(quotient);
    forall j | 0 <= j < 16 ensures a[j] == b[j] {
      assert (Zeros(n) + a)[n + j] == a[j] && (Zeros(n) + b)[n + j] == b[j];
      assert Xor(p, Zeros(n) + a)[n + j] == Xor(p, Zeros(n) + b)[n + j];
    }
  }
}
