/**
 CRC-16/XMODEM: polynomial 0x1021, initial value 0, bits taken most significant first, no final xor.
 The 16-bit register is its bits, the top one first.
 */
module Crc16 {
  import opened Bits

  type Register = c: seq<bool> | |c| == 16 witness seq(16, _ => false)

  function Zeros(n: nat): (z: seq<bool>)
    ensures |z| == n && forall i :: 0 <= i < n ==> !z[i]
  {
    seq(n, _ => false)
  }

  /** The set bits of 0x1021 are those of weight 2^12, 2^5 and 2^0. */
  predicate Polynomial(i: nat) { i == 3 || i == 10 || i == 15 }

  /** One bit into the register: shift up, and add the polynomial when the bit and the top differ. */
  function Shift(c: Register, bit: bool): Register {
    seq(16, i requires 0 <= i < 16 => (i < 15 && c[i + 1]) != (c[0] != bit && Polynomial(i)))
  }

  function Feed(c: Register, bits: seq<bool>): Register
    decreases |bits|
  {
    if bits == [] then c else Feed(Shift(c, bits[0]), bits[1..])
  }

  function Checksum(bits: seq<bool>): Register {
    Feed(Zeros(16), bits)
  }

  function Xor(a: seq<bool>, b: seq<bool>): (r: seq<bool>)
    requires |a| == |b|
    ensures |r| == |a|
    ensures forall i :: 0 <= i < |a| ==> r[i] == (a[i] != b[i])
  {
    seq(|a|, i requires 0 <= i < |a| => a[i] != b[i])
  }

  lemma ShiftIsLinear(c: Register, d: Register, x: bool, y: bool)
    ensures Shift(Xor(c, d), x != y) == Xor(Shift(c, x), Shift(d, y))
  {
  }

  /** Linearity over GF(2): the register after a sum is the sum of the registers. */
  lemma {:induction false} FeedIsLinear(c: Register, d: Register, a: seq<bool>, b: seq<bool>)
    requires |a| == |b|
    ensures Feed(Xor(c, d), Xor(a, b)) == Xor(Feed(c, a), Feed(d, b))
    decreases |a|
  {
    if a != [] {
      ShiftIsLinear(c, d, a[0], b[0]);
      assert Xor(a, b)[1..] == Xor(a[1..], b[1..]);
      FeedIsLinear(Shift(c, a[0]), Shift(d, b[0]), a[1..], b[1..]);
    }
  }

  lemma {:induction false} FeedConcat(c: Register, a: seq<bool>, b: seq<bool>)
    ensures Feed(c, a + b) == Feed(Feed(c, a), b)
    decreases |a|
  {
    if a == [] {
      assert a + b == b;
    } else {
      assert (a + b)[1..] == a[1..] + b;
      FeedConcat(Shift(c, a[0]), a[1..], b);
    }
  }

  // ----- residue -----

  /** Feeding a register its own leading bits only shifts it. */
  lemma {:induction false} FeedOwnBits(c: Register, n: nat)
    requires n <= 16
    ensures Feed(c, c[..n]) == c[n..] + Zeros(n)
  {
    if n > 0 {
      FeedConcat(c, c[..n - 1], [c[n - 1]]);
      assert c[..n] == c[..n - 1] + [c[n - 1]];
      FeedOwnBits(c, n - 1);
      var before: Register := c[n - 1..] + Zeros(n - 1);
      assert Shift(before, c[n - 1]) == c[n..] + Zeros(n);
      assert Feed(before, [c[n - 1]]) == Shift(before, c[n - 1]);
    }
  }

  /** A 16-bit field matches a register exactly when feeding it empties the register. */
  lemma ResidueDecides(c: Register, field: Register)
    ensures Feed(c, field) == Zeros(16) <==> field == c
  {
    FeedOwnBits(c, 16);
    assert c[..16] == c && c[16..] + Zeros(16) == Zeros(16);
    FeedIsLinear(c, c, field, c);
    assert Xor(c, c) == Zeros(16);
    assert Xor(Feed(c, field), Zeros(16)) == Feed(c, field);
    if field != c {
      var e := Xor(field, c);
      var i :| 0 <= i < 16 && field[i] != c[i];
      assert e[i];
      BurstsAreDetected(e, FirstSet(e, 0));
    }
  }

  // ----- bursts -----

  /** There is a set bit, and every set bit lies in the window of 16 that starts at the first. */
  predicate Burst(e: seq<bool>, start: nat) {
    && start < |e| && e[start]
    && (forall i :: 0 <= i < start ==> !e[i])
    && (forall i :: start + 16 <= i < |e| ==> !e[i])
  }

  lemma {:induction false} ZerosStayZero(bits: seq<bool>)
    requires forall i :: 0 <= i < |bits| ==> !bits[i]
    ensures Checksum(bits) == Zeros(16)
    decreases |bits|
  {
    if bits != [] {
      assert Shift(Zeros(16), false) == Zeros(16);
      ZerosStayZero(bits[1..]);
    }
  }

  predicate SomeSet(c: seq<bool>, from: int) {
    exists i :: 0 <= from <= i < |c| && c[i]
  }

  /** A set bit below the top survives a shift; when the polynomial comes in, it sets the lowest bit. */
  lemma ShiftKeepsLowBit(c: Register, from: nat, bit: bool)
    requires 1 <= from && SomeSet(c, from)
    ensures SomeSet(Shift(c, bit), from - 1)
  {
    var i :| from <= i < 16 && c[i];
    var d := Shift(c, bit);
    assert if c[0] != bit then d[15] else d[i - 1];
  }

  lemma ShiftZeroKeepsNonzero(c: Register)
    requires SomeSet(c, 0)
    ensures SomeSet(Shift(c, false), 0)
  {
    var i :| 0 <= i < 16 && c[i];
    var d := Shift(c, false);
    assert if c[0] then d[15] else d[i - 1];
  }

  lemma {:induction false} ZerosKeepNonzero(c: Register, bits: seq<bool>)
    requires SomeSet(c, 0) && forall i :: 0 <= i < |bits| ==> !bits[i]
    ensures SomeSet(Feed(c, bits), 0)
    decreases |bits|
  {
    if bits != [] {
      ShiftZeroKeepsNonzero(c);
      ZerosKeepNonzero(Shift(c, false), bits[1..]);
    }
  }

  /** Up to `from` more bits leave one of the lower bits set. */
  lemma {:induction false} WindowKeepsNonzero(c: Register, from: nat, bits: seq<bool>)
    requires SomeSet(c, from) && |bits| <= from
    ensures SomeSet(Feed(c, bits), from - |bits|)
    decreases |bits|
  {
    if bits != [] {
      ShiftKeepsLowBit(c, from, bits[0]);
      WindowKeepsNonzero(Shift(c, bits[0]), from - 1, bits[1..]);
    }
  }

  /** No burst of at most 16 bits leaves the register empty, wherever it starts. */
  lemma BurstsAreDetected(e: seq<bool>, start: nat)
    requires Burst(e, start)
    ensures Checksum(e) != Zeros(16)
  {
    var end := if start + 16 <= |e| then start + 16 else |e|;
    assert e == e[..start] + ([e[start]] + (e[start + 1..end] + e[end..]));
    ZerosStayZero(e[..start]);
    FeedConcat(Zeros(16), e[..start], [e[start]] + (e[start + 1..end] + e[end..]));
    FeedConcat(Zeros(16), [e[start]], e[start + 1..end] + e[end..]);
    var first := Shift(Zeros(16), true);
    assert first[15];
    assert Feed(Zeros(16), [true]) == first;
    FeedConcat(first, e[start + 1..end], e[end..]);
    WindowKeepsNonzero(first, 15, e[start + 1..end]);
    ZerosKeepNonzero(Feed(first, e[start + 1..end]), e[end..]);
  }

  /** The first set bit of a pattern that has one. */
  function FirstSet(e: seq<bool>, from: nat): (start: nat)
    requires exists i :: from <= i < |e| && e[i]
    ensures from <= start < |e| && e[start] && forall i :: from <= i < start ==> !e[i]
    decreases |e| - from
  {
    if e[from] then from else FirstSet(e, from + 1)
  }

  // ----- the table-driven form -----

  function ZeroShifts(c: Register, n: nat): Register
    decreases n
  {
    if n == 0 then c else ZeroShifts(Shift(c, false), n - 1)
  }

  /** Entry i of the table: byte i on top of an empty register, shifted eight times. */
  function TableEntry(i: seq<bool>): Register
    requires |i| == 8
  {
    ZeroShifts(i + Zeros(8), 8)
  }

  function TableUpdate(c: Register, byte: seq<bool>): Register
    requires |byte| == 8
  {
    Xor(c[8..] + Zeros(8), TableEntry(Xor(c[..8], byte)))
  }

  /** Bits can be added to the top of the register beforehand instead of fed one by one. */
  lemma {:induction false} FeedIsPreload(c: Register, bits: seq<bool>)
    requires |bits| <= 16
    ensures Feed(c, bits) == ZeroShifts(Xor(c, bits + Zeros(16 - |bits|)), |bits|)
    decreases |bits|
  {
    var loaded: Register := Xor(c, bits + Zeros(16 - |bits|));
    if bits == [] {
      assert loaded == c;
    } else {
      FeedIsPreload(Shift(c, bits[0]), bits[1..]);
      var rest := bits[1..] + Zeros(17 - |bits|);
      assert Shift(loaded, false) == Xor(Shift(c, bits[0]), rest);
    }
  }

  lemma {:induction false} ZeroShiftsAreLinear(c: Register, d: Register, n: nat)
    ensures ZeroShifts(Xor(c, d), n) == Xor(ZeroShifts(c, n), ZeroShifts(d, n))
    decreases n
  {
    if n > 0 {
      ShiftIsLinear(c, d, false, false);
      ZeroShiftsAreLinear(Shift(c, false), Shift(d, false), n - 1);
    }
  }

  lemma {:induction false} ZeroShiftsOfLowBits(c: Register, n: nat)
    requires n <= 16 && forall i :: 0 <= i < n ==> !c[i]
    ensures ZeroShifts(c, n) == c[n..] + Zeros(n)
    decreases n
  {
    if n > 0 {
      var d := Shift(c, false);
      assert d == c[1..] + [false];
      ZeroShiftsOfLowBits(d, n - 1);
      assert d[n - 1..] + Zeros(n - 1) == c[n..] + Zeros(n);
    }
  }

  /** One table lookup per byte is eight bits fed one by one. */
  lemma TableStepIsEightShifts(c: Register, byte: seq<bool>)
    requires |byte| == 8
    ensures TableUpdate(c, byte) == Feed(c, byte)
  {
    FeedIsPreload(c, byte);
    var high: Register := Xor(c[..8], byte) + Zeros(8);
    var low: Register := Zeros(8) + c[8..];
    assert Xor(c, byte + Zeros(8)) == Xor(low, high);
    ZeroShiftsAreLinear(low, high, 8);
    ZeroShiftsOfLowBits(low, 8);
    assert low[8..] == c[8..];
  }

  /** The loop of a table-driven implementation over a message of whole bytes. */
  method ChecksumByTable(bytes: seq<nat>) returns (c: Register)
    ensures c == Checksum(Unpack(8, bytes))
  {
    c := Zeros(16);
    for i := 0 to |bytes|
      invariant c == Checksum(Unpack(8, bytes[..i]))
    {
      var byte := ToBits(8, bytes[i]);
      TableStepIsEightShifts(c, byte);
      c := TableUpdate(c, byte);
      assert bytes[..i + 1] == bytes[..i] + [bytes[i]];
      UnpackConcat(8, bytes[..i], [bytes[i]]);
      assert Unpack(8, [bytes[i]]) == byte;
      FeedConcat(Zeros(16), Unpack(8, bytes[..i]), byte);
    }
    assert bytes[..|bytes|] == bytes;
  }
}
