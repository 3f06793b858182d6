/** Numbers as bit strings, most significant bit first, and regrouping of bits into digits. */
module Bits {
  import opened Arithmetic

  function Pow2(n: nat): (p: nat)
    ensures p > 0
  {
    if n == 0 then 1 else 2 * Pow2(n - 1)
  }

  lemma Pow2Values()
    ensures Pow2(5) == 32 && Pow2(8) == 256
  {
    assert Pow2(2) == 4;
    assert Pow2(4) == 16;
    assert Pow2(6) == 64;
  }

  function ToBits(n: nat, x: nat): (bits: seq<bool>)
    ensures |bits| == n
  {
    if n == 0 then [] else ToBits(n - 1, x / 2) + [x % 2 == 1]
  }

  function FromBits(bits: seq<bool>): (x: nat)
    ensures x < Pow2(|bits|)
  {
    if bits == [] then 0
    else 2 * FromBits(bits[..|bits| - 1]) + (if bits[|bits| - 1] then 1 else 0)
  }

  lemma {:induction false} FromToBits(n: nat, x: nat)
    requires x < Pow2(n)
    ensures FromBits(ToBits(n, x)) == x
  {
    if n > 0 {
      FromToBits(n - 1, x / 2);
      assert ToBits(n, x)[..n - 1] == ToBits(n - 1, x / 2);
    }
  }

  lemma {:induction false} ToFromBits(bits: seq<bool>)
    ensures ToBits(|bits|, FromBits(bits)) == bits
  {
    if bits != [] {
      ToFromBits(bits[..|bits| - 1]);
    }
  }

  /** The digits of `width` bits each, laid end to end. */
  function Unpack(width: nat, xs: seq<nat>): (bits: seq<bool>)
    ensures |bits| == width * |xs|
  {
    if xs == [] then [] else ToBits(width, xs[0]) + Unpack(width, xs[1..])
  }

  /** Bits cut into digits of `width` bits each. */
  function Pack(width: nat, bits: seq<bool>): (xs: seq<nat>)
    requires width > 0 && |bits| % width == 0
    ensures |xs| * width == |bits|
    ensures forall x :: x in xs ==> x < Pow2(width)
    decreases |bits|
  {
    if bits == [] then []
    else
      LengthLeft(|bits|, width);
      [FromBits(bits[..width])] + Pack(width, bits[width..])
  }

  /** The digits as an indexed fact. */
  lemma PackedDigits(width: nat, bits: seq<bool>)
    requires width > 0 && |bits| % width == 0
    ensures forall i :: 0 <= i < |Pack(width, bits)| ==> Pack(width, bits)[i] < Pow2(width)
  {
    var xs := Pack(width, bits);
    assert forall i :: 0 <= i < |xs| ==> xs[i] in xs;
  }

  lemma NextMultiple(width: nat, i: int)
    ensures width * i == width * (i - 1) + width
  {
  }

  /** Digit i has the bits from width * i on. */
  lemma {:induction false} PackAt(width: nat, bits: seq<bool>, i: nat, start: nat)
    requires width > 0 && |bits| % width == 0 && i < |Pack(width, bits)| && start == width * i
    ensures start + width <= |bits|
    ensures Pack(width, bits)[i] == FromBits(bits[start..start + width])
    decreases i
  {
    LengthLeft(|bits|, width);
    if i > 0 {
      NextMultiple(width, i);
      var rest := bits[width..];
      PackAt(width, rest, i - 1, start - width);
      assert rest[start - width..start] == bits[start..start + width];
    }
  }

  lemma DoubledPower(n: nat, x: nat)
    ensures Pow2(n + 1) * x == 2 * (Pow2(n) * x)
  {
    assert Pow2(n + 1) == 2 * Pow2(n);
  }

  lemma LastBit(bits: seq<bool>, last: bool)
    ensures FromBits(bits + [last]) == 2 * FromBits(bits) + if last then 1 else 0
  {
    assert (bits + [last])[..|bits|] == bits;
  }

  lemma {:induction false} FromBitsConcat(a: seq<bool>, b: seq<bool>)
    ensures FromBits(a + b) == Pow2(|b|) * FromBits(a) + FromBits(b)
  {
    if b == [] {
      assert a + b == a;
    } else {
      var shorter, last := b[..|b| - 1], b[|b| - 1];
      FromBitsConcat(a, shorter);
      LastBit(a + shorter, last);
      LastBit(shorter, last);
      DoubledPower(|shorter|, FromBits(a));
      assert a + b == (a + shorter) + [last] && b == shorter + [last];
    }
  }

  lemma LengthLeft(n: nat, width: nat)
    requires width > 0 && n > 0 && n % width == 0
    ensures n >= width && (n - width) % width == 0
  {
    var q := n / width;
    assert n == width * q;
    assert n - width == width * (q - 1);
    MultipleHasNoResidue(n - width, q - 1, width);
  }

  lemma {:induction false} UnpackPack(width: nat, bits: seq<bool>)
    requires width > 0 && |bits| % width == 0
    ensures Unpack(width, Pack(width, bits)) == bits
    decreases |bits|
  {
    if bits != [] {
      LengthLeft(|bits|, width);
      UnpackPack(width, bits[width..]);
      ToFromBits(bits[..width]);
    }
  }

  lemma {:induction false} PackUnpack(width: nat, xs: seq<nat>)
    requires width > 0 && (forall i :: 0 <= i < |xs| ==> xs[i] < Pow2(width))
    ensures |Unpack(width, xs)| % width == 0 && Pack(width, Unpack(width, xs)) == xs
  {
    MultipleHasNoResidue(width * |xs|, |xs|, width);
    if xs != [] {
      PackUnpack(width, xs[1..]);
      FromToBits(width, xs[0]);
      var bits := Unpack(width, xs);
      assert bits[..width] == ToBits(width, xs[0]) && bits[width..] == Unpack(width, xs[1..]);
    }
  }

  lemma {:induction false} UnpackConcat(width: nat, xs: seq<nat>, ys: seq<nat>)
    ensures Unpack(width, xs + ys) == Unpack(width, xs) + Unpack(width, ys)
  {
    if xs == [] {
      assert xs + ys == ys;
    } else {
      assert (xs + ys)[1..] == xs[1..] + ys;
      UnpackConcat(width, xs[1..], ys);
    }
  }

  /** Digits that agree lay down the same bits. */
  lemma {:induction false} UnpackLocal(width: nat, xs: seq<nat>, ys: seq<nat>, k: nat)
    requires |xs| == |ys| && width > 0 && k < width * |xs| && xs[k / width] == ys[k / width]
    ensures Unpack(width, xs)[k] == Unpack(width, ys)[k]
  {
    if k >= width {
      DivisionStep(k, width);
      UnpackLocal(width, xs[1..], ys[1..], k - width);
    } else {
      assert k / width == 0;
    }
  }

  lemma DivisionStep(k: nat, width: nat)
    requires 0 < width <= k
    ensures k / width >= 1 && (k - width) / width == k / width - 1
  {
    var q := k / width;
    assert k == width * q + k % width;
    assert k - width == width * (q - 1) + k % width;
    QuotientIsUnique(k - width, q - 1, k % width, width);
  }
}
