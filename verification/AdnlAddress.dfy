/**
 The textual form of an ADNL address: prefix byte, 32 address bytes and CRC, in base32
 (section 6 of RFC 4648), lower-cased, without the first character.
 */
module AdnlAddress {
  import opened Basics
  import opened Bits
  import opened Crc16

  const ADNL_ADDRESS_SIZE := 32
  const ADNL_SERIALIZE_PREFIX := 0x2d

  // ----- base32 -----

  /** The upper-case alphabet of section 6 of RFC 4648. */
  function UpperSymbol(digit: nat): char
    requires digit < 32
  {
    "ABCDEFGHIJKLMNOPQRSTUVWXYZ234567"[digit]
  }

  function Symbol(digit: nat): (c: char)
    requires digit < 32
  {
    if digit < 26 then ('a' as int + digit) as char else ('2' as int + (digit - 26)) as char
  }

  lemma LowerOfUpper(digit: nat)
    requires digit < 32
    ensures ToLower(UpperSymbol(digit)) == Symbol(digit)
  {
  }

  function Digit(c: char): (d: Option<nat>)
    ensures d.Some? ==> d.value < 32 && Symbol(d.value) == c
    ensures forall k :: 0 <= k < 32 && Symbol(k) == c ==> d == Some(k)
  {
    if 'a' <= c <= 'z' then Some(c as int - 'a' as int)
    else if '2' <= c <= '7' then Some(c as int - '2' as int + 26)
    else None
  }

  function Bounded(xs: seq<byte>): (ys: seq<nat>)
    ensures |ys| == |xs| && forall i :: 0 <= i < |xs| ==> ys[i] == xs[i] && ys[i] < Pow2(8)
  {
    Pow2Values();
    seq(|xs|, i requires 0 <= i < |xs| => xs[i])
  }

  /** Five-bit digits of a block whose length is a multiple of five bytes, so without padding. */
  function Digits(block: seq<byte>): (ds: seq<nat>)
    requires |block| % 5 == 0
    ensures 5 * |ds| == 8 * |block| && forall i :: 0 <= i < |ds| ==> ds[i] < 32
  {
    Pow2Values();
    PackedDigits(5, Unpack(8, Bounded(block)));
    Pack(5, Unpack(8, Bounded(block)))
  }

  function UpperText(ds: seq<nat>): (s: string)
    requires forall i :: 0 <= i < |ds| ==> ds[i] < 32
    ensures |s| == |ds|
  {
    seq(|ds|, i requires 0 <= i < |ds| => UpperSymbol(ds[i]))
  }

  // ----- the encoder -----

  /** The two checksum bytes, high byte first. */
  function CrcBytes(c: Register): (bs: seq<byte>)
    ensures |bs| == 2
  {
    Pow2Values();
    [FromBits(c[..8]), FromBits(c[8..])]
  }

  function Block(addr: seq<byte>): (block: seq<byte>)
    ensures |block| == |addr| + 3
  {
    var a := [ADNL_SERIALIZE_PREFIX] + addr;
    a + CrcBytes(Checksum(Unpack(8, Bounded(a))))
  }

  datatype SerializeError = InvalidLength

  function SerializeADNLAddress(addr: seq<byte>): (r: Result<string, SerializeError>)
    ensures r.Ok? <==> |addr| == 32
    ensures r.Ok? ==> |r.value| == 55
  {
    if |addr| != ADNL_ADDRESS_SIZE then Err(InvalidLength)
    else Ok(Lower(UpperText(Digits(Block(addr)))[1..]))
  }

  // ----- the reader: put the first character back, decode, check prefix and CRC -----

  ghost predicate Readable(s: string) {
    |s| == 55 && forall i :: 0 <= i < |s| ==> Digit(s[i]).Some?
  }

  ghost function ReadDigits(s: string): (ds: seq<nat>)
    requires Readable(s)
    ensures |ds| == 56 && forall i :: 0 <= i < 56 ==> ds[i] < 32
  {
    seq(56, i requires 0 <= i < 56 => if i == 0 then 5 else Digit(s[i - 1]).value)
  }

  ghost function ReadBits(s: string): (bits: seq<bool>)
    requires Readable(s)
    ensures |bits| == 280
  {
    Unpack(5, ReadDigits(s))
  }

  ghost function Bytes(bits: seq<bool>): (bs: seq<byte>)
    requires |bits| % 8 == 0
    ensures |bs| * 8 == |bits|
  {
    Pow2Values();
    PackedDigits(8, bits);
    var xs := Pack(8, bits);
    seq(|xs|, i requires 0 <= i < |xs| => xs[i])
  }

  /** The checksum field closes the block: the whole of it leaves the register empty. */
  ghost predicate Checks(bits: seq<bool>) {
    Checksum(bits) == Zeros(16)
  }

  ghost function ReadADNLAddress(s: string): Option<seq<byte>> {
    if !Readable(s) then None
    else
      var bits := ReadBits(s);
      if Bytes(bits)[0] != ADNL_SERIALIZE_PREFIX || !Checks(bits) then None
      else Some(Bytes(bits)[1..33])
  }

  lemma BytesUnpack(block: seq<byte>)
    ensures |Unpack(8, Bounded(block))| % 8 == 0 && Bytes(Unpack(8, Bounded(block))) == block
  {
    PackUnpack(8, Bounded(block));
  }

  lemma UnpackBytes(bits: seq<bool>)
    requires |bits| % 8 == 0
    ensures Unpack(8, Bounded(Bytes(bits))) == bits
  {
    UnpackPack(8, bits);
    assert Bounded(Bytes(bits)) == Pack(8, bits);
  }

  lemma CrcBytesAreRegister(c: Register)
    ensures Unpack(8, Bounded(CrcBytes(c))) == c
  {
    ToFromBits(c[..8]);
    ToFromBits(c[8..]);
    var ys := Bounded(CrcBytes(c));
    assert ys[1..][1..] == [];
    assert Unpack(8, ys[1..]) == ToBits(8, ys[1]);
  }

  /** A 35-byte block checks exactly when its last two bytes are the checksum of the rest. */
  lemma CheckComparesChecksum(head: seq<byte>, tail: seq<byte>)
    requires |tail| == 2
    ensures Checks(Unpack(8, Bounded(head + tail))) <==> tail == CrcBytes(Checksum(Unpack(8, Bounded(head))))
  {
    var c := Checksum(Unpack(8, Bounded(head)));
    var field := Unpack(8, Bounded(tail));
    assert Bounded(head + tail) == Bounded(head) + Bounded(tail);
    UnpackConcat(8, Bounded(head), Bounded(tail));
    FeedConcat(Zeros(16), Unpack(8, Bounded(head)), field);
    ResidueDecides(c, field);
    CrcBytesAreRegister(c);
    BytesUnpack(tail);
    BytesUnpack(CrcBytes(c));
  }

  /** The character that is dropped carries nothing: the prefix makes it F for every address. */
  lemma FirstCharacterIsF(addr: seq<byte>)
    requires |addr| == 32
    ensures |UpperText(Digits(Block(addr)))| == 56 && UpperText(Digits(Block(addr)))[0] == 'F'
    ensures Digits(Block(addr))[0] == 5
  {
    var xs := Bounded(Block(addr));
    var bits := Unpack(8, xs);
    assert xs[0] == 0x2d;
    assert bits[..8] == ToBits(8, 0x2d);
    PrefixBits();
    assert bits[..5] == ToBits(8, 0x2d)[..5];
  }

  lemma PrefixBits()
    ensures ToBits(8, 0x2d)[..5] == [false, false, true, false, true]
    ensures FromBits([false, false, true, false, true]) == 5
  {
    assert ToBits(2, 0) == ToBits(1, 0) + [false];
    assert ToBits(3, 1) == ToBits(2, 0) + [true];
    assert ToBits(4, 2) == ToBits(3, 1) + [false];
    assert ToBits(5, 5) == ToBits(4, 2) + [true];
    assert ToBits(6, 0xb) == ToBits(5, 5) + [true];
    assert ToBits(7, 0x16) == ToBits(6, 0xb) + [false];
    assert ToBits(8, 0x2d) == ToBits(7, 0x16) + [true];
    assert ToBits(8, 0x2d)[..5] == ToBits(5, 5);
    Pow2Values();
    FromToBits(5, 5);
  }

  /** Prefix byte, address, and the 16-bit checksum of both with its high byte first. */
  lemma BlockLayout(addr: seq<byte>)
    requires |addr| == 32
    ensures |Block(addr)| == 35 && Block(addr)[0] == 0x2d && Block(addr)[1..33] == addr
    ensures var high: int, low: int := Block(addr)[33], Block(addr)[34];
      256 * high + low == FromBits(Checksum(Unpack(8, Bounded([0x2d] + addr))))
  {
    var c := Checksum(Unpack(8, Bounded([ADNL_SERIALIZE_PREFIX] + addr)));
    Pow2Values();
    FromBitsConcat(c[..8], c[8..]);
    assert c == c[..8] + c[8..];
    assert Block(addr) == [ADNL_SERIALIZE_PREFIX] + addr + CrcBytes(c);
  }

  lemma SymbolsAreBase32(digit: nat)
    requires digit < 32
    ensures Symbol(digit) == "abcdefghijklmnopqrstuvwxyz234567"[digit]
  {
  }

  /** Character i of a serialized address stands for the block's bits from 5 * (i + 1) on. */
  lemma SerializedCharacter(addr: seq<byte>, i: nat)
    requires |addr| == 32 && i < 55
    ensures var digit := FromBits(Unpack(8, Bounded(Block(addr)))[5 * (i + 1)..5 * (i + 1) + 5]);
      digit < 32 && SerializeADNLAddress(addr).value[i] == "abcdefghijklmnopqrstuvwxyz234567"[digit]
  {
    var bits, ds := Unpack(8, Bounded(Block(addr))), Digits(Block(addr));
    PackAt(5, bits, i + 1, 5 * (i + 1));
    assert SerializeADNLAddress(addr).value[i] == ToLower(UpperSymbol(ds[i + 1]));
    LowerOfUpper(ds[i + 1]);
    SymbolsAreBase32(ds[i + 1]);
  }

  lemma SerializedDigits(addr: seq<byte>)
    requires |addr| == 32
    ensures var s := SerializeADNLAddress(addr).value;
      Readable(s) && ReadDigits(s) == Digits(Block(addr)) && ReadBits(s) == Unpack(8, Bounded(Block(addr)))
  {
    var s := SerializeADNLAddress(addr).value;
    var ds := Digits(Block(addr));
    FirstCharacterIsF(addr);
    forall i | 0 <= i < 55 ensures Digit(s[i]) == Some(ds[i + 1]) {
      SerializedDigit(addr, i);
    }
    assert ReadDigits(s) == ds;
    UnpackPack(5, Unpack(8, Bounded(Block(addr))));
  }

  lemma SerializedDigit(addr: seq<byte>, i: nat)
    requires |addr| == 32 && i < 55
    ensures |Digits(Block(addr))| == 56
    ensures Digit(SerializeADNLAddress(addr).value[i]) == Some(Digits(Block(addr))[i + 1])
  {
    var ds := Digits(Block(addr));
    assert SerializeADNLAddress(addr).value[i] == ToLower(UpperSymbol(ds[i + 1]));
    LowerOfUpper(ds[i + 1]);
  }

  lemma SerializedReadsBack(s: string, addr: seq<byte>)
    requires SerializeADNLAddress(addr) == Ok(s)
    ensures ReadADNLAddress(s) == Some(addr)
  {
    SerializedDigits(addr);
    BytesUnpack(Block(addr));
    var head := [ADNL_SERIALIZE_PREFIX] + addr;
    CheckComparesChecksum(head, Block(addr)[33..]);
    assert Block(addr) == head + Block(addr)[33..];
    assert Block(addr)[1..33] == addr;
  }

  lemma ReadSerializesBack(s: string, addr: seq<byte>)
    requires ReadADNLAddress(s) == Some(addr)
    ensures SerializeADNLAddress(addr) == Ok(s)
  {
    var bits := ReadBits(s);
    var block := Bytes(bits);
    UnpackBytes(bits);
    assert block == block[..33] + block[33..];
    CheckComparesChecksum(block[..33], block[33..]);
    assert block[..33] == [ADNL_SERIALIZE_PREFIX] + addr;
    assert block == Block(addr);
    DigitsOfReadBits(s);
    var t := SerializeADNLAddress(addr).value;
    forall i | 0 <= i < 55 ensures t[i] == s[i] {
      LowerOfUpper(ReadDigits(s)[i + 1]);
    }
    assert t == s;
  }

  lemma DigitsOfReadBits(s: string)
    requires Readable(s)
    ensures Pack(5, ReadBits(s)) == ReadDigits(s)
  {
    assert Pow2(5) == 32 by { assert Pow2(3) == 8; }
    PackUnpack(5, ReadDigits(s));
  }

  /** Exact inverse: a text reads as an address if and only if that address serializes to that text. */
  lemma ReadingInvertsSerializing(s: string, addr: seq<byte>)
    ensures ReadADNLAddress(s) == Some(addr) <==> SerializeADNLAddress(addr) == Ok(s)
  {
    if SerializeADNLAddress(addr) == Ok(s) {
      SerializedReadsBack(s, addr);
    }
    if ReadADNLAddress(s) == Some(addr) {
      ReadSerializesBack(s, addr);
    }
  }

  /** Different addresses never share a text. */
  lemma SerializingIsInjective(a: seq<byte>, b: seq<byte>)
    requires |a| == |b| == 32 && SerializeADNLAddress(a) == SerializeADNLAddress(b)
    ensures a == b
  {
    ReadingInvertsSerializing(SerializeADNLAddress(a).value, a);
    ReadingInvertsSerializing(SerializeADNLAddress(b).value, b);
  }

  /** Two texts differ, and only within three neighbouring characters. */
  ghost predicate DifferLocally(s: string, t: string, at: nat) {
    && |s| == |t| && s != t
    && forall i :: 0 <= i < |s| && !(at <= i < at + 3) ==> s[i] == t[i]
  }

  lemma ReadBitsDetermine(s: string, t: string)
    requires Readable(s) && Readable(t) && ReadBits(s) == ReadBits(t)
    ensures s == t
  {
    DigitsOfReadBits(s);
    DigitsOfReadBits(t);
    forall i | 0 <= i < 55 ensures s[i] == t[i] {
      assert ReadDigits(s)[i + 1] == ReadDigits(t)[i + 1];
    }
  }

  lemma LocalDifferenceIsBurst(s: string, t: string, at: nat)
    requires Readable(s) && Readable(t) && DifferLocally(s, t, at)
    ensures exists start :: Burst(Xor(ReadBits(t), ReadBits(s)), start)
  {
    var e := Xor(ReadBits(t), ReadBits(s));
    forall k | 0 <= k < 280 && !(5 * (at + 1) <= k < 5 * (at + 1) + 15) ensures !e[k] {
      assert ReadDigits(s)[k / 5] == ReadDigits(t)[k / 5];
      UnpackLocal(5, ReadDigits(s), ReadDigits(t), k);
    }
    if forall k :: 0 <= k < 280 ==> !e[k] {
      forall k | 0 <= k < 280 ensures ReadBits(s)[k] == ReadBits(t)[k] {
        assert !e[k];
      }
      ReadBitsDetermine(s, t);
      assert false;
    }
    var start := FirstSet(e, 0);
    assert Burst(e, start);
  }

  /**
   Any alteration of a serialized address confined to three neighbouring characters is noticed: the
   altered text reads as no address at all.
   */
  lemma LocalAlterationsAreDetected(addr: seq<byte>, s: string, t: string, at: nat)
    requires SerializeADNLAddress(addr) == Ok(s) && DifferLocally(s, t, at)
    ensures ReadADNLAddress(t).None?
  {
    ReadingInvertsSerializing(s, addr);
    if Readable(t) {
      LocalDifferenceIsBurst(s, t, at);
      var e := Xor(ReadBits(t), ReadBits(s));
      var start :| Burst(e, start);
      BurstsAreDetected(e, start);
      FeedIsLinear(Zeros(16), Zeros(16), ReadBits(t), ReadBits(s));
      assert Xor(Zeros(16), Zeros(16)) == Zeros(16);
    }
  }

  /** The same at the level of bits: no burst of up to 16 flipped bits goes unnoticed. */
  lemma BurstErrorsAreDetected(addr: seq<byte>, received: seq<bool>, start: nat)
    requires |addr| == 32 && |received| == 280
    requires Burst(Xor(received, Unpack(8, Bounded(Block(addr)))), start)
    ensures !Checks(received)
  {
    var sent := Unpack(8, Bounded(Block(addr)));
    CheckComparesChecksum([ADNL_SERIALIZE_PREFIX] + addr, Block(addr)[33..]);
    assert Block(addr) == ([ADNL_SERIALIZE_PREFIX] + addr) + Block(addr)[33..];
    BurstsAreDetected(Xor(received, sent), start);
    FeedIsLinear(Zeros(16), Zeros(16), received, sent);
    assert Xor(Zeros(16), Zeros(16)) == Zeros(16);
  }
}
