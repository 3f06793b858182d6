/** The data section of a .sol name account: an ADNL address as hex text or as raw bytes. */
module SnsPayload {
  import opened Basics
  import opened AdnlHex

  const NAME_REGISTRY_HEADER_SIZE := 96
  const NUL: char := 0 as char

  /** Bytes read as a Go string. */
  function Text(bs: seq<byte>): (s: string)
    ensures |s| == |bs|
  {
    seq(|bs|, i requires 0 <= i < |bs| => bs[i] as char)
  }

  /** The UTF-8 forms of the white-space code points (the Unicode White_Space property). */
  predicate IsSpace(s: string) {
    match |s|
    case 1 => ('\t' <= s[0] <= '\r') || s[0] == ' '
    case 2 => s[0] == 0xC2 as char && (s[1] == 0x85 as char || s[1] == 0xA0 as char)
    case 3 =>
      || (s[0] == 0xE1 as char && s[1] == 0x9A as char && s[2] == 0x80 as char)
      || (s[0] == 0xE2 as char && s[1] == 0x80 as char &&
          ((0x80 as char <= s[2] <= 0x8A as char) || s[2] == 0xA8 as char || s[2] == 0xA9 as char ||
           s[2] == 0xAF as char))
      || (s[0] == 0xE2 as char && s[1] == 0x81 as char && s[2] == 0x9F as char)
      || (s[0] == 0xE3 as char && s[1] == 0x80 as char && s[2] == 0x80 as char)
    case _ => false
  }

  /** UTF-8 of a code point below U+10000. */
  function Utf8(point: nat): string
    requires point < 0x1_0000
  {
    if point < 0x80 then [point as char]
    else if point < 0x800 then [(0xC0 + point / 64) as char, (0x80 + point % 64) as char]
    else [(0xE0 + point / 4096) as char, (0x80 + point / 64 % 64) as char, (0x80 + point % 64) as char]
  }

  /** The code points with the Unicode White_Space property, all of them below U+10000. */
  predicate WhiteSpace(point: nat) {
    || 0x09 <= point <= 0x0D || point == 0x20 || point == 0x85 || point == 0xA0 || point == 0x1680
    || 0x2000 <= point <= 0x200A || point == 0x2028 || point == 0x2029 || point == 0x202F || point == 0x205F
    || point == 0x3000
  }

  lemma SpacesAreWhiteSpace(point: nat)
    requires point < 0x1_0000
    ensures IsSpace(Utf8(point)) <==> WhiteSpace(point)
  {
    var q, b, c := point / 4096, point / 64 % 64, point % 64;
    assert point == 4096 * q + 64 * b + c;
    assert point < 0x800 ==> point == 64 * (point / 64) + c;
  }

  predicate BeginsWithSpace(s: string, width: nat) {
    |s| >= width && IsSpace(s[..width])
  }

  predicate EndsWithSpace(s: string, width: nat) {
    |s| >= width && IsSpace(s[|s| - width..])
  }

  /** The width of the white-space character at the start of a string, or 0. */
  function SpaceAtStart(s: string): (n: nat)
    ensures n <= |s|
  {
    if BeginsWithSpace(s, 1) then 1
    else if BeginsWithSpace(s, 2) then 2
    else if BeginsWithSpace(s, 3) then 3
    else 0
  }

  function SpaceAtEnd(s: string): (n: nat)
    ensures n <= |s|
  {
    if EndsWithSpace(s, 1) then 1
    else if EndsWithSpace(s, 2) then 2
    else if EndsWithSpace(s, 3) then 3
    else 0
  }

  function TrimLeftSpace(s: string): string {
    var n := SpaceAtStart(s);
    if n == 0 then s else TrimLeftSpace(s[n..])
  }

  function TrimRightSpace(s: string): string {
    var n := SpaceAtEnd(s);
    if n == 0 then s else TrimRightSpace(s[..|s| - n])
  }

  function TrimSpace(s: string): string {
    TrimRightSpace(TrimLeftSpace(s))
  }

  function TrimRightNul(s: string): string {
    if s != [] && s[|s| - 1] == NUL then TrimRightNul(s[..|s| - 1]) else s
  }

  datatype SnsError = NoData | InvalidData

  /** From an account's data to the hex string of the address. */
  function DecodeAccount(data: seq<byte>): Result<string, SnsError> {
    if |data| <= NAME_REGISTRY_HEADER_SIZE then Err(NoData)
    else DecodePayload(data[NAME_REGISTRY_HEADER_SIZE..])
  }

  function DecodePayload(payload: seq<byte>): Result<string, SnsError> {
    var trimmed := StripHexPrefix(TrimRightNul(TrimSpace(Text(payload))));
    var adnlHex := if |trimmed| != 64 && |payload| >= 32 then EncodeToString(payload[..32]) else trimmed;
    if ParseADNLAddress(adnlHex).Err? then Err(InvalidData) else Ok(adnlHex)
  }

  function Nuls(n: nat): (s: seq<byte>)
    ensures |s| == n
  {
    seq(n, _ => 0)
  }

  lemma {:induction false} TrimRightNulCutsPadding(s: string, n: nat)
    requires n <= |s| && (forall i :: n <= i < |s| ==> s[i] == NUL)
    ensures |TrimRightNul(s)| <= n
    ensures n > 0 && s[n - 1] != NUL ==> TrimRightNul(s) == s[..n]
    decreases |s|
  {
    if |s| > n {
      TrimRightNulCutsPadding(s[..|s| - 1], n);
      assert s[..|s| - 1][..n] == s[..n];
    } else {
      assert s[..n] == s;
      if s != [] && s[|s| - 1] == NUL {
        TrimRightNulCutsPadding(s[..|s| - 1], |s| - 1);
      }
    }
  }

  lemma {:induction false} TrimLeftSpaceIsSuffix(s: string) returns (i: nat)
    ensures i <= |s| && TrimLeftSpace(s) == s[i..]
  {
    var n := SpaceAtStart(s);
    if n == 0 {
      i := 0;
    } else {
      var j := TrimLeftSpaceIsSuffix(s[n..]);
      i := n + j;
    }
  }

  lemma {:induction false} TrimRightSpaceIsPrefix(s: string) returns (i: nat)
    ensures i <= |s| && TrimRightSpace(s) == s[..i]
  {
    var n := SpaceAtEnd(s);
    if n == 0 {
      i := |s|;
    } else {
      var shorter := s[..|s| - n];
      i := TrimRightSpaceIsPrefix(shorter);
      assert shorter[..i] == s[..i];
    }
  }

  lemma SpaceEnds(t: string)
    requires IsSpace(t)
    ensures t != []
    ensures var c := t[0]; '\t' <= c <= '\r' || c == ' ' || c >= 0xC2 as char
    ensures var c := t[|t| - 1]; '\t' <= c <= '\r' || c == ' ' || c >= 0x80 as char
  {
  }

  lemma BeginsWithoutSpace(s: string, width: nat)
    requires s != [] && HexValue(s[0]).Some? && width > 0
    ensures !BeginsWithSpace(s, width)
  {
    if |s| >= width {
      var t := s[..width];
      assert t[0] == s[0];
      if IsSpace(t) {
        SpaceEnds(t);
      }
    }
  }

  lemma EndsWithoutSpace(s: string, width: nat)
    requires s != [] && (HexValue(s[|s| - 1]).Some? || s[|s| - 1] == NUL) && width > 0
    ensures !EndsWithSpace(s, width)
  {
    if |s| >= width {
      var t := s[|s| - width..];
      assert t[|t| - 1] == s[|s| - 1];
      if IsSpace(t) {
        SpaceEnds(t);
      }
    }
  }

  lemma NoSpaceAtStart(s: string)
    requires s != [] && HexValue(s[0]).Some?
    ensures TrimLeftSpace(s) == s
  {
    BeginsWithoutSpace(s, 1);
    BeginsWithoutSpace(s, 2);
    BeginsWithoutSpace(s, 3);
  }

  lemma NoSpaceAtEnd(s: string)
    requires s != [] && (HexValue(s[|s| - 1]).Some? || s[|s| - 1] == NUL)
    ensures TrimRightSpace(s) == s
  {
    EndsWithoutSpace(s, 1);
    EndsWithoutSpace(s, 2);
    EndsWithoutSpace(s, 3);
  }

  lemma {:induction false} HexCharacters(text: string)
    requires DecodeString(text).Some?
    ensures forall i :: 0 <= i < |text| ==> HexValue(text[i]).Some?
  {
    if text != [] {
      var rest := text[2..];
      HexCharacters(rest);
      forall i | 2 <= i < |text| ensures HexValue(text[i]).Some? {
        assert text[i] == rest[i - 2];
      }
    }
  }

  /**
   An address stored as hex text in either case, with or without a prefix, followed by any amount of NUL
   padding, comes out as that text, and the text parses back to the address.
   */
  lemma HexTextDecodes(header: seq<byte>, payload: seq<byte>, prefix: string, text: string, addr: seq<byte>,
                       padding: nat)
    requires |header| == 96
    requires prefix in ["", "0x", "0X"] && |addr| == 32 && DecodeString(text) == Some(addr)
    requires Text(payload) == prefix + text + Text(Nuls(padding))
    ensures DecodeAccount(header + payload) == Ok(text) && ParseADNLAddress(text) == Ok(addr)
  {
    assert (header + payload)[96..] == payload;
    var s, body := Text(payload), prefix + text;
    PrefixedText(prefix, text);
    assert s[..|body|] == body;
    if padding > 0 {
      TrimmingCutsPadding(s, body);
    } else {
      assert s == body;
      NoSpaceAtStart(s);
      NoSpaceAtEnd(s);
      TrimRightNulCutsPadding(s, |s|);
    }
    StripLeavesHex(prefix, text);
  }

  /** Nothing but padding after 32 bytes leaves at most 32 characters. */
  lemma ShortBeforePadding(payload: seq<byte>)
    requires |payload| >= 32 && forall k :: 32 <= k < |payload| ==> payload[k] == 0
    ensures |TrimRightNul(TrimSpace(Text(payload)))| <= 32
  {
    var s := Text(payload);
    var i := TrimLeftSpaceIsSuffix(s);
    var j := TrimRightSpaceIsPrefix(s[i..]);
    var t := TrimSpace(s);
    var n := if |t| < 32 then |t| else 32;
    forall k | n <= k < |t| ensures t[k] == NUL {
      assert t[k] == s[i + k];
    }
    TrimRightNulCutsPadding(t, n);
  }

  lemma TakenAsRaw(payload: seq<byte>)
    requires |payload| >= 32 && |StripHexPrefix(TrimRightNul(TrimSpace(Text(payload))))| != 64
    ensures DecodePayload(payload) == Ok(EncodeToString(payload[..32]))
  {
    EncodingParses(payload[..32]);
  }

  /**
   An address stored as its 32 raw bytes, whatever they are, followed by any amount of NUL padding, comes
   out as its hex encoding.
   */
  lemma RawBytesDecode(header: seq<byte>, addr: seq<byte>, padding: nat)
    requires |header| == 96 && |addr| == 32
    ensures DecodeAccount(header + (addr + Nuls(padding))) == Ok(EncodeToString(addr))
    ensures ParseADNLAddress(EncodeToString(addr)) == Ok(addr)
  {
    var payload := addr + Nuls(padding);
    assert (header + payload)[96..] == payload;
    ShortBeforePadding(payload);
    TakenAsRaw(payload);
    assert payload[..32] == addr;
    EncodingParses(addr);
  }

  // ----- white space behind the text -----

  /** White-space characters, one after the other. */
  function Joined(spaces: seq<string>): string {
    if spaces == [] then "" else Joined(spaces[..|spaces| - 1]) + spaces[|spaces| - 1]
  }

  ghost predicate AllSpaces(spaces: seq<string>) {
    forall i :: 0 <= i < |spaces| ==> IsSpace(spaces[i])
  }

  lemma SuffixOfConcat(s: string, end: string, width: nat)
    requires width <= |end|
    ensures (s + end)[|s + end| - width..] == end[|end| - width..]
  {
    var t := s + end;
    assert t[|s|..] == end;
    assert t[|t| - width..] == t[|s|..][|end| - width..];
  }

  /** Behind another string, a white-space character is found at its own width and at none below. */
  lemma SpaceAtWidth(s: string, space: string, width: nat)
    requires IsSpace(space) && 1 <= width <= |space|
    ensures EndsWithSpace(s + space, width) <==> width == |space|
  {
    SuffixOfConcat(s, space, width);
    if width < |space| {
      NoSpaceInsideSpace(space, width);
    } else {
      assert space[0..] == space;
    }
  }

  lemma SpaceIsFoundAtEnd(s: string, space: string)
    requires IsSpace(space)
    ensures SpaceAtEnd(s + space) == |space|
  {
    SpaceEnds(space);
    SpaceAtWidth(s, space, 1);
    if |space| > 1 {
      SpaceAtWidth(s, space, 2);
    }
    if |space| > 2 {
      SpaceAtWidth(s, space, 3);
    }
  }

  lemma NoSpaceInsideSpace(space: string, n: nat)
    requires IsSpace(space) && 1 <= n < |space|
    ensures !IsSpace(space[|space| - n..])
  {
  }

  /** Trailing white space goes, up to a character that is none. */
  lemma {:induction false} TrailingSpaceGoes(s: string, spaces: seq<string>)
    requires AllSpaces(spaces) && s != [] && HexValue(s[|s| - 1]).Some?
    ensures TrimRightSpace(s + Joined(spaces)) == s
  {
    if spaces == [] {
      assert s + Joined(spaces) == s;
      NoSpaceAtEnd(s);
    } else {
      var before, last := spaces[..|spaces| - 1], spaces[|spaces| - 1];
      var t := s + Joined(before);
      assert s + Joined(spaces) == t + last;
      SpaceIsFoundAtEnd(t, last);
      assert (t + last)[..|t + last| - |last|] == t;
      SpaceEnds(last);
      TrailingSpaceGoes(s, before);
    }
  }

  /** The two hex digits of a byte. */
  function Digits(b: byte): (s: string)
    ensures |s| == 2
  {
    [HexDigit(b / 16), HexDigit(b % 16)]
  }

  ghost predicate PrefixLike(prefix: string) {
    forall i :: 0 <= i < |prefix| ==> prefix[i] == '0' || prefix[i] == 'x' || prefix[i] == 'X'
  }

  ghost predicate HexPrefix(prefix: string)
    ensures HexPrefix(prefix) ==> PrefixLike(prefix)
  {
    prefix in ["", "0x", "0X"]
  }

  ghost predicate Decimal(s: string) {
    forall i :: 0 <= i < |s| ==> '0' <= s[i] <= '9'
  }

  /** Character k of prefix and text, of which the first 2k digits are known. */
  function CharAt(prefix: string, s: string, k: nat): char
    requires |s| == 2 * k
  {
    if k < |prefix + s| then (prefix + s)[k] else '3'
  }

  lemma CharAtIsDecimal(prefix: string, s: string, k: nat)
    requires |s| == 2 * k && PrefixLike(prefix) && Decimal(s)
    ensures var c := CharAt(prefix, s, k); c < 256 as char && Decimal(Digits(c as int))
  {
    var c := CharAt(prefix, s, k);
    assert c == 'x' || c == 'X' || '0' <= c <= '9' by {
      if k < |prefix| {
        assert c == prefix[k];
      } else if k < |prefix + s| {
        assert c == s[k - |prefix|];
      }
    }
  }

  /**
   The one text of 2n digits that is the hex encoding of the characters it is read as, prefix first; without
   a prefix it is all 3s, the digit whose own code begins with it.
   */
  function SelfEncoding(prefix: string, n: nat): (s: string)
    requires PrefixLike(prefix)
    ensures |s| == 2 * n && Decimal(s)
  {
    if n == 0 then ""
    else
      var s := SelfEncoding(prefix, n - 1);
      CharAtIsDecimal(prefix, s, n - 1);
      s + Digits(CharAt(prefix, s, n - 1) as int)
  }

  ghost predicate SelfEncoded(prefix: string, text: string)
    requires PrefixLike(prefix)
  {
    text == SelfEncoding(prefix, |text| / 2)
  }

  lemma {:induction false} SelfEncodingExtends(prefix: string, k: nat, n: nat)
    requires PrefixLike(prefix) && k <= n
    ensures SelfEncoding(prefix, n)[..2 * k] == SelfEncoding(prefix, k)
  {
    if k < n {
      SelfEncodingExtends(prefix, k, n - 1);
      assert SelfEncoding(prefix, n)[..2 * k] == SelfEncoding(prefix, n - 1)[..2 * k];
    } else {
      assert SelfEncoding(prefix, n)[..2 * n] == SelfEncoding(prefix, n);
    }
  }

  lemma {:induction false} EncodingDigits(bs: seq<byte>, k: nat)
    requires k < |bs|
    ensures EncodeToString(bs)[2 * k..2 * k + 2] == Digits(bs[k])
  {
    var s, rest := EncodeToString(bs), EncodeToString(bs[1..]);
    assert s == Digits(bs[0]) + rest;
    if k > 0 {
      EncodingDigits(bs[1..], k - 1);
      assert s[2 * k..2 * k + 2] == rest[2 * (k - 1)..2 * (k - 1) + 2];
    }
  }

  /** The bytes that a prefixed text begins with. */
  ghost predicate Begins(bs: seq<byte>, prefix: string, text: string) {
    |prefix + text| >= |bs| && forall k :: 0 <= k < |bs| ==> bs[k] == (prefix + text)[k] as int
  }

  /** Known digits decide the next character, but for the very first one of an unprefixed text. */
  lemma CharAtOfText(prefix: string, text: string, k: nat)
    requires 2 * k < |text| && (k == 0 && prefix == "" ==> text[0] == '3')
    ensures k < |prefix + text| && (prefix + text)[k] == CharAt(prefix, text[..2 * k], k)
  {
    var s := text[..2 * k];
    assert text == s + text[2 * k..];
    assert prefix + text == (prefix + s) + text[2 * k..];
  }

  lemma LowerPair(bs: seq<byte>, text: string, k: nat)
    requires k < |bs| && |text| == 2 * |bs| && Lower(text) == EncodeToString(bs)
    ensures Lower(text[2 * k..2 * k + 2]) == Digits(bs[k])
    ensures ToLower(text[2 * k]) == Digits(bs[k])[0]
  {
    EncodingDigits(bs, k);
    assert Lower(text[2 * k..2 * k + 2]) == Lower(text)[2 * k..2 * k + 2];
    assert Lower(text[2 * k..2 * k + 2])[0] == ToLower(text[2 * k]);
  }

  /** Text that is, up to case, the encoding of its own beginning grows digit by digit into the self-encoding one. */
  lemma {:induction false} OwnEncodingIsSelfEncoding(bs: seq<byte>, prefix: string, text: string, n: nat)
    requires PrefixLike(prefix) && |text| == 2 * |bs| && n <= |bs|
    requires Begins(bs, prefix, text) && Lower(text) == EncodeToString(bs)
    ensures text[..2 * n] == SelfEncoding(prefix, n)
    decreases n
  {
    if n > 0 {
      var k := n - 1;
      OwnEncodingIsSelfEncoding(bs, prefix, text, k);
      OwnPair(bs, prefix, text, k);
      SplitPair(text, k);
    }
  }

  lemma SplitPair(text: string, k: nat)
    requires 2 * k + 2 <= |text|
    ensures text[..2 * (k + 1)] == text[..2 * k] + text[2 * k..2 * k + 2]
  {
  }

  /** The next pair of digits, when all before it are as they should be. */
  lemma OwnPair(bs: seq<byte>, prefix: string, text: string, k: nat)
    requires PrefixLike(prefix) && |text| == 2 * |bs| && k < |bs|
    requires Begins(bs, prefix, text) && Lower(text) == EncodeToString(bs) && text[..2 * k] == SelfEncoding(prefix, k)
    ensures var c := CharAt(prefix, text[..2 * k], k); c < 256 as char && text[2 * k..2 * k + 2] == Digits(c as int)
  {
    LowerPair(bs, text, k);
    if k == 0 && prefix == "" {
      OwnFirstDigit(text[0]);
    }
    CharAtOfText(prefix, text, k);
    CharAtIsDecimal(prefix, text[..2 * k], k);
    DecimalIsLower(text[2 * k..2 * k + 2]);
  }

  lemma DecimalIsLower(pair: string)
    requires Decimal(Lower(pair))
    ensures Lower(pair) == pair
  {
    forall i | 0 <= i < |pair| ensures Lower(pair)[i] == pair[i] {
    }
  }

  lemma OwnFirstDigit(c: char)
    requires c < 256 as char && ToLower(c) == Digits(c as int)[0]
    ensures c == '3'
  {
  }

  lemma UnprefixedBeginsWithThree(n: nat)
    requires n > 0
    ensures SelfEncoding("", n)[0] == '3'
  {
    var one := SelfEncoding("", 1);
    SelfEncodingExtends("", 1, n);
    assert one == "" + Digits('3' as int);
    assert SelfEncoding("", n)[..2][0] == one[0];
  }

  lemma SelfEncodingPair(prefix: string, n: nat, k: nat)
    requires PrefixLike(prefix) && k < n
    ensures var text, s := SelfEncoding(prefix, n), SelfEncoding(prefix, k); var c := CharAt(prefix, s, k);
      text[..2 * k] == s && c < 256 as char && text[2 * k..2 * k + 2] == Digits(c as int)
  {
    var s := SelfEncoding(prefix, k);
    SelfEncodingExtends(prefix, k, n);
    SelfEncodingExtends(prefix, k + 1, n);
    CharAtIsDecimal(prefix, s, k);
    var pair := Digits(CharAt(prefix, s, k) as int);
    assert SelfEncoding(prefix, n)[..2 * (k + 1)] == s + pair;
    assert SelfEncoding(prefix, n)[2 * k..2 * k + 2] == (s + pair)[2 * k..2 * k + 2] == pair;
  }

  /** Each pair of its digits is the code of the character it stands for. */
  lemma SelfEncodingAt(prefix: string, text: string, n: nat, k: nat)
    requires PrefixLike(prefix) && text == SelfEncoding(prefix, n) && k < n
    ensures k < |prefix + text| && (prefix + text)[k] < 256 as char
    ensures text[2 * k..2 * k + 2] == Digits((prefix + text)[k] as int)
  {
    SelfEncodingPair(prefix, n, k);
    if k == 0 && prefix == "" {
      UnprefixedBeginsWithThree(n);
    }
    CharAtOfText(prefix, text, k);
  }

  lemma {:induction false} SelfEncodingIsOwnEncoding(bs: seq<byte>, prefix: string, text: string, n: nat)
    requires PrefixLike(prefix) && n <= |bs| && text == SelfEncoding(prefix, |bs|) && Begins(bs, prefix, text)
    ensures EncodeToString(bs)[..2 * n] == text[..2 * n]
  {
    if n > 0 {
      var k, e := n - 1, EncodeToString(bs);
      SelfEncodingIsOwnEncoding(bs, prefix, text, k);
      EncodingDigits(bs, k);
      SelfEncodingAt(prefix, text, |bs|, k);
      assert text[..2 * n] == text[..2 * k] + text[2 * k..2 * k + 2];
      assert e[..2 * n] == e[..2 * k] + e[2 * k..2 * k + 2];
    }
  }

  lemma LowerOfSelfEncoded(prefix: string, text: string)
    requires PrefixLike(prefix) && SelfEncoded(prefix, text)
    ensures Lower(text) == text
  {
    assert Decimal(text);
  }

  lemma OwnEncodingMeansSelfEncoded(bs: seq<byte>, prefix: string, text: string)
    requires PrefixLike(prefix) && |text| == 2 * |bs| && Begins(bs, prefix, text) && Lower(text) == EncodeToString(bs)
    ensures SelfEncoded(prefix, text)
  {
    var n := |bs|;
    OwnEncodingIsSelfEncoding(bs, prefix, text, n);
    assert text[..2 * n] == text && |text| / 2 == n;
  }

  lemma SelfEncodedMeansOwnEncoding(bs: seq<byte>, prefix: string, text: string)
    requires PrefixLike(prefix) && |text| == 2 * |bs| && Begins(bs, prefix, text) && SelfEncoded(prefix, text)
    ensures EncodeToString(bs) == text
  {
    var n := |bs|;
    assert |text| / 2 == n;
    SelfEncodingIsOwnEncoding(bs, prefix, text, n);
    assert text[..2 * n] == text && EncodeToString(bs)[..2 * n] == EncodeToString(bs);
  }

  /** Read as raw bytes, a text comes out as its own address exactly when it encodes itself. */
  lemma OwnAddressIffSelfEncoding(bs: seq<byte>, prefix: string, text: string)
    requires PrefixLike(prefix) && |text| == 2 * |bs| && Begins(bs, prefix, text)
    ensures DecodeString(text) == Some(bs) <==> SelfEncoded(prefix, text)
    ensures EncodeToString(bs) == text <==> SelfEncoded(prefix, text)
  {
    DecodesToExactly(text, bs);
    if SelfEncoded(prefix, text) {
      SelfEncodedMeansOwnEncoding(bs, prefix, text);
      LowerOfSelfEncoded(prefix, text);
    } else {
      if Lower(text) == EncodeToString(bs) {
        OwnEncodingMeansSelfEncoded(bs, prefix, text);
      }
      if EncodeToString(bs) == text {
        DecodeEncode(bs);
      }
    }
  }

  // ----- white space before the text -----

  lemma NoSpaceBeforeSpace(space: string, n: nat)
    requires IsSpace(space) && 1 <= n < |space|
    ensures !IsSpace(space[..n])
  {
  }

  /** Before another string, a white-space character is found at its own width and at none below. */
  lemma SpaceAtFrontWidth(space: string, s: string, width: nat)
    requires IsSpace(space) && 1 <= width <= |space|
    ensures BeginsWithSpace(space + s, width) <==> width == |space|
  {
    assert (space + s)[..width] == space[..width];
    if width < |space| {
      NoSpaceBeforeSpace(space, width);
    } else {
      assert space[..width] == space;
    }
  }

  lemma SpaceIsFoundAtStart(space: string, s: string)
    requires IsSpace(space)
    ensures SpaceAtStart(space + s) == |space|
  {
    SpaceEnds(space);
    SpaceAtFrontWidth(space, s, 1);
    if |space| > 1 {
      SpaceAtFrontWidth(space, s, 2);
    }
    if |space| > 2 {
      SpaceAtFrontWidth(space, s, 3);
    }
  }

  lemma {:induction false} JoinedFromFront(spaces: seq<string>)
    requires spaces != []
    ensures Joined(spaces) == spaces[0] + Joined(spaces[1..])
  {
    if |spaces| > 1 {
      JoinedFromFront(spaces[..|spaces| - 1]);
      assert spaces[..|spaces| - 1][1..] == spaces[1..][..|spaces| - 2];
    } else {
      assert spaces[..0] == [] && spaces[1..] == [];
    }
  }

  /** Leading white space goes, down to a character that is none. */
  lemma {:induction false} LeadingSpaceGoes(lead: seq<string>, s: string)
    requires AllSpaces(lead) && s != [] && HexValue(s[0]).Some?
    ensures TrimLeftSpace(Joined(lead) + s) == s && TrimSpace(Joined(lead) + s) == TrimSpace(s)
    decreases |lead|
  {
    NoSpaceAtStart(s);
    if lead == [] {
      assert Joined(lead) + s == s;
    } else {
      var first, rest := lead[0], Joined(lead[1..]) + s;
      JoinedFromFront(lead);
      assert Joined(lead) + s == first + rest;
      SpaceIsFoundAtStart(first, rest);
      SpaceEnds(first);
      assert (first + rest)[|first|..] == rest;
      LeadingSpaceGoes(lead[1..], s);
    }
  }

  /**
   White space before a record's prefix is always removed: the record comes out as its text, and names its
   address, unless white space and padding follow the text; then the bytes are taken as they are.
   */
  lemma LedRecord(header: seq<byte>, payload: seq<byte>, lead: seq<string>, rest: seq<byte>, prefix: string,
                  text: string, spaces: seq<string>, padding: nat)
    requires |header| == 96 && AllSpaces(lead) && Text(payload) == Joined(lead) + Text(rest)
    requires Record(rest, prefix, text, spaces, padding)
    ensures spaces == [] || padding == 0 ==>
      ReadsBack(header + payload, text) && NamesAddress(header + payload, text)
    ensures spaces != [] && padding > 0 ==>
      |payload| >= 32 && DecodeAccount(header + payload) == Ok(EncodeToString(payload[..32]))
  {
    assert (header + payload)[96..] == payload && (header + rest)[96..] == rest;
    PrefixedText(prefix, text);
    assert Text(rest)[0] == (prefix + text)[0];
    LeadingSpaceGoes(lead, Text(rest));
    if spaces == [] || padding == 0 {
      RecordDecodesIff(header, rest, prefix, text, spaces, padding);
      TextOfRecord(header, rest, prefix, text, spaces, padding);
      TextParses(text, DecodeString(text).value);
    } else {
      JoinedEnds(spaces);
      PaddedRecordStrips(Text(rest), prefix, text, Joined(spaces), padding);
      assert |text + Joined(spaces)| > 64;
      assert |payload| >= |Text(rest)|;
      TakenAsRaw(payload);
    }
  }

  /** What a record that comes out as its text is trimmed and stripped to. */
  lemma TextOfRecord(header: seq<byte>, rest: seq<byte>, prefix: string, text: string, spaces: seq<string>,
                     padding: nat)
    requires |header| == 96 && Record(rest, prefix, text, spaces, padding) && (spaces == [] || padding == 0)
    ensures StripHexPrefix(TrimRightNul(TrimSpace(Text(rest)))) == text
  {
    var s, body := Text(rest), prefix + text;
    PrefixedText(prefix, text);
    if padding == 0 {
      assert s == body + Joined(spaces);
      NoSpaceAtStart(s);
      TrailingSpaceGoes(body, spaces);
      TrimRightNulCutsPadding(body, |body|);
    } else {
      assert s == body + Text(Nuls(padding));
      assert s[..|body|] == body;
      TrimmingCutsPadding(s, body);
    }
    StripLeavesHex(prefix, text);
  }

  lemma PayloadErrors(payload: seq<byte>, trimmed: string)
    requires trimmed == StripHexPrefix(TrimRightNul(TrimSpace(Text(payload))))
    ensures DecodePayload(payload).Err? <==>
      if |trimmed| == 64 then ParseADNLAddress(trimmed).Err? else |payload| < 32
    ensures DecodePayload(payload).Ok? ==> ParseADNLAddress(DecodePayload(payload).value).Ok?
    ensures DecodePayload(payload) != Err(NoData)
  {
    TrimmedIsShorter(Text(payload));
    if |trimmed| != 64 {
      if |payload| >= 32 {
        EncodingParses(payload[..32]);
      } else {
        StrippedIsShorter(trimmed);
      }
    }
  }

  lemma StrippedIsShorter(s: string)
    ensures |StripHexPrefix(s)| <= |s|
  {
  }

  /** Which accounts are refused: without data behind the header, or with data that is neither text nor 32 bytes. */
  lemma AccountErrors(data: seq<byte>, trimmed: string)
    requires |data| > 96 ==> trimmed == StripHexPrefix(TrimRightNul(TrimSpace(Text(data[96..]))))
    ensures DecodeAccount(data) == Err(NoData) <==> |data| <= 96
    ensures DecodeAccount(data) == Err(InvalidData) <==>
      |data| > 96 && if |trimmed| == 64 then ParseADNLAddress(trimmed).Err? else |data| < 96 + 32
    ensures DecodeAccount(data).Ok? ==> ParseADNLAddress(DecodeAccount(data).value).Ok?
  {
    if |data| > 96 {
      PayloadErrors(data[96..], trimmed);
    }
  }

  lemma TrimmedIsShorter(s: string)
    ensures |StripHexPrefix(TrimRightNul(TrimSpace(s)))| <= |s|
  {
    var i := TrimLeftSpaceIsSuffix(s);
    var j := TrimRightSpaceIsPrefix(s[i..]);
    TrimRightNulCutsPadding(TrimSpace(s), |TrimSpace(s)|);
  }

  /** A record: prefix, hex text, white space, NUL padding. */
  ghost predicate Record(payload: seq<byte>, prefix: string, text: string, spaces: seq<string>, padding: nat) {
    && HexPrefix(prefix) && |text| == 64 && DecodeString(text).Some? && AllSpaces(spaces)
    && Text(payload) == prefix + text + Joined(spaces) + Text(Nuls(padding))
  }

  /** A prefixed hex text begins and ends with hex digits, and the text alone parses to its address. */
  lemma PrefixedText(prefix: string, text: string)
    requires prefix in ["", "0x", "0X"] && |text| == 64 && DecodeString(text).Some?
    ensures var s := prefix + text; HexValue(s[0]).Some? && HexValue(s[|s| - 1]).Some?
    ensures ParseADNLAddress(text) == Ok(DecodeString(text).value)
    ensures HexValue(text[1]).Some?
  {
    TextParses(text, DecodeString(text).value);
    HexCharacters(text);
    EndsOfPrefixed(prefix, text);
  }

  lemma TextParses(text: string, addr: seq<byte>)
    requires |text| == 64 && DecodeString(text) == Some(addr)
    ensures ParseADNLAddress(text) == Ok(addr)
  {
    HexParses("", text, addr);
    assert "" + text == text;
  }

  lemma EndsOfPrefixed(prefix: string, text: string)
    requires prefix in ["", "0x", "0X"] && text != []
    ensures var s := prefix + text; s[|s| - 1] == text[|text| - 1] && (s[0] == text[0] || s[0] == '0')
  {
    if prefix == "" {
      assert prefix + text == text;
    } else {
      assert prefix[0] == '0';
    }
  }

  /** Without padding the white space goes. */
  lemma SpaceWithoutPaddingGoes(payload: seq<byte>, prefix: string, text: string, spaces: seq<string>)
    requires Record(payload, prefix, text, spaces, 0)
    ensures DecodePayload(payload) == Ok(text)
  {
    var s := prefix + text;
    PrefixedText(prefix, text);
    assert Text(payload) == s + Joined(spaces);
    NoSpaceAtStart(s + Joined(spaces));
    TrailingSpaceGoes(s, spaces);
    TrimRightNulCutsPadding(s, |s|);
    StripLeavesHex(prefix, text);
  }

  lemma JoinedEnds(spaces: seq<string>)
    requires AllSpaces(spaces) && spaces != []
    ensures var ws := Joined(spaces); ws != "" && ws[|ws| - 1] != NUL
  {
    SpaceEnds(spaces[|spaces| - 1]);
  }

  /** Of a text that begins with a hex digit and is followed by padding, trimming removes the padding alone. */
  lemma TrimmingCutsPadding(s: string, body: string)
    requires body != [] && HexValue(body[0]).Some? && body[|body| - 1] != NUL
    requires |s| > |body| && s[..|body|] == body && forall i :: |body| <= i < |s| ==> s[i] == NUL
    ensures TrimRightNul(TrimSpace(s)) == body
  {
    assert s[0] == body[0] && s[|body| - 1] == body[|body| - 1];
    NoSpaceAtStart(s);
    NoSpaceAtEnd(s);
    TrimRightNulCutsPadding(s, |body|);
  }

  lemma PaddedRecordTrims(s: string, prefixed: string, ws: string, padding: nat)
    requires prefixed != [] && HexValue(prefixed[0]).Some? && ws != "" && ws[|ws| - 1] != NUL && padding > 0
    requires s == prefixed + ws + Text(Nuls(padding))
    ensures TrimRightNul(TrimSpace(s)) == prefixed + ws
  {
    var body := prefixed + ws;
    assert body[0] == prefixed[0] && body[|body| - 1] == ws[|ws| - 1];
    assert s[..|body|] == body;
    TrimmingCutsPadding(s, body);
  }

  lemma PaddedRecordStrips(s: string, prefix: string, text: string, ws: string, padding: nat)
    requires prefix in ["", "0x", "0X"] && |text| == 64 && DecodeString(text).Some?
    requires ws != "" && ws[|ws| - 1] != NUL && padding > 0 && s == prefix + text + ws + Text(Nuls(padding))
    ensures StripHexPrefix(TrimRightNul(TrimSpace(s))) == text + ws
  {
    PrefixedText(prefix, text);
    PaddedRecordTrims(s, prefix + text, ws, padding);
    PrefixAndSpaceStrip(prefix, text, ws);
  }

  lemma PrefixAndSpaceStrip(prefix: string, text: string, ws: string)
    requires prefix in ["", "0x", "0X"] && |text| >= 2 && HexValue(text[1]).Some?
    ensures StripHexPrefix(prefix + text + ws) == text + ws
  {
    var t := text + ws;
    assert prefix + text + ws == prefix + t && t[1] == text[1];
    StripKeepsLongText(prefix, t);
  }

  /** With padding behind it the white space stays, and the record is read as raw bytes. */
  lemma SpaceBeforePaddingStays(payload: seq<byte>, prefix: string, text: string, spaces: seq<string>, padding: nat)
    requires Record(payload, prefix, text, spaces, padding) && spaces != [] && padding > 0
    ensures |payload| >= 32 && DecodePayload(payload) == Ok(EncodeToString(payload[..32]))
  {
    JoinedEnds(spaces);
    PaddedRecordStrips(Text(payload), prefix, text, Joined(spaces), padding);
    assert |text + Joined(spaces)| > 64;
    FirstBytes(payload, prefix, text, spaces, padding);
    TakenAsRaw(payload);
  }

  lemma StripKeepsLongText(prefix: string, t: string)
    requires prefix in ["", "0x", "0X"] && |t| >= 2 && HexValue(t[1]).Some?
    ensures StripHexPrefix(prefix + t) == t
  {
    assert t[1] != 'x' && t[1] != 'X';
    assert !("0x" <= t) && !("0X" <= t);
    if prefix == "" {
      assert prefix + t == t;
    } else {
      assert (prefix + t)[2..] == t;
      assert prefix == "0X" ==> !("0x" <= prefix + t);
    }
  }

  /** The record decodes to its own text. */
  ghost predicate ReadsBack(data: seq<byte>, text: string) {
    DecodeAccount(data) == Ok(text)
  }

  /** The record decodes to some text of its own address. */
  ghost predicate NamesAddress(data: seq<byte>, text: string) {
    DecodeAccount(data).Ok? && DecodeString(text).Some?
    && ParseADNLAddress(DecodeAccount(data).value) == Ok(DecodeString(text).value)
  }

  lemma MisreadRecord(header: seq<byte>, payload: seq<byte>, prefix: string, text: string, spaces: seq<string>,
                      padding: nat)
    requires |header| == 96 && Record(payload, prefix, text, spaces, padding)
    requires spaces != [] && padding > 0
    ensures ReadsBack(header + payload, text) <==> SelfEncoded(prefix, text)
    ensures NamesAddress(header + payload, text) <==> SelfEncoded(prefix, text)
  {
    assert (header + payload)[96..] == payload;
    SpaceBeforePaddingStays(payload, prefix, text, spaces, padding);
    FirstBytes(payload, prefix, text, spaces, padding);
    EncodingParses(payload[..32]);
    OwnAddressIffSelfEncoding(payload[..32], prefix, text);
  }

  /**
   White space between hex text and NUL padding is not removed, and the record is then read as raw bytes.
   For every prefix, text, white space and padding: the record comes out as its text, and names its address,
   exactly when it does not have both white space and padding, or its text is the one that encodes itself.
   */
  lemma RecordDecodesIff(header: seq<byte>, payload: seq<byte>, prefix: string, text: string, spaces: seq<string>,
                         padding: nat)
    requires |header| == 96 && Record(payload, prefix, text, spaces, padding)
    ensures ReadsBack(header + payload, text) <==> spaces == [] || padding == 0 || SelfEncoded(prefix, text)
    ensures NamesAddress(header + payload, text) <==> spaces == [] || padding == 0 || SelfEncoded(prefix, text)
  {
    PrefixedText(prefix, text);
    if padding == 0 {
      assert (header + payload)[96..] == payload;
      SpaceWithoutPaddingGoes(payload, prefix, text, spaces);
    } else if spaces == [] {
      assert prefix + text + Joined(spaces) == prefix + text;
      HexTextDecodes(header, payload, prefix, text, DecodeString(text).value, padding);
    } else {
      MisreadRecord(header, payload, prefix, text, spaces, padding);
    }
  }

  lemma FirstBytes(payload: seq<byte>, prefix: string, text: string, spaces: seq<string>, padding: nat)
    requires Record(payload, prefix, text, spaces, padding)
    ensures |payload| >= 32 && Begins(payload[..32], prefix, text)
  {
    forall k | 0 <= k < 32 ensures payload[..32][k] == (prefix + text)[k] as int {
      assert Text(payload)[k] == payload[k] as char;
      assert (prefix + text + Joined(spaces) + Text(Nuls(padding)))[k] == (prefix + text)[k];
    }
  }

  lemma ZeroText(n: nat, text: string)
    requires text == seq(2 * n, _ => '0')
    ensures DecodeString(text) == Some(Nuls(n))
  {
    var e := EncodeToString(Nuls(n));
    forall i | 0 <= i < |e| ensures e[i] == text[i] {
      var k := i / 2;
      EncodingDigits(Nuls(n), k);
      assert e[i] == e[2 * k..2 * k + 2][i - 2 * k];
    }
    assert e == text;
    DecodeEncode(Nuls(n));
  }

  /** 64 zeros, a line feed and one NUL. */
  lemma ZeroRecord(payload: seq<byte>, text: string, n: nat)
    requires n == 32 && text == seq(2 * n, _ => '0') && payload == seq(2 * n, _ => 0x30) + [10, 0]
    ensures DecodeString(text) == Some(Nuls(n)) && Record(payload, "", text, ["\n"], 1)
  {
    ZeroText(n, text);
    assert ["\n"][..0] == [];
    assert Joined(["\n"]) == "\n";
    assert Text(payload) == "" + text + "\n" + Text(Nuls(1));
  }

  /** For instance: the address of all zero bytes, as text with a line feed and a NUL, comes out as another address. */
  lemma ZeroAddressIsMisread(header: seq<byte>, text: string)
    requires |header| == 96 && text == seq(64, _ => '0')
    ensures ParseADNLAddress(text) == Ok(Nuls(32))
    ensures var r := DecodeAccount(header + (seq(64, _ => 0x30) + [10, 0]));
      r.Ok? && ParseADNLAddress(r.value) == Ok(seq(32, _ => 0x30))
  {
    var payload: seq<byte> := seq(64, _ => 0x30) + [10, 0];
    ZeroRecord(payload, text, 32);
    PrefixedText("", text);
    assert (header + payload)[96..] == payload;
    SpaceBeforePaddingStays(payload, "", text, ["\n"], 1);
    assert payload[..32] == seq(32, _ => 0x30);
    EncodingParses(payload[..32]);
  }
}
