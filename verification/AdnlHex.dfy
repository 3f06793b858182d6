/** Hex text and ParseADNLAddress. A Go string is modelled as its bytes, one character each. */
module AdnlHex {
  import opened Basics

  function HexValue(c: char): (v: Option<nat>)
    ensures v.Some? ==> v.value < 16
  {
    if '0' <= c <= '9' then Some(c as int - '0' as int)
    else if 'a' <= c <= 'f' then Some(c as int - 'a' as int + 10)
    else if 'A' <= c <= 'F' then Some(c as int - 'A' as int + 10)
    else None
  }

  function HexDigit(v: nat): char
    requires v < 16
  {
    if v < 10 then ('0' as int + v) as char else ('a' as int + (v - 10)) as char
  }

  /** hex.DecodeString: an odd length or a character that is no hex digit is an error. */
  function DecodeString(s: string): (r: Option<seq<byte>>)
    ensures r.Some? ==> 2 * |r.value| == |s|
  {
    if s == [] then Some([])
    else if |s| == 1 || HexValue(s[0]).None? || HexValue(s[1]).None? then None
    else
      match DecodeString(s[2..])
      case None => None
      case Some(rest) => Some([16 * HexValue(s[0]).value + HexValue(s[1]).value] + rest)
  }

  /** hex.EncodeToString, lower case. */
  function EncodeToString(bs: seq<byte>): (s: string)
    ensures |s| == 2 * |bs|
  {
    if bs == [] then [] else [HexDigit(bs[0] / 16), HexDigit(bs[0] % 16)] + EncodeToString(bs[1..])
  }

  function TrimPrefix(s: string, prefix: string): string {
    if prefix <= s then s[|prefix|..] else s
  }

  /** A leading 0x goes, and then a leading 0X. */
  function StripHexPrefix(s: string): string {
    TrimPrefix(TrimPrefix(s, "0x"), "0X")
  }

  /** The digits, lower case when written, either case when read. */
  lemma HexAlphabet(v: nat, c: char)
    requires v < 16
    ensures HexDigit(v) == "0123456789abcdef"[v]
    ensures HexValue(c) == Some(v) <==> c == "0123456789abcdef"[v] || c == "0123456789ABCDEF"[v]
  {
  }

  /** One 0x goes from the front, and then one 0X; nothing else does, and not the other way round. */
  lemma StripsEachOnce(s: string)
    ensures StripHexPrefix("0x" + s) == TrimPrefix(s, "0X") && TrimPrefix("0X" + s, "0X") == s
    ensures StripHexPrefix("0X" + s) == s
    ensures !("0x" <= s) && !("0X" <= s) ==> StripHexPrefix(s) == s
  {
    assert ("0x" + s)[2..] == s && ("0X" + s)[2..] == s;
    assert ("0X" + s)[1] == 'X';
  }

  lemma DigitOfLower(c: char, v: nat)
    requires v < 16
    ensures HexValue(c) == Some(v) <==> ToLower(c) == HexDigit(v)
  {
  }

  lemma ByteOfLower(a: char, b: char, x: byte)
    ensures HexValue(a).Some? && HexValue(b).Some? && 16 * HexValue(a).value + HexValue(b).value == x <==>
            ToLower(a) == HexDigit(x / 16) && ToLower(b) == HexDigit(x % 16)
  {
    DigitOfLower(a, x / 16);
    DigitOfLower(b, x % 16);
    if HexValue(a).Some? && HexValue(b).Some? {
      Nibbles(HexValue(a).value, HexValue(b).value);
    }
  }

  lemma HexValueOfDigit(v: nat)
    requires v < 16
    ensures HexValue(HexDigit(v)) == Some(v)
  {
  }

  lemma Nibbles(high: nat, low: nat)
    requires high < 16 && low < 16
    ensures (16 * high + low) / 16 == high && (16 * high + low) % 16 == low
  {
  }

  lemma {:induction false} DecodeEncode(bs: seq<byte>)
    ensures DecodeString(EncodeToString(bs)) == Some(bs)
  {
    if bs != [] {
      HexValueOfDigit(bs[0] / 16);
      HexValueOfDigit(bs[0] % 16);
      DecodeEncode(bs[1..]);
      assert EncodeToString(bs)[2..] == EncodeToString(bs[1..]);
      assert bs == [16 * (bs[0] / 16) + bs[0] % 16] + bs[1..];
    }
  }

  lemma SameHeadAndRest<T>(a: T, b: T, s: seq<T>, c: T, d: T, t: seq<T>)
    ensures [a, b] + s == [c, d] + t <==> a == c && b == d && s == t
  {
    var left, right := [a, b] + s, [c, d] + t;
    assert left[0] == a && left[1] == b && right[0] == c && right[1] == d;
    assert left[2..] == s && right[2..] == t;
  }

  /** Text decodes to given bytes exactly when, up to letter case, it is their encoding. */
  lemma {:induction false} DecodesToExactly(s: string, bs: seq<byte>)
    ensures DecodeString(s) == Some(bs) <==> Lower(s) == EncodeToString(bs)
  {
    if s == [] {
    } else if |s| == 1 {
    } else if bs == [] {
      assert |EncodeToString(bs)| == 0;
    } else {
      DecodesToExactly(s[2..], bs[1..]);
      ByteOfLower(s[0], s[1], bs[0]);
      assert bs == [bs[0]] + bs[1..];
      assert Lower(s) == [ToLower(s[0]), ToLower(s[1])] + Lower(s[2..]);
      SameHeadAndRest(ToLower(s[0]), ToLower(s[1]), Lower(s[2..]),
                      HexDigit(bs[0] / 16), HexDigit(bs[0] % 16), EncodeToString(bs[1..]));
    }
  }

  datatype ParseError = InvalidLength | InvalidHex

  function ParseADNLAddress(hexStr: string): (r: Result<seq<byte>, ParseError>)
    ensures r.Ok? ==> |r.value| == 32
  {
    var stripped := StripHexPrefix(hexStr);
    if |stripped| != 64 then Err(InvalidLength)
    else
      match DecodeString(stripped)
      case None => Err(InvalidHex)
      case Some(addr) => Ok(addr)
  }

  /** What is not accepted is refused for its length first, and only then for its characters. */
  lemma ParseErrors(hexStr: string)
    ensures ParseADNLAddress(hexStr) == Err(InvalidLength) <==> |StripHexPrefix(hexStr)| != 64
    ensures ParseADNLAddress(hexStr) == Err(InvalidHex) <==>
      |StripHexPrefix(hexStr)| == 64 && exists i :: 0 <= i < 64 && HexValue(StripHexPrefix(hexStr)[i]).None?
  {
    if |StripHexPrefix(hexStr)| == 64 {
      DecodesIffAllHex(StripHexPrefix(hexStr));
    }
  }

  /** Text of even length decodes exactly when every character is a hex digit. */
  lemma {:induction false} DecodesIffAllHex(s: string)
    requires |s| % 2 == 0
    ensures DecodeString(s).Some? <==> forall i :: 0 <= i < |s| ==> HexValue(s[i]).Some?
  {
    if s != [] {
      var rest := s[2..];
      DecodesIffAllHex(rest);
      assert forall i :: 0 <= i < |rest| ==> rest[i] == s[i + 2];
      assert forall i :: 2 <= i < |s| ==> s[i] == rest[i - 2];
    }
  }

  /** The pipeline inside ResolveToADNL: decode first, then look at the number of bytes. */
  function DecodeResolved(rawHex: string): Result<seq<byte>, ParseError> {
    match DecodeString(StripHexPrefix(rawHex))
    case None => Err(InvalidHex)
    case Some(addr) => if |addr| != 32 then Err(InvalidLength) else Ok(addr)
  }

  /**
   Both accept the same strings with the same bytes: those that are, after their prefix and up to letter
   case, the encoding of 32 bytes.
   */
  lemma ParsersAgree(s: string, addr: seq<byte>)
    ensures ParseADNLAddress(s) == Ok(addr) <==> DecodeResolved(s) == Ok(addr)
    ensures DecodeResolved(s) == Ok(addr) <==> |addr| == 32 && Lower(StripHexPrefix(s)) == EncodeToString(addr)
  {
    DecodesToExactly(StripHexPrefix(s), addr);
  }

  /** Hex text never loses its start to the prefix stripping, and a prefixed one loses just the prefix. */
  lemma StripLeavesHex(prefix: string, text: string)
    requires prefix in ["", "0x", "0X"] && DecodeString(text).Some?
    ensures StripHexPrefix(prefix + text) == text
  {
    if |text| >= 2 {
      assert text[1] != 'x' && text[1] != 'X';
    }
    assert !("0x" <= text) && !("0X" <= text);
    if prefix == "0x" {
      assert (prefix + text)[2..] == text;
    } else if prefix == "0X" {
      assert (prefix + text)[2..] == text;
      assert !("0x" <= prefix + text);
    } else {
      assert prefix + text == text;
    }
  }

  /** Hex text of 32 bytes, prefixed or not and in any case, parses to those bytes. */
  lemma HexParses(prefix: string, text: string, addr: seq<byte>)
    requires prefix in ["", "0x", "0X"] && |addr| == 32 && DecodeString(text) == Some(addr)
    ensures ParseADNLAddress(prefix + text) == Ok(addr)
  {
    StripLeavesHex(prefix, text);
  }

  lemma EncodingParses(addr: seq<byte>)
    requires |addr| == 32
    ensures ParseADNLAddress(EncodeToString(addr)) == Ok(addr)
  {
    var text := EncodeToString(addr);
    DecodeEncode(addr);
    HexParses("", text, addr);
    assert "" + text == text;
  }
}
