/** Base16 text (section 8 of RFC 4648), read two characters at a time by parseInt and written by toHex. */
module Hex {
  import opened Wrappers
  import opened ByteStrings

  /** The value of one hexadecimal digit, upper or lower case. */
  function HexDigit(c: char): Option<nat> {
    if '0' <= c <= '9' then Some(c as int - '0' as int)
    else if 'a' <= c <= 'f' then Some(c as int - 'a' as int + 10)
    else if 'A' <= c <= 'F' then Some(c as int - 'A' as int + 10)
    else None
  }

  /** White space and line terminators, which parseInt skips at the start. */
  predicate IsSpace(c: char) {
    var n := c as int;
    || 9 <= n <= 13 || n == 0x20 || n == 0xA0 || n == 0x1680 || 0x2000 <= n <= 0x200A
    || n == 0x2028 || n == 0x2029 || n == 0x202F || n == 0x205F || n == 0x3000 || n == 0xFEFF
  }

  /** parseInt of two characters in base 16, stored in one unsigned byte; not-a-number is stored as 0. */
  function ParsePair(a: char, b: char): (r: byte) {
    match (HexDigit(a), HexDigit(b))
    case (Some(x), Some(y)) => assert x < 16 && y < 16; 16 * x + y
    case (Some(x), None) => x
    case (None, Some(y)) => if IsSpace(a) || a == '+' then y else if a == '-' then (256 - y) % 256 else 0
    case (None, None) => 0
  }

  /** An odd last character is outside the buffer and is dropped. */
  function HexBytes(s: string): (r: Bytes)
  {
    seq(|s| / 2, k requires 0 <= k < |s| / 2 => ParsePair(s[2 * k], s[2 * k + 1]))
  }

  predicate IsLowerHex(c: char) {
    '0' <= c <= '9' || 'a' <= c <= 'f'
  }

  predicate CanonicalHex(s: string) {
    |s| % 2 == 0 && forall i :: 0 <= i < |s| ==> IsLowerHex(s[i])
  }

  function HexChar(n: nat): (c: char)
    requires n < 16
    ensures IsLowerHex(c) && HexDigit(c) == Some(n)
  {
    if n < 10 then '0' + n as char else 'a' + (n - 10) as char
  }

  /** Two lower-case digits per byte. */
  function ToHex(bytes: Bytes): (s: string)
  {
    seq(2 * |bytes|,
      i requires 0 <= i < 2 * |bytes| => HexChar(if i % 2 == 0 then bytes[i / 2] / 16 else bytes[i / 2] % 16))
  }

  /** Reading undoes writing. */
  lemma HexBytesToHex(bytes: Bytes)
    ensures CanonicalHex(ToHex(bytes))
    ensures HexBytes(ToHex(bytes)) == bytes
  {
    var t := ToHex(bytes);
    forall k | 0 <= k < |bytes|
      ensures HexBytes(t)[k] == bytes[k]
    {
      assert t[2 * k] == HexChar(bytes[k] / 16) && t[2 * k + 1] == HexChar(bytes[k] % 16);
    }
    assert HexBytes(t) == bytes;
  }

  function LowerCase(c: char): char {
    if 'A' <= c <= 'Z' then c - 'A' + 'a' else c
  }

  lemma LowerHexDigit(c: char)
    requires HexDigit(c).Some?
    ensures HexDigit(c).value < 16 && HexChar(HexDigit(c).value) == LowerCase(c)
  {
  }

  /** Writing gives digits of either case back in lower case. */
  lemma ToHexLowers(s: string)
    requires |s| % 2 == 0 && forall i :: 0 <= i < |s| ==> HexDigit(s[i]).Some?
    ensures |ToHex(HexBytes(s))| == |s| && forall i :: 0 <= i < |s| ==> ToHex(HexBytes(s))[i] == LowerCase(s[i])
  {
    var b := HexBytes(s);
    forall i | 0 <= i < |s|
      ensures ToHex(b)[i] == LowerCase(s[i])
    {
      var k := i / 2;
      var x, y := s[2 * k], s[2 * k + 1];
      LowerHexDigit(x);
      LowerHexDigit(y);
      assert b[k] == ParsePair(x, y) == 16 * HexDigit(x).value + HexDigit(y).value;
      assert b[k] / 16 == HexDigit(x).value && b[k] % 16 == HexDigit(y).value;
    }
  }

  /** Writing undoes reading, on lower-case text of even length. */
  lemma ToHexHexBytes(s: string)
    requires CanonicalHex(s)
    ensures ToHex(HexBytes(s)) == s
  {
    ToHexLowers(s);
    assert forall i :: 0 <= i < |s| ==> LowerCase(s[i]) == s[i];
  }

  /**
   * Exactly lower-case text of even length is what its bytes are written as; any other shares its bytes with such a
   * text.
   */
  lemma CanonicalIff(s: string)
    ensures CanonicalHex(s) <==> ToHex(HexBytes(s)) == s
    ensures !CanonicalHex(s) ==> exists t :: t != s && CanonicalHex(t) && HexBytes(t) == HexBytes(s)
  {
    HexBytesToHex(HexBytes(s));
    if CanonicalHex(s) {
      ToHexHexBytes(s);
    }
  }

  lemma HexBytesInjective(s: string, t: string)
    requires CanonicalHex(s) && CanonicalHex(t) && HexBytes(s) == HexBytes(t)
    ensures s == t
  {
    ToHexHexBytes(s);
    ToHexHexBytes(t);
  }

  /** The loop of encodeHexString and fromHex; a write past the end of the typed array is ignored. */
  method ParseHex(value: string) returns (bytes: array<byte>)
    ensures fresh(bytes)
    ensures bytes[..] == HexBytes(value)
  {
    bytes := new byte[|value| / 2];
    var i := 0;
    while i < |value|
      invariant 0 <= i <= |value| + 1 && i % 2 == 0
      invariant forall k :: 0 <= k < i / 2 && k < bytes.Length ==> bytes[k] == HexBytes(value)[k]
    {
      if i / 2 < bytes.Length {
        bytes[i / 2] := ParsePair(value[i], value[i + 1]);
      }
      i := i + 2;
    }
  }
}
