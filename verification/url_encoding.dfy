/**
 * PHP's `urlencode` and `urldecode` over byte strings: letters, digits and
 * `-_.` stay as they are, a space becomes `+`, every other byte becomes `%`
 * followed by two upper-case hexadecimal digits.
 */
module UrlEncoding {
  import opened PhpStrings

  predicate IsUnreserved(c: byte) {
    ('a' <= c <= 'z') || ('A' <= c <= 'Z') || ('0' <= c <= '9') || c == '-' || c == '_' || c == '.'
  }

  predicate IsHexDigit(c: byte) {
    ('0' <= c <= '9') || ('A' <= c <= 'F') || ('a' <= c <= 'f')
  }

  /** The upper-case hexadecimal digit for a value below 16. */
  function HexDigit(n: nat): (c: byte)
    requires n < 16
    ensures IsHexDigit(c) && HexValue(c) == n
  {
    if n < 10 then (48 + n) as char else (55 + n) as char
  }

  /** The value of a hexadecimal digit of either case. */
  function HexValue(c: byte): (n: nat)
    requires IsHexDigit(c)
    ensures n < 16
  {
    if '0' <= c <= '9' then c as int - 48
    else if 'A' <= c <= 'F' then c as int - 55
    else c as int - 87
  }

  function EncodeByte(c: byte): (r: Bytes)
    ensures '&' !in r
  {
    if IsUnreserved(c) then [c]
    else if c == ' ' then ['+']
    else ['%', HexDigit(c as int / 16), HexDigit(c as int % 16)]
  }

  /** PHP's `urlencode`: never produces `&`, so its output cannot be mistaken for a query separator. */
  function UrlEncode(s: Bytes): (r: Bytes)
    ensures '&' !in r
    ensures |s| <= |r| <= 3 * |s|
  {
    if s == [] then [] else EncodeByte(s[0]) + UrlEncode(s[1..])
  }

  /** PHP's `urldecode`: `+` is a space, `%` with two hex digits is that byte, anything else is kept. */
  function UrlDecode(s: Bytes): Bytes
    decreases |s|
  {
    if s == [] then []
    else if s[0] == '+' then [' '] + UrlDecode(s[1..])
    else if s[0] == '%' && |s| >= 3 && IsHexDigit(s[1]) && IsHexDigit(s[2]) then
      [(16 * HexValue(s[1]) + HexValue(s[2])) as char] + UrlDecode(s[3..])
    else [s[0]] + UrlDecode(s[1..])
  }

  /** Decoding one encoded byte in front of any rest gives back the byte. */
  lemma DecodeEncodedByte(c: byte, rest: Bytes)
    ensures UrlDecode(EncodeByte(c) + rest) == [c] + UrlDecode(rest)
  {
    var e := EncodeByte(c) + rest;
    if IsUnreserved(c) {
      assert e[1..] == rest;
    } else if c == ' ' {
      assert e[1..] == rest;
    } else {
      var hi, lo := c as int / 16, c as int % 16;
      assert e[1] == HexDigit(hi) && e[2] == HexDigit(lo);
      assert e[3..] == rest;
      assert (16 * hi + lo) as char == c;
    }
  }

  /** `urldecode` undoes `urlencode`. */
  lemma {:induction false} DecodeEncode(s: Bytes)
    ensures UrlDecode(UrlEncode(s)) == s
  {
    if s != [] {
      DecodeEncodedByte(s[0], UrlEncode(s[1..]));
      DecodeEncode(s[1..]);
    }
  }

  /** Distinct strings have distinct encodings. */
  lemma UrlEncodeInjective(a: Bytes, b: Bytes)
    requires UrlEncode(a) == UrlEncode(b)
    ensures a == b
  {
    DecodeEncode(a);
    DecodeEncode(b);
  }
}
