/**
 * PHP's form-style percent-encoding. `urlencode` keeps ASCII letters,
 * digits and `-`, `_`, `.`; turns a space into `+`; and writes every other
 * byte as `%` followed by two upper-case hexadecimal digits. `urldecode`
 * reverses this: `+` becomes a space, `%` followed by two hexadecimal digits
 * (either case) becomes that byte, and any other byte stands for itself.
 */
module UrlCodec {
  import opened PhpText

  predicate IsUnreserved(c: Byte)
  {
    ('a' <= c <= 'z') || ('A' <= c <= 'Z') || ('0' <= c <= '9') ||
    c == '-' || c == '_' || c == '.'
  }

  /** The bytes `urlencode` can produce. */
  predicate IsEncodedByte(c: Byte)
  {
    IsUnreserved(c) || c == '%' || c == '+'
  }

  predicate IsHexDigit(c: Byte)
  {
    ('0' <= c <= '9') || ('A' <= c <= 'F') || ('a' <= c <= 'f')
  }

  /** The upper-case hexadecimal digit of `d`. */
  function HexDigit(d: nat): (c: Byte)
    requires d < 16
    ensures IsUnreserved(c) && IsHexDigit(c)
  {
    if d < 10 then ('0' as int + d) as char else ('A' as int + d - 10) as char
  }

  function HexValue(c: Byte): (d: nat)
    requires IsHexDigit(c)
    ensures d < 16
  {
    if '0' <= c <= '9' then c as int - '0' as int
    else if 'A' <= c <= 'F' then c as int - 'A' as int + 10
    else c as int - 'a' as int + 10
  }

  /** How `urlencode` writes one byte. */
  function EncodeByte(c: Byte): (r: PhpString)
    ensures 1 <= |r| <= 3
    ensures IsEncodedByte(r[0])
    ensures |r| == 3 ==> IsEncodedByte(r[1]) && IsEncodedByte(r[2])
  {
    if IsUnreserved(c) then [c]
    else if c == ' ' then ['+']
    else ['%', HexDigit(c as int / 16), HexDigit(c as int % 16)]
  }

  /** PHP's `urlencode`. */
  function UrlEncode(s: PhpString): PhpString
  {
    if s == [] then [] else EncodeByte(s[0]) + UrlEncode(s[1..])
  }

  /**
   * `urlencode` writes only letters, digits, `-`, `_`, `.`, `%` and `+`;
   * in particular none of the delimiters `&`, `=` and `?` of a URL query.
   */
  lemma {:induction false} UrlEncodeAlphabet(s: PhpString)
    ensures forall k :: 0 <= k < |UrlEncode(s)| ==> IsEncodedByte(UrlEncode(s)[k])
    ensures '&' !in UrlEncode(s) && '=' !in UrlEncode(s) && '?' !in UrlEncode(s)
  {
    if s != [] {
      UrlEncodeAlphabet(s[1..]);
      var e, r := EncodeByte(s[0]), UrlEncode(s[1..]);
      assert UrlEncode(s) == e + r;
      forall k | 0 <= k < |e + r|
        ensures IsEncodedByte((e + r)[k])
      {
        if k >= |e| {
          assert (e + r)[k] == r[k - |e|];
        }
      }
    }
  }

  /** PHP's `urldecode`. */
  function UrlDecode(s: PhpString): PhpString
    decreases |s|
  {
    if s == [] then []
    else if s[0] == '+' then [' '] + UrlDecode(s[1..])
    else if s[0] == '%' && |s| >= 3 && IsHexDigit(s[1]) && IsHexDigit(s[2]) then
      [(HexValue(s[1]) * 16 + HexValue(s[2])) as char] + UrlDecode(s[3..])
    else [s[0]] + UrlDecode(s[1..])
  }

  /** Decoding the encoding of one byte gives that byte back, whatever follows. */
  lemma DecodeEncodeByte(c: Byte, rest: PhpString)
    ensures UrlDecode(EncodeByte(c) + rest) == [c] + UrlDecode(rest)
  {
    var e := EncodeByte(c) + rest;
    if IsUnreserved(c) {
      assert e[1..] == rest;
    } else if c == ' ' {
      assert e[1..] == rest;
    } else {
      var hi, lo := c as int / 16, c as int % 16;
      assert HexValue(HexDigit(hi)) == hi;
      assert HexValue(HexDigit(lo)) == lo;
      assert e[3..] == rest;
    }
  }

  /** `urldecode(urlencode(s)) == s` for every byte string. */
  lemma {:induction false} DecodeEncode(s: PhpString)
    ensures UrlDecode(UrlEncode(s)) == s
  {
    if s != [] {
      DecodeEncodeByte(s[0], UrlEncode(s[1..]));
      DecodeEncode(s[1..]);
      assert [s[0]] + s[1..] == s;
    }
  }

  /** Different byte strings have different encodings. */
  lemma EncodeInjective(a: PhpString, b: PhpString)
    ensures UrlEncode(a) == UrlEncode(b) <==> a == b
  {
    DecodeEncode(a);
    DecodeEncode(b);
  }
}
