/**
 * PHP's urlencode() and the application/x-www-form-urlencoded decoding a
 * browser's URLSearchParams applies to a query value, both on byte strings.
 *
 * urlencode() keeps ASCII letters, digits, `-`, `_` and `.`, turns a space
 * into `+`, and writes every other byte as `%` and two upper-case hex digits.
 * The decoder turns `+` into a space and `%` followed by two hex digits (of
 * either case) into that byte, and keeps every other character.
 */
module UrlEncoding {
  import opened Wrappers
  import opened Base64

  predicate IsAsciiAlnum(c: char) {
    'a' <= c <= 'z' || 'A' <= c <= 'Z' || '0' <= c <= '9'
  }

  /** The bytes urlencode() leaves as they are. */
  predicate IsUnreserved(c: char) {
    IsAsciiAlnum(c) || c == '-' || c == '_' || c == '.'
  }

  /** An upper-case hex digit. */
  function HexDigit(v: int): (c: char)
    requires 0 <= v < 16
    ensures IsAsciiAlnum(c)
  {
    if v < 10 then ('0' as int + v) as char else ('A' as int + (v - 10)) as char
  }

  /** The value of a hex digit of either case. */
  function HexValue(c: char): (r: Option<int>)
    ensures r.Some? ==> 0 <= r.value < 16
  {
    if '0' <= c <= '9' then Some(c as int - '0' as int)
    else if 'A' <= c <= 'F' then Some(c as int - 'A' as int + 10)
    else if 'a' <= c <= 'f' then Some(c as int - 'a' as int + 10)
    else None
  }

  lemma HexRoundTrip(v: int)
    requires 0 <= v < 16
    ensures HexValue(HexDigit(v)) == Some(v)
  {
  }

  /** What urlencode() writes for one byte. */
  function EncodeByte(c: char): (r: string)
    requires c as int < 256
    ensures |r| >= 1
    ensures forall k :: 0 <= k < |r| ==> IsUnreserved(r[k]) || r[k] == '+' || r[k] == '%'
  {
    if IsUnreserved(c) then [c]
    else if c == ' ' then "+"
    else ['%', HexDigit(c as int / 16), HexDigit(c as int % 16)]
  }

  /** urlencode(). */
  function UrlEncode(s: string): (r: string)
    requires IsByteString(s)
    ensures forall k :: 0 <= k < |r| ==> IsUnreserved(r[k]) || r[k] == '+' || r[k] == '%'
  {
    if |s| == 0 then "" else EncodeByte(s[0]) + UrlEncode(s[1..])
  }

  /** The form decoding of a query value. */
  function FormDecode(s: string): string {
    if |s| == 0 then ""
    else if s[0] == '+' then " " + FormDecode(s[1..])
    else if s[0] == '%' && |s| >= 3 && HexValue(s[1]).Some? && HexValue(s[2]).Some? then
      [(HexValue(s[1]).value * 16 + HexValue(s[2]).value) as char] + FormDecode(s[3..])
    else [s[0]] + FormDecode(s[1..])
  }

  /** Decoding one encoded byte in front of anything gives the byte in front. */
  lemma DecodeEncodedByte(c: char, rest: string)
    requires c as int < 256
    ensures FormDecode(EncodeByte(c) + rest) == [c] + FormDecode(rest)
  {
    var e := EncodeByte(c) + rest;
    if IsUnreserved(c) {
      assert e[1..] == rest;
    } else if c == ' ' {
      assert e[1..] == rest;
    } else {
      HexRoundTrip(c as int / 16);
      HexRoundTrip(c as int % 16);
      assert e[3..] == rest;
    }
  }

  /** The form decoding undoes urlencode() on every byte string. */
  lemma {:induction false} FormDecodeUrlEncode(s: string)
    requires IsByteString(s)
    ensures FormDecode(UrlEncode(s)) == s
    decreases |s|
  {
    if |s| > 0 {
      DecodeEncodedByte(s[0], UrlEncode(s[1..]));
      FormDecodeUrlEncode(s[1..]);
      assert s == [s[0]] + s[1..];
    }
  }

  /** urlencode() output never holds the query separators `&`, `=` or `?`. */
  lemma EncodedHasNoSeparators(s: string)
    requires IsByteString(s)
    ensures '&' !in UrlEncode(s) && '=' !in UrlEncode(s) && '?' !in UrlEncode(s)
  {
  }
}
