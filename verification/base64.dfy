/**
 * PHP's base64_encode() and the default, non-strict base64_decode() of the
 * standard alphabet of section 4 of RFC 4648, over byte strings (each
 * character below 256).
 *
 * The non-strict decoder never fails: it skips every character outside the
 * alphabet, `=` included, decodes the remaining sextets four at a time, and
 * of a final incomplete group keeps the whole bytes only: two sextets give
 * one byte, three give two, and a single one gives nothing.
 */
module Base64 {
  import opened Wrappers

  /** A PHP byte string: every character is a byte value. */
  predicate IsByteString(s: string) {
    forall k :: 0 <= k < |s| ==> s[k] as int < 256
  }

  /** The alphabet character of a sextet: A-Z, a-z, 0-9, `+`, `/`. */
  function SextetChar(v: int): (c: char)
    requires 0 <= v < 64
    ensures c != '=' && c != '|'
  {
    if v < 26 then ('A' as int + v) as char
    else if v < 52 then ('a' as int + (v - 26)) as char
    else if v < 62 then ('0' as int + (v - 52)) as char
    else if v == 62 then '+'
    else '/'
  }

  /** The sextet of an alphabet character; `None` for any other character, `=` included. */
  function SextetValue(c: char): (r: Option<int>)
    ensures r.Some? ==> 0 <= r.value < 64 && SextetChar(r.value) == c
  {
    if 'A' <= c <= 'Z' then Some(c as int - 'A' as int)
    else if 'a' <= c <= 'z' then Some(c as int - 'a' as int + 26)
    else if '0' <= c <= '9' then Some(c as int - '0' as int + 52)
    else if c == '+' then Some(62)
    else if c == '/' then Some(63)
    else None
  }

  lemma SextetRoundTrip(v: int)
    requires 0 <= v < 64
    ensures SextetValue(SextetChar(v)) == Some(v)
  {
  }

  /** Three bytes as four alphabet characters. */
  function EncodeGroup(b0: int, b1: int, b2: int): string
    requires 0 <= b0 < 256 && 0 <= b1 < 256 && 0 <= b2 < 256
  {
    Chars([b0 / 4, (b0 % 4) * 16 + b1 / 16, (b1 % 16) * 4 + b2 / 64, b2 % 64])
  }

  /** base64_encode(): four characters per three bytes, the last group padded with `=`. */
  function Encode(s: string): (r: string)
    requires IsByteString(s)
    ensures '|' !in r && IsByteString(r)
    decreases |s|
  {
    if |s| == 0 then ""
    else if |s| == 1 then
      var b0 := s[0] as int;
      Chars([b0 / 4, (b0 % 4) * 16]) + "=="
    else if |s| == 2 then
      var b0, b1 := s[0] as int, s[1] as int;
      Chars([b0 / 4, (b0 % 4) * 16 + b1 / 16, (b1 % 16) * 4]) + "="
    else
      EncodeGroup(s[0] as int, s[1] as int, s[2] as int) + Encode(s[3..])
  }

  /** Four characters for every started group of three bytes. */
  lemma {:induction false} EncodedLength(s: string)
    requires IsByteString(s)
    ensures |Encode(s)| == 4 * ((|s| + 2) / 3)
    decreases |s|
  {
    if |s| >= 3 {
      EncodedLength(s[3..]);
    }
  }

  /** The sextets of the alphabet characters of `s`, in order; everything else is skipped. */
  function Sextets(s: string): (v: seq<int>)
    ensures |v| <= |s|
    ensures forall k :: 0 <= k < |v| ==> 0 <= v[k] < 64
  {
    if |s| == 0 then []
    else
      var x := SextetValue(s[0]);
      var rest := Sextets(s[1..]);
      if x.Some? then [x.value] + rest else rest
  }

  /** Whole bytes from sextets, four sextets to three bytes; an incomplete group gives its whole bytes. */
  function DecodeSextets(v: seq<int>): (r: string)
    requires forall k :: 0 <= k < |v| ==> 0 <= v[k] < 64
    ensures IsByteString(r)
  {
    if |v| < 2 then ""
    else if |v| == 2 then [(v[0] * 4 + v[1] / 16) as char]
    else if |v| == 3 then [(v[0] * 4 + v[1] / 16) as char, ((v[1] % 16) * 16 + v[2] / 4) as char]
    else
      [(v[0] * 4 + v[1] / 16) as char, ((v[1] % 16) * 16 + v[2] / 4) as char, ((v[2] % 4) * 64 + v[3]) as char]
        + DecodeSextets(v[4..])
  }

  /** Four sextets give three bytes; a final group of two or three sextets gives one byte fewer. */
  lemma {:induction false} DecodedLength(v: seq<int>)
    requires forall k :: 0 <= k < |v| ==> 0 <= v[k] < 64
    ensures |DecodeSextets(v)| == 3 * (|v| / 4) + (if |v| % 4 == 0 then 0 else |v| % 4 - 1)
    decreases |v|
  {
    if |v| >= 4 {
      DecodedLength(v[4..]);
    }
  }

  /** base64_decode() in its default, non-strict mode. */
  function Decode(s: string): (r: string)
    ensures IsByteString(r)
  {
    DecodeSextets(Sextets(s))
  }

  lemma {:induction false} SextetsAppend(a: string, b: string)
    ensures Sextets(a + b) == Sextets(a) + Sextets(b)
    decreases |a|
  {
    if |a| > 0 {
      assert (a + b)[0] == a[0];
      assert (a + b)[1..] == a[1..] + b;
      SextetsAppend(a[1..], b);
      var x := SextetValue(a[0]);
      if x.Some? {
        assert Sextets(a + b) == [x.value] + Sextets(a[1..] + b);
        assert Sextets(a) == [x.value] + Sextets(a[1..]);
      } else {
        assert Sextets(a + b) == Sextets(a[1..] + b);
      }
    } else {
      assert a + b == b;
    }
  }

  /** The characters of a run of sextets. */
  function Chars(v: seq<int>): (r: string)
    requires forall k :: 0 <= k < |v| ==> 0 <= v[k] < 64
    ensures |r| == |v| && '|' !in r && '=' !in r && IsByteString(r)
  {
    if |v| == 0 then "" else [SextetChar(v[0])] + Chars(v[1..])
  }

  /** Alphabet characters read back as the sextets they encode. */
  lemma {:induction false} SextetsOfChars(v: seq<int>)
    requires forall k :: 0 <= k < |v| ==> 0 <= v[k] < 64
    ensures Sextets(Chars(v)) == v
    decreases |v|
  {
    if |v| > 0 {
      SextetRoundTrip(v[0]);
      SextetsOfChars(v[1..]);
      assert Chars(v)[1..] == Chars(v[1..]);
    }
  }

  lemma PaddingHasNoSextets()
    ensures Sextets("=") == [] && Sextets("==") == []
  {
    assert "=="[1..] == "=";
  }

  /** Decoding the sextets of three bytes gives the bytes back. */
  lemma GroupBytes(b0: int, b1: int, b2: int)
    requires 0 <= b0 < 256 && 0 <= b1 < 256 && 0 <= b2 < 256
    ensures var s0, s1, s2, s3 := b0 / 4, (b0 % 4) * 16 + b1 / 16, (b1 % 16) * 4 + b2 / 64, b2 % 64;
      && s0 * 4 + s1 / 16 == b0
      && (s1 % 16) * 16 + s2 / 4 == b1
      && (s2 % 4) * 64 + s3 == b2
  {
  }

  lemma DecodeOneByte(b0: int)
    requires 0 <= b0 < 256
    ensures Decode(Chars([b0 / 4, (b0 % 4) * 16]) + "==") == [b0 as char]
  {
    var v := [b0 / 4, (b0 % 4) * 16];
    PaddingHasNoSextets();
    SextetsAppend(Chars(v), "==");
    SextetsOfChars(v);
  }

  lemma DecodeTwoBytes(b0: int, b1: int)
    requires 0 <= b0 < 256 && 0 <= b1 < 256
    ensures Decode(Chars([b0 / 4, (b0 % 4) * 16 + b1 / 16, (b1 % 16) * 4]) + "=") == [b0 as char, b1 as char]
  {
    var v := [b0 / 4, (b0 % 4) * 16 + b1 / 16, (b1 % 16) * 4];
    PaddingHasNoSextets();
    SextetsAppend(Chars(v), "=");
    SextetsOfChars(v);
    GroupBytes(b0, b1, 0);
  }

  /** Four sextets in front decode to their three bytes in front. */
  lemma DecodeSextetsFront(g: seq<int>, w: seq<int>)
    requires |g| == 4
    requires forall k :: 0 <= k < |g| ==> 0 <= g[k] < 64
    requires forall k :: 0 <= k < |w| ==> 0 <= w[k] < 64
    ensures DecodeSextets(g + w) == DecodeSextets(g) + DecodeSextets(w)
  {
    var v := g + w;
    assert v[0] == g[0] && v[1] == g[1] && v[2] == g[2] && v[3] == g[3];
    assert v[4..] == w && g[4..] == [];
  }

  /** A whole group in front decodes to its three bytes in front. */
  lemma DecodeGroupThenRest(b0: int, b1: int, b2: int, rest: string)
    requires 0 <= b0 < 256 && 0 <= b1 < 256 && 0 <= b2 < 256
    ensures Decode(EncodeGroup(b0, b1, b2) + rest) == [b0 as char, b1 as char, b2 as char] + Decode(rest)
  {
    var g := [b0 / 4, (b0 % 4) * 16 + b1 / 16, (b1 % 16) * 4 + b2 / 64, b2 % 64];
    GroupThenRestSextets(b0, b1, b2, rest);
    DecodeSextetsFront(g, Sextets(rest));
    DecodeGroup(b0, b1, b2);
  }

  /** The four sextets of three bytes decode to the three bytes. */
  lemma DecodeGroup(b0: int, b1: int, b2: int)
    requires 0 <= b0 < 256 && 0 <= b1 < 256 && 0 <= b2 < 256
    ensures DecodeSextets([b0 / 4, (b0 % 4) * 16 + b1 / 16, (b1 % 16) * 4 + b2 / 64, b2 % 64])
      == [b0 as char, b1 as char, b2 as char]
  {
    GroupBytes(b0, b1, b2);
  }

  /** The sextets of a whole group in front are the group's four sextets in front. */
  lemma GroupThenRestSextets(b0: int, b1: int, b2: int, rest: string)
    requires 0 <= b0 < 256 && 0 <= b1 < 256 && 0 <= b2 < 256
    ensures Sextets(EncodeGroup(b0, b1, b2) + rest)
      == [b0 / 4, (b0 % 4) * 16 + b1 / 16, (b1 % 16) * 4 + b2 / 64, b2 % 64] + Sextets(rest)
  {
    var g := [b0 / 4, (b0 % 4) * 16 + b1 / 16, (b1 % 16) * 4 + b2 / 64, b2 % 64];
    SextetsAppend(Chars(g), rest);
    SextetsOfChars(g);
  }

  /** Every byte string survives an encode and a decode. */
  lemma {:induction false} DecodeEncode(s: string)
    requires IsByteString(s)
    ensures Decode(Encode(s)) == s
    decreases |s|
  {
    if |s| == 1 {
      DecodeOneByte(s[0] as int);
    } else if |s| == 2 {
      DecodeTwoBytes(s[0] as int, s[1] as int);
    } else if |s| >= 3 {
      DecodeGroupThenRest(s[0] as int, s[1] as int, s[2] as int, Encode(s[3..]));
      DecodeEncode(s[3..]);
      assert s == [s[0], s[1], s[2]] + s[3..];
    }
  }
}
