/**
 * The PHP string primitives the application relies on, over strings as
 * sequences of characters: trim(), strtolower()/mb_strtolower() restricted to
 * ASCII letters, preg_replace('/\s+/', ' ', ..), preg_split('/\s+/', ..),
 * str_replace(), explode()/implode(), the (string) cast of an integer and
 * the truth value of a string.
 *
 * Two different whitespace sets are involved and are kept apart on purpose:
 * trim() strips NUL, tab, line feed, vertical tab, carriage return and space,
 * while the PCRE class \s (no Unicode mode) matches tab, line feed, vertical
 * tab, form feed, carriage return and space.
 */
module PhpStrings {

  /** A string PHP converts to false: the empty string and `"0"`. */
  predicate IsFalsy(s: string) {
    s == "" || s == "0"
  }

  /** A character trim() strips by default. */
  predicate IsTrimChar(c: char) {
    var n := c as int;
    n == 0 || n == 9 || n == 10 || n == 11 || n == 13 || n == 32
  }

  /** A character matched by the PCRE class \s. */
  predicate IsPcreSpace(c: char) {
    var n := c as int;
    n == 9 || n == 10 || n == 11 || n == 12 || n == 13 || n == 32
  }

  predicate AllTrimChars(s: string) {
    forall k :: 0 <= k < |s| ==> IsTrimChar(s[k])
  }

  /** Neither end of `s` is a character trim() would strip. */
  predicate NoTrimmableEnds(s: string) {
    |s| == 0 || (!IsTrimChar(s[0]) && !IsTrimChar(s[|s| - 1]))
  }

  /** Number of trimmable characters at the front of `s`. */
  function TrimStart(s: string): (i: nat)
    ensures i <= |s| && AllTrimChars(s[..i])
    ensures i < |s| ==> !IsTrimChar(s[i])
  {
    if |s| > 0 && IsTrimChar(s[0]) then
      var k := TrimStart(s[1..]);
      assert s[..k + 1] == [s[0]] + s[1..][..k];
      k + 1
    else 0
  }

  /** Length of `s` once the trimmable characters at its end are dropped. */
  function TrimEnd(s: string): (j: nat)
    ensures j <= |s| && AllTrimChars(s[j..])
    ensures j > 0 ==> !IsTrimChar(s[j - 1])
  {
    if |s| > 0 && IsTrimChar(s[|s| - 1]) then
      var j := TrimEnd(s[..|s| - 1]);
      assert s[j..] == s[..|s| - 1][j..] + [s[|s| - 1]];
      j
    else |s|
  }

  /**
   * PHP trim(): the infix of `s` left after stripping trimmable characters
   * from both ends.
   */
  function Trim(s: string): string {
    var i := TrimStart(s);
    s[i..i + TrimEnd(s[i..])]
  }

  /**
   * trim() removes only trimmable characters, from the two ends, and leaves
   * none at either end; it yields "" exactly for all-trimmable input.
   */
  lemma TrimShape(s: string)
    ensures var r := Trim(s);
      && (exists i, j :: 0 <= i <= j <= |s| && r == s[i..j] && AllTrimChars(s[..i]) && AllTrimChars(s[j..]))
      && NoTrimmableEnds(r)
      && (r == "" <==> AllTrimChars(s))
  {
    var i := TrimStart(s);
    var t := s[i..];
    var j := TrimEnd(t);
    assert t[..j] == s[i..i + j] && t[j..] == s[i + j..];
    AllTrimSplit(s, i);
  }

  lemma AllTrimSplit(s: string, i: nat)
    requires i <= |s|
    ensures AllTrimChars(s[..i]) && AllTrimChars(s[i..]) ==> AllTrimChars(s)
  {
    if AllTrimChars(s[..i]) && AllTrimChars(s[i..]) {
      forall k | 0 <= k < |s| ensures IsTrimChar(s[k]) {
        if k >= i { assert s[k] == s[i..][k - i]; }
        else { assert s[k] == s[..i][k]; }
      }
    }
  }

  predicate IsAsciiUpper(c: char) {
    'A' <= c <= 'Z'
  }

  /** The two characters are equal once ASCII letters are folded to lower case. */
  predicate EqualIgnoringCase(a: char, b: char) {
    a == b
    || (IsAsciiUpper(a) && b as int == a as int + 32)
    || (IsAsciiUpper(b) && a as int == b as int + 32)
  }

  function LowerChar(c: char): char {
    if IsAsciiUpper(c) then (c as int + 32) as char else c
  }

  /** strtolower() and mb_strtolower(), restricted to ASCII letters. */
  function Lower(s: string): string {
    seq(|s|, k requires 0 <= k < |s| => LowerChar(s[k]))
  }

  /** The lower-cased string has no upper-case ASCII letter and agrees with `s` up to case. */
  lemma LowerShape(s: string)
    ensures |Lower(s)| == |s|
    ensures forall k :: 0 <= k < |s| ==> !IsAsciiUpper(Lower(s)[k]) && EqualIgnoringCase(s[k], Lower(s)[k])
  {
  }

  /** Comparing lower-cased strings is exactly case-insensitive comparison. */
  lemma LowerEqualIffEqualIgnoringCase(a: string, b: string)
    ensures Lower(a) == Lower(b) <==> |a| == |b| && forall k :: 0 <= k < |a| ==> EqualIgnoringCase(a[k], b[k])
  {
    if |a| == |b| && forall k :: 0 <= k < |a| ==> EqualIgnoringCase(a[k], b[k]) {
      forall k | 0 <= k < |a| ensures Lower(a)[k] == Lower(b)[k] {
        assert Lower(a)[k] == LowerChar(a[k]) && Lower(b)[k] == LowerChar(b[k]);
      }
    }
    if Lower(a) == Lower(b) {
      forall k | 0 <= k < |a| ensures EqualIgnoringCase(a[k], b[k]) {
        assert LowerChar(a[k]) == Lower(a)[k] == Lower(b)[k] == LowerChar(b[k]);
      }
    }
  }

  lemma LowerIdempotent(s: string)
    ensures Lower(Lower(s)) == Lower(s)
  {
    var t := Lower(s);
    assert forall k :: 0 <= k < |t| ==> Lower(t)[k] == LowerChar(t[k]) == t[k];
  }

  /** Length of the run of \s characters at the front of `s`. */
  function SpaceRun(s: string): (n: nat)
    ensures 1 <= |s| && IsPcreSpace(s[0]) ==> n >= 1
    ensures n <= |s| && forall k :: 0 <= k < n ==> IsPcreSpace(s[k])
    ensures n < |s| ==> !IsPcreSpace(s[n])
  {
    if |s| > 0 && IsPcreSpace(s[0]) then 1 + SpaceRun(s[1..]) else 0
  }

  /** No \s character other than a single space, and no two of them in a row. */
  predicate Collapsed(s: string) {
    forall k :: 0 <= k < |s| && IsPcreSpace(s[k]) ==> s[k] == ' ' && (k + 1 == |s| || !IsPcreSpace(s[k + 1]))
  }

  /** The characters of `s` that are not \s, in order. */
  function NonSpaces(s: string): string {
    if |s| == 0 then ""
    else (if IsPcreSpace(s[0]) then "" else [s[0]]) + NonSpaces(s[1..])
  }

  lemma {:induction false} NonSpacesSkipsRun(s: string, n: nat)
    requires n <= |s| && forall k :: 0 <= k < n ==> IsPcreSpace(s[k])
    ensures NonSpaces(s[n..]) == NonSpaces(s)
  {
    if n > 0 {
      assert s[1..][n - 1..] == s[n..];
      NonSpacesSkipsRun(s[1..], n - 1);
    }
  }

  /**
   * preg_replace('/\s+/', ' ', s): every maximal run of \s characters becomes
   * one space. The result starts with a space exactly when `s` starts with a
   * \s character, and otherwise with the same character.
   */
  function CollapseSpaces(s: string): (r: string)
    ensures |r| <= |s|
    ensures |s| > 0 ==> |r| > 0 && (if IsPcreSpace(s[0]) then r[0] == ' ' else r[0] == s[0])
    decreases |s|
  {
    if |s| == 0 then ""
    else if IsPcreSpace(s[0]) then " " + CollapseSpaces(s[SpaceRun(s)..])
    else [s[0]] + CollapseSpaces(s[1..])
  }

  /**
   * The result of CollapseSpaces is collapsed and keeps every character that
   * is not \s, in order.
   */
  lemma {:induction false} CollapseSpacesShape(s: string)
    ensures Collapsed(CollapseSpaces(s))
    ensures NonSpaces(CollapseSpaces(s)) == NonSpaces(s)
    decreases |s|
  {
    if |s| > 0 {
      var r := CollapseSpaces(s);
      if IsPcreSpace(s[0]) {
        var rest := CollapseSpaces(s[SpaceRun(s)..]);
        CollapseSpacesShape(s[SpaceRun(s)..]);
        NonSpacesSkipsRun(s, SpaceRun(s));
        assert r[1..] == rest;
      } else {
        var rest := CollapseSpaces(s[1..]);
        CollapseSpacesShape(s[1..]);
        assert r[1..] == rest;
      }
    }
  }

  /** A collapsed string is a fixed point of CollapseSpaces. */
  lemma {:induction false} CollapseFixesCollapsed(s: string)
    requires Collapsed(s)
    ensures CollapseSpaces(s) == s
    decreases |s|
  {
    if |s| > 0 {
      assert Collapsed(s[1..]) by {
        forall k | 0 <= k < |s[1..]| && IsPcreSpace(s[1..][k])
          ensures s[1..][k] == ' ' && (k + 1 == |s[1..]| || !IsPcreSpace(s[1..][k + 1]))
        {
          assert s[1..][k] == s[k + 1];
        }
      }
      CollapseFixesCollapsed(s[1..]);
      if IsPcreSpace(s[0]) {
        assert SpaceRun(s) == 1;
      }
    }
  }

  /** Applying CollapseSpaces twice is the same as applying it once. */
  lemma CollapseIdempotent(s: string)
    ensures CollapseSpaces(CollapseSpaces(s)) == CollapseSpaces(s)
  {
    CollapseSpacesShape(s);
    CollapseFixesCollapsed(CollapseSpaces(s));
  }

  predicate NoSpace(s: string) {
    forall k :: 0 <= k < |s| ==> !IsPcreSpace(s[k])
  }

  /**
   * implode(sep, pieces): the pieces with `sep` between consecutive ones.
   */
  function Join(sep: string, pieces: seq<string>): string {
    if |pieces| == 0 then ""
    else if |pieces| == 1 then pieces[0]
    else pieces[0] + sep + Join(sep, pieces[1..])
  }

  lemma JoinExtendsFirst(sep: string, x: string, pieces: seq<string>)
    requires |pieces| >= 1
    ensures Join(sep, [x + pieces[0]] + pieces[1..]) == x + Join(sep, pieces)
  {
    var ps := [x + pieces[0]] + pieces[1..];
    if |pieces| > 1 {
      assert ps[1..] == pieces[1..];
    }
  }

  /**
   * preg_split('/\s+/', s) without flags: the pieces between maximal runs of
   * \s characters, an empty piece included where `s` starts or ends with one.
   */
  function SplitOnSpaces(s: string): (r: seq<string>)
    ensures |r| >= 1
    ensures forall k :: 0 <= k < |r| ==> NoSpace(r[k])
    decreases |s|
  {
    if |s| == 0 then [""]
    else if IsPcreSpace(s[0]) then [""] + SplitOnSpaces(s[SpaceRun(s)..])
    else
      var rest := SplitOnSpaces(s[1..]);
      [[s[0]] + rest[0]] + rest[1..]
  }

  /** Splitting on \s runs and re-joining with one space is exactly CollapseSpaces. */
  lemma {:induction false} JoinSplitIsCollapse(s: string)
    ensures Join(" ", SplitOnSpaces(s)) == CollapseSpaces(s)
    decreases |s|
  {
    if |s| > 0 {
      if IsPcreSpace(s[0]) {
        var rest := SplitOnSpaces(s[SpaceRun(s)..]);
        JoinSplitIsCollapse(s[SpaceRun(s)..]);
        assert ([""] + rest)[1..] == rest;
      } else {
        var rest := SplitOnSpaces(s[1..]);
        JoinSplitIsCollapse(s[1..]);
        JoinExtendsFirst(" ", [s[0]], rest);
      }
    }
  }

  /** Every piece of the split is non-empty when `s` neither starts nor ends with \s. */
  lemma {:induction false} SplitPiecesNonEmpty(s: string)
    requires |s| > 0 && !IsPcreSpace(s[0]) && !IsPcreSpace(s[|s| - 1])
    ensures forall k :: 0 <= k < |SplitOnSpaces(s)| ==> |SplitOnSpaces(s)[k]| > 0
    decreases |s|
  {
    var r := SplitOnSpaces(s);
    if |s| > 1 {
      var t := s[1..];
      if IsPcreSpace(t[0]) {
        var u := t[SpaceRun(t)..];
        assert |u| > 0 && u[|u| - 1] == s[|s| - 1];
        SplitPiecesNonEmpty(u);
        var rest := SplitOnSpaces(t);
        assert rest == [""] + SplitOnSpaces(u);
        assert rest[0] == "" && rest[1..] == SplitOnSpaces(u);
        assert [s[0]] + rest[0] == [s[0]];
        assert r == [[s[0]]] + SplitOnSpaces(u);
      } else {
        SplitPiecesNonEmpty(t);
        var rest := SplitOnSpaces(t);
        assert r == [[s[0]] + rest[0]] + rest[1..];
      }
    }
  }

  /** A string without \s characters splits into itself alone. */
  lemma {:induction false} SplitSpaceFree(s: string)
    requires NoSpace(s)
    ensures SplitOnSpaces(s) == [s]
    decreases |s|
  {
    if |s| > 0 {
      SplitSpaceFree(s[1..]);
      assert [s[0]] + s[1..] == s;
    }
  }

  /** A space-free first word followed by one space splits off as the first piece. */
  lemma {:induction false} SplitFirstWord(a: string, b: string)
    requires NoSpace(a) && |b| > 0 && !IsPcreSpace(b[0])
    ensures SplitOnSpaces(a + " " + b) == [a] + SplitOnSpaces(b)
    decreases |a|
  {
    var s := a + " " + b;
    if |a| == 0 {
      assert s == " " + b && SpaceRun(s) == 1 && s[1..] == b;
    } else {
      assert s[1..] == a[1..] + " " + b;
      SplitFirstWord(a[1..], b);
      var rest := SplitOnSpaces(s[1..]);
      assert rest[0] == a[1..] && rest[1..] == SplitOnSpaces(b);
      assert [s[0]] + a[1..] == a;
    }
  }

  /** A string with no trimmable character at either end is its own trim(). */
  lemma TrimKeepsBareString(s: string)
    requires NoTrimmableEnds(s)
    ensures Trim(s) == s
  {
    if |s| > 0 {
      assert TrimStart(s) == 0;
      assert s[0..] == s;
    }
  }

  /** A string without upper-case ASCII letters is its own lower-case form. */
  lemma LowerKeepsLowerString(s: string)
    requires forall k :: 0 <= k < |s| ==> !IsAsciiUpper(s[k])
    ensures Lower(s) == s
  {
    assert forall k :: 0 <= k < |s| ==> Lower(s)[k] == LowerChar(s[k]) == s[k];
  }

  /** Replacing a character that does not occur changes nothing. */
  lemma StrReplaceAbsentChar(s: string, a: char, b: char)
    requires a !in s
    ensures StrReplace(s, [a], [b]) == s
  {
    StrReplaceChar(s, a, b);
  }

  /**
   * The PHP cast `(string) n` of a non-negative integer: its decimal digits,
   * without leading zeros.
   */
  function DecimalString(n: nat): (r: string)
    ensures |r| >= 1 && forall k :: 0 <= k < |r| ==> '0' <= r[k] <= '9'
    ensures r[0] == '0' ==> n == 0
  {
    if n < 10 then [('0' as int + n) as char]
    else DecimalString(n / 10) + [('0' as int + n % 10) as char]
  }

  /** The value of a string of decimal digits. */
  function DecimalValue(s: string): nat
    requires forall k :: 0 <= k < |s| ==> '0' <= s[k] <= '9'
  {
    if |s| == 0 then 0
    else DecimalValue(s[..|s| - 1]) * 10 + (s[|s| - 1] as int - '0' as int)
  }

  lemma {:induction false} DecimalRoundTrip(n: nat)
    ensures DecimalValue(DecimalString(n)) == n
  {
    if n >= 10 {
      var r := DecimalString(n);
      assert r[..|r| - 1] == DecimalString(n / 10);
      DecimalRoundTrip(n / 10);
    }
  }

  /** Distinct numbers have distinct decimal strings, so distinct answer keys. */
  lemma DecimalStringInjective(m: nat, n: nat)
    ensures DecimalString(m) == DecimalString(n) ==> m == n
  {
    DecimalRoundTrip(m);
    DecimalRoundTrip(n);
  }

  /** `(string)$n` for an int: the decimal digits, after a minus sign when negative. */
  function IntString(n: int): (r: string)
    ensures |r| >= 1
    ensures r[0] == '-' <==> n < 0
  {
    if n < 0 then "-" + DecimalString(-n) else DecimalString(n)
  }

  /** Distinct integers are written differently. */
  lemma IntStringInjective(m: int, n: int)
    ensures IntString(m) == IntString(n) ==> m == n
  {
    if IntString(m) == IntString(n) && m < 0 && n < 0 {
      assert IntString(m)[1..] == DecimalString(-m);
      assert IntString(n)[1..] == DecimalString(-n);
    }
    DecimalStringInjective(if m < 0 then -m else m, if n < 0 then -n else n);
  }

  /**
   * explode(sep, s) for a one-character separator: the pieces of `s` between
   * occurrences of `sep`, as many as there are separators plus one.
   */
  function Explode(sep: char, s: string): (r: seq<string>)
    ensures |r| >= 1
    ensures forall k :: 0 <= k < |r| ==> sep !in r[k]
  {
    if |s| == 0 then [""]
    else
      var rest := Explode(sep, s[1..]);
      if s[0] == sep then [""] + rest else [[s[0]] + rest[0]] + rest[1..]
  }

  /** implode(sep, explode(sep, s)) gives back `s`. */
  lemma {:induction false} JoinExplode(sep: char, s: string)
    ensures Join([sep], Explode(sep, s)) == s
  {
    if |s| > 0 {
      var rest := Explode(sep, s[1..]);
      JoinExplode(sep, s[1..]);
      if s[0] == sep {
        assert ([""] + rest)[1..] == rest;
        assert s == [s[0]] + s[1..];
      } else {
        JoinExtendsFirst([sep], [s[0]], rest);
        assert s == [s[0]] + s[1..];
      }
    }
  }

  lemma {:induction false} ExplodeSeparatorFree(sep: char, a: string, tail: seq<string>)
    requires sep !in a
    requires |tail| >= 1
    ensures Explode(sep, a + [sep] + Join([sep], tail)) == [a] + Explode(sep, Join([sep], tail))
    ensures Explode(sep, a) == [a]
  {
    if |a| == 0 {
      assert a + [sep] + Join([sep], tail) == [sep] + Join([sep], tail);
      assert ([sep] + Join([sep], tail))[1..] == Join([sep], tail);
    } else {
      ExplodeSeparatorFree(sep, a[1..], tail);
      var s := a + [sep] + Join([sep], tail);
      assert s[1..] == a[1..] + [sep] + Join([sep], tail);
      assert a == [a[0]] + a[1..];
    }
  }

  /** explode(sep, implode(sep, pieces)) gives back the pieces when none holds `sep`. */
  lemma {:induction false} ExplodeJoin(sep: char, pieces: seq<string>)
    requires |pieces| >= 1
    requires forall k :: 0 <= k < |pieces| ==> sep !in pieces[k]
    ensures Explode(sep, Join([sep], pieces)) == pieces
  {
    if |pieces| == 1 {
      ExplodeSeparatorFree(sep, pieces[0], [""]);
    } else {
      ExplodeJoin(sep, pieces[1..]);
      ExplodeSeparatorFree(sep, pieces[0], pieces[1..]);
      assert Join([sep], pieces) == pieces[0] + [sep] + Join([sep], pieces[1..]);
    }
  }

  /** Two separator-free pieces joined by the separator explode back into the two. */
  lemma ExplodeTwo(sep: char, a: string, b: string)
    requires sep !in a && sep !in b
    ensures Explode(sep, a + [sep] + b) == [a, b]
  {
    assert Join([sep], [a, b]) == a + [sep] + b;
    ExplodeJoin(sep, [a, b]);
  }

  /** A string that explodes into two pieces is the first piece, the separator and the second. */
  lemma ExplodeIntoTwo(sep: char, s: string)
    requires |Explode(sep, s)| == 2
    ensures s == Explode(sep, s)[0] + [sep] + Explode(sep, s)[1]
  {
    var pieces := Explode(sep, s);
    JoinExplode(sep, s);
    assert pieces[1..] == [pieces[1]];
  }

  /** explode yields one more piece than there are separators. */
  lemma {:induction false} ExplodeCount(sep: char, s: string)
    ensures |Explode(sep, s)| == multiset(s)[sep] + 1
  {
    if |s| > 0 {
      ExplodeCount(sep, s[1..]);
      assert s == [s[0]] + s[1..];
      assert multiset(s) == multiset([s[0]]) + multiset(s[1..]);
    }
  }

  /**
   * str_replace(from, to, s): left-to-right, non-overlapping replacement of
   * every occurrence of `from`; an empty `from` leaves `s` unchanged.
   */
  function StrReplace(s: string, from: string, to: string): string
    decreases |s|
  {
    if |from| == 0 || |s| < |from| then s
    else if s[..|from|] == from then to + StrReplace(s[|from|..], from, to)
    else [s[0]] + StrReplace(s[1..], from, to)
  }

  /** `p` occurs in `s` as a substring. */
  ghost predicate Occurs(p: string, s: string) {
    exists i :: OccursAt(p, s, i)
  }

  /** `p` occurs in `s` starting at index `i`. */
  predicate OccursAt(p: string, s: string, i: int) {
    0 <= i <= |s| - |p| && s[i..i + |p|] == p
  }

  /** Replacing a string that does not occur changes nothing. */
  lemma {:induction false} StrReplaceAbsent(s: string, from: string, to: string)
    requires |from| > 0 && !Occurs(from, s)
    ensures StrReplace(s, from, to) == s
    decreases |s|
  {
    if |s| >= |from| {
      assert !OccursAt(from, s, 0);
      assert !Occurs(from, s[1..]) by {
        forall i ensures !OccursAt(from, s[1..], i) {
          if 0 <= i <= |s[1..]| - |from| {
            assert s[1..][i..i + |from|] == s[i + 1..i + 1 + |from|];
            assert !OccursAt(from, s, i + 1);
          }
        }
      }
      StrReplaceAbsent(s[1..], from, to);
    }
  }

  /** Replacing one character by another is a character-wise substitution. */
  lemma {:induction false} StrReplaceChar(s: string, a: char, b: char)
    ensures |StrReplace(s, [a], [b])| == |s|
    ensures forall k :: 0 <= k < |s| ==> StrReplace(s, [a], [b])[k] == if s[k] == a then b else s[k]
    decreases |s|
  {
    if |s| > 0 {
      StrReplaceChar(s[1..], a, b);
      assert s[..1] == [s[0]];
      var r := StrReplace(s, [a], [b]);
      assert r[1..] == StrReplace(s[1..], [a], [b]);
    }
  }
}
