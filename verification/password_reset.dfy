/**
 * The password-reset link and its use. The link's URL, built by the reset
 * notification customised in AppServiceProvider, carries one combined token:
 * the broker's raw token, `|`, and the base64 of the user's email. The reset
 * endpoint of PasswordResetController splits it back, checks the email and
 * hands the pair to the password broker.
 *
 * The broker, the email validator and the frontend URL are parameters.
 */
module PasswordReset {
  import opened Wrappers
  import opened PhpStrings
  import opened Base64
  import opened UrlEncoding

  /** The path and query name of the reset page. */
  const ResetPagePath: string := "/reset-password"
  const TokenParam: string := "token"

  /** `$token . '|' . base64_encode($user->email)`. */
  function CombinedToken(token: string, email: string): (r: string)
    requires IsByteString(email)
    ensures |r| > |token| && r[..|token|] == token && r[|token|] == '|'
    ensures '|' !in r[|token| + 1..]
    ensures IsByteString(token) ==> IsByteString(r)
  {
    var e := Encode(email);
    assert (token + "|" + e)[|token| + 1..] == e;
    token + "|" + e
  }

  /** The link: frontend URL, the reset page, and the url-encoded combined token as `token`. */
  function ResetUrl(frontendUrl: string, token: string, email: string): string
    requires IsByteString(token) && IsByteString(email)
  {
    var combined := CombinedToken(token, email);
    frontendUrl + ResetPagePath + "?" + TokenParam + "=" + UrlEncode(combined)
  }

  /** The combined token has exactly one `|` when the raw token has none. */
  lemma CombinedHasOneSeparator(token: string, email: string)
    requires IsByteString(email) && '|' !in token
    ensures multiset(CombinedToken(token, email))['|'] == 1
  {
    var e := Encode(email);
    var c := CombinedToken(token, email);
    assert c == token + ("|" + e);
    assert multiset(c) == multiset(token) + multiset("|") + multiset(e);
  }

  datatype ResetError =
    | InvalidFormat      // 400: the token does not split into two pieces
    | InvalidResetToken  // 400: the email piece does not decode to a valid address
    | InvalidOrExpired   // 400: the broker refused

  /** The outcomes of the password broker's reset. */
  datatype BrokerStatus = PasswordResetDone | InvalidToken | InvalidUser | ResetThrottled

  /**
   * The first step of reset(): explode on `|`; anything but two pieces is an
   * invalid format; otherwise the raw token and the (non-strict) base64
   * decoding of the second piece.
   */
  function ParseToken(combined: string): (r: Result<(string, string), ResetError>)
    ensures r.Failure? ==> r.error == InvalidFormat
    ensures r.Success? <==> multiset(combined)['|'] == 1
    ensures r.Success? ==> '|' !in r.value.0 && IsByteString(r.value.1)
    ensures r.Success? ==>
      var b := |r.value.0|;
      && b < |combined| && combined[..b] == r.value.0 && combined[b] == '|'
      && r.value.1 == Decode(combined[b + 1..])
  {
    ExplodeCount('|', combined);
    var pieces := Explode('|', combined);
    if |pieces| != 2 then Failure(InvalidFormat)
    else
      ExplodeIntoTwo('|', combined);
      assert combined[|pieces[0]| + 1..] == pieces[1];
      Success((pieces[0], Decode(pieces[1])))
  }

  /**
   * reset(): the token format, then the decoded email (neither falsy nor
   * invalid), and only then the broker; success exactly when the broker
   * reports the password reset. The result names the email that was reset.
   */
  function Reset(combined: string, password: string, confirmation: string,
                 isValidEmail: string -> bool,
                 broker: (string, string, string, string) -> BrokerStatus): (r: Result<string, ResetError>)
    ensures ParseToken(combined).Failure? ==> r == Failure(InvalidFormat)
    ensures ParseToken(combined).Success? ==>
      var (token, email) := ParseToken(combined).value;
      && ((IsFalsy(email) || !isValidEmail(email)) ==> r == Failure(InvalidResetToken))
      && (r.Success? <==> !IsFalsy(email) && isValidEmail(email) && broker(email, password, confirmation, token) == PasswordResetDone)
      && (r.Success? ==> r.value == email)
  {
    var (token, email) :- ParseToken(combined);
    if IsFalsy(email) || !isValidEmail(email) then Failure(InvalidResetToken)
    else if broker(email, password, confirmation, token) == PasswordResetDone then Success(email)
    else Failure(InvalidOrExpired)
  }

  /** A bad token or email is refused before the broker: any two brokers give the same answer. */
  lemma RefusedBeforeBroker(combined: string, password: string, confirmation: string, isValidEmail: string -> bool,
                            broker1: (string, string, string, string) -> BrokerStatus,
                            broker2: (string, string, string, string) -> BrokerStatus)
    requires ParseToken(combined).Failure? ||
      (var email := ParseToken(combined).value.1; IsFalsy(email) || !isValidEmail(email))
    ensures Reset(combined, password, confirmation, isValidEmail, broker1) == Reset(combined, password, confirmation, isValidEmail, broker2)
    ensures Reset(combined, password, confirmation, isValidEmail, broker1).Failure?
  {
  }

  /** Parsing the token the link carries recovers the raw token and the email, when the raw token has no `|`. */
  lemma ParseCombinedToken(token: string, email: string)
    requires IsByteString(email) && '|' !in token
    ensures ParseToken(CombinedToken(token, email)) == Success((token, email))
  {
    var e := Encode(email);
    assert Join("|", [token, e]) == CombinedToken(token, email);
    ExplodeJoin('|', [token, e]);
    DecodeEncode(email);
  }

  /**
   * The query of a URL as the page reads it: everything after the first
   * `?`, or nothing.
   */
  function QueryOf(url: string): string {
    var pieces := Explode('?', url);
    if |pieces| == 1 then "" else Join("?", pieces[1..])
  }

  /**
   * `URLSearchParams.get(name)`: the decoded value of the first `&`-separated
   * pair whose decoded name (the text before its first `=`) is `name`.
   */
  function SearchParam(query: string, name: string): Option<string> {
    FirstParam(Explode('&', query), name, 0)
  }

  function FirstParam(pairs: seq<string>, name: string, i: nat): Option<string>
    requires i <= |pairs|
    decreases |pairs| - i
  {
    if i == |pairs| then None
    else
      var nv := Explode('=', pairs[i]);
      if FormDecode(nv[0]) == name then Some(FormDecode(Join("=", nv[1..])))
      else FirstParam(pairs, name, i + 1)
  }

  /**
   * The reset page, given the link's URL, reads back exactly the combined
   * token, which parses into the raw token and the email. The frontend URL
   * must hold no `?`, and the raw token no `|`.
   */
  lemma ResetLinkRoundTrip(frontendUrl: string, token: string, email: string)
    requires IsByteString(token) && IsByteString(email)
    requires '?' !in frontendUrl && '|' !in token
    ensures var combined := CombinedToken(token, email);
      && SearchParam(QueryOf(ResetUrl(frontendUrl, token, email)), TokenParam) == Some(combined)
      && ParseToken(combined) == Success((token, email))
  {
    var combined := CombinedToken(token, email);
    var url := ResetUrl(frontendUrl, token, email);
    var enc := UrlEncode(combined);
    EncodedHasNoSeparators(combined);
    QueryIsTokenPair(frontendUrl, enc);
    var pair := TokenParam + "=" + enc;
    assert QueryOf(url) == pair;
    PairSplits(enc);
    ParamOfSinglePair(pair, enc);
    FormDecodeUrlEncode(combined);
    ParseCombinedToken(token, email);
  }

  lemma QueryIsTokenPair(frontendUrl: string, enc: string)
    requires '?' !in frontendUrl && '?' !in enc && '=' !in enc
    ensures QueryOf(frontendUrl + ResetPagePath + "?" + TokenParam + "=" + enc) == TokenParam + "=" + enc
  {
    var head := frontendUrl + ResetPagePath;
    var pair := TokenParam + "=" + enc;
    assert '?' !in ResetPagePath;
    assert '?' !in head;
    assert '?' !in pair;
    assert frontendUrl + ResetPagePath + "?" + TokenParam + "=" + enc == Join("?", [head, pair]);
    ExplodeJoin('?', [head, pair]);
  }

  lemma PairSplits(enc: string)
    requires '=' !in enc && '&' !in enc
    ensures Explode('&', TokenParam + "=" + enc) == [TokenParam + "=" + enc]
    ensures Explode('=', TokenParam + "=" + enc) == [TokenParam, enc]
  {
    var pair := TokenParam + "=" + enc;
    assert '&' !in TokenParam && '=' !in TokenParam;
    assert '&' !in pair;
    ExplodeJoin('&', [pair]);
    assert pair == Join("=", [TokenParam, enc]);
    ExplodeJoin('=', [TokenParam, enc]);
  }

  lemma ParamOfSinglePair(pair: string, enc: string)
    requires Explode('&', pair) == [pair]
    requires Explode('=', pair) == [TokenParam, enc]
    ensures SearchParam(pair, TokenParam) == Some(FormDecode(enc))
  {
    assert FormDecode(TokenParam) == TokenParam;
    assert Join("=", [enc]) == enc;
  }
}
