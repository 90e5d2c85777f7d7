/**
 * The cookie scan of the JWT request filter: the filter walks the request's
 * cookie array in order and takes the value of the first cookie whose name is
 * exactly "JWT". A found token is passed to the username extractor, and the
 * request goes on to the rest of the filter chain unless that extractor throws.
 */
module JwtFilter {
  import opened Wrappers

  /** A servlet cookie: its name and its value. */
  datatype Cookie = Cookie(name: string, value: string)

  /** The cookie name the filter looks for; the comparison is exact and case-sensitive. */
  const TokenCookieName: string := "JWT"

  /** Specification: the value of the first cookie named "JWT", if any. */
  function FirstToken(cookies: seq<Cookie>): (token: Option<string>)
  {
    if cookies == [] then None
    else if cookies[0].name == TokenCookieName then Some(cookies[0].value)
    else FirstToken(cookies[1..])
  }

  /** The token is the value held by a "JWT" cookie that no earlier "JWT" cookie precedes. */
  lemma {:induction false} FirstTokenIsFirstMatch(cookies: seq<Cookie>, v: string)
    ensures FirstToken(cookies) == Some(v) <==>
      exists k :: 0 <= k < |cookies| && cookies[k].name == TokenCookieName && cookies[k].value == v &&
        forall j :: 0 <= j < k ==> cookies[j].name != TokenCookieName
  {
    if cookies != [] {
      FirstTokenIsFirstMatch(cookies[1..], v);
      if cookies[0].name != TokenCookieName {
        if FirstToken(cookies) == Some(v) {
          var k :| 0 <= k < |cookies[1..]| && cookies[1..][k].name == TokenCookieName && cookies[1..][k].value == v &&
            forall j :: 0 <= j < k ==> cookies[1..][j].name != TokenCookieName;
          assert cookies[k + 1] == cookies[1..][k];
          forall j | 0 <= j < k + 1 ensures cookies[j].name != TokenCookieName {
            if j > 0 { assert cookies[j] == cookies[1..][j - 1]; }
          }
        }
        if exists k :: 0 <= k < |cookies| && cookies[k].name == TokenCookieName && cookies[k].value == v &&
             forall j :: 0 <= j < k ==> cookies[j].name != TokenCookieName
        {
          var k :| 0 <= k < |cookies| && cookies[k].name == TokenCookieName && cookies[k].value == v &&
            forall j :: 0 <= j < k ==> cookies[j].name != TokenCookieName;
          assert k > 0;
          assert cookies[1..][k - 1] == cookies[k];
          forall j | 0 <= j < k - 1 ensures cookies[1..][j].name != TokenCookieName {
            assert cookies[1..][j] == cookies[j + 1];
          }
        }
      }
    }
  }

  /** There is no token exactly when no cookie is named "JWT". */
  lemma {:induction false} NoTokenIffNoJwtCookie(cookies: seq<Cookie>)
    ensures FirstToken(cookies) == None <==> forall k :: 0 <= k < |cookies| ==> cookies[k].name != TokenCookieName
  {
    if cookies != [] {
      NoTokenIffNoJwtCookie(cookies[1..]);
      if cookies[0].name != TokenCookieName {
        forall k | 0 < k < |cookies| ensures cookies[k] == cookies[1..][k - 1] { }
      }
    }
  }

  /** Once a "JWT" cookie has been found, whatever follows it, other "JWT" cookies included, is ignored. */
  lemma {:induction false} LaterCookiesIgnored(front: seq<Cookie>, rest: seq<Cookie>)
    requires FirstToken(front).Some?
    ensures FirstToken(front + rest) == FirstToken(front)
  {
    assert front != [];
    if front[0].name != TokenCookieName {
      assert (front + rest)[1..] == front[1..] + rest;
      LaterCookiesIgnored(front[1..], rest);
    }
  }

  /**
   * A cookie whose name is not exactly "JWT" (for instance "jwt": the match is
   * case-sensitive) never influences the token, wherever it sits.
   */
  lemma {:induction false} NonTokenCookieIgnored(front: seq<Cookie>, c: Cookie, rest: seq<Cookie>)
    requires c.name != TokenCookieName
    ensures FirstToken(front + [c] + rest) == FirstToken(front + rest)
  {
    if front == [] {
      assert front + [c] + rest == [c] + rest && front + rest == rest;
      assert ([c] + rest)[0] == c && ([c] + rest)[1..] == rest;
    } else {
      assert (front + [c] + rest)[1..] == front[1..] + [c] + rest;
      assert (front + rest)[1..] == front[1..] + rest;
      NonTokenCookieIgnored(front[1..], c, rest);
    }
  }

  /**
   * The scan in the filter: a null cookie array gives no token; otherwise the
   * loop stops at the first cookie named "JWT".
   */
  method ExtractToken(cookies: array?<Cookie>) returns (token: Option<string>)
    ensures cookies == null ==> token == None
    ensures cookies != null ==> token == FirstToken(cookies[..])
  {
    token := None;
    if cookies != null {
      var i := 0;
      while i < cookies.Length
        invariant 0 <= i <= cookies.Length
        invariant token == None
        invariant FirstToken(cookies[..]) == FirstToken(cookies[i..])
      {
        if cookies[i].name == TokenCookieName {
          token := Some(cookies[i].value);
          break;
        }
        assert cookies[i..][1..] == cookies[i + 1..];
        i := i + 1;
      }
    }
  }

  /**
   * How the filter ends: the request handed unchanged to the next filter, or
   * the exception thrown while decoding the token, before the chain is reached.
   */
  datatype FilterOutcome = ChainCalled(cookies: array?<Cookie>) | DecodeFailed(token: string)

  /**
   * The filter step. A found token is first passed to the username extractor,
   * given here as `extractUsername` (None when it throws); its result is not
   * used further. The request goes down the chain exactly when no token was
   * found or the extractor returned.
   */
  method DoFilter(cookies: array?<Cookie>, extractUsername: string -> Option<string>) returns (outcome: FilterOutcome)
    ensures var token := if cookies == null then None else FirstToken(cookies[..]);
      outcome.DecodeFailed? <==> token.Some? && extractUsername(token.value).None?
    ensures outcome.DecodeFailed? ==> cookies != null && FirstToken(cookies[..]) == Some(outcome.token)
    ensures outcome.ChainCalled? ==> outcome.cookies == cookies
  {
    var token := ExtractToken(cookies);
    if token.Some? && extractUsername(token.value).None? {
      return DecodeFailed(token.value);
    }
    outcome := ChainCalled(cookies);
  }
}
