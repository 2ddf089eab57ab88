/**
 * `BearerTokenResult` of the current service: the 401 response with the
 * `WWW-Authenticate: Bearer ...` challenge of section 3 of RFC 6750. The
 * scope given at construction, unless blank or `openid`, becomes the realm
 * and is added to the `openid` scope.
 */
module OidcChallenge {
  import opened Wrappers
  import opened Text
  import opened Http

  /** The parameter when no realm is named. */
  const OpenIdOnly := "scope=\"openid\""

  /** The scope names a realm: it is present, not blank, and not exactly `openid`. */
  predicate NamesRealm(scope: Option<string>) {
    !IsNullOrWhiteSpace(scope) && scope.value != "openid"
  }

  /**
   * The challenge parameter chosen from the scope: a non-empty value without
   * surrounding white space, and the plain `scope="openid"` exactly when the
   * scope names no realm.
   */
  function ChallengeParameter(scope: Option<string>): (p: string)
    ensures p != [] && Trimmed(p)
    ensures p == OpenIdOnly <==> !NamesRealm(scope)
  {
    if NamesRealm(scope) then
      var p := "realm=\"" + scope.value + "\", scope=\"openid " + scope.value + "\"";
      assert p[0] == 'r' && p[|p| - 1] == '"';
      p
    else OpenIdOnly
  }

  /** The header value: `new AuthenticationHeaderValue("Bearer", parameter).ToString()`. */
  function Challenge(scope: Option<string>): string {
    Render(Credentials("Bearer", Some(ChallengeParameter(scope))))
  }

  class BearerTokenResult {
    const Scope: Option<string>

    constructor(scope: Option<string>)
      ensures Scope == scope
    {
      Scope := scope;
    }

    /**
     * `ExecuteResultAsync`: status 401 and the challenge header, which
     * replaces any earlier value; every other header stays as it was.
     */
    method ExecuteResult(response: HttpResponse)
      modifies response
      ensures response.statusCode == 401
      ensures response.headers == old(response.headers)[WwwAuthenticate := Challenge(Scope)]
    {
      var parameter := ChallengeParameter(Scope);
      var header := Credentials("Bearer", Some(parameter));
      response.statusCode := 401;
      response.headers := response.headers[WwwAuthenticate := Render(header)];
    }
  }

  /** The text of `s` up to its first double quote (all of `s` when it has none). */
  function UpToQuote(s: string): (r: string)
    ensures |r| <= |s| && r == s[..|r|]
  {
    if s == [] || s[0] == '"' then [] else [s[0]] + UpToQuote(s[1..])
  }

  /** The realm a challenge parameter names, read back the way a client reads it. */
  function RealmOf(parameter: string): Option<string> {
    if |parameter| >= 7 && parameter[..7] == "realm=\"" then Some(UpToQuote(parameter[7..])) else None
  }

  lemma {:induction false} UpToQuoteAppend(s: string, rest: string)
    requires '"' !in s
    ensures UpToQuote(s + "\"" + rest) == s
  {
    if s != [] {
      assert (s + "\"" + rest)[1..] == s[1..] + "\"" + rest;
      UpToQuoteAppend(s[1..], rest);
      assert [s[0]] + s[1..] == s;
    }
  }

  /**
   * The realm is read back from the challenge exactly when the scope names
   * one (and contains no double quote, which the source does not escape).
   */
  lemma RealmRoundTrip(scope: Option<string>)
    requires scope.Some? ==> '"' !in scope.value
    ensures NamesRealm(scope) ==> RealmOf(ChallengeParameter(scope)) == Some(scope.value)
    ensures !NamesRealm(scope) ==> RealmOf(ChallengeParameter(scope)) == None
  {
    if NamesRealm(scope) {
      var p := ChallengeParameter(scope);
      var tail := ", scope=\"openid " + scope.value + "\"";
      assert p == "realm=\"" + (scope.value + "\"" + tail);
      assert p[..7] == "realm=\"" && p[7..] == scope.value + "\"" + tail;
      UpToQuoteAppend(scope.value, tail);
    } else {
      assert ChallengeParameter(scope)[..7] != "realm=\"" by {
        assert ChallengeParameter(scope)[0] == 's';
      }
    }
  }

  /** Every scope that names a realm yields a header other than the plain `scope="openid"` one. */
  lemma OpenIdOnlyExactly(scope: Option<string>)
    ensures NamesRealm(scope) ==> Challenge(scope) != Challenge(None)
  {
    if NamesRealm(scope) {
      assert ChallengeParameter(scope)[0] == 'r';
      assert Challenge(scope)[7] == 'r' && Challenge(None)[7] == 's';
    }
  }

  /** The `openid` test is case-sensitive: `OpenID` names a realm. */
  lemma OpenIdIsCaseSensitive()
    ensures NamesRealm(Some("OpenID"))
    ensures ChallengeParameter(Some("OpenID")) != OpenIdOnly
  {
    assert "OpenID"[0] == 'O' != "openid"[0];
    assert !IsWhiteSpace("OpenID"[0]);
  }

  /**
   * The challenge parses back, under the simplified credentials parser, as
   * the scheme `Bearer` with the chosen parameter, whatever the scope.
   */
  lemma ChallengeParses(scope: Option<string>)
    ensures ParseCredentials(Some(Challenge(scope))) == Some(Credentials("Bearer", Some(ChallengeParameter(scope))))
  {
    BearerIsToken();
    ParseRender(Credentials("Bearer", Some(ChallengeParameter(scope))));
  }
}
