/**
 * How the legacy `Client` and the current `IntrospectionClient` and
 * `BearerTokenResult` differ: which headers each accepts, and what
 * challenge each sends.
 */
module Versions {
  import opened Wrappers
  import opened Text
  import opened Http
  import opened Introspection
  import OidcIntrospection
  import OidcChallenge
  import LegacyClient

  function CurrentToken(authorization: Option<string>): Option<string> {
    OidcIntrospection.IntrospectionClient.TryParseBearerAuthorization(authorization)
  }

  /** Every token the legacy check accepts, the current one accepts too. */
  lemma LegacyAcceptIsCurrentAccept(authorization: Option<string>)
    requires LegacyClient.CheckAuthorization(authorization).Accept?
    ensures CurrentToken(authorization) == Some(LegacyClient.CheckAuthorization(authorization).token)
  {
    var t := LegacyClient.CheckAuthorization(authorization).token;
    assert t != [] by {
      assert !AllWhiteSpace(t);
    }
    assert EqualsIgnoreCase("Bearer", "Bearer");
  }

  /**
   * The headers only the current version accepts are exactly those whose
   * scheme is `Bearer` in another letter case, or whose token is white space
   * only; the legacy version rejects them (returns `false`, without throwing).
   * A header the legacy version throws on, the current one does not accept.
   */
  lemma CurrentAcceptsMore(authorization: Option<string>)
    ensures CurrentToken(authorization).Some? && !LegacyClient.CheckAuthorization(authorization).Accept? <==>
      && CurrentToken(authorization).Some?
      && (ParseCredentials(authorization).value.scheme != "Bearer" || AllWhiteSpace(CurrentToken(authorization).value))
    ensures CurrentToken(authorization).Some? && !LegacyClient.CheckAuthorization(authorization).Accept? ==>
      LegacyClient.CheckAuthorization(authorization).Reject?
    ensures LegacyClient.CheckAuthorization(authorization).Throw? ==> CurrentToken(authorization).None?
  {
    if CurrentToken(authorization).Some? {
      if IsNullOrWhiteSpace(authorization) {
        OidcIntrospection.RejectsBlankHeader(authorization);
        assert false;
      }
      if LegacyClient.CheckAuthorization(authorization).Accept? {
        LegacyAcceptIsCurrentAccept(authorization);
      }
    }
  }

  /** `bearer` names the scheme `Bearer` when letter case is ignored. */
  lemma LowerCaseBearer()
    ensures EqualsIgnoreCase("Bearer", "bearer")
  {
    forall i | 0 <= i < 6 ensures UpperAscii("Bearer"[i]) == UpperAscii("bearer"[i]) {
      if i == 0 {
        assert UpperAscii('b') == 'B';
      } else {
        assert "Bearer"[i] == "bearer"[i];
      }
    }
  }

  /**
   * The scheme `bearer` in lower case and a non-empty, trimmed token:
   * accepted by the current version, rejected by the legacy one.
   */
  lemma LowerCaseScheme(token: string)
    requires token != [] && Trimmed(token)
    ensures CurrentToken(Some("bearer " + token)) == Some(token)
    ensures LegacyClient.CheckAuthorization(Some("bearer " + token)) == LegacyClient.Reject
  {
    LowerCaseBearer();
    assert "bearer" + " " + token == "bearer " + token by {}
    assert "bearer" != "Bearer" by {
      assert "bearer"[0] != "Bearer"[0];
    }
    OidcIntrospection.BearerCaseIsToken("bearer");
    ParseSchemeParameter("bearer", token);
    OidcIntrospection.AcceptsBearerToken("bearer", token);
    CurrentAcceptsMore(Some("bearer " + token));
  }

  /**
   * `Bearer` and a token of white space other than space and tab (a
   * no-break space, say): accepted by the current version, rejected by the
   * legacy one.
   */
  lemma WhiteSpaceToken(token: string)
    requires token != [] && AllWhiteSpace(token) && Trimmed(token)
    ensures CurrentToken(Some("Bearer " + token)) == Some(token)
    ensures LegacyClient.CheckAuthorization(Some("Bearer " + token)) == LegacyClient.Reject
  {
    OidcIntrospection.AcceptsWhiteSpaceToken(token);
    CurrentAcceptsMore(Some("Bearer " + token));
  }

  /** Regrouping of `x y (r v m v w)` when `x y r` and `q c t` are known as wholes. */
  lemma Regroup(x: string, y: string, r: string, xyr: string, v: string, m: string, q: string, c: string, t: string, w: string)
    requires x + y + r == xyr && q + c + t == m
    ensures x + y + (r + v + m + v + w) == (xyr + v + q) + c + (t + v + w)
  {
  }

  /** The current realm challenge text, cut where its comma is. */
  lemma CommaSplit(v: string)
    ensures "Bearer" + " " + ("realm=\"" + v + "\", scope=\"openid " + v + "\"") ==
      ("Bearer realm=\"" + v + "\"") + "," + (" scope=\"openid " + v + "\"")
  {
    assert "\"" + "," + " scope=\"openid " == "\", scope=\"openid " by {}
    assert "Bearer" + " " + "realm=\"" == "Bearer realm=\"" by {}
    Regroup("Bearer", " ", "realm=\"", "Bearer realm=\"", v, "\", scope=\"openid ", "\"", ",", " scope=\"openid ", "\"");
  }

  /** With a realm, the current challenge puts a comma between the realm and the scopes. */
  lemma CurrentChallengeWithRealm(scope: Option<string>)
    requires OidcChallenge.NamesRealm(scope)
    ensures OidcChallenge.Challenge(scope) ==
      ("Bearer realm=\"" + scope.value + "\"") + "," + (" scope=\"openid " + scope.value + "\"")
  {
    var v := scope.value;
    var p := "realm=\"" + v + "\", scope=\"openid " + v + "\"";
    assert OidcChallenge.Challenge(scope) == "Bearer" + " " + p by {
      assert OidcChallenge.ChallengeParameter(scope) == p;
    }
    CommaSplit(v);
  }

  /** With a realm, the legacy challenge puts the realm and the scopes side by side. */
  lemma LegacyChallengeWithRealm(scope: Option<string>)
    requires OidcChallenge.NamesRealm(scope)
    ensures LegacyClient.Challenge(scope) ==
      ("Bearer realm=\"" + scope.value + "\"") + (" scope=\"openid " + scope.value + "\"")
  {
    var v := scope.value;
    var h := "Bearer" + " realm=\"" + v + "\"" + " scope=\"openid " + v + "\"";
    assert LegacyClient.Challenge(scope) == h;
    assert "Bearer" + " realm=\"" == "Bearer realm=\"";
    assert h == ("Bearer realm=\"" + v + "\"") + (" scope=\"openid " + v + "\"");
  }

  /**
   * The two challenges differ only by the comma the current version puts
   * between `realm` and `scope`; without a realm they are the same.
   */
  lemma ChallengesDifferByComma(scope: Option<string>)
    ensures OidcChallenge.NamesRealm(scope) ==>
      var realm := "Bearer realm=\"" + scope.value + "\"";
      var scopes := " scope=\"openid " + scope.value + "\"";
      && OidcChallenge.Challenge(scope) == realm + "," + scopes
      && LegacyClient.Challenge(scope) == realm + scopes
    ensures !OidcChallenge.NamesRealm(scope) ==> OidcChallenge.Challenge(scope) == LegacyClient.Challenge(scope)
  {
    if OidcChallenge.NamesRealm(scope) {
      CurrentChallengeWithRealm(scope);
      LegacyChallengeWithRealm(scope);
    }
  }

  /** The current version grants an identity on this reading of a reply. */
  predicate CurrentGrants(r: Fetch<Option<IntrospectionResponse>>) {
    r.Fetched? && r.value.Some? && r.value.value.active == Some(true)
  }

  /**
   * How the two readings of one reply compare. A failed call fails in both;
   * a status outside 2xx is `null` in the current version only. On a 2xx
   * reply, the current version fails exactly when the legacy one does, or
   * the body is a JSON value that is not an object, or a member the current
   * version types has another type; and it grants an identity exactly when
   * the legacy version returns `true` and `sub` is not of another type.
   */
  lemma ReadRepliesCompared(reply: Fetch<HttpReply>)
    ensures reply.Failed? ==>
      OidcIntrospection.ReadReply(reply).Failed? && LegacyClient.ReadReply(reply).Failed?
    ensures reply.Fetched? && !IsSuccessStatusCode(reply.value.status) ==>
      OidcIntrospection.ReadReply(reply) == Fetched(None)
    ensures reply.Fetched? && IsSuccessStatusCode(reply.value.status) ==>
      var body := reply.value.body;
      && (OidcIntrospection.ReadReply(reply).Failed? <==>
            || LegacyClient.ReadReply(reply).Failed?
            || body.NotObject?
            || (body.Object? && (body.members.active.OtherType? || body.members.sub.OtherType?)))
      && (CurrentGrants(OidcIntrospection.ReadReply(reply)) <==>
            && LegacyClient.Conclude(LegacyClient.ReadReply(reply)) == LegacyClient.Returned(true)
            && !body.members.sub.OtherType?)
  {
  }

  /**
   * A 2xx reply whose body is JSON but not an object: the current version's
   * deserializer throws, the legacy version reads `null`, and then its
   * `task.Result["active"]` throws too.
   */
  lemma NonObjectBody(status: int)
    requires IsSuccessStatusCode(status)
    ensures OidcIntrospection.ReadReply(Fetched(HttpReply(status, NotObject))).Failed?
    ensures LegacyClient.ReadReply(Fetched(HttpReply(status, NotObject))) == Fetched(None)
    ensures LegacyClient.Conclude(LegacyClient.ReadReply(Fetched(HttpReply(status, NotObject)))) == LegacyClient.Threw
  {
  }

  /**
   * A 2xx reply saying `active: true` with a `sub` that is not a string: the
   * current version's deserializer throws, while the legacy version never
   * reads `sub` and returns `true`.
   */
  lemma MistypedSubject(status: int, active: bool)
    requires IsSuccessStatusCode(status)
    ensures
      var reply := Fetched(HttpReply(status, Object(JsonObject(Value(active), OtherType))));
      && OidcIntrospection.ReadReply(reply).Failed?
      && LegacyClient.Conclude(LegacyClient.ReadReply(reply)) == LegacyClient.Returned(active)
  {
  }

  /**
   * A reply with an error status whose body says `active: true` gives no
   * identity in the current version, while the legacy version returns `true`.
   */
  lemma ErrorStatusStillActive(reply: HttpReply)
    requires !IsSuccessStatusCode(reply.status)
    requires reply.body.Object? && reply.body.members.active == Value(true)
    ensures OidcIntrospection.ReadReply(Fetched(reply)) == Fetched(None)
    ensures LegacyClient.Conclude(LegacyClient.ReadReply(Fetched(reply))) == LegacyClient.Returned(true)
  {
  }

  /** The two versions look up different metadata documents of the same issuer. */
  lemma DiscoveryDocumentsDiffer(issuer: string)
    ensures LegacyClient.ConfigurationUrl(issuer) != issuer + OidcIntrospection.MetadataSuffix
  {
    assert |LegacyClient.ConfigurationSuffix| != |OidcIntrospection.MetadataSuffix|;
  }
}
