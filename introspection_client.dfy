/**
 * `IntrospectionClient` of the current service: it accepts a `Bearer`
 * credential, looks up the introspection endpoint in the authorization
 * server's metadata (section 3 of RFC 8414), POSTs the token to it
 * authenticated as this client (section 2.1 of RFC 7662), and accepts the
 * token only when the reply says `active` is `true` (section 2.2 of RFC 7662).
 */
module OidcIntrospection {
  import opened Wrappers
  import opened Text
  import opened Http
  import opened Introspection
  import BasicAuth
  import Utf8
  import Base64

  /** The well-known suffix of the metadata document, section 3 of RFC 8414. */
  const MetadataSuffix := "/.well-known/oauth-authorization-server"

  /** How the `Task` of `ValidateAuthorization` ends: the response, `null`, or an exception. */
  datatype Validation = Identity(response: IntrospectionResponse) | NoIdentity | Faulted

  /**
   * `JsonSerializer.DeserializeAsync<IntrospectionResponseModel>`: JSON
   * `null` is `null`; an object whose `active` is a boolean or missing and
   * whose `sub` is a string or missing fills the model, member by member; any
   * other body throws.
   */
  function Deserialize(body: Body): (r: Fetch<Option<IntrospectionResponse>>)
    ensures r.Failed? <==>
      || body.NotJson? || body.NotObject?
      || (body.Object? && (body.members.active.OtherType? || body.members.sub.OtherType?))
    ensures r == Fetched(None) <==> body.JsonNull?
    ensures r.Fetched? && r.value.Some? ==>
      && body.Object?
      && (r.value.value.active.Some? <==> body.members.active.Value?)
      && (r.value.value.active.Some? ==> r.value.value.active.value == body.members.active.value)
      && (r.value.value.sub.Some? <==> body.members.sub.Value?)
      && (r.value.value.sub.Some? ==> r.value.value.sub.value == body.members.sub.value)
  {
    match body
    case NotJson => Failed
    case JsonNull => Fetched(None)
    case NotObject => Failed
    case Object(o) =>
      if o.active.OtherType? || o.sub.OtherType? then Failed
      else Fetched(Some(IntrospectionResponse(MemberOption(o.active), MemberOption(o.sub))))
  }

  /**
   * How `InvokeIntrospectionRequest` reads the introspection reply: a status
   * outside 2xx is `null` before the body is looked at; a 2xx body is
   * deserialized.
   */
  function ReadReply(reply: Fetch<HttpReply>): (r: Fetch<Option<IntrospectionResponse>>)
    ensures reply.Failed? ==> r.Failed?
    ensures reply.Fetched? && !IsSuccessStatusCode(reply.value.status) ==> r == Fetched(None)
    ensures reply.Fetched? && IsSuccessStatusCode(reply.value.status) ==> r == Deserialize(reply.value.body)
  {
    match reply
    case Failed => Failed
    case Fetched(r) =>
      if !IsSuccessStatusCode(r.status) then Fetched(None)
      else Deserialize(r.body)
  }

  class IntrospectionClient {
    const Issuer: Option<string>
    const ClientId: Option<string>
    const ClientSecret: Option<string>

    /** The three settings of the `OAuth2` configuration section, already loaded. */
    constructor(issuer: Option<string>, clientId: Option<string>, clientSecret: Option<string>)
      ensures Issuer == issuer && ClientId == clientId && ClientSecret == clientSecret
    {
      Issuer := issuer;
      ClientId := clientId;
      ClientSecret := clientSecret;
    }

    /** `Issuer + "/.well-known/oauth-authorization-server"`; a `null` issuer concatenates as empty. */
    function MetadataUrl(): string {
      OrEmpty(Issuer) + MetadataSuffix
    }

    /** `GetConfiguration`: one GET of the metadata URL. */
    method GetConfiguration(net: Network) returns (call: Call, metadata: Fetch<ServerMetadata>)
      ensures call == Discover(MetadataUrl())
      ensures metadata == net.discover(MetadataUrl())
    {
      call := Discover(MetadataUrl());
      metadata := net.discover(call.url);
    }

    /**
     * `NewBasicAuthenticationHeader`: scheme `Basic`, and a parameter from
     * which the receiver recovers the user-id and the password.
     */
    static function NewBasicAuthenticationHeader(username: Option<string>, password: Option<string>): (h: Credentials)
      ensures h.scheme == "Basic" && h.parameter.Some?
      ensures Base64.Decode(h.parameter.value).Some?
      ensures Utf8.Decode(Base64.Decode(h.parameter.value).value) == Some(BasicAuth.Join(username, password))
      ensures ':' !in OrEmpty(username) ==>
        BasicAuth.DecodeCredential(h.parameter.value) == Some((OrEmpty(username), OrEmpty(password)))
    {
      BasicAuth.CredentialDecodes(username, password);
      Credentials("Basic", Some(BasicAuth.Credential(username, password)))
    }

    /**
     * `NewIntrospectionRequest`: a POST to the endpoint, authenticated as this
     * client, whose form holds the one field `token`.
     */
    method NewIntrospectionRequest(introspectionEndpoint: string, token: string) returns (request: HttpRequest)
      ensures fresh(request)
      ensures IsIntrospectionPost(request.Value(), introspectionEndpoint, token)
      ensures request.authorization == Some(NewBasicAuthenticationHeader(ClientId, ClientSecret))
    {
      request := new HttpRequest(Post, introspectionEndpoint);
      request.authorization := Some(NewBasicAuthenticationHeader(ClientId, ClientSecret));
      var introspectionRequest: map<string, string> := map[];
      introspectionRequest := introspectionRequest["token" := token];
      request.form := Some(introspectionRequest);
    }

    /**
     * `InvokeIntrospectionRequest`: the metadata GET, then the introspection
     * POST to the endpoint it names, then the reading of the reply.
     */
    method InvokeIntrospectionRequest(token: string, net: Network)
      returns (calls: seq<Call>, response: Fetch<Option<IntrospectionResponse>>)
      ensures 1 <= |calls| <= 2 && calls[0] == Discover(MetadataUrl())
      ensures |calls| == 1 <==> net.discover(MetadataUrl()).Failed?
      ensures |calls| == 1 ==> response.Failed?
      ensures |calls| == 2 ==>
        && calls[1].Send?
        && IsIntrospectionPost(calls[1].request, net.discover(MetadataUrl()).value.introspectionEndpoint, token)
        && calls[1].request.authorization == Some(NewBasicAuthenticationHeader(ClientId, ClientSecret))
        && response == ReadReply(net.send(calls[1].request))
    {
      var discovery, metadata := GetConfiguration(net);
      calls := [discovery];
      if metadata.Failed? {
        response := Failed;
        return;
      }
      var httpRequest := NewIntrospectionRequest(metadata.value.introspectionEndpoint, token);
      var sent := httpRequest.Value();
      calls := calls + [Send(sent)];
      var httpResponse := net.send(sent);
      if httpResponse.Failed? {
        response := Failed;
      } else if !IsSuccessStatusCode(httpResponse.value.status) {
        response := Fetched(None);
      } else {
        response := Deserialize(httpResponse.value.body);
      }
    }

    /**
     * `TryParseBearerAuthorization`: the token of a header that parses, has a
     * non-empty parameter and the scheme `Bearer` in any letter case.
     */
    static function TryParseBearerAuthorization(authorization: Option<string>): (token: Option<string>)
      ensures token.Some? ==> token.value != [] && Trimmed(token.value)
      ensures token.Some? <==>
        && ParseCredentials(authorization).Some?
        && ParseCredentials(authorization).value.parameter.Some?
        && EqualsIgnoreCase("Bearer", ParseCredentials(authorization).value.scheme)
      ensures token.Some? ==> ParseCredentials(authorization).value.parameter == token
    {
      var header := ParseCredentials(authorization);
      if header.Some? && !IsNullOrEmpty(header.value.parameter) && EqualsIgnoreCase("Bearer", header.value.scheme)
      then header.value.parameter
      else None
    }

    /**
     * `ValidateAuthorization`: no network call unless the header carries a
     * bearer token; an identity only when the reply was read and its `active`
     * is exactly `true`; failures of either call propagate as a fault.
     */
    method ValidateAuthorization(authorization: Option<string>, net: Network)
      returns (calls: seq<Call>, result: Validation)
      ensures TryParseBearerAuthorization(authorization).None? <==> calls == []
      ensures calls == [] ==> result == NoIdentity
      ensures calls != [] ==> |calls| <= 2 && calls[0] == Discover(MetadataUrl())
      ensures result.Identity? ==> result.response.active == Some(true)
      ensures |calls| == 1 ==> net.discover(MetadataUrl()).Failed? && result == Faulted
      ensures |calls| == 2 ==>
        && net.discover(MetadataUrl()).Fetched?
        && calls[1].Send?
        && IsIntrospectionPost(calls[1].request,
             net.discover(MetadataUrl()).value.introspectionEndpoint,
             TryParseBearerAuthorization(authorization).value)
        && calls[1].request.authorization == Some(NewBasicAuthenticationHeader(ClientId, ClientSecret))
        && var reply := ReadReply(net.send(calls[1].request));
           && (result.Faulted? <==> reply.Failed?)
           && (result.Identity? <==> reply.Fetched? && reply.value.Some? && reply.value.value.active == Some(true))
           && (result.Identity? ==> result.response == reply.value.value)
    {
      var token := TryParseBearerAuthorization(authorization);
      if token.None? {
        calls, result := [], NoIdentity;
        return;
      }
      var introspection;
      calls, introspection := InvokeIntrospectionRequest(token.value, net);
      if introspection.Failed? {
        result := Faulted;
      } else if introspection.value.Some? && introspection.value.value.active == Some(true) {
        result := Identity(introspection.value.value);
      } else {
        result := NoIdentity;
      }
    }
  }

  /** `Bearer`, compared ignoring case, only matches scheme names made of its six letters. */
  lemma BearerCaseIsToken(scheme: string)
    requires EqualsIgnoreCase("Bearer", scheme)
    ensures IsToken(scheme)
  {
    forall i | 0 <= i < |scheme| ensures IsTokenChar(scheme[i]) {
      assert UpperAscii("Bearer"[i]) == UpperAscii(scheme[i]);
    }
  }

  /**
   * Every spelling of the scheme `Bearer` followed by a space and a
   * non-empty, trimmed token is accepted, and yields that token.
   */
  lemma AcceptsBearerToken(scheme: string, token: string)
    requires EqualsIgnoreCase("Bearer", scheme)
    requires token != [] && Trimmed(token)
    ensures IntrospectionClient.TryParseBearerAuthorization(Some(scheme + " " + token)) == Some(token)
  {
    BearerCaseIsToken(scheme);
    ParseRender(Credentials(scheme, Some(token)));
  }

  /** A header that is absent, empty or white space only carries no token. */
  lemma RejectsBlankHeader(authorization: Option<string>)
    requires IsNullOrWhiteSpace(authorization)
    ensures IntrospectionClient.TryParseBearerAuthorization(authorization) == None
  {
    if authorization.Some? {
      var s := authorization.value;
      forall i | 0 <= i < |s| ensures !IsTokenChar(s[i]) {
        assert IsWhiteSpace(s[i]);
      }
      ParseWithoutToken(s);
    }
  }

  /**
   * The parameter check is `IsNullOrEmpty`, not `IsNullOrWhiteSpace`: a
   * token made only of white space other than space and tab is accepted.
   */
  lemma AcceptsWhiteSpaceToken(token: string)
    requires token != [] && AllWhiteSpace(token) && Trimmed(token)
    ensures IntrospectionClient.TryParseBearerAuthorization(Some("Bearer " + token)) == Some(token)
  {
    assert EqualsIgnoreCase("Bearer", "Bearer") by {}
    assert "Bearer" + " " + token == "Bearer " + token by {}
    AcceptsBearerToken("Bearer", token);
  }

  /** Such tokens exist: a no-break space is white space but not a space or tab. */
  lemma NoBreakSpaceToken()
    ensures var token := "\U{A0}"; token != [] && AllWhiteSpace(token) && Trimmed(token)
  {
  }
}
