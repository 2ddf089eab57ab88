/**
 * The legacy static `Client` of the first service version: the same flow as
 * `OidcIntrospection`, with the OpenID Connect discovery document (section 4
 * of OpenID Connect Discovery 1.0), fixed client credentials, a
 * case-sensitive scheme check, no status check on the introspection reply,
 * and a challenge without a comma between its parameters.
 */
module LegacyClient {
  import opened Wrappers
  import opened Text
  import opened Http
  import opened Introspection
  import BasicAuth
  import Utf8
  import Base64
  import OidcChallenge

  /** `ISSUER`, the default issuer of `GetConfiguration`. */
  const Issuer := "https://login.example.ubidemo.com/uas"

  /** The well-known suffix of section 4 of OpenID Connect Discovery 1.0. */
  const ConfigurationSuffix := "/.well-known/openid-configuration"

  /** `Client.Config`. */
  datatype Config = Config(clientId: Option<string>, clientSecret: Option<string>, redirectUri: Option<string>)

  /** `API_CLIENT`, the credentials the service introspects with. */
  const ApiClient := Config(Some("api"), Some("secret"), None)

  /** How `TryValidateAuthorization` ends: it returns a boolean or throws. */
  datatype Completion = Returned(value: bool) | Threw

  /** What the header checks of `TryValidateAuthorization` decide before any network call. */
  datatype HeaderCheck = Accept(token: string) | Reject | Throw

  /** `issuer + "/.well-known/openid-configuration"`. */
  function ConfigurationUrl(issuer: string): string {
    issuer + ConfigurationSuffix
  }

  /** `GetConfiguration(issuer)`: one GET of the configuration URL. */
  method GetConfiguration(issuer: string, net: Network) returns (call: Call, metadata: Fetch<ServerMetadata>)
    ensures call == Discover(ConfigurationUrl(issuer))
    ensures metadata == net.discover(ConfigurationUrl(issuer))
  {
    call := Discover(issuer + ConfigurationSuffix);
    metadata := net.discover(call.url);
  }

  /**
   * `NewHttpBasic`: scheme `Basic`, and a parameter from which the receiver
   * recovers the user-id and the password.
   */
  function NewHttpBasic(username: Option<string>, password: Option<string>): (h: Credentials)
    ensures h.scheme == "Basic" && h.parameter.Some?
    ensures Base64.Decode(h.parameter.value).Some?
    ensures Utf8.Decode(Base64.Decode(h.parameter.value).value) == Some(BasicAuth.Join(username, password))
    ensures ':' !in OrEmpty(username) ==>
      BasicAuth.DecodeCredential(h.parameter.value) == Some((OrEmpty(username), OrEmpty(password)))
  {
    BasicAuth.CredentialDecodes(username, password);
    Credentials("Basic", Some(BasicAuth.Credential(username, password)))
  }

  /**
   * `NewIntrospectionRequest`: a POST to the endpoint, authenticated as
   * `API_CLIENT`, whose form holds the one field `token`.
   */
  method NewIntrospectionRequest(introspectionEndpoint: string, token: string) returns (request: HttpRequest)
    ensures fresh(request)
    ensures IsIntrospectionPost(request.Value(), introspectionEndpoint, token)
    ensures request.authorization == Some(NewHttpBasic(ApiClient.clientId, ApiClient.clientSecret))
  {
    request := new HttpRequest(Post, introspectionEndpoint);
    request.authorization := Some(NewHttpBasic(ApiClient.clientId, ApiClient.clientSecret));
    var introspectionRequest: map<string, string> := map[];
    introspectionRequest := introspectionRequest["token" := token];
    request.form := Some(introspectionRequest);
  }

  /**
   * `JsonValue.Parse(...) as JsonObject`: a body that is not JSON throws, the
   * literal `null` and any JSON value that is not an object are `null`, and an
   * object is kept whole, whatever the types of its members.
   */
  function ParseObject(body: Body): (r: Fetch<Option<JsonObject>>)
    ensures r.Failed? <==> body.NotJson?
    ensures r == Fetched(None) <==> body.JsonNull? || body.NotObject?
    ensures r.Fetched? && r.value.Some? ==> body == Object(r.value.value)
  {
    match body
    case NotJson => Failed
    case JsonNull => Fetched(None)
    case NotObject => Fetched(None)
    case Object(o) => Fetched(Some(o))
  }

  /**
   * How `InvokeIntrospectionRequest` reads the reply: the status is never
   * looked at, and the body is parsed as a JSON object.
   */
  function ReadReply(reply: Fetch<HttpReply>): (r: Fetch<Option<JsonObject>>)
    ensures reply.Failed? ==> r.Failed?
    ensures reply.Fetched? ==> r == ParseObject(reply.value.body)
  {
    match reply
    case Failed => Failed
    case Fetched(r) => ParseObject(r.body)
  }

  /** `InvokeIntrospectionRequest`: the discovery GET, the introspection POST, the reading of the reply. */
  method InvokeIntrospectionRequest(token: string, net: Network)
    returns (calls: seq<Call>, response: Fetch<Option<JsonObject>>)
    ensures 1 <= |calls| <= 2 && calls[0] == Discover(ConfigurationUrl(Issuer))
    ensures |calls| == 1 <==> net.discover(ConfigurationUrl(Issuer)).Failed?
    ensures |calls| == 1 ==> response.Failed?
    ensures |calls| == 2 ==>
      && calls[1].Send?
      && IsIntrospectionPost(calls[1].request, net.discover(ConfigurationUrl(Issuer)).value.introspectionEndpoint, token)
      && calls[1].request.authorization == Some(NewHttpBasic(ApiClient.clientId, ApiClient.clientSecret))
      && response == ReadReply(net.send(calls[1].request))
  {
    var discovery, metadata := GetConfiguration(Issuer, net);
    calls := [discovery];
    if metadata.Failed? {
      response := Failed;
      return;
    }
    var httpRequest := NewIntrospectionRequest(metadata.value.introspectionEndpoint, token);
    var sent := httpRequest.Value();
    calls := calls + [Send(sent)];
    var introspectionResponse := net.send(sent);
    if introspectionResponse.Failed? {
      response := Failed;
    } else {
      response := ParseObject(introspectionResponse.value.body);
    }
  }

  /**
   * The header checks of `TryValidateAuthorization`: a blank header is
   * rejected, one that does not parse throws (`Parse`, not `TryParse`), and
   * the scheme must be exactly `Bearer` with a parameter that is not blank.
   */
  function CheckAuthorization(authorization: Option<string>): (r: HeaderCheck)
    ensures r.Accept? ==> !AllWhiteSpace(r.token)
    ensures r.Accept? <==>
      && !IsNullOrWhiteSpace(authorization)
      && ParseCredentials(authorization).Some?
      && ParseCredentials(authorization).value.scheme == "Bearer"
      && !IsNullOrWhiteSpace(ParseCredentials(authorization).value.parameter)
    ensures r.Accept? ==> ParseCredentials(authorization) == Some(Credentials("Bearer", Some(r.token)))
    ensures r.Throw? <==> !IsNullOrWhiteSpace(authorization) && ParseCredentials(authorization).None?
  {
    if IsNullOrWhiteSpace(authorization) then Reject
    else match ParseCredentials(authorization)
      case None => Throw
      case Some(header) =>
        if IsNullOrWhiteSpace(header.parameter) || "Bearer" != header.scheme then Reject
        else Accept(header.parameter.value)
  }

  /**
   * How `TryValidateAuthorization` ends once the introspection task has run,
   * reading `task.Result["active"]`: it throws when the `Task` faulted, when
   * its result is `null` and when `active` is missing or not a boolean;
   * otherwise it returns `active`.
   */
  function Conclude(task: Fetch<Option<JsonObject>>): (c: Completion)
    ensures c == Returned(true) <==> task.Fetched? && task.value.Some? && task.value.value.active == Value(true)
    ensures c == Returned(false) <==> task.Fetched? && task.value.Some? && task.value.value.active == Value(false)
    ensures c == Threw <==> task.Failed? || task.value.None? || !task.value.value.active.Value?
  {
    if task.Failed? || task.value.None? || !task.value.value.active.Value? then Threw
    else Returned(task.value.value.active.value)
  }

  /**
   * `TryValidateAuthorization`: `true`, with the response in the out
   * parameter, only when the reply was read and its `active` is `true`;
   * `false` with a `null` out parameter otherwise, unless it throws: on a
   * header that does not parse, and as `Conclude` says once the
   * introspection task has run.
   */
  method TryValidateAuthorization(authorization: Option<string>, net: Network)
    returns (completion: Completion, introspection: Option<JsonObject>, calls: seq<Call>)
    ensures introspection.Some? <==> completion == Returned(true)
    ensures introspection.Some? ==> introspection.value.active == Value(true)
    ensures CheckAuthorization(authorization).Reject? ==> calls == [] && completion == Returned(false)
    ensures CheckAuthorization(authorization).Throw? ==> calls == [] && completion == Threw
    ensures CheckAuthorization(authorization).Accept? ==>
      1 <= |calls| <= 2 && calls[0] == Discover(ConfigurationUrl(Issuer))
    ensures |calls| == 1 ==> net.discover(ConfigurationUrl(Issuer)).Failed? && completion == Threw
    ensures |calls| == 2 ==>
      && CheckAuthorization(authorization).Accept?
      && net.discover(ConfigurationUrl(Issuer)).Fetched?
      && calls[1].Send?
      && IsIntrospectionPost(calls[1].request,
           net.discover(ConfigurationUrl(Issuer)).value.introspectionEndpoint,
           CheckAuthorization(authorization).token)
      && calls[1].request.authorization == Some(NewHttpBasic(ApiClient.clientId, ApiClient.clientSecret))
      && completion == Conclude(ReadReply(net.send(calls[1].request)))
      && (introspection.Some? ==> introspection == ReadReply(net.send(calls[1].request)).value)
  {
    introspection := None;
    calls := [];
    match CheckAuthorization(authorization)
    case Reject =>
      completion := Returned(false);
    case Throw =>
      completion := Threw;
    case Accept(token) =>
      var task;
      calls, task := InvokeIntrospectionRequest(token, net);
      completion := Conclude(task);
      if completion == Returned(true) {
        introspection := task.value;
      }
  }

  /**
   * The header value the legacy challenge builds, in the pieces it appends:
   * the scheme `Bearer` and a space lead, and without a realm it is the value
   * the current version sends.
   */
  function Challenge(scope: Option<string>): (h: string)
    ensures |h| > 7 && h[..7] == "Bearer "
    ensures !OidcChallenge.NamesRealm(scope) ==> h == OidcChallenge.Challenge(scope)
  {
    if OidcChallenge.NamesRealm(scope) then
      "Bearer" + " realm=\"" + scope.value + "\"" + " scope=\"openid " + scope.value + "\""
    else
      assert OidcChallenge.Challenge(scope) == "Bearer" + " " + OidcChallenge.OpenIdOnly;
      "Bearer" + " scope=\"openid\""
  }

  /** `Client.BearerTokenResult`: a 401 result that adds a `Bearer` challenge. */
  class BearerTokenResult {
    var Scope: Option<string>

    /** `new BearerTokenResult()`: no scope yet. */
    constructor()
      ensures Scope == None
    {
      Scope := None;
    }

    /**
     * `ExecuteResultAsync`: the base `UnauthorizedResult` sets status 401,
     * then the challenge is appended piece by piece and added to the
     * headers. `Headers.Add` throws when the header is already there, and then
     * the headers stay as they were; `added` is false exactly then.
     */
    method ExecuteResult(response: HttpResponse) returns (added: bool)
      modifies response
      ensures response.statusCode == 401
      ensures added <==> WwwAuthenticate !in old(response.headers)
      ensures added ==> response.headers == old(response.headers)[WwwAuthenticate := Challenge(Scope)]
      ensures !added ==> response.headers == old(response.headers)
    {
      response.statusCode := 401;
      var bearer := "Bearer";
      if !IsNullOrWhiteSpace(Scope) && Scope.value != "openid" {
        bearer := bearer + " realm=\"" + Scope.value + "\"";
        bearer := bearer + " scope=\"openid " + Scope.value + "\"";
      } else {
        bearer := bearer + " scope=\"openid\"";
      }
      added := WwwAuthenticate !in response.headers;
      if added {
        response.headers := response.headers[WwwAuthenticate := bearer];
      }
    }
  }

  /** `BearerToken(scope)`: a new result with its `Scope` set. */
  method BearerToken(scope: Option<string>) returns (result: BearerTokenResult)
    ensures fresh(result) && result.Scope == scope
  {
    result := new BearerTokenResult();
    result.Scope := scope;
  }
}
