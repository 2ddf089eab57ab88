/**
 * The HTTP pieces the core touches: the credentials value of section 2.1 of
 * RFC 7235 (`AuthenticationHeaderValue`: a scheme and an optional parameter),
 * its parser and its rendering, an outbound request and an inbound-request
 * response object.
 */
module Http {
  import opened Wrappers

  /** `AuthenticationHeaderValue`: `scheme [ 1*SP parameter ]`. */
  datatype Credentials = Credentials(scheme: string, parameter: Option<string>)

  /** Optional white space of RFC 7230: space and horizontal tab. */
  predicate IsOws(c: char) {
    c == ' ' || c == '\t'
  }

  /** `tchar` of section 3.2.6 of RFC 7230, the characters of a scheme name. */
  predicate IsTokenChar(c: char) {
    ('A' <= c <= 'Z') || ('a' <= c <= 'z') || ('0' <= c <= '9') ||
    c in "!#$%&'*+-.^_`|~"
  }

  /** A non-empty run of `tchar`: a valid scheme name. */
  predicate IsToken(s: string) {
    |s| > 0 && forall i :: 0 <= i < |s| ==> IsTokenChar(s[i])
  }

  /** Neither end of `s` is optional white space. */
  predicate Trimmed(s: string) {
    s == [] || (!IsOws(s[0]) && !IsOws(s[|s| - 1]))
  }

  /** `s` without its leading optional white space. */
  function TrimStart(s: string): (r: string)
    ensures |r| <= |s| && r == s[|s| - |r|..]
    ensures r == [] || !IsOws(r[0])
  {
    if s != [] && IsOws(s[0]) then TrimStart(s[1..]) else s
  }

  /** `s` without its trailing optional white space. */
  function TrimEnd(s: string): (r: string)
    ensures |r| <= |s| && r == s[..|r|]
    ensures r == [] || !IsOws(r[|r| - 1])
  {
    if s != [] && IsOws(s[|s| - 1]) then TrimEnd(s[..|s| - 1]) else s
  }

  /** Where the run of `tchar` that starts at `i` ends: the first later index that is not one. */
  function TokenEnd(s: string, i: nat): (e: nat)
    requires i <= |s|
    ensures i <= e <= |s|
    ensures forall j :: i <= j < e ==> IsTokenChar(s[j])
    ensures e < |s| ==> !IsTokenChar(s[e])
    decreases |s| - i
  {
    if i < |s| && IsTokenChar(s[i]) then TokenEnd(s, i + 1) else i
  }

  /** The longest prefix of `s` made of `tchar`. */
  function TokenPrefix(s: string): (r: string)
    ensures |r| <= |s| && r == s[..|r|]
    ensures forall i :: 0 <= i < |r| ==> IsTokenChar(r[i])
    ensures |r| < |s| ==> !IsTokenChar(s[|r|])
  {
    s[..TokenEnd(s, 0)]
  }

  /**
   * `AuthenticationHeaderValue.TryParse` on a single value: surrounding white
   * space is ignored, the scheme is a token, and it is either the whole value
   * or followed by white space and the parameter. `None` is the `false` of
   * `TryParse` and the `FormatException` of `Parse`.
   */
  function ParseCredentials(s: Option<string>): (r: Option<Credentials>)
    ensures r.Some? ==> IsToken(r.value.scheme)
    ensures r.Some? && r.value.parameter.Some? ==>
      r.value.parameter.value != [] && Trimmed(r.value.parameter.value)
  {
    if s.None? then None else ParseTrimmed(TrimEnd(TrimStart(s.value)))
  }

  /** The parse of a value whose surrounding white space is already gone. */
  function ParseTrimmed(t: string): (r: Option<Credentials>)
    requires t == [] || !IsOws(t[|t| - 1])
    ensures r.Some? ==> IsToken(r.value.scheme)
    ensures r.Some? && r.value.parameter.Some? ==>
      r.value.parameter.value != [] && Trimmed(r.value.parameter.value)
  {
    var scheme := TokenPrefix(t);
    var rest := t[|scheme|..];
    if scheme == [] then None
    else if rest == [] then Some(Credentials(scheme, None))
    else if !IsOws(rest[0]) then None
    else
      TrimStartKeepsEnd(rest);
      Some(Credentials(scheme, Some(TrimStart(rest))))
  }

  /** Trimming the start of a value that ends in a non-space character keeps that end. */
  lemma {:induction false} TrimStartKeepsEnd(s: string)
    requires s != [] && !IsOws(s[|s| - 1])
    ensures TrimStart(s) != [] && TrimStart(s)[|TrimStart(s)| - 1] == s[|s| - 1]
  {
    if IsOws(s[0]) {
      TrimStartKeepsEnd(s[1..]);
    }
  }

  /** A value without a single token character has no scheme, so it does not parse. */
  lemma ParseWithoutToken(s: string)
    requires forall i :: 0 <= i < |s| ==> !IsTokenChar(s[i])
    ensures ParseCredentials(Some(s)) == None
  {
    var u := TrimStart(s);
    var t := TrimEnd(u);
    if t != [] {
      assert t[0] == u[0] == s[|s| - |u|];
    }
  }

  /**
   * `AuthenticationHeaderValue.ToString`: the scheme leads; a non-empty
   * parameter follows it after exactly one space, and otherwise nothing does.
   */
  function Render(h: Credentials): (r: string)
    ensures |h.scheme| <= |r| && r[..|h.scheme|] == h.scheme
    ensures r == h.scheme <==> h.parameter.None? || h.parameter.value == []
    ensures r != h.scheme ==> r[|h.scheme|..] == " " + h.parameter.value
  {
    if h.parameter.None? || h.parameter.value == [] then h.scheme
    else h.scheme + " " + h.parameter.value
  }

  /** The scheme name `Bearer` is a token. */
  lemma BearerIsToken()
    ensures IsToken("Bearer")
  {
    assert forall i :: 0 <= i < 6 ==> 'A' <= "Bearer"[i] <= 'Z' || 'a' <= "Bearer"[i] <= 'z';
  }

  /** A prefix of token characters extends the token prefix. */
  lemma TokenPrefixAppend(a: string, b: string)
    requires forall i :: 0 <= i < |a| ==> IsTokenChar(a[i])
    requires b == [] || !IsTokenChar(b[0])
    ensures TokenPrefix(a + b) == a
  {
    var s := a + b;
    assert forall j :: 0 <= j < |a| ==> s[j] == a[j];
    assert b != [] ==> s[|a|] == b[0];
    assert TokenEnd(s, 0) == |a|;
    assert s[..|a|] == a;
  }

  /** A value that does not start with white space is not shortened by `TrimStart`. */
  lemma TrimStartNoop(s: string)
    requires s == [] || !IsOws(s[0])
    ensures TrimStart(s) == s
  {
  }

  /** A value that does not end with white space is not shortened by `TrimEnd`. */
  lemma TrimEndNoop(s: string)
    requires s == [] || !IsOws(s[|s| - 1])
    ensures TrimEnd(s) == s
  {
  }

  /** A value with no surrounding white space is its own trimmed form. */
  lemma TrimBothNoop(s: string)
    requires s != [] && !IsOws(s[0]) && !IsOws(s[|s| - 1])
    ensures TrimEnd(TrimStart(s)) == s
  {
    TrimStartNoop(s);
    TrimEndNoop(s);
  }

  /** How a trimmed value led by a token parses. */
  lemma ParseTrimmedTokenThen(scheme: string, rest: string)
    requires IsToken(scheme)
    requires rest == [] || !IsTokenChar(rest[0])
    requires rest == [] || !IsOws(rest[|rest| - 1])
    ensures (scheme + rest) == [] || !IsOws((scheme + rest)[|scheme + rest| - 1])
    ensures ParseTrimmed(scheme + rest) ==
      if rest == [] then Some(Credentials(scheme, None))
      else if !IsOws(rest[0]) then None
      else Some(Credentials(scheme, Some(TrimStart(rest))))
  {
    var s := scheme + rest;
    assert s[|s| - 1] == if rest == [] then scheme[|scheme| - 1] else rest[|rest| - 1];
    TokenPrefixAppend(scheme, rest);
    assert s[|scheme|..] == rest;
  }

  /** A value with no surrounding white space parses as it stands. */
  lemma ParseUntrimmed(s: string)
    requires s != [] && !IsOws(s[0]) && !IsOws(s[|s| - 1])
    ensures ParseCredentials(Some(s)) == ParseTrimmed(s)
  {
    TrimBothNoop(s);
  }

  /** A scheme alone parses as a scheme without parameter. */
  lemma ParseScheme(scheme: string)
    requires IsToken(scheme)
    ensures ParseCredentials(Some(scheme)) == Some(Credentials(scheme, None))
  {
    ParseUntrimmed(scheme);
    ParseTrimmedTokenThen(scheme, []);
    assert scheme + [] == scheme;
  }

  /** A scheme, a space and a trimmed parameter parse back as that scheme and parameter. */
  lemma ParseSchemeParameter(scheme: string, parameter: string)
    requires IsToken(scheme)
    requires parameter != [] && Trimmed(parameter)
    ensures ParseCredentials(Some(scheme + " " + parameter)) == Some(Credentials(scheme, Some(parameter)))
  {
    var rest := " " + parameter;
    var s := scheme + rest;
    assert s == scheme + " " + parameter;
    assert !IsOws(s[0]) && !IsOws(s[|s| - 1]) by {
      assert s[0] == scheme[0];
      assert s[|s| - 1] == parameter[|parameter| - 1];
    }
    assert !IsOws(rest[|rest| - 1]) && !IsTokenChar(rest[0]);
    ParseUntrimmed(s);
    ParseTrimmedTokenThen(scheme, rest);
    assert TrimStart(rest) == parameter by {
      assert rest[1..] == parameter;
      TrimStartNoop(parameter);
    }
  }

  /**
   * Round trip: a credentials value whose scheme is a token and whose
   * parameter is non-empty and trimmed parses back from its rendering.
   */
  lemma ParseRender(h: Credentials)
    requires IsToken(h.scheme)
    requires h.parameter.Some? ==> h.parameter.value != [] && Trimmed(h.parameter.value)
    ensures ParseCredentials(Some(Render(h))) == Some(h)
  {
    if h.parameter.None? {
      ParseScheme(h.scheme);
    } else {
      ParseSchemeParameter(h.scheme, h.parameter.value);
    }
  }

  /** HTTP methods used by the core. */
  datatype Method = Get | Post

  /** `HttpResponseMessage.IsSuccessStatusCode`: a 2xx status. */
  predicate IsSuccessStatusCode(status: int) {
    200 <= status <= 299
  }

  /** The value of an outbound request, as the server receives it. */
  datatype RequestValue = RequestValue(
    verb: Method,
    uri: string,
    authorization: Option<Credentials>,
    form: Option<map<string, string>>)

  /**
   * `HttpRequestMessage`: created with a method and a target, then given an
   * `Authorization` header and a form-encoded body.
   */
  class HttpRequest {
    const verb: Method
    const uri: string
    var authorization: Option<Credentials>
    var form: Option<map<string, string>>

    /** `new HttpRequestMessage(verb, uri)`: no header, no content. */
    constructor(verb: Method, uri: string)
      ensures this.verb == verb && this.uri == uri
      ensures authorization.None? && form.None?
    {
      this.verb := verb;
      this.uri := uri;
      authorization := None;
      form := None;
    }

    /** What is sent on the wire. */
    function Value(): RequestValue
      reads this
    {
      RequestValue(verb, uri, authorization, form)
    }
  }

  /** The name of the challenge header of section 4.1 of RFC 7235. */
  const WwwAuthenticate := "WWW-Authenticate"

  /** `HttpResponse` of the inbound request: a status code and the header dictionary. */
  class HttpResponse {
    var statusCode: int
    var headers: map<string, string>

    /** A fresh response: status 200, no headers. */
    constructor()
      ensures statusCode == 200 && headers == map[]
    {
      statusCode := 200;
      headers := map[];
    }
  }
}
