/**
 * The values exchanged with the authorization server, shared by both client
 * versions, and the network they travel over. The network is an oracle: the
 * model never performs I/O, it records which calls it makes and reads their
 * results from the `Network` it is given.
 */
module Introspection {
  import opened Wrappers
  import opened Http

  /**
   * The parsed introspection response of section 2.2 of RFC 7662
   * (`IntrospectionResponseModel`): `active` may be absent or `null`, and so
   * may `sub`.
   */
  datatype IntrospectionResponse = IntrospectionResponse(active: Option<bool>, sub: Option<string>)

  /** The discovery document, reduced to the field the core reads. */
  datatype ServerMetadata = ServerMetadata(introspectionEndpoint: string)

  /** The result of a network call: its value, or a failure that surfaces as an exception. */
  datatype Fetch<+T> = Fetched(value: T) | Failed

  /**
   * A member of a JSON object as a typed reader sees it: absent or `null`, a
   * value of the expected type, or a value of some other type.
   */
  datatype Member<+T> = Missing | Value(value: T) | OtherType

  /** `Some` of a typed member, `None` of a missing one. */
  function MemberOption<T>(m: Member<T>): (r: Option<T>)
    requires !m.OtherType?
    ensures r.Some? <==> m.Value?
    ensures r.Some? ==> r.value == m.value
  {
    if m.Value? then Some(m.value) else None
  }

  /** A JSON object, reduced to the members either client looks at. */
  datatype JsonObject = JsonObject(active: Member<bool>, sub: Member<string>)

  /**
   * What the body of the introspection reply is on the wire: not JSON at all,
   * the literal `null`, a JSON value that is not an object (an array, a
   * number, a string, a boolean), or an object. Each client version reads it
   * its own way.
   */
  datatype Body = NotJson | JsonNull | NotObject | Object(members: JsonObject)

  /** The reply to the introspection POST. */
  datatype HttpReply = HttpReply(status: int, body: Body)

  /**
   * The authorization server as the client sees it: what a GET of a discovery
   * URL yields, and what a POSTed request yields. Connection failures, time-outs,
   * a discovery GET answered with a status outside 2xx, and an absent or
   * non-string `introspection_endpoint` are `Failed`.
   */
  datatype Network = Network(
    discover: string -> Fetch<ServerMetadata>,
    send: RequestValue -> Fetch<HttpReply>)

  /** One outbound call, in the order they are made. */
  datatype Call = Discover(url: string) | Send(request: RequestValue)

  /** The request is a POST of exactly one form field, `token`, carrying `token`. */
  predicate IsIntrospectionPost(r: RequestValue, endpoint: string, token: string) {
    r.verb == Post && r.uri == endpoint &&
    r.form.Some? && r.form.value.Keys == {"token"} && r.form.value["token"] == token
  }
}
