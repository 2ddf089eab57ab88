/**
 * The `Basic` credentials of section 2 of RFC 7617 that authenticate this
 * service (the relying party) to the introspection endpoint: the user-id and
 * password joined by a colon, encoded as UTF-8, then as Base64.
 */
module BasicAuth {
  import opened Wrappers
  import opened Text
  import Utf8
  import Base64

  /** `string.Join(":", username, password)`: a `null` part counts as empty. */
  function Join(username: Option<string>, password: Option<string>): string {
    OrEmpty(username) + ":" + OrEmpty(password)
  }

  /** A decoded credential split at its first colon into user-id and password (section 2 of RFC 7617). */
  function SplitAtColon(s: string): (r: Option<(string, string)>)
    ensures r.Some? ==> r.value.0 + ":" + r.value.1 == s && ':' !in r.value.0
  {
    if s == [] then None
    else if s[0] == ':' then Some(([], s[1..]))
    else match SplitAtColon(s[1..])
      case None => None
      case Some((u, p)) => Some(([s[0]] + u, p))
  }

  /** `Convert.ToBase64String(Encoding.UTF8.GetBytes(string.Join(":", username, password)))`. */
  function Credential(username: Option<string>, password: Option<string>): string {
    Base64.Encode(Utf8.Encode(Join(username, password)))
  }

  /**
   * What the introspection endpoint does with the credential: Base64, then
   * UTF-8, then the split at the first colon.
   */
  function DecodeCredential(credential: string): Option<(string, string)> {
    match Base64.Decode(credential)
    case None => None
    case Some(octets) =>
      match Utf8.Decode(octets)
      case None => None
      case Some(text) => SplitAtColon(text)
  }

  /** Splitting at the first colon recovers the parts, as long as the user-id has no colon. */
  lemma {:induction false} SplitJoin(user: string, password: string)
    requires ':' !in user
    ensures SplitAtColon(user + ":" + password) == Some((user, password))
  {
    if user != [] {
      assert (user + ":" + password)[1..] == user[1..] + ":" + password;
      SplitJoin(user[1..], password);
      assert [user[0]] + user[1..] == user;
    }
  }

  /**
   * A receiver decodes the credential back to the joined text, and from it to
   * the two parts when the user-id has no colon (section 2 of RFC 7617
   * forbids one).
   */
  lemma CredentialDecodes(username: Option<string>, password: Option<string>)
    ensures Base64.Decode(Credential(username, password)) == Some(Utf8.Encode(Join(username, password)))
    ensures Utf8.Decode(Utf8.Encode(Join(username, password))) == Some(Join(username, password))
    ensures ':' !in OrEmpty(username) ==>
      DecodeCredential(Credential(username, password)) == Some((OrEmpty(username), OrEmpty(password)))
  {
    Base64.DecodeEncode(Utf8.Encode(Join(username, password)));
    Utf8.DecodeEncode(Join(username, password));
    if ':' !in OrEmpty(username) {
      SplitJoin(OrEmpty(username), OrEmpty(password));
    }
  }

  /**
   * Length law: four Base64 symbols per started group of three UTF-8 octets;
   * for ASCII parts that is `4 * ceil((|user| + |password| + 1) / 3)`.
   */
  lemma CredentialLength(username: Option<string>, password: Option<string>)
    ensures |Credential(username, password)| == 4 * ((|Utf8.Encode(Join(username, password))| + 2) / 3)
    ensures (forall i :: 0 <= i < |Join(username, password)| ==> Utf8.IsAscii(Join(username, password)[i])) ==>
      |Credential(username, password)| == 4 * ((|OrEmpty(username)| + |OrEmpty(password)| + 3) / 3)
  {
    var j := Join(username, password);
    Base64.EncodeLength(Utf8.Encode(j));
    if forall i :: 0 <= i < |j| ==> Utf8.IsAscii(j[i]) {
      Utf8.EncodeAscii(j);
    }
  }
}
