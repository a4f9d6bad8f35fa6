/** Assembly of the outbound Web Push request: origin, VAPID claims, headers and body. */
module PushRequest {
  import opened Wrappers
  import Text

  newtype Byte = b: int | 0 <= b < 256

  type Bytes = seq<Byte>

  /** The parts of a parsed endpoint URL (java.net.URL) that matter here. */
  datatype Url = Url(protocol: string, host: string, port: int, path: string, query: string)

  const SchemeSeparator := "://"

  /** The VAPID audience: scheme and host of the endpoint, without port, path or query.
      Splitting it again gives back exactly the protocol and the host. */
  function Origin(url: Url): (o: string)
    ensures ':' !in url.protocol ==> SplitOrigin(o) == Some((url.protocol, url.host))
  {
    var o := url.protocol + SchemeSeparator + url.host;
    if ':' in url.protocol then o
    else
      Text.FirstMatchAfterPrefix(url.protocol, SchemeSeparator, url.host);
      assert o[..|url.protocol|] == url.protocol;
      assert o[|url.protocol| + |SchemeSeparator|..] == url.host;
      o
  }

  /** Takes an origin apart at its first "://": the checking inverse of `Origin`. */
  function SplitOrigin(origin: string): (r: Option<(string, string)>)
    ensures r.Some? ==> r.value.0 + SchemeSeparator + r.value.1 == origin
    ensures r.Some? ==> forall j :: 0 <= j < |r.value.0| ==> !Text.MatchesAt(origin, SchemeSeparator, j)
    ensures r.None? ==> forall j :: !Text.MatchesAt(origin, SchemeSeparator, j)
  {
    match Text.IndexOf(origin, SchemeSeparator, 0)
    case None => None
    case Some(k) =>
      assert origin == origin[..k] + origin[k..k + |SchemeSeparator|] + origin[k + |SchemeSeparator|..];
      Some((origin[..k], origin[k + |SchemeSeparator|..]))
  }

  /** Twelve hours in milliseconds; as a Java int product it stays below 2^31, so it does not wrap. */
  const TokenLifetimeMillis: int := 12 * 60 * 60 * 1000

  const Subject := "mailto:example@example.com"

  /** The claims of the VAPID JSON Web Token (section 2 of RFC 8292). */
  datatype Claims = Claims(audience: string, expiresAt: int, subject: string)

  /** The claims signed for a request to `origin` issued at `now` (milliseconds). */
  function TokenClaims(origin: string, now: int): (c: Claims)
    ensures c.audience == origin
    ensures c.expiresAt - now == 43_200_000
    ensures c.subject == "mailto:example@example.com"
  {
    Claims(origin, now + TokenLifetimeMillis, Subject)
  }

  const AuthorizationScheme := "vapid t="
  const KeyParameter := ", k="

  /** The `Authorization` header value of the vapid scheme (section 3 of RFC 8292). A token
      without commas (a JWT is base64url text and dots) is read back together with the key. */
  function Authorization(token: string, publicKey: string): (v: string)
    ensures ',' !in token ==> ParseAuthorization(v) == Some((token, publicKey))
  {
    var v := AuthorizationScheme + token + KeyParameter + publicKey;
    if ',' in token then v
    else
      var n := |AuthorizationScheme|;
      assert v[..n] == AuthorizationScheme;
      var rest := v[n..];
      assert rest == token + KeyParameter + publicKey;
      Text.FirstMatchAfterPrefix(token, KeyParameter, publicKey);
      assert rest[..|token|] == token;
      assert rest[|token| + |KeyParameter|..] == publicKey;
      v
  }

  /** Reads the token and the key back out of a vapid `Authorization` value, splitting at the
      first ", k=": the checking inverse of `Authorization`. */
  function ParseAuthorization(value: string): (r: Option<(string, string)>)
    ensures r.Some? ==> "vapid t=" + r.value.0 + ", k=" + r.value.1 == value
    ensures r.Some? ==> forall j :: |AuthorizationScheme| <= j < |AuthorizationScheme| + |r.value.0| ==> !Text.MatchesAt(value, ", k=", j)
  {
    var n := |AuthorizationScheme|;
    if |value| < n || value[..n] != AuthorizationScheme then None
    else
      var rest := value[n..];
      match Text.IndexOf(rest, KeyParameter, 0)
      case None => None
      case Some(k) =>
        assert rest == rest[..k] + rest[k..k + |KeyParameter|] + rest[k + |KeyParameter|..];
        assert value == value[..n] + rest;
        forall j | n <= j < n + k
          ensures !Text.MatchesAt(value, KeyParameter, j)
        {
          Text.MatchesAtSuffix(value, KeyParameter, n, j - n);
        }
        Some((rest[..k], rest[k + |KeyParameter|..]))
  }

  datatype Header = Header(name: string, value: string)

  /** An HTTP POST to `uri`; `body` is None when the request is sent without one. */
  datatype Request = Request(uri: string, headers: seq<Header>, body: Option<Bytes>)

  /** The value of the first header called `name`. */
  function HeaderValue(headers: seq<Header>, name: string): Option<string>
    decreases |headers|
  {
    if |headers| == 0 then None
    else if headers[0].name == name then Some(headers[0].value)
    else HeaderValue(headers[1..], name)
  }

  /** Time to live in seconds (section 5.2 of RFC 8030). */
  const TimeToLive := "180"
  const OctetStream := "application/octet-stream"
  /** The content coding of section 2 of RFC 8188. */
  const Aes128Gcm := "aes128gcm"

  /** The request for `endpoint`: content headers only with a body, then TTL and Authorization. */
  function BuildRequest(endpoint: string, body: Option<Bytes>, token: string, publicKey: string): (r: Request)
    ensures r.uri == endpoint && r.body == body
    ensures HeaderValue(r.headers, "TTL") == Some("180")
    ensures HeaderValue(r.headers, "Authorization") == Some("vapid t=" + token + ", k=" + publicKey)
    ensures HeaderValue(r.headers, "Content-Type").Some? <==> body.Some?
    ensures HeaderValue(r.headers, "Content-Encoding").Some? <==> body.Some?
    ensures body.Some? ==> HeaderValue(r.headers, "Content-Type") == Some("application/octet-stream")
    ensures body.Some? ==> HeaderValue(r.headers, "Content-Encoding") == Some("aes128gcm")
    ensures forall h :: h in r.headers ==> h.name in {"Content-Type", "Content-Encoding", "TTL", "Authorization"}
  {
    var common := [Header("TTL", TimeToLive), Header("Authorization", Authorization(token, publicKey))];
    assert common[1..] == [common[1]] && common[1..][1..] == [];
    assert HeaderValue(common, "TTL") == Some(TimeToLive);
    assert HeaderValue(common, "Authorization") == Some(Authorization(token, publicKey));
    if body.None? then
      assert HeaderValue(common[1..], "Content-Type") == None;
      assert HeaderValue(common[1..], "Content-Encoding") == None;
      Request(endpoint, common, body)
    else
      var headers := [Header("Content-Type", OctetStream), Header("Content-Encoding", Aes128Gcm)] + common;
      assert headers[1..] == [headers[1]] + common;
      assert headers[1..][1..] == common;
      Request(endpoint, headers, body)
  }
}
