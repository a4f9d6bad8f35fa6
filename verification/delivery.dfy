/** One delivery attempt: build the request for a subscription, send it, and decide
    whether the subscription has to be dropped. */
module Delivery {
  import opened Wrappers
  import opened Subscriptions
  import opened PushRequest

  /** What the HTTP exchange gives back: a status code, or an I/O or interrupt exception. */
  datatype Response = Status(code: int) | NetworkError

  /** The branches the response handling distinguishes (each logs differently). */
  datatype DeliveryOutcome =
    | Delivered
    | Gone(code: int)
    | TooManyRequests
    | InvalidRequest
    | PayloadTooLarge
    | Unhandled(code: int)
    | TransportFailure

  function Classify(response: Response): (o: DeliveryOutcome)
    ensures o.Gone? <==> response == Status(404) || response == Status(410)
    ensures o == Delivered <==> response == Status(201)
    ensures o == TooManyRequests <==> response == Status(429)
    ensures o == InvalidRequest <==> response == Status(400)
    ensures o == PayloadTooLarge <==> response == Status(413)
    ensures o.TransportFailure? <==> response.NetworkError?
    ensures o.Unhandled? <==> response.Status? && response.code !in {201, 404, 410, 429, 400, 413}
  {
    match response
    case NetworkError => TransportFailure
    case Status(code) =>
      if code == 201 then Delivered
      else if code == 404 || code == 410 then Gone(code)
      else if code == 429 then TooManyRequests
      else if code == 400 then InvalidRequest
      else if code == 413 then PayloadTooLarge
      else Unhandled(code)
  }

  /** The exception classes of the encryption step; all but `Uncaught` are the ones the
      payload broadcast catches. `Uncaught` stands for any exception outside that list,
      such as the NullPointerException of a subscription stored without keys. */
  datatype EncryptFailure =
    | InvalidKey
    | NoSuchAlgorithm
    | InvalidAlgorithmParameter
    | IllegalState
    | InvalidKeySpec
    | NoSuchPadding
    | IllegalBlockSize
    | BadPadding
    | Uncaught

  predicate Caught(f: EncryptFailure) {
    !f.Uncaught?
  }

  /** The collaborators the controller calls but that are not modelled: URL parsing, whether
      URI.create and the HTTP request builder accept the endpoint, JWT signing, the server's
      base64url public key, the HTTP exchange, and message encryption. */
  datatype Env = Env(
    parse: string -> Option<Url>,
    uriAccepted: string -> bool,
    sign: Claims -> string,
    publicKey: string,
    exchange: Request -> Response,
    encrypt: (string, string, string, int) -> Result<Bytes, EncryptFailure>)

  /** How a delivery attempt ends: it returns "remove this subscription" or not, or an
      exception the controller does not catch escapes it. */
  datatype Attempt = Returned(remove: bool) | Threw

  /** The request sent to a subscription whose endpoint parses, with a token issued at `now`. */
  function Outbound(env: Env, sub: Subscription, body: Option<Bytes>, now: int): (r: Request)
    requires env.parse(sub.endpoint).Some?
    ensures r.uri == sub.endpoint && r.body == body
    ensures var url := env.parse(sub.endpoint).value;
            var token := env.sign(Claims(url.protocol + "://" + url.host, now + 43_200_000, "mailto:example@example.com"));
            HeaderValue(r.headers, "Authorization") == Some("vapid t=" + token + ", k=" + env.publicKey)
    ensures HeaderValue(r.headers, "TTL") == Some("180")
  {
    var token := env.sign(TokenClaims(Origin(env.parse(sub.endpoint).value), now));
    BuildRequest(sub.endpoint, body, token, env.publicKey)
  }

  /** Delivers `body` (or nothing) to `sub` at time `now`. */
  function SendPushMessage(env: Env, sub: Subscription, body: Option<Bytes>, now: int): (a: Attempt)
    ensures a == Returned(true) <==>
              || env.parse(sub.endpoint).None?
              || (&& env.uriAccepted(sub.endpoint)
                  && var response := env.exchange(Outbound(env, sub, body, now));
                     response == Status(404) || response == Status(410))
    ensures a.Threw? <==> env.parse(sub.endpoint).Some? && !env.uriAccepted(sub.endpoint)
    ensures env.parse(sub.endpoint).Some? && env.uriAccepted(sub.endpoint) ==>
              (a == Returned(false) <==> env.exchange(Outbound(env, sub, body, now)) !in {Status(404), Status(410)})
  {
    match env.parse(sub.endpoint)
    case None => Returned(true)
    case Some(_) =>
      if !env.uriAccepted(sub.endpoint) then Threw
      else Returned(Classify(env.exchange(Outbound(env, sub, body, now))).Gone?)
  }
}
