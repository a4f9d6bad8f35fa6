# Web Push controller: subscription registry and delivery bookkeeping

A Dafny model of the part of the `webpush` push controller that decides which subscriptions
survive a broadcast:

- the **subscription registry**: a map from endpoint URL to subscription, changed by
  `subscribe` and `unsubscribe` and queried by `isSubscribed` (module `Subscriptions`);
- the **request assembly** for one delivery. It covers the VAPID audience (the origin
  `protocol + "://" + host`), the token claims (expiry 12 hours after the issue time, in
  milliseconds) and the outbound headers. Those are `TTL: 180` (section 5.2 of RFC 8030),
  `Authorization: vapid t=<token>, k=<key>` (section 3 of RFC 8292), and, only when there is
  a body, `Content-Type: application/octet-stream` and `Content-Encoding: aes128gcm`
  (section 2 of RFC 8188). This is module `PushRequest`, with the substring search it needs
  in `Text`;
- the **outcome classifier** `sendPushMessage`, which turns one delivery attempt into
  "remove this subscription" or not. A malformed endpoint or status 404/410 means remove.
  Status 201, 429, 400, 413, any other status, or a transport exception means keep
  (module `Delivery`);
- the two **broadcasts**, with and without payload. Each walks a snapshot of the registry,
  collects the endpoints marked for removal, and removes them only after the walk. In the
  payload broadcast, a subscriber whose encryption throws one of the caught exceptions is
  skipped (module `Broadcast`).

The collaborators the controller calls but whose code is not part of this model are fields
of the `Delivery.Env` datatype, so every property holds for every choice of them:

- `java.net.URL` parsing (`parse`);
- whether `URI.create` and the HTTP request builder accept the endpoint (`uriAccepted`);
- JWT signing (`sign`);
- the server's base64url public key (`publicKey`);
- the HTTP exchange (`exchange`, giving a status code or a network error);
- `CryptoService.encrypt` (`encrypt`, giving the record or the exception class it threw).

The clock is a parameter. A broadcast takes one clock reading per subscriber, because the
controller reads the date inside every delivery attempt. A broadcast works on a snapshot
sequence of subscriptions. `Subscriptions.IsSnapshot` says when that sequence is exactly the
registry's values.

## Model

| member | source | states |
|---|---|---|
| Subscriptions.Subscribe | src/main/java/com/czx/me/controller/PushController.java:69-73 | the endpoint maps to the given subscription, replacing an earlier entry; the key set grows by that endpoint only; every other entry is unchanged |
| Subscriptions.Unsubscribe | src/main/java/com/czx/me/controller/PushController.java:75-78 | exactly the given endpoint's key is gone (nothing happens when it is absent); every remaining entry is unchanged |
| Subscriptions.IsSubscribed | src/main/java/com/czx/me/controller/PushController.java:80-83 | in a registry that stores every entry under its own endpoint, true exactly when some registered subscription has that endpoint |
| Subscriptions.MembershipAfterSubscribe | src/main/java/com/czx/me/controller/PushController.java:80-83 | after subscribe, isSubscribed(e) holds exactly for the new endpoint and the endpoints subscribed before |
| Subscriptions.MembershipAfterUnsubscribe | src/main/java/com/czx/me/controller/PushController.java:76-82 | after unsubscribe, isSubscribed(e) holds exactly for the endpoints subscribed before other than the removed one |
| Subscriptions.UnsubscribeIdempotent | src/main/java/com/czx/me/controller/PushController.java:76-78 | unsubscribing twice is unsubscribing once, and unsubscribing an absent endpoint changes nothing |
| Subscriptions.UnsubscribeUndoesSubscribe | src/main/java/com/czx/me/controller/PushController.java:71-78 | unsubscribe is the inverse of subscribing a new endpoint |
| Subscriptions.SubscribeKeepsWellKeyed | src/main/java/com/czx/me/controller/PushController.java:72 | subscribe keeps every entry stored under its own endpoint |
| Subscriptions.RemoveAll | src/main/java/com/czx/me/controller/PushController.java:139 | the collected endpoints are all gone and every other entry is unchanged |
| Subscriptions.RemoveAllKeepsWellKeyed | src/main/java/com/czx/me/controller/PushController.java:165 | the removal step keeps every entry stored under its own endpoint |
| Subscriptions.UnsubscribeEach | src/main/java/com/czx/me/controller/PushController.java:139 | removing the collected endpoints one at a time, in any order, equals removing the whole set at once |
| PushRequest.SplitOrigin | src/main/java/com/czx/me/controller/PushController.java:176 | checking inverse of the origin built at this line (the code never splits it): an origin is taken apart at its first "://", the two parts reassemble it exactly, and a string without "://" is refused |
| PushRequest.Origin | src/main/java/com/czx/me/controller/PushController.java:175-176 | the origin holds exactly the URL's protocol and host: splitting it gives them back, so port, path and query are not in it |
| PushRequest.TokenClaims | src/main/java/com/czx/me/controller/PushController.java:183-187 | the token's audience is the origin, its expiry is exactly 43,200,000 ms after the issue time, and its subject is the fixed mailto contact |
| PushRequest.ParseAuthorization | src/main/java/com/czx/me/controller/PushController.java:202-203 | checking inverse of the header value built at these lines (the code never parses it): it splits at the first ", k=" after "vapid t=", and the token and key it reads rebuild that exact value |
| PushRequest.Authorization | src/main/java/com/czx/me/controller/PushController.java:202-203 | the value is "vapid t=" + token + ", k=" + key, and a comma-free token and the key are read back from it exactly |
| PushRequest.BuildRequest | src/main/java/com/czx/me/controller/PushController.java:189-204 | the request goes to the endpoint with the given body; TTL is "180" and Authorization is "vapid t=" + token + ", k=" + key; the two content headers appear exactly when there is a body; no other header is set by the controller |
| Delivery.Classify | src/main/java/com/czx/me/controller/PushController.java:209-232 | a response is Gone exactly for 404 and 410, Delivered exactly for 201, one named outcome each for 429, 400 and 413, a transport failure exactly for a network error, and Unhandled for every other status |
| Delivery.Outbound | src/main/java/com/czx/me/controller/PushController.java:176-204 | the request sent carries a token signed over audience protocol + "://" + host and expiry now + 12 h, the server key, and TTL 180 |
| Delivery.SendPushMessage | src/main/java/com/czx/me/controller/PushController.java:172-239 | the attempt says remove exactly when the endpoint does not parse or the service answers 404 or 410; when the request can be sent, it says keep for every other status and for a transport exception; it throws exactly when the endpoint parses but the request builder refuses it |
| Broadcast.NoPayloadStep | src/main/java/com/czx/me/controller/PushController.java:134-137 | a subscriber of the broadcast without payload is marked exactly when sendPushMessage returns true, escapes exactly when it throws, and is never skipped |
| Broadcast.PayloadStep | src/main/java/com/czx/me/controller/PushController.java:148-162 | a subscriber of the payload broadcast is skipped exactly on a caught encryption exception, marked exactly when encryption succeeds and sendPushMessage returns true, and escapes on an uncaught encryption exception or a throwing attempt |
| Broadcast.Collect | src/main/java/com/czx/me/controller/PushController.java:145-163 | the loop keeps what it has collected and adds only endpoints of subscribers it visits; it ends with None only when some subscriber it visits escapes with an exception |
| Broadcast.CollectMarks | src/main/java/com/czx/me/controller/PushController.java:132-138 | the loop over the snapshot ends with exactly the endpoints marked for removal, unless an exception leaves it |
| Broadcast.Reconcile | src/main/java/com/czx/me/controller/PushController.java:145-165 | a broadcast aborts with the registry untouched exactly when some subscriber's exception escapes; otherwise it removes exactly the marked endpoints and keeps every other entry unchanged |
| Broadcast.BroadcastWithoutPayload | src/main/java/com/czx/me/controller/PushController.java:131-140 | the registry loses exactly the endpoints whose sendPushMessage returned true, or nothing when one attempt threw |
| Broadcast.BroadcastWithPayload | src/main/java/com/czx/me/controller/PushController.java:142-166 | the registry loses exactly the endpoints that encrypted and whose sendPushMessage returned true; it aborts exactly when an uncaught encryption exception or a throwing attempt occurs |
| Broadcast.UnmarkedSubscriberIsIrrelevant | src/main/java/com/czx/me/controller/PushController.java:133-138 | a kept or skipped subscriber does not change how the broadcast over the others ends |
| Broadcast.EncryptionFailureIsSkipped | src/main/java/com/czx/me/controller/PushController.java:148-162 | a subscriber whose encryption throws a caught exception does not stop the others: the broadcast ends as it would without that subscriber |
| Broadcast.EncryptionFailureIsNotRemoved | src/main/java/com/czx/me/controller/PushController.java:148-162 | over a snapshot of the registry's values, such a subscriber is never in the removal set and stays registered |
| Broadcast.ReconcileRetainsUnmarked | src/main/java/com/czx/me/controller/PushController.java:132-139 | over a snapshot of the registry's values, a completed broadcast keeps exactly the unmarked entries, each unchanged, and removes only registered endpoints |
| Broadcast.ReconcileKeepsWellKeyed | src/main/java/com/czx/me/controller/PushController.java:165 | a broadcast keeps every entry stored under its own endpoint |
| Broadcast.ReconcileContained | src/main/java/com/czx/me/controller/PushController.java:157-162 | with per-subscriber exceptions contained, a broadcast always reaches the removal step and removes exactly the marked endpoints; it agrees with the code when nothing escapes |
| Broadcast.InvalidSchemeBlocksRemoval | src/main/java/com/czx/me/controller/PushController.java:189-207 | an "ftp:" endpoint next to a 410 endpoint aborts the broadcast and leaves the gone subscription registered; the contained broadcast removes it |

## Left out

- The `publicSigningKey` and `lastNumbersAPIFact` request handlers: each returns a stored value and has no logic.
- The scheduled fetchers `numberFact` and `chuckNorrisJoke`: third-party HTTP and Jackson JSON parsing. The payload broadcast receives the message already serialized as a string.
- Serializing the message to JSON (`writeValueAsString`): it is a foreign library. Its `JsonProcessingException` would also leave the payload loop.
- `CryptoService.encrypt`, ECDH, HKDF and AES-GCM: this code is not part of this model. Encryption is an opaque fallible function. `Uncaught` stands for any exception outside the caught list.
- JWT signing, `ServerKeys` and `java.net.URL`: foreign libraries, kept as opaque fields of `Env`. A `JWTCreationException` from signing is not modelled; it means corrupted key material.
- The HTTP exchange: network I/O, modelled as a status code or a network error. The request carries no timeout, and none is modelled.
- Concurrency: the `ConcurrentHashMap` weak consistency, registry changes during a broadcast, and overlapping `@Scheduled` timers are left out. A broadcast is a sequential fold over a snapshot against an unchanged registry.
- Logging.
- A null endpoint, which `ConcurrentHashMap.put` refuses with an exception: endpoints are strings.
- A subscription stored without keys: `Subscription` always has `Keys`. The `NullPointerException` that line 151 would throw for it is represented by `encrypt` returning `Failure(Uncaught)` for that subscriber.
- HTTP header names are compared case-sensitively: the model only looks up the names it sets itself.
- PushRequest.TokenClaims: does not model 64-bit wrap-around of `now + 12 h`, because the clock value is the current epoch time, far below 2^63. The int product `12 * 60 * 60 * 1000` is 43,200,000 and does not wrap.

The payload loop catches the per-subscriber encryption exceptions it lists at
src/main/java/com/czx/me/controller/PushController.java:157-162, `IllegalStateException`
among them. These are the eight classes of `Delivery.EncryptFailure` other than `Uncaught`.
An exception outside that list leaves the loop before the removal step (see Findings).
Examples:
- the request builder's `IllegalArgumentException`;
- a `NullPointerException` at line 151 for a subscription stored without keys;
- any other runtime exception from `encrypt`.

## Findings

| source | as written | input that shows it | evidently intended | confidence | as-written member | corrected member |
|---|---|---|---|---|---|---|
| src/main/java/com/czx/me/controller/PushController.java:131-166 | `HttpRequest.Builder.uri` (line 201) throws `IllegalArgumentException` for an endpoint that `java.net.URL` (line 175) and `URI.create` (line 189) accept but whose scheme is not http or https. `URI.create` itself throws it only for a string that is not a URI. Nothing in `sendPushMessage`, in either loop or in the scheduled callers catches it, so the loop is left before the removal step, and no endpoint is removed in that broadcast or any later one while the subscription stays registered | registry with `https://push.example/gone` (service answers 410) and `ftp://push.example/other` | one subscriber's failure stays within that subscriber; the 410 endpoint is removed (the corrected member keeps the refused endpoint registered, it only stops it from blocking the others) | not executed; medium (relies on the JDK's scheme check in the request builder) | Broadcast.Reconcile, shown by Broadcast.InvalidSchemeBlocksRemoval | Broadcast.ReconcileContained |
