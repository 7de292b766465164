# Webhook OPA extension: subscription registry and forwarding, in Dafny

This project models the core of `WebhookOPAExtension`, the on-premise agent
extension that relays Workato webhooks. The extension does four things:

- It keeps an in-memory registry from connection id to webhook URL. The
  `/webhook/subscribe` and `/webhook/unsubscribe` endpoints fill it and
  empty it.
- Its embedded HTTP listener receives deliveries. It finds the connection id
  in the request path or query (`extractConnectionId`), looks up the URL and
  forwards the request there.
- `POST /proxy` and `GET /proxy` forward a request to a URL that the caller
  names directly.
- Every forward POSTs the body with the inbound headers, minus `host`, after
  a case-sensitive `put` of a fresh `X-Workato-Event-Id`. An inbound header
  that spells that name in another case stays in the map beside it. A status
  below 400 counts as success.

The project has five modules, one per file:

- `java_lang.dfy` (`JavaLang`): the Java library behaviour the extension
  relies on. This covers null references, `equalsIgnoreCase`, `startsWith`,
  `contains`, `String.split` with a one-character separator, and the decimal
  text of an `int`. `Split` removes trailing empty strings, as Java does. It
  is proved to cut the string exactly at its separators (`PiecesJoin`,
  `PiecesSepFree`, `JoinPieces`).
- `correlator.dfy` (`Correlator`): `extractConnectionId` as a function, with
  the precedence of the path over the query proved for all inputs.
- `headers.dfy` (`Headers`): the two header projections as loops, proved
  against their specification functions. It also holds the event-id `put` as
  the endpoints write it, and a corrected stamp beside it.
- `forwarding.dfy` (`Forwarding`): `forwardToWebhook`. Its request
  properties behave like the JDK's header table: setting a name replaces a
  case-insensitive match and keeps the first spelling, and the names the JDK
  reserves for itself, such as `Content-Length`, are ignored. The entries of the
  header HashMap come in an order the model leaves open. The network's
  answer is an `Outcome` parameter, and `Classify` turns it into success,
  upstream error or transport error.
- `extension.dfy` (`WebhookExtension`): the class `Extension`. Its
  `subscriptions` field is the registry, and its methods are the endpoints.
  The UUID, the parsed JSON fields and the network outcome are parameters.

`extractConnectionId` (lines 231-236) takes a path segment only when
`path.split("/")` has more than one element. So a path without `/`, such as
`abc`, falls through to the query, and so does a path of slashes only, such
as `//`. `Correlator.RootedPathCarriesId` states the exact condition for
paths that start with `/`.

## Model

| member | source | states |
|---|---|---|
| JavaLang.Printed | opa-extension/src/main/java/com/workato/proxy/webhook/WebhookOPAExtension.java:225 | a null message is printed as `null`; any other message is printed as itself |
| JavaLang.EqualsIgnoreCase | opa-extension/src/main/java/com/workato/proxy/webhook/WebhookOPAExtension.java:211 | `equalsIgnoreCase`: equal strings match, matching strings have the same length; `EqualsIgnoreCaseIsEquivalence` shows it is an equivalence |
| JavaLang.EqualsIgnoreCaseIsEquivalence | opa-extension/src/main/java/com/workato/proxy/webhook/WebhookOPAExtension.java:211 | matching ignoring case is reflexive, symmetric and transitive |
| JavaLang.LowerAscii | opa-extension/src/main/java/com/workato/proxy/webhook/WebhookOPAExtension.java:391 | `toLowerCase` of a header name: same length, each letter folded, no upper-case letter left |
| JavaLang.LowerAsciiDecidesEquality | opa-extension/src/main/java/com/workato/proxy/webhook/WebhookOPAExtension.java:391 | two names match ignoring case exactly when their lower-case forms are equal |
| JavaLang.StartsWith | opa-extension/src/main/java/com/workato/proxy/webhook/WebhookOPAExtension.java:242 | `startsWith`: the prefix is no longer than the string and agrees with it position by position |
| JavaLang.Contains | opa-extension/src/main/java/com/workato/proxy/webhook/WebhookOPAExtension.java:239 | `contains`: a string that starts with `t` contains it, and a contained string is no longer than the container; `ContainsAt` shows any occurrence at an offset counts |
| JavaLang.ContainsAt | opa-extension/src/main/java/com/workato/proxy/webhook/WebhookOPAExtension.java:239 | an occurrence of `t` at any offset of `s` makes `s.contains(t)` true |
| JavaLang.Split | opa-extension/src/main/java/com/workato/proxy/webhook/WebhookOPAExtension.java:232 | `split` with a one-character separator: the whole string when the separator is absent, otherwise pieces none of which holds the separator and the last of which is non-empty; `PiecesJoin` and `JoinPieces` state that it cuts exactly at the separators |
| JavaLang.TrimTrailingEmpty | opa-extension/src/main/java/com/workato/proxy/webhook/WebhookOPAExtension.java:232 | `split` keeps a prefix of the pieces: its last element is non-empty and every dropped piece is empty |
| JavaLang.PiecesJoin | opa-extension/src/main/java/com/workato/proxy/webhook/WebhookOPAExtension.java:232 | the pieces of a string, joined with the separator, give back the string |
| JavaLang.PiecesSepFree | opa-extension/src/main/java/com/workato/proxy/webhook/WebhookOPAExtension.java:232 | no piece contains the separator |
| JavaLang.JoinPieces | opa-extension/src/main/java/com/workato/proxy/webhook/WebhookOPAExtension.java:240 | splitting a join of separator-free pieces gives back exactly those pieces, empty ones included |
| JavaLang.DecimalString | opa-extension/src/main/java/com/workato/proxy/webhook/WebhookOPAExtension.java:413 | the text printed for a non-negative code is all digits, at least one, with no leading zero |
| JavaLang.ParseDecimalString | opa-extension/src/main/java/com/workato/proxy/webhook/WebhookOPAExtension.java:413 | reading the printed digits back gives the code |
| Correlator.ExtractConnectionId | opa-extension/src/main/java/com/workato/proxy/webhook/WebhookOPAExtension.java:229-249 | an id taken from the path is a non-empty segment without `/`; with no path id and no `connection_id=` in the query, or no query, the result is null; `PathSegmentWins` and `QueryFallback` state which value it takes |
| Correlator.FirstIdParam | opa-extension/src/main/java/com/workato/proxy/webhook/WebhookOPAExtension.java:240-245 | absent exactly when no parameter starts with `connection_id=`; otherwise the raw text after that prefix in the first such parameter |
| Correlator.SplitLastIsLastSegment | opa-extension/src/main/java/com/workato/proxy/webhook/WebhookOPAExtension.java:232-234 | when `split("/")` has more than one element, its last element is the path's last non-empty segment |
| Correlator.LastSegmentUnique | opa-extension/src/main/java/com/workato/proxy/webhook/WebhookOPAExtension.java:231-236 | a path has only one last non-empty segment |
| Correlator.RootedPathCarriesId | opa-extension/src/main/java/com/workato/proxy/webhook/WebhookOPAExtension.java:231-233 | a path starting with `/` yields an id from the path exactly when it has a character other than `/`; `/` and `//` fall through to the query |
| Correlator.PathSegmentWins | opa-extension/src/main/java/com/workato/proxy/webhook/WebhookOPAExtension.java:231-236 | when the path carries an id, the result is its last non-empty segment, which is never empty, and the query, even one with `connection_id=`, does not change it |
| Correlator.QueryFallback | opa-extension/src/main/java/com/workato/proxy/webhook/WebhookOPAExtension.java:239-248 | when the path carries no id, the result is the first `connection_id=` parameter among all `&`-pieces; the `contains` pre-check and the trimming by `split` change nothing |
| Correlator.QueryFirstMatch | opa-extension/src/main/java/com/workato/proxy/webhook/WebhookOPAExtension.java:239-245 | for a query made of parameters, the first one that starts with `connection_id=` gives the id: undecoded, and possibly empty |
| Correlator.FirstIdParamAt | opa-extension/src/main/java/com/workato/proxy/webhook/WebhookOPAExtension.java:241-245 | the parameter at the first matching index decides the value |
| Correlator.QueryWithoutIdParam | opa-extension/src/main/java/com/workato/proxy/webhook/WebhookOPAExtension.java:239-248 | with no path id and no `connection_id=` parameter, or with no query at all, the result is null |
| Correlator.PathExample | opa-extension/src/main/java/com/workato/proxy/webhook/WebhookOPAExtension.java:231-236 | `/abc/conn123` with query `connection_id=other` gives `conn123` |
| Correlator.RootPathExamples | opa-extension/src/main/java/com/workato/proxy/webhook/WebhookOPAExtension.java:231-248 | `/` with `connection_id=xyz` gives `xyz`; `/` with no query gives null |
| Correlator.RepeatedParamExample | opa-extension/src/main/java/com/workato/proxy/webhook/WebhookOPAExtension.java:240-245 | in `a=1&connection_id=&connection_id=z` the first, empty occurrence wins |
| Headers.IsHost | opa-extension/src/main/java/com/workato/proxy/webhook/WebhookOPAExtension.java:211 | `"host".equalsIgnoreCase(key)` holds exactly when the name lower-cases to `host` |
| Headers.ProjectExchangeHeaders | opa-extension/src/main/java/com/workato/proxy/webhook/WebhookOPAExtension.java:209-214 | whatever the iteration order, the result is every non-`host` name that has a value, mapped to its first value |
| Headers.ExtractHeaders | opa-extension/src/main/java/com/workato/proxy/webhook/WebhookOPAExtension.java:364-375 | whatever the enumeration order, the result is every non-`host` header name with its value |
| Headers.PutEventId | opa-extension/src/main/java/com/workato/proxy/webhook/WebhookOPAExtension.java:217 | as written: the fresh id is added under `X-Workato-Event-Id` and every other header, including other spellings of that name, is kept with its value |
| Headers.StampEventId | opa-extension/src/main/java/com/workato/proxy/webhook/WebhookOPAExtension.java:217 | corrected stamp: `X-Workato-Event-Id` maps to the fresh id and no other name matches it ignoring case; every other header is kept unchanged |
| Headers.PutMatchesStamp | opa-extension/src/main/java/com/workato/proxy/webhook/WebhookOPAExtension.java:217 | the `put` as written and the corrected stamp give the same headers exactly when no other spelling of `X-Workato-Event-Id` is present |
| Headers.ForwardedExchangeHeaders | opa-extension/src/main/java/com/workato/proxy/webhook/WebhookOPAExtension.java:209-217 | the listener forwards no `host` header, the fresh id under `X-Workato-Event-Id`, and every other name with a value mapped to its first value; the fresh id is the only event-id header exactly when the request carried no other spelling of it |
| Headers.ForwardedServletHeaders | opa-extension/src/main/java/com/workato/proxy/webhook/WebhookOPAExtension.java:289-292 | the same for the `/proxy` endpoints |
| Headers.ListenerKeepsInboundEventId | opa-extension/src/main/java/com/workato/proxy/webhook/WebhookOPAExtension.java:209-217 | on the listener path an inbound event-id header, whose name the server never spells `X-Workato-Event-Id`, is always forwarded beside the fresh id |
| Forwarding.Classify | opa-extension/src/main/java/com/workato/proxy/webhook/WebhookOPAExtension.java:403-416 | a code below 400 delivers the body verbatim; a code of 400 or more is an upstream error with that code and body; a transport failure keeps its message |
| Forwarding.UpstreamErrorMessage | opa-extension/src/main/java/com/workato/proxy/webhook/WebhookOPAExtension.java:413 | the exception message starts with `Webhook returned error: `; `UpstreamErrorMessageRoundTrip` shows it keeps the exact code and body |
| Forwarding.IntString | opa-extension/src/main/java/com/workato/proxy/webhook/WebhookOPAExtension.java:413 | a non-negative code prints as its decimal digits |
| Forwarding.UpstreamErrorMessageRoundTrip | opa-extension/src/main/java/com/workato/proxy/webhook/WebhookOPAExtension.java:413 | `Webhook returned error: <code> - <body>` can be parsed back into the exact code and body, even when the body contains ` - ` |
| Forwarding.FailureMessage | opa-extension/src/main/java/com/workato/proxy/webhook/WebhookOPAExtension.java:412-414 | an upstream error's message starts with `Webhook returned error: `; a transport error's message is passed through and may be null |
| Forwarding.SetRequestProperty | opa-extension/src/main/java/com/workato/proxy/webhook/WebhookOPAExtension.java:391 | the JDK header table's `set`: every existing name keeps its spelling, some name matching the key ignoring case now holds the value, and the table grows by one exactly when no name matched |
| Forwarding.FindProperty | opa-extension/src/main/java/com/workato/proxy/webhook/WebhookOPAExtension.java:391 | finds a property whose name matches ignoring case, and finds nothing only when no name matches |
| Forwarding.SetRequestPropertyEffect | opa-extension/src/main/java/com/workato/proxy/webhook/WebhookOPAExtension.java:385-391 | `setRequestProperty` keeps names distinct ignoring case; every name that matches the key now reads the new value, and every other name is unchanged |
| Forwarding.DefaultProperty | opa-extension/src/main/java/com/workato/proxy/webhook/WebhookOPAExtension.java:385 | before the forwarded headers, only `Content-Type`, in any case, is set, and it is `application/json` |
| Forwarding.EffectiveHeader | opa-extension/src/main/java/com/workato/proxy/webhook/WebhookOPAExtension.java:385-392 | a header takes the value of the last entry that matches it ignoring case and whose name the JDK does not reserve (the reserved list, or a `sec-` prefix); with no such entry it keeps the default |
| Forwarding.Restricted | opa-extension/src/main/java/com/workato/proxy/webhook/WebhookOPAExtension.java:391 | the names HttpURLConnection reserves: the JDK's list compared in lower case, `Connection` excepted with value `close`, and every name starting with `sec-`; `Content-Type` is never reserved |
| Forwarding.RestrictedIgnoresCase | opa-extension/src/main/java/com/workato/proxy/webhook/WebhookOPAExtension.java:391 | whether a name is reserved does not depend on its case |
| Forwarding.ConnectionSetRequestProperty | opa-extension/src/main/java/com/workato/proxy/webhook/WebhookOPAExtension.java:391 | HttpURLConnection's `setRequestProperty`: a reserved name leaves the properties unchanged; any other name keeps existing spellings and leaves some property matching the key ignoring case holding the value |
| Forwarding.AdmittedHeaders | opa-extension/src/main/java/com/workato/proxy/webhook/WebhookOPAExtension.java:391 | the headers `setRequestProperty` does not ignore: exactly those whose name is neither reserved (`Connection: close` excepted) nor starts with `sec-`, with their values |
| Forwarding.ForwardedHeaderValue | opa-extension/src/main/java/com/workato/proxy/webhook/WebhookOPAExtension.java:390-392 | for any order of the map's entries, a name that no admitted header matches keeps its default, a name exactly one admitted header matches gets that header's value, overriding `Content-Type`, and any other name gets the value of one of its admitted matches |
| Forwarding.HashMapEntries | opa-extension/src/main/java/com/workato/proxy/webhook/WebhookOPAExtension.java:390 | `entrySet()` lists every entry of the map exactly once |
| Forwarding.ApplyEntryStep | opa-extension/src/main/java/com/workato/proxy/webhook/WebhookOPAExtension.java:390-392 | one `setRequestProperty` of the loop, reserved names ignored, keeps the properties equal to the effective values of the entries applied so far |
| Forwarding.OpenConnection | opa-extension/src/main/java/com/workato/proxy/webhook/WebhookOPAExtension.java:384-394 | POST to the URL with the body, 30000 ms connect and read timeouts, output enabled, and each header equal to its effective value after the default and the entries in order |
| Forwarding.ForwardToWebhook | opa-extension/src/main/java/com/workato/proxy/webhook/WebhookOPAExtension.java:377-421 | the request carries the call's URL and body and the forwarded headers as stated above; the result is the classification of the network's answer |
| Forwarding.EventIdNotRestricted | opa-extension/src/main/java/com/workato/proxy/webhook/WebhookOPAExtension.java:391 | no spelling of `X-Workato-Event-Id` is a reserved name, so its `setRequestProperty` is never ignored |
| Forwarding.EventIdOnTheWire | opa-extension/src/main/java/com/workato/proxy/webhook/WebhookOPAExtension.java:292 | after the corrected stamp, the connection carries the fresh event id for every order of the header map |
| Forwarding.ReplayedEventIdWinsOnTheWire | opa-extension/src/main/java/com/workato/proxy/webhook/WebhookOPAExtension.java:289-292 | as written: an inbound `x-workato-event-id: replayed` stays beside the fresh id, and in the HashMap's order it replaces the fresh id on the wire |
| WebhookExtension.Status | opa-extension/src/main/java/com/workato/proxy/webhook/WebhookOPAExtension.java:281-309 | replies with a result are 200, a missing target is 400, and a failure is 500 |
| WebhookExtension.OptString | opa-extension/src/main/java/com/workato/proxy/webhook/WebhookOPAExtension.java:107-108 | a missing JSON field reads as the empty string |
| WebhookExtension.NotFoundBody | opa-extension/src/main/java/com/workato/proxy/webhook/WebhookOPAExtension.java:204 | the 404 body names the connection id |
| WebhookExtension.ErrorBody | opa-extension/src/main/java/com/workato/proxy/webhook/WebhookOPAExtension.java:225 | the 500 body contains the exception message, or `null` |
| WebhookExtension.TargetUrl | opa-extension/src/main/java/com/workato/proxy/webhook/WebhookOPAExtension.java:276-279 | the `webhook_url` query parameter wins whenever it is present, even empty; the body's field is consulted only when the parameter is absent |
| WebhookExtension.BuildGetBody | opa-extension/src/main/java/com/workato/proxy/webhook/WebhookOPAExtension.java:337-344 | the GET body holds every request parameter except `webhook_url`, with its value |
| WebhookExtension.ProxyReply | opa-extension/src/main/java/com/workato/proxy/webhook/WebhookOPAExtension.java:295-306 | success carries the forwarded body; an upstream error carries `Webhook returned error: <code> - <body>`; a transport error carries its message, which may be null |
| WebhookExtension.ListenerReply | opa-extension/src/main/java/com/workato/proxy/webhook/WebhookOPAExtension.java:220-225 | success is 200 with the upstream body verbatim; any failure is 500 with the message in the body |
| WebhookExtension.ForwardWithEventId | opa-extension/src/main/java/com/workato/proxy/webhook/WebhookOPAExtension.java:216-220 | each endpoint forwards its target and body after the `put` of the fresh id; the connection carries the value of one of the headers named `X-Workato-Event-Id` ignoring case, the fresh id when no other spelling was forwarded, and the result is the classification of the answer |
| WebhookExtension.EventIdHeaderIsSoleMatch | opa-extension/src/main/java/com/workato/proxy/webhook/WebhookOPAExtension.java:217 | after the `put`, `X-Workato-Event-Id` is the only admitted header of that name ignoring case exactly when no other spelling is in the map |
| WebhookExtension.Extension.constructor | opa-extension/src/main/java/com/workato/proxy/webhook/WebhookOPAExtension.java:45 | the registry starts empty |
| WebhookExtension.Extension.Lookup | opa-extension/src/main/java/com/workato/proxy/webhook/WebhookOPAExtension.java:202 | `get` returns the stored URL, or null for an id never stored |
| WebhookExtension.Extension.WebhookSubscribe | opa-extension/src/main/java/com/workato/proxy/webhook/WebhookOPAExtension.java:99-131 | the registry becomes the old one with the id, possibly empty, mapped to the URL, possibly empty; nothing else changes; a body that cannot be parsed gives 500 and leaves the registry alone |
| WebhookExtension.Extension.WebhookUnsubscribe | opa-extension/src/main/java/com/workato/proxy/webhook/WebhookOPAExtension.java:136-164 | the registry becomes the old one without the id; success is reported even if the id was absent; a body that cannot be parsed gives 500 and leaves the registry alone |
| WebhookExtension.Extension.HandleIncomingRequest | opa-extension/src/main/java/com/workato/proxy/webhook/WebhookOPAExtension.java:183-227 | no id or an empty id gives 400 and no forward; no URL or an empty URL gives 404 with the id in the body and no forward; otherwise one forward of the body verbatim to the stored URL with the projected headers and the `put` of the fresh id, then 200 with the upstream body or 500; the fresh id is on the wire when no other spelling of its name was forwarded, and otherwise the value of one of those spellings is |
| WebhookExtension.Extension.ProxyPost | opa-extension/src/main/java/com/workato/proxy/webhook/WebhookOPAExtension.java:262-310 | a body that cannot be parsed gives 500; a missing or empty target gives 400 and no forward, and an empty query parameter never falls back to the body; otherwise one forward of the re-serialised body with the projected headers and the `put` of the fresh id, which is on the wire when no other spelling of its name was forwarded |
| WebhookExtension.Extension.ProxyGet | opa-extension/src/main/java/com/workato/proxy/webhook/WebhookOPAExtension.java:314-362 | a missing or empty `webhook_url` gives 400 and no forward; otherwise one forward of every other parameter as the body, with the projected headers and the `put` of the fresh id, which is on the wire when no other spelling of its name was forwarded |
| WebhookExtension.SubscribeDeliverUnsubscribe | opa-extension/src/main/java/com/workato/proxy/webhook/WebhookOPAExtension.java:183-206 | after subscribing `conn123`, a delivery to `/abc/conn123` reaches the stored URL and answers 200 with the upstream body; after unsubscribing, the same delivery answers 404 naming `conn123` and forwards nothing |

## Left out

- The real network. This covers opening the URL, writing the UTF-8 body,
  reading the response, the timeouts firing and `disconnect`. The network's
  answer is an `Outcome` parameter. A malformed URL and any I/O exception
  are a `TransportFailure` with their message.
- The HTTP server start-up, the socket handling, and the byte writing of
  `sendResponse`. A failure while writing a response is not modelled.
- The constructor's environment and profile discovery. It is Spring
  configuration lookup, not relay logic.
- The `/health` endpoint and all logging.
- The JSON library (jettison). A parsed body is its fields as strings plus
  its re-serialised text. `proxyGet` takes the serialiser as a function
  parameter. The JSON replies of the Spring endpoints are the `Reply`
  datatype, so field order and escaping are not modelled. A null error
  message leaves the `error` field out, which is `Failed(None)`.
- UUID generation. The event id is a parameter.
- The thread-safety of the registry's `ConcurrentHashMap`. The registry is
  a sequential map.
- Reading request and response bodies line by line. Bodies are opaque
  strings, and an exception while reading the inbound body is not modelled.
- Percent-decoding. `URI.getPath()` and `getQuery()` decode before
  `extractConnectionId` runs, so the model's path and query are those
  decoded strings.
- The name normalisation of the HttpExchange header map, which capitalises
  the first letter and lower-cases the rest. Header names arrive in the model
  as the map holds them; `Headers.ExchangeSpelling` states the one consequence
  the model uses.
- Forwarding.HashMapEntries: the order of `entrySet()` is left open. It is
  not Java's bucket order. Every proof holds for all orders, except the
  counterexample in the Findings, which fixes one order.
- Forwarding.ForwardToWebhook: with several admitted case variants of one
  name, it states only that the value is one of theirs. Which one depends on
  the HashMap order.
- Forwarding.Restricted: the reserved names are those of the JDK's
  HttpURLConnection, its list and its `sec-` prefix rule, with
  `sun.net.http.allowRestrictedHeaders` unset. The name is lower-cased with
  ASCII folding only. `setRequestProperty` also throws
  `IllegalArgumentException` for a name holding a line break or `:`, and for
  a value holding a line break not followed by a space or tab. Header names
  and values parsed from a request do not hold these, so that path is not
  modelled.
- Forwarding.Classify: an error status whose connection has no error
  stream is not modelled. The JDK's `getErrorStream()` can return null, and
  reading from it would then throw a `NullPointerException` with a null
  message, giving 500 with a null error instead of the upstream error.
- JavaLang.EqualsIgnoreCase: case folding is ASCII only. Java's
  `equalsIgnoreCase` also folds non-ASCII letters.
- `workato-sdk/connector.rb`. It is a connector declaration for the Workato
  SDK, outside the extension.

## Findings

| source | as written | input that shows it | evidently intended | confidence | as-written member | corrected member |
|---|---|---|---|---|---|---|
| opa-extension/src/main/java/com/workato/proxy/webhook/WebhookOPAExtension.java:289-292 | `headers.put("X-Workato-Event-Id", uuid)` is case-sensitive, so an inbound `x-workato-event-id` stays in the map. Then `setRequestProperty` at line 391 is case-insensitive, so the entry iterated last sets the value on the wire. | `POST /proxy?webhook_url=…` with header `x-workato-event-id: replayed`. In a 16-bucket HashMap, `X-Workato-Event-Id` hashes to bucket 9 and `x-workato-event-id` to bucket 12, so the inbound value is applied last. | Every forwarded call carries the fresh event id and overrides any inbound header of that name, so that Workato's deduplication cannot be defeated by replaying an old id. | medium; bucket positions computed from Java's `String.hashCode`, not executed | Forwarding.ReplayedEventIdWinsOnTheWire | Headers.StampEventId |

The endpoint methods model the `put` as written (`Headers.PutEventId`), and
prove the fresh id on the wire only when no other spelling of its name was
forwarded. The corrected stamp, `Headers.StampEventId`, removes every header
whose name matches `X-Workato-Event-Id` ignoring case before it adds the
fresh one. `Forwarding.EventIdOnTheWire` proves that with it the fresh id
reaches the wire whatever the map's order, and `Headers.PutMatchesStamp`
shows that the two differ exactly on requests that carry another spelling.

The listener path has the same shape. There, the exchange normalises
an inbound `x-workato-event-id` to `X-workato-event-id`, which lands in
bucket 8, before the fresh id, so the fresh id happens to win with 16
buckets.
