/**
 * WebhookOPAExtension: the subscription registry, the inbound listener's
 * dispatch decision, and the two `/proxy` endpoints. JSON parsing, the
 * UUID and the network are parameters: a parsed body is its string
 * fields, the event id is given, and the network's answer is an `Outcome`.
 */
module WebhookExtension {
  import opened JavaLang
  import opened Correlator
  import opened Headers
  import opened Forwarding

  /** A request body as `new JSONObject(text)` sees it. */
  datatype JsonBody =
    | Parsed(fields: map<string, string>, serialized: string)
    | Unparsable(message: Option<string>)

  /** What the listener reads from an HttpExchange. */
  datatype Exchange = Exchange(
    path: Option<string>,
    query: Option<string>,
    headers: map<string, seq<string>>,
    body: string)

  /**
   * What the `/proxy` endpoints read from the servlet request: each header
   * name with `getHeader(name)` and each parameter name with
   * `getParameter(name)`.
   */
  datatype ServletRequest = ServletRequest(headers: map<string, string>, parameters: map<string, string>)

  /** The JSON replies of the Spring endpoints. */
  datatype Reply =
    | Subscribed(connectionId: string, webhookUrl: string)
    | Unsubscribed(connectionId: string)
    | Proxied(response: string)
    | TargetMissing
    | Failed(error: Option<string>)

  /** The status each reply is sent with. */
  function Status(r: Reply): (code: int)
    ensures code == 200 <==> r.Subscribed? || r.Unsubscribed? || r.Proxied?
    ensures code == 400 <==> r.TargetMissing?
    ensures code == 500 <==> r.Failed?
  {
    match r
    case Subscribed(_, _) => 200
    case Unsubscribed(_) => 200
    case Proxied(_) => 200
    case TargetMissing => 400
    case Failed(_) => 500
  }

  const ConnectionIdField := "connection_id"
  const WebhookUrlField := "workato_webhook_url"
  const TargetField := "webhook_url"

  /** `optString(key)`: a missing field reads as the empty string. */
  function OptString(fields: map<string, string>, key: string): (s: string)
    ensures key in fields ==> s == fields[key]
    ensures key !in fields ==> s == ""
  {
    if key in fields then fields[key] else ""
  }

  // ---------------------------------------------------------------------
  // Listener bodies
  // ---------------------------------------------------------------------

  const MissingIdBody := "{\"error\": \"connection_id is required in path or query\"}"
  const NotFoundPrefix := "{\"error\": \"No webhook registered for connection_id: "
  const ErrorPrefix := "{\"error\": \""
  const ErrorSuffix := "\"}"

  /** The 404 body, which names the connection id it could not find. */
  function NotFoundBody(id: string): (body: string)
    ensures Contains(body, id)
    ensures StartsWith(body, NotFoundPrefix)
  {
    var body := NotFoundPrefix + id + ErrorSuffix;
    assert body[|NotFoundPrefix|..][..|id|] == id;
    ContainsAt(body, id, |NotFoundPrefix|);
    assert body[..|NotFoundPrefix|] == NotFoundPrefix;
    body
  }

  /** The 500 body; a null exception message prints as `null`. */
  function ErrorBody(message: Option<string>): (body: string)
    ensures Contains(body, Printed(message))
    ensures StartsWith(body, ErrorPrefix)
  {
    var body := ErrorPrefix + Printed(message) + ErrorSuffix;
    assert body[|ErrorPrefix|..][..|Printed(message)|] == Printed(message);
    ContainsAt(body, Printed(message), |ErrorPrefix|);
    assert body[..|ErrorPrefix|] == ErrorPrefix;
    body
  }

  // ---------------------------------------------------------------------
  // The `/proxy` endpoints
  // ---------------------------------------------------------------------

  /**
   * proxyPost's target: the `webhook_url` query parameter whenever it is
   * present, even empty; the body's field only when the parameter is absent.
   */
  function TargetUrl(param: Option<string>, fields: map<string, string>): (r: Option<string>)
    ensures param.Some? ==> r == param
    ensures param.None? && TargetField in fields ==> r == Some(fields[TargetField])
    ensures param.None? && TargetField !in fields ==> r.None?
  {
    if param.Some? then param
    else if TargetField in fields then Some(fields[TargetField])
    else None
  }

  /** The fields of the body proxyGet forwards: every parameter but `webhook_url`. */
  function GetBodyFields(parameters: map<string, string>): map<string, string> {
    map k | k in parameters && k != TargetField :: parameters[k]
  }

  /** The loop of proxyGet over the parameter names, filling the JSON body. */
  method BuildGetBody(parameters: map<string, string>) returns (fields: map<string, string>)
    ensures TargetField !in fields
    ensures forall k :: k != TargetField ==> (k in fields <==> k in parameters)
    ensures forall k :: k in fields ==> fields[k] == parameters[k]
    ensures fields == GetBodyFields(parameters)
  {
    fields := map[];
    var pending := parameters.Keys;
    while pending != {}
      invariant pending <= parameters.Keys
      invariant forall k :: k in fields <==> k in parameters && k !in pending && k != TargetField
      invariant forall k :: k in fields ==> fields[k] == parameters[k]
      decreases pending
    {
      var name :| name in pending;
      if TargetField != name {
        fields := fields[name := parameters[name]];
      }
      pending := pending - {name};
    }
    assert fields.Keys == GetBodyFields(parameters).Keys;
  }

  /** How a `/proxy` endpoint answers once it has forwarded. */
  function ProxyReply(result: ForwardResult): (r: Reply)
    ensures result.Delivered? ==> r == Proxied(result.body)
    ensures result.UpstreamError? ==> r == Failed(Some(UpstreamErrorMessage(result.code, result.body)))
    ensures result.TransportError? ==> r == Failed(result.message)
  {
    if result.Delivered? then Proxied(result.body) else Failed(FailureMessage(result))
  }

  /** How the listener answers once it has forwarded. */
  function ListenerReply(result: ForwardResult): (r: (int, string))
    ensures result.Delivered? ==> r == (200, result.body)
    ensures result.UpstreamError? ==> r == (500, ErrorBody(Some(UpstreamErrorMessage(result.code, result.body))))
    ensures result.TransportError? ==> r == (500, ErrorBody(result.message))
  {
    if result.Delivered? then (200, result.body) else (500, ErrorBody(FailureMessage(result)))
  }

  // ---------------------------------------------------------------------
  // The extension
  // ---------------------------------------------------------------------

  class Extension {
    /** connection id to webhook URL. */
    var subscriptions: map<string, string>

    constructor()
      ensures subscriptions == map[]
    {
      subscriptions := map[];
    }

    /** `webhookSubscriptions.get(id)`: null when the id was never stored. */
    function Lookup(id: string): (url: Option<string>)
      reads this
      ensures url.Some? <==> id in subscriptions
      ensures url.Some? ==> url.value == subscriptions[id]
    {
      if id in subscriptions then Some(subscriptions[id]) else None
    }

    /**
     * `/webhook/subscribe`: stores the body's URL under its connection id,
     * replacing any earlier one; either may be empty. A body that does not
     * parse leaves the registry as it was and answers 500.
     */
    method WebhookSubscribe(request: JsonBody) returns (reply: Reply)
      modifies this
      ensures request.Unparsable? ==> reply == Failed(request.message) && subscriptions == old(subscriptions)
      ensures request.Parsed? ==>
        var id := OptString(request.fields, ConnectionIdField);
        var url := OptString(request.fields, WebhookUrlField);
        && subscriptions == old(subscriptions)[id := url]
        && reply == Subscribed(id, url)
    {
      match request
      case Unparsable(message) =>
        reply := Failed(message);
      case Parsed(fields, _) =>
        var url := OptString(fields, WebhookUrlField);
        var id := OptString(fields, ConnectionIdField);
        subscriptions := subscriptions[id := url];
        reply := Subscribed(id, url);
    }

    /**
     * `/webhook/unsubscribe`: forgets the body's connection id, and reports
     * success whether or not it was stored.
     */
    method WebhookUnsubscribe(request: JsonBody) returns (reply: Reply)
      modifies this
      ensures request.Unparsable? ==> reply == Failed(request.message) && subscriptions == old(subscriptions)
      ensures request.Parsed? ==>
        var id := OptString(request.fields, ConnectionIdField);
        && subscriptions == old(subscriptions) - {id}
        && reply == Unsubscribed(id)
    {
      match request
      case Unparsable(message) =>
        reply := Failed(message);
      case Parsed(fields, _) =>
        var id := OptString(fields, ConnectionIdField);
        subscriptions := subscriptions - {id};
        reply := Unsubscribed(id);
    }

    /**
     * handleIncomingRequest, decided: 400 without a connection id, 404
     * without a non-empty registered URL, and otherwise one forward to
     * that URL with the request body verbatim, the inbound headers and the
     * fresh event id, answered with 200 and the upstream body or 500 and
     * the failure's message.
     */
    method HandleIncomingRequest(exchange: Exchange, eventId: string, outcome: Outcome)
      returns (status: int, body: string, forwarded: Option<ForwardCall>, sent: Option<Connection>)
      ensures var id := ExtractConnectionId(exchange.path, exchange.query);
        && (id.None? || id.value == "" ==> status == 400 && body == MissingIdBody && forwarded.None?)
        && (id.Some? && id.value != "" && (id.value !in subscriptions || subscriptions[id.value] == "") ==>
              status == 404 && body == NotFoundBody(id.value) && forwarded.None?)
        && (id.Some? && id.value != "" && id.value in subscriptions && subscriptions[id.value] != "" ==>
              && forwarded == Some(ForwardCall(subscriptions[id.value], exchange.body,
                                               PutEventId(ExchangeHeaders(exchange.headers), eventId)))
              && (status, body) == ListenerReply(Classify(outcome)))
      ensures forwarded.None? <==> sent.None?
      ensures sent.Some? ==> sent.value.url == forwarded.value.url && sent.value.payload == exchange.body
      ensures sent.Some? && NoOtherEventIdSpelling(forwarded.value.headers) ==>
        RequestProperty(sent.value.properties, EventIdHeader) == Some(eventId)
      ensures sent.Some? ==>
        exists k :: k in forwarded.value.headers && EqualsIgnoreCase(k, EventIdHeader)
                 && RequestProperty(sent.value.properties, EventIdHeader) == Some(forwarded.value.headers[k])
    {
      forwarded, sent := None, None;
      var id := ExtractConnectionId(exchange.path, exchange.query);
      if id.None? || id.value == "" {
        status, body := 400, MissingIdBody;
        return;
      }
      var url := Lookup(id.value);
      if url.None? || url.value == "" {
        status, body := 404, NotFoundBody(id.value);
        return;
      }
      var headers := ProjectExchangeHeaders(exchange.headers);
      var call, conn, result := ForwardWithEventId(url.value, exchange.body, headers, eventId, outcome);
      forwarded, sent := Some(call), Some(conn);
      var answer := ListenerReply(result);
      status, body := answer.0, answer.1;
    }

    /**
     * `POST /proxy`: the target is chosen by TargetUrl; a missing or empty
     * target answers 400 without forwarding; otherwise the re-serialised
     * body is forwarded once with the inbound headers and the fresh id.
     */
    method ProxyPost(request: JsonBody, webhookParam: Option<string>, servlet: ServletRequest,
                     eventId: string, outcome: Outcome)
      returns (reply: Reply, forwarded: Option<ForwardCall>, sent: Option<Connection>)
      ensures request.Unparsable? ==> reply == Failed(request.message) && forwarded.None?
      ensures webhookParam == Some("") ==> forwarded.None? && (request.Parsed? ==> reply == TargetMissing)
      ensures request.Parsed? ==>
        var target := TargetUrl(webhookParam, request.fields);
        && (target.None? || target.value == "" ==> reply == TargetMissing && forwarded.None?)
        && (target.Some? && target.value != "" ==>
              && forwarded == Some(ForwardCall(target.value, request.serialized,
                                               PutEventId(ServletHeaders(servlet.headers), eventId)))
              && reply == ProxyReply(Classify(outcome)))
      ensures forwarded.None? <==> sent.None?
      ensures sent.Some? ==> sent.value.url == forwarded.value.url && sent.value.payload == forwarded.value.body
      ensures sent.Some? && NoOtherEventIdSpelling(forwarded.value.headers) ==>
        RequestProperty(sent.value.properties, EventIdHeader) == Some(eventId)
      ensures sent.Some? ==>
        exists k :: k in forwarded.value.headers && EqualsIgnoreCase(k, EventIdHeader)
                 && RequestProperty(sent.value.properties, EventIdHeader) == Some(forwarded.value.headers[k])
    {
      forwarded, sent := None, None;
      if request.Unparsable? {
        reply := Failed(request.message);
        return;
      }
      var target := TargetUrl(webhookParam, request.fields);
      if target.None? || target.value == "" {
        reply := TargetMissing;
        return;
      }
      var headers := ExtractHeaders(servlet.headers);
      var call, conn, result := ForwardWithEventId(target.value, request.serialized, headers, eventId, outcome);
      forwarded, sent := Some(call), Some(conn);
      reply := ProxyReply(result);
    }

    /**
     * `GET /proxy`: only the query parameter names the target; the body
     * forwarded is the JSON object of every other parameter, as `toJson`
     * renders it.
     */
    method ProxyGet(webhookParam: Option<string>, servlet: ServletRequest, eventId: string,
                    outcome: Outcome, toJson: map<string, string> -> string)
      returns (reply: Reply, forwarded: Option<ForwardCall>, sent: Option<Connection>)
      ensures webhookParam.None? || webhookParam.value == "" ==> reply == TargetMissing && forwarded.None?
      ensures webhookParam.Some? && webhookParam.value != "" ==>
        && forwarded == Some(ForwardCall(webhookParam.value, toJson(GetBodyFields(servlet.parameters)),
                                         PutEventId(ServletHeaders(servlet.headers), eventId)))
        && reply == ProxyReply(Classify(outcome))
      ensures forwarded.None? <==> sent.None?
      ensures sent.Some? ==> sent.value.url == forwarded.value.url && sent.value.payload == forwarded.value.body
      ensures sent.Some? && NoOtherEventIdSpelling(forwarded.value.headers) ==>
        RequestProperty(sent.value.properties, EventIdHeader) == Some(eventId)
      ensures sent.Some? ==>
        exists k :: k in forwarded.value.headers && EqualsIgnoreCase(k, EventIdHeader)
                 && RequestProperty(sent.value.properties, EventIdHeader) == Some(forwarded.value.headers[k])
    {
      forwarded, sent := None, None;
      if webhookParam.None? || webhookParam.value == "" {
        reply := TargetMissing;
        return;
      }
      var headers := ExtractHeaders(servlet.headers);
      var fields := BuildGetBody(servlet.parameters);
      var call, conn, result := ForwardWithEventId(webhookParam.value, toJson(fields), headers, eventId, outcome);
      forwarded, sent := Some(call), Some(conn);
      reply := ProxyReply(result);
    }
  }

  /**
   * What each endpoint does once it has its target, body and projected
   * headers (lines 217-220, 292-295 and 334-337): put the fresh event id
   * and forward. The connection carries the value of one of the headers
   * named `X-Workato-Event-Id` ignoring case, and the fresh id when no
   * other spelling was forwarded; the result is the classification of the
   * answer.
   */
  method ForwardWithEventId(url: string, body: string, headers: map<string, string>,
                            eventId: string, outcome: Outcome)
    returns (call: ForwardCall, conn: Connection, result: ForwardResult)
    ensures call == ForwardCall(url, body, PutEventId(headers, eventId))
    ensures conn.url == url && conn.payload == body
    ensures NoOtherEventIdSpelling(call.headers) ==> RequestProperty(conn.properties, EventIdHeader) == Some(eventId)
    ensures exists k :: k in call.headers && EqualsIgnoreCase(k, EventIdHeader)
                     && RequestProperty(conn.properties, EventIdHeader) == Some(call.headers[k])
    ensures result == Classify(outcome)
  {
    call := ForwardCall(url, body, PutEventId(headers, eventId));
    conn, result := ForwardToWebhook(call, outcome);
    EventIdHeaderIsSoleMatch(headers, eventId);
    EventIdNotRestricted(EventIdHeader, eventId);
    assert EventIdHeader in AdmittedHeaders(call.headers);
  }

  /**
   * After the put, `X-Workato-Event-Id` is the only admitted header of that
   * name ignoring case exactly when the map held no other spelling of it.
   */
  lemma EventIdHeaderIsSoleMatch(headers: map<string, string>, eventId: string)
    ensures SoleMatch(AdmittedHeaders(PutEventId(headers, eventId)), EventIdHeader, EventIdHeader)
        <==> NoOtherEventIdSpelling(PutEventId(headers, eventId))
  {
    var put := PutEventId(headers, eventId);
    if NoOtherEventIdSpelling(put) {
      SoleEventIdHeader(put);
    } else {
      var k :| k in put && EqualsIgnoreCase(k, EventIdHeader) && k != EventIdHeader;
      EventIdNotRestricted(k, put[k]);
      assert k in AdmittedHeaders(put);
    }
  }

  /**
   * A delivery round: subscribe `conn123`, deliver to `/abc/conn123?connection_id=other`, which
   * reaches the stored URL and answers 200 with the upstream body; after
   * unsubscribing, the same delivery answers 404 and forwards nothing.
   */
  method SubscribeDeliverUnsubscribe(eventId: string, upstreamBody: string)
    returns (first: (int, string), second: (int, string), firstCall: Option<ForwardCall>, secondCall: Option<ForwardCall>)
    ensures first == (200, upstreamBody)
    ensures firstCall.Some? && firstCall.value.url == "https://hooks.example/c1" && firstCall.value.body == "{}"
    ensures second.0 == 404 && Contains(second.1, "conn123")
    ensures secondCall.None?
  {
    var ext := new Extension();
    var fields := map[ConnectionIdField := "conn123", WebhookUrlField := "https://hooks.example/c1"];
    var _ := ext.WebhookSubscribe(Parsed(fields, "{...}"));
    var delivery := Exchange(Some("/abc/conn123"), Some("connection_id=other"), map[], "{}");
    PathExample();
    var s, b, c, _ := ext.HandleIncomingRequest(delivery, eventId, Responded(200, upstreamBody));
    first, firstCall := (s, b), c;
    var _ := ext.WebhookUnsubscribe(Parsed(map[ConnectionIdField := "conn123"], "{...}"));
    var s2, b2, c2, _ := ext.HandleIncomingRequest(delivery, eventId, Responded(200, upstreamBody));
    second, secondCall := (s2, b2), c2;
  }
}
