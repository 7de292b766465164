/**
 * Header projection: which inbound headers are passed on to the forwarded
 * call. Both entry points drop `host` (ignoring case) and keep one value per
 * name; the caller then adds the fresh `X-Workato-Event-Id`.
 */
module Headers {
  import opened JavaLang

  /** The deduplication header put on every forwarded call. */
  const EventIdHeader := "X-Workato-Event-Id"

  /** `"host".equalsIgnoreCase(name)`. */
  predicate IsHost(name: string)
    ensures IsHost(name) <==> LowerAscii(name) == "host"
  {
    LowerAsciiDecidesEquality("host", name);
    assert LowerAscii("host") == "host";
    EqualsIgnoreCase("host", name)
  }

  /**
   * The headers an HttpExchange request contributes (name to all its
   * values): every name other than `host` that has a value, with its first
   * value.
   */
  function ExchangeHeaders(inbound: map<string, seq<string>>): map<string, string> {
    map k | k in inbound && |inbound[k]| > 0 && !IsHost(k) :: inbound[k][0]
  }

  /**
   * The headers a servlet request contributes. The servlet view is the map
   * from each name of `getHeaderNames()` to `getHeader(name)`, which is
   * already that name's first value.
   */
  function ServletHeaders(inbound: map<string, string>): map<string, string> {
    map k | k in inbound && !IsHost(k) :: inbound[k]
  }

  /**
   * The `forEach` of handleIncomingRequest over the exchange's headers, in
   * whatever order the header map yields them.
   */
  method ProjectExchangeHeaders(inbound: map<string, seq<string>>) returns (headers: map<string, string>)
    ensures headers == ExchangeHeaders(inbound)
  {
    headers := map[];
    var pending := inbound.Keys;
    while pending != {}
      invariant pending <= inbound.Keys
      invariant forall k :: k in headers <==> k in inbound && k !in pending && |inbound[k]| > 0 && !IsHost(k)
      invariant forall k :: k in headers ==> headers[k] == inbound[k][0]
      decreases pending
    {
      var key :| key in pending;
      var values := inbound[key];
      if |values| > 0 && !IsHost(key) {
        headers := headers[key := values[0]];
      }
      pending := pending - {key};
    }
    assert headers.Keys == ExchangeHeaders(inbound).Keys;
  }

  /** `extractHeaders`: the loop over the servlet request's header names. */
  method ExtractHeaders(inbound: map<string, string>) returns (headers: map<string, string>)
    ensures headers == ServletHeaders(inbound)
  {
    headers := map[];
    var pending := inbound.Keys;
    while pending != {}
      invariant pending <= inbound.Keys
      invariant forall k :: k in headers <==> k in inbound && k !in pending && !IsHost(k)
      invariant forall k :: k in headers ==> headers[k] == inbound[k]
      decreases pending
    {
      var name :| name in pending;
      if !IsHost(name) {
        headers := headers[name := inbound[name]];
      }
      pending := pending - {name};
    }
    assert headers.Keys == ServletHeaders(inbound).Keys;
  }

  /**
   * `headers.put("X-Workato-Event-Id", id)` as the endpoints write it: a
   * case-sensitive put, so a header spelt differently stays next to the
   * fresh id.
   */
  function PutEventId(headers: map<string, string>, eventId: string): (r: map<string, string>)
    ensures r.Keys == headers.Keys + {EventIdHeader}
    ensures r[EventIdHeader] == eventId
    ensures forall k :: k in headers && k != EventIdHeader ==> r[k] == headers[k]
  {
    headers[EventIdHeader := eventId]
  }

  /** No header other than `X-Workato-Event-Id` itself has that name ignoring case. */
  predicate NoOtherEventIdSpelling(headers: map<string, string>) {
    forall k :: k in headers && EqualsIgnoreCase(k, EventIdHeader) ==> k == EventIdHeader
  }

  /**
   * The stamp with the override the endpoints evidently intend: it also
   * drops every header whose name equals `X-Workato-Event-Id` ignoring case,
   * so the fresh id is the only header of that name whatever order the map
   * is later read in.
   */
  function StampEventId(headers: map<string, string>, eventId: string): (r: map<string, string>)
    ensures EventIdHeader in r && r[EventIdHeader] == eventId
    ensures NoOtherEventIdSpelling(r)
    ensures forall k :: !EqualsIgnoreCase(k, EventIdHeader) ==> (k in r <==> k in headers)
    ensures forall k :: k in r && k != EventIdHeader ==> r[k] == headers[k]
  {
    EqualsIgnoreCaseIsEquivalence(EventIdHeader, EventIdHeader, EventIdHeader);
    (map k | k in headers && !EqualsIgnoreCase(k, EventIdHeader) :: headers[k])[EventIdHeader := eventId]
  }

  /**
   * The put as written and the corrected stamp forward the same headers
   * exactly when no other spelling of `X-Workato-Event-Id` is present.
   */
  lemma PutMatchesStamp(headers: map<string, string>, eventId: string)
    ensures PutEventId(headers, eventId) == StampEventId(headers, eventId) <==> NoOtherEventIdSpelling(headers)
  {
    var put, stamped := PutEventId(headers, eventId), StampEventId(headers, eventId);
    if NoOtherEventIdSpelling(headers) {
      forall k | k in stamped
        ensures k in put
      {
        if k != EventIdHeader {
          EqualsIgnoreCaseIsEquivalence(k, EventIdHeader, EventIdHeader);
        }
      }
      assert put.Keys == stamped.Keys;
    } else {
      var k :| k in headers && EqualsIgnoreCase(k, EventIdHeader) && k != EventIdHeader;
      assert k in put && k !in stamped;
    }
  }

  /** A name that equals `X-Workato-Event-Id` ignoring case is not `host`. */
  lemma EventIdSpellingIsNotHost(k: string)
    requires EqualsIgnoreCase(k, EventIdHeader)
    ensures !IsHost(k)
  {
  }

  /**
   * What reaches forwardToWebhook from the listener (lines 209-217): no
   * `host` in any case, the fresh id under `X-Workato-Event-Id`, every other
   * name that has a value with its first value, and so the fresh id is the
   * only event-id header exactly when the request carried no other spelling
   * of it.
   */
  lemma ForwardedExchangeHeaders(inbound: map<string, seq<string>>, eventId: string)
    ensures var out := PutEventId(ExchangeHeaders(inbound), eventId);
      && (forall k :: k in out ==> !IsHost(k))
      && out[EventIdHeader] == eventId
      && (forall k :: k != EventIdHeader ==> (k in out <==> k in inbound && |inbound[k]| > 0 && !IsHost(k)))
      && (forall k :: k in out && k != EventIdHeader ==> out[k] == inbound[k][0])
      && (NoOtherEventIdSpelling(out) <==>
            forall k :: k in inbound && |inbound[k]| > 0 && EqualsIgnoreCase(k, EventIdHeader) ==> k == EventIdHeader)
  {
    assert !IsHost(EventIdHeader);
    forall k | EqualsIgnoreCase(k, EventIdHeader)
      ensures !IsHost(k)
    {
      EventIdSpellingIsNotHost(k);
    }
  }

  /** The same for the `/proxy` endpoints (lines 289-292 and 331-334). */
  lemma ForwardedServletHeaders(inbound: map<string, string>, eventId: string)
    ensures var out := PutEventId(ServletHeaders(inbound), eventId);
      && (forall k :: k in out ==> !IsHost(k))
      && out[EventIdHeader] == eventId
      && (forall k :: k != EventIdHeader ==> (k in out <==> k in inbound && !IsHost(k)))
      && (forall k :: k in out && k != EventIdHeader ==> out[k] == inbound[k])
      && (NoOtherEventIdSpelling(out) <==>
            forall k :: k in inbound && EqualsIgnoreCase(k, EventIdHeader) ==> k == EventIdHeader)
  {
    assert !IsHost(EventIdHeader);
    forall k | EqualsIgnoreCase(k, EventIdHeader)
      ensures !IsHost(k)
    {
      EventIdSpellingIsNotHost(k);
    }
  }

  /**
   * The HTTP server hands the listener header names with the first letter
   * upper-cased and the rest lower-cased; what matters here is that no
   * letter after the first is upper case.
   */
  predicate ExchangeSpelling(name: string) {
    forall i :: 0 < i < |name| ==> !('A' <= name[i] <= 'Z')
  }

  /**
   * So on the listener path an inbound event-id header is never spelt
   * `X-Workato-Event-Id` and always survives the put next to the fresh id.
   */
  lemma ListenerKeepsInboundEventId(inbound: map<string, seq<string>>, eventId: string, k: string)
    requires k in inbound && |inbound[k]| > 0 && ExchangeSpelling(k) && EqualsIgnoreCase(k, EventIdHeader)
    ensures var out := PutEventId(ExchangeHeaders(inbound), eventId);
      k in out && k != EventIdHeader && out[k] == inbound[k][0] && !NoOtherEventIdSpelling(out)
  {
    assert EventIdHeader[2] == 'W';
    EventIdSpellingIsNotHost(k);
  }
}
