/**
 * forwardToWebhook: the outbound POST. The JDK HTTP client is replaced by
 * two things: a list of request properties that `setRequestProperty` edits
 * the way the JDK's header table does, and an `Outcome` that stands for
 * whatever the network answered.
 */
module Forwarding {
  import opened JavaLang
  import opened Headers

  /** What the network gave back: a status line and body, or an exception before one. */
  datatype Outcome =
    | Responded(code: int, body: string)
    | TransportFailure(message: Option<string>)

  /** How forwardToWebhook ends: it returns the body, or it throws with a message. */
  datatype ForwardResult =
    | Delivered(body: string)
    | UpstreamError(code: int, body: string)
    | TransportError(message: Option<string>)

  /** The arguments of one call of forwardToWebhook. */
  datatype ForwardCall = ForwardCall(url: string, body: string, headers: map<string, string>)

  /** The state of the outbound connection just before the body is written. */
  datatype Connection = Connection(
    requestMethod: string,
    url: string,
    properties: seq<(string, string)>,
    connectTimeoutMs: int,
    readTimeoutMs: int,
    doOutput: bool,
    payload: string)

  const ConnectTimeoutMs := 30000
  const ReadTimeoutMs := 30000
  const JsonContentType := "application/json"
  const UpstreamErrorPrefix := "Webhook returned error: "

  // ---------------------------------------------------------------------
  // Status classification
  // ---------------------------------------------------------------------

  /** A response code below 400 delivers its body; any other code is an error. */
  function Classify(outcome: Outcome): (r: ForwardResult)
    ensures r.Delivered? <==> outcome.Responded? && outcome.code < 400
    ensures r.Delivered? ==> r.body == outcome.body
    ensures r.UpstreamError? <==> outcome.Responded? && outcome.code >= 400
    ensures r.UpstreamError? ==> r.code == outcome.code && r.body == outcome.body
    ensures r.TransportError? <==> outcome.TransportFailure?
    ensures r.TransportError? ==> r.message == outcome.message
  {
    match outcome
    case Responded(code, body) => if code < 400 then Delivered(body) else UpstreamError(code, body)
    case TransportFailure(message) => TransportError(message)
  }

  /** `"" + n` for an `int n`. */
  function IntString(n: int): (s: string)
    ensures |s| >= 1
    ensures n >= 0 ==> s == DecimalString(n)
  {
    if n < 0 then "-" + DecimalString(-n) else DecimalString(n)
  }

  /** The message of the exception thrown for an error status. */
  function UpstreamErrorMessage(code: int, body: string): (m: string)
    ensures StartsWith(m, UpstreamErrorPrefix)
  {
    UpstreamErrorPrefix + IntString(code) + " - " + body
  }

  /** Recovers code and body from a message built by UpstreamErrorMessage. */
  function ParseUpstreamErrorMessage(m: string): Option<(int, string)> {
    if !StartsWith(m, UpstreamErrorPrefix) then None
    else ParseCodeAndBody(m[|UpstreamErrorPrefix|..])
  }

  /** A run of digits, then " - ", then the body. */
  function ParseCodeAndBody(rest: string): Option<(int, string)> {
    var n := DigitRun(rest);
    if n == 0 || !StartsWith(rest[n..], " - ") then None
    else Some((ParseDecimal(rest[..n]), rest[n + 3..]))
  }

  /**
   * The error message determines the status and the whole upstream body:
   * the body is not cut or escaped, even when it contains " - " itself.
   */
  lemma UpstreamErrorMessageRoundTrip(code: int, body: string)
    requires code >= 0
    ensures ParseUpstreamErrorMessage(UpstreamErrorMessage(code, body)) == Some((code, body))
  {
    var digits := DecimalString(code);
    assert UpstreamErrorMessage(code, body) == UpstreamErrorPrefix + (digits + (" - " + body));
    ParseComposedMessage(digits, body);
    ParseDecimalString(code);
  }

  lemma ParseComposedMessage(digits: string, body: string)
    requires |digits| >= 1 && forall i :: 0 <= i < |digits| ==> IsDigit(digits[i])
    ensures ParseUpstreamErrorMessage(UpstreamErrorPrefix + (digits + (" - " + body)))
         == Some((ParseDecimal(digits), body))
  {
    var m := UpstreamErrorPrefix + (digits + (" - " + body));
    assert m[..|UpstreamErrorPrefix|] == UpstreamErrorPrefix;
    assert m[|UpstreamErrorPrefix|..] == digits + (" - " + body);
    SplitCodeAndBody(digits, body);
  }

  /** After the prefix: the digits, then " - ", then the body. */
  lemma SplitCodeAndBody(digits: string, body: string)
    requires |digits| >= 1 && forall i :: 0 <= i < |digits| ==> IsDigit(digits[i])
    ensures ParseCodeAndBody(digits + (" - " + body)) == Some((ParseDecimal(digits), body))
  {
    var rest := digits + (" - " + body);
    DigitRunOfDigits(digits, " - " + body);
    assert rest[..|digits|] == digits;
    assert rest[|digits|..] == " - " + body;
    assert (" - " + body)[..3] == " - ";
    assert rest[|digits| + 3..] == body;
  }

  lemma {:induction false} DigitRunOfDigits(digits: string, tail: string)
    requires forall i :: 0 <= i < |digits| ==> IsDigit(digits[i])
    requires |tail| > 0 && !IsDigit(tail[0])
    ensures DigitRun(digits + tail) == |digits|
    decreases |digits|
  {
    if |digits| == 0 {
      assert digits + tail == tail;
    } else {
      DigitRunOfDigits(digits[1..], tail);
      assert (digits + tail)[1..] == digits[1..] + tail;
    }
  }

  /** The message of the exception forwardToWebhook throws, which may be null. */
  function FailureMessage(r: ForwardResult): (m: Option<string>)
    requires !r.Delivered?
    ensures r.UpstreamError? ==> m.Some? && StartsWith(m.value, UpstreamErrorPrefix)
    ensures r.TransportError? ==> m == r.message
  {
    match r
    case UpstreamError(code, body) => Some(UpstreamErrorMessage(code, body))
    case TransportError(message) => message
  }

  // ---------------------------------------------------------------------
  // Request properties
  // ---------------------------------------------------------------------

  /** The index of the property whose name equals `name` ignoring case. */
  function FindProperty(props: seq<(string, string)>, name: string): (r: Option<nat>)
    ensures r.Some? ==> r.value < |props| && EqualsIgnoreCase(props[r.value].0, name)
    ensures r.None? <==> forall j :: 0 <= j < |props| ==> !EqualsIgnoreCase(props[j].0, name)
    decreases |props|
  {
    if |props| == 0 then None
    else if EqualsIgnoreCase(props[|props| - 1].0, name) then Some(|props| - 1)
    else FindProperty(props[..|props| - 1], name)
  }

  /**
   * `setRequestProperty(key, value)`: a property of the same name ignoring
   * case gets the new value and keeps its spelling; otherwise the property
   * is appended.
   */
  function SetRequestProperty(props: seq<(string, string)>, key: string, value: string): (r: seq<(string, string)>)
    ensures |r| == |props| || |r| == |props| + 1
    ensures |r| == |props| + 1 <==> forall j :: 0 <= j < |props| ==> !EqualsIgnoreCase(props[j].0, key)
    ensures forall j :: 0 <= j < |props| ==> r[j].0 == props[j].0
    ensures exists i :: 0 <= i < |r| && EqualsIgnoreCase(r[i].0, key) && r[i].1 == value
  {
    match FindProperty(props, key)
    case Some(i) =>
      var r := props[i := (props[i].0, value)];
      assert EqualsIgnoreCase(r[i].0, key);
      r
    case None =>
      EqualsIgnoreCaseIsEquivalence(key, key, key);
      var r := props + [(key, value)];
      assert EqualsIgnoreCase(r[|props|].0, key);
      r
  }

  /** `getRequestProperty(name)`. */
  function RequestProperty(props: seq<(string, string)>, name: string): Option<string> {
    match FindProperty(props, name)
    case Some(i) => Some(props[i].1)
    case None => None
  }

  /** No two properties share a name ignoring case. */
  predicate DistinctIgnoringCase(props: seq<(string, string)>) {
    forall i, j :: 0 <= i < j < |props| ==> !EqualsIgnoreCase(props[i].0, props[j].0)
  }

  lemma {:induction false} FindPropertySameNames(p: seq<(string, string)>, q: seq<(string, string)>, name: string)
    requires |p| == |q| && forall j :: 0 <= j < |p| ==> p[j].0 == q[j].0
    ensures FindProperty(p, name) == FindProperty(q, name)
    decreases |p|
  {
    if |p| > 0 {
      FindPropertySameNames(p[..|p| - 1], q[..|q| - 1], name);
    }
  }

  /**
   * Setting a property keeps the names distinct, answers the new value for
   * every name equal to the key ignoring case, and leaves every other name's
   * value alone.
   */
  lemma SetRequestPropertyEffect(props: seq<(string, string)>, key: string, value: string, name: string)
    requires DistinctIgnoringCase(props)
    ensures DistinctIgnoringCase(SetRequestProperty(props, key, value))
    ensures RequestProperty(SetRequestProperty(props, key, value), name)
         == if EqualsIgnoreCase(key, name) then Some(value) else RequestProperty(props, name)
  {
    var after := SetRequestProperty(props, key, value);
    var found := FindProperty(props, key);
    if found.Some? {
      var i := found.value;
      FindPropertySameNames(props, after, name);
      EqualsIgnoreCaseIsEquivalence(props[i].0, key, name);
      EqualsIgnoreCaseIsEquivalence(key, props[i].0, name);
      var f := FindProperty(props, name);
      if f.Some? && f.value != i && EqualsIgnoreCase(key, name) {
        var j := f.value;
        EqualsIgnoreCaseIsEquivalence(props[j].0, name, props[i].0);
        EqualsIgnoreCaseIsEquivalence(name, props[j].0, props[i].0);
        assert false;
      }
    } else if EqualsIgnoreCase(key, name) {
      assert after[|props|].0 == key;
    } else {
      FindPropertyPrefix(after, |props|, name);
      assert after[..|props|] == props;
    }
  }

  /** A name found in a list but not at its last position is found in the prefix before it. */
  lemma {:induction false} FindPropertyPrefix(props: seq<(string, string)>, n: nat, name: string)
    requires n <= |props|
    requires forall j :: n <= j < |props| ==> !EqualsIgnoreCase(props[j].0, name)
    ensures FindProperty(props, name) == FindProperty(props[..n], name)
    decreases |props|
  {
    if n < |props| {
      FindPropertyPrefix(props[..|props| - 1], n, name);
      assert props[..|props| - 1][..n] == props[..n];
    } else {
      assert props[..n] == props;
    }
  }

  // ---------------------------------------------------------------------
  // Header precedence
  // ---------------------------------------------------------------------

  /** The only property set before the forwarded headers. */
  function DefaultProperty(name: string): (r: Option<string>)
    ensures r.Some? <==> EqualsIgnoreCase("Content-Type", name)
    ensures r.Some? ==> r.value == JsonContentType
  {
    if EqualsIgnoreCase("Content-Type", name) then Some(JsonContentType) else None
  }

  /**
   * The header names the JDK's HttpURLConnection reserves for itself, in
   * lower case; `setRequestProperty` ignores them unless the
   * `sun.net.http.allowRestrictedHeaders` property is set.
   */
  const RestrictedHeaders: set<string> := {
    "access-control-request-headers", "access-control-request-method", "connection",
    "content-length", "content-transfer-encoding", "host", "keep-alive", "origin",
    "trailer", "transfer-encoding", "upgrade", "via"}

  /**
   * `setRequestProperty(name, value)` is silently ignored: a reserved name,
   * except `Connection: close`, or any name that starts with `sec-`. The
   * `Content-Type` the forward sets itself is never ignored.
   */
  predicate Restricted(name: string, value: string)
    ensures Restricted(name, value) ==> !EqualsIgnoreCase(name, "Content-Type")
  {
    var key := LowerAscii(name);
    assert EqualsIgnoreCase(name, "Content-Type") ==> |key| == 12 && key[0] == ToLowerAscii("Content-Type"[0]) == 'c';
    (key in RestrictedHeaders && !(key == "connection" && EqualsIgnoreCase(value, "close")))
    || StartsWith(key, "sec-")
  }

  /** Whether a name is reserved does not depend on its case. */
  lemma RestrictedIgnoresCase(a: string, b: string, value: string)
    requires EqualsIgnoreCase(a, b)
    ensures Restricted(a, value) <==> Restricted(b, value)
  {
    assert LowerAscii(a) == LowerAscii(b);
  }

  /** The entry sets the property `name` when `setRequestProperty` is applied to it. */
  predicate SetsProperty(entry: (string, string), name: string) {
    EqualsIgnoreCase(entry.0, name) && !Restricted(entry.0, entry.1)
  }

  /**
   * The value the connection carries for `name` after the default
   * Content-Type and then `entries`, in that order: the value of the last
   * entry that sets it, or the default when none does.
   */
  function EffectiveHeader(entries: seq<(string, string)>, name: string): (r: Option<string>)
    ensures NoEntryMatches(entries, name) ==> r == DefaultProperty(name)
    ensures !NoEntryMatches(entries, name) ==> exists j :: LastMatchAt(entries, name, j) && r == Some(entries[j].1)
    decreases |entries|
  {
    if |entries| == 0 then DefaultProperty(name)
    else
      var last := entries[|entries| - 1];
      if SetsProperty(last, name) then
        assert LastMatchAt(entries, name, |entries| - 1);
        Some(last.1)
      else
        var r := EffectiveHeader(entries[..|entries| - 1], name);
        LastMatchSkipsLast(entries, name);
        r
  }

  /** No entry sets the property `name`. */
  predicate NoEntryMatches(entries: seq<(string, string)>, name: string) {
    forall j :: 0 <= j < |entries| ==> !SetsProperty(entries[j], name)
  }

  /** Entry `j` is the last one that sets the property `name`. */
  predicate LastMatchAt(entries: seq<(string, string)>, name: string, j: int) {
    0 <= j < |entries| && SetsProperty(entries[j], name)
    && forall j' :: j < j' < |entries| ==> !SetsProperty(entries[j'], name)
  }

  /** When the last entry does not set `name`, the entries before it decide. */
  lemma LastMatchSkipsLast(entries: seq<(string, string)>, name: string)
    requires |entries| > 0 && !SetsProperty(entries[|entries| - 1], name)
    ensures NoEntryMatches(entries, name) <==> NoEntryMatches(entries[..|entries| - 1], name)
    ensures forall j :: LastMatchAt(entries[..|entries| - 1], name, j) ==> LastMatchAt(entries, name, j)
  {
    var init := entries[..|entries| - 1];
    assert forall j :: 0 <= j < |init| ==> init[j] == entries[j];
  }

  /** `entries` lists the map's entries once each, in some order. */
  ghost predicate Enumerates(entries: seq<(string, string)>, m: map<string, string>) {
    && (forall i :: 0 <= i < |entries| ==> entries[i].0 in m && m[entries[i].0] == entries[i].1)
    && (forall i, j :: 0 <= i < j < |entries| ==> entries[i].0 != entries[j].0)
    && (forall k :: k in m ==> (k, m[k]) in entries)
  }

  /** The headers of `m` that `setRequestProperty` does not ignore. */
  function AdmittedHeaders(m: map<string, string>): (r: map<string, string>)
    ensures forall k :: k in r <==> k in m && !Restricted(k, m[k])
    ensures forall k :: k in r ==> r[k] == m[k]
  {
    map k | k in m && !Restricted(k, m[k]) :: m[k]
  }

  /** `k` is the only key of `m` equal to `name` ignoring case. */
  predicate SoleMatch(m: map<string, string>, k: string, name: string) {
    k in m && EqualsIgnoreCase(k, name) && forall k' :: k' in m && EqualsIgnoreCase(k', name) ==> k' == k
  }

  /** No key of `m` equals `name` ignoring case. */
  predicate NoMatch(m: map<string, string>, name: string) {
    forall k :: k in m ==> !EqualsIgnoreCase(k, name)
  }

  /**
   * Whatever order the map yields its entries in, a name that no admitted
   * header matches keeps its default; a name exactly one admitted header
   * matches gets that header's value, replacing the default Content-Type;
   * and otherwise the name carries the value of one of the admitted
   * headers that match it.
   */
  lemma ForwardedHeaderValue(entries: seq<(string, string)>, m: map<string, string>, name: string)
    requires Enumerates(entries, m)
    ensures NoMatch(AdmittedHeaders(m), name) ==> EffectiveHeader(entries, name) == DefaultProperty(name)
    ensures forall k :: SoleMatch(AdmittedHeaders(m), k, name) ==> EffectiveHeader(entries, name) == Some(m[k])
    ensures !NoMatch(AdmittedHeaders(m), name) ==>
      exists k :: k in AdmittedHeaders(m) && EqualsIgnoreCase(k, name) && EffectiveHeader(entries, name) == Some(m[k])
  {
    if NoMatch(AdmittedHeaders(m), name) {
      NoAdmittedMatchSetsNothing(entries, m, name);
    } else {
      LastSetterIsAdmitted(entries, m, name);
    }
  }

  lemma NoAdmittedMatchSetsNothing(entries: seq<(string, string)>, m: map<string, string>, name: string)
    requires Enumerates(entries, m) && NoMatch(AdmittedHeaders(m), name)
    ensures NoEntryMatches(entries, name)
  {
    forall j | 0 <= j < |entries|
      ensures !SetsProperty(entries[j], name)
    {
      assert entries[j].0 in m;
    }
  }

  lemma LastSetterIsAdmitted(entries: seq<(string, string)>, m: map<string, string>, name: string)
    requires Enumerates(entries, m) && !NoMatch(AdmittedHeaders(m), name)
    ensures exists k :: k in AdmittedHeaders(m) && EqualsIgnoreCase(k, name) && EffectiveHeader(entries, name) == Some(m[k])
  {
    var k0 :| k0 in AdmittedHeaders(m) && EqualsIgnoreCase(k0, name);
    AdmittedEntrySets(entries, m, k0, name);
    var r := EffectiveHeader(entries, name);
    var j :| LastMatchAt(entries, name, j) && r == Some(entries[j].1);
    SetterIsAdmitted(entries, m, j, name);
  }

  lemma AdmittedEntrySets(entries: seq<(string, string)>, m: map<string, string>, k: string, name: string)
    requires Enumerates(entries, m) && k in AdmittedHeaders(m) && EqualsIgnoreCase(k, name)
    ensures !NoEntryMatches(entries, name)
  {
    assert (k, m[k]) in entries;
    var i :| 0 <= i < |entries| && entries[i] == (k, m[k]);
    assert SetsProperty(entries[i], name);
  }

  lemma SetterIsAdmitted(entries: seq<(string, string)>, m: map<string, string>, j: int, name: string)
    requires Enumerates(entries, m) && LastMatchAt(entries, name, j)
    ensures entries[j].0 in AdmittedHeaders(m) && EqualsIgnoreCase(entries[j].0, name)
    ensures m[entries[j].0] == entries[j].1
  {
    assert entries[j].0 in m;
  }

  // ---------------------------------------------------------------------
  // The call
  // ---------------------------------------------------------------------

  /** `headers.entrySet()` of a HashMap: every entry once, in an order the model leaves open. */
  method HashMapEntries(m: map<string, string>) returns (entries: seq<(string, string)>)
    ensures Enumerates(entries, m)
  {
    entries := [];
    var pending := m.Keys;
    while pending != {}
      invariant pending <= m.Keys
      invariant forall i :: 0 <= i < |entries| ==> entries[i].0 in m && entries[i].0 !in pending && m[entries[i].0] == entries[i].1
      invariant forall i, j :: 0 <= i < j < |entries| ==> entries[i].0 != entries[j].0
      invariant forall k :: k in m && k !in pending ==> (k, m[k]) in entries
      decreases pending
    {
      var k :| k in pending;
      entries := entries + [(k, m[k])];
      pending := pending - {k};
    }
  }

  /**
   * Lines 384-392: the method, the default Content-Type, the timeouts and
   * then every forwarded header the JDK admits, in the order `entries`
   * gives.
   */
  method OpenConnection(url: string, body: string, entries: seq<(string, string)>) returns (conn: Connection)
    ensures conn.requestMethod == "POST" && conn.url == url && conn.payload == body && conn.doOutput
    ensures conn.connectTimeoutMs == ConnectTimeoutMs && conn.readTimeoutMs == ReadTimeoutMs
    ensures DistinctIgnoringCase(conn.properties)
    ensures forall name :: RequestProperty(conn.properties, name) == EffectiveHeader(entries, name)
  {
    var props := SetRequestProperty([], "Content-Type", JsonContentType);
    var i := 0;
    while i < |entries|
      invariant i <= |entries|
      invariant DistinctIgnoringCase(props)
      invariant forall name :: RequestProperty(props, name) == EffectiveHeader(entries[..i], name)
    {
      ApplyEntryStep(props, entries, i);
      props := ConnectionSetRequestProperty(props, entries[i].0, entries[i].1);
      i := i + 1;
    }
    assert entries[..i] == entries;
    conn := Connection("POST", url, props, ConnectTimeoutMs, ReadTimeoutMs, true, body);
  }

  /**
   * HttpURLConnection's `setRequestProperty`: a reserved name is ignored,
   * any other is set in the header table.
   */
  function ConnectionSetRequestProperty(props: seq<(string, string)>, key: string, value: string): (r: seq<(string, string)>)
    ensures Restricted(key, value) ==> r == props
    ensures |r| >= |props| && forall j :: 0 <= j < |props| ==> r[j].0 == props[j].0
    ensures !Restricted(key, value) ==> exists i :: 0 <= i < |r| && EqualsIgnoreCase(r[i].0, key) && r[i].1 == value
  {
    if Restricted(key, value) then props else SetRequestProperty(props, key, value)
  }

  /** One turn of the header loop keeps the properties in step with EffectiveHeader. */
  lemma ApplyEntryStep(props: seq<(string, string)>, entries: seq<(string, string)>, i: int)
    requires 0 <= i < |entries| && DistinctIgnoringCase(props)
    requires forall name :: RequestProperty(props, name) == EffectiveHeader(entries[..i], name)
    ensures var next := ConnectionSetRequestProperty(props, entries[i].0, entries[i].1);
      && DistinctIgnoringCase(next)
      && forall name :: RequestProperty(next, name) == EffectiveHeader(entries[..i + 1], name)
  {
    var key, value := entries[i].0, entries[i].1;
    var next := ConnectionSetRequestProperty(props, key, value);
    assert entries[..i + 1][..i] == entries[..i];
    if !Restricted(key, value) {
      forall name
        ensures RequestProperty(next, name) == EffectiveHeader(entries[..i + 1], name)
      {
        SetRequestPropertyEffect(props, key, value, name);
      }
      SetRequestPropertyEffect(props, key, value, "");
    }
  }

  /**
   * forwardToWebhook: the request it sends and how it ends. Headers the JDK
   * reserves are dropped; a name no admitted header matches keeps its
   * default, a name exactly one admitted header matches carries that
   * header's value, any other name carries the value of one of its matches,
   * and the result is the classification of what the network answered.
   */
  method ForwardToWebhook(call: ForwardCall, outcome: Outcome) returns (conn: Connection, result: ForwardResult)
    ensures conn.requestMethod == "POST" && conn.url == call.url && conn.payload == call.body && conn.doOutput
    ensures conn.connectTimeoutMs == ConnectTimeoutMs && conn.readTimeoutMs == ReadTimeoutMs
    ensures forall name :: NoMatch(AdmittedHeaders(call.headers), name) ==>
      RequestProperty(conn.properties, name) == DefaultProperty(name)
    ensures forall name, k :: SoleMatch(AdmittedHeaders(call.headers), k, name) ==>
      RequestProperty(conn.properties, name) == Some(call.headers[k])
    ensures forall name :: !NoMatch(AdmittedHeaders(call.headers), name) ==>
      exists k :: k in AdmittedHeaders(call.headers) && EqualsIgnoreCase(k, name)
               && RequestProperty(conn.properties, name) == Some(call.headers[k])
    ensures result == Classify(outcome)
  {
    var entries := HashMapEntries(call.headers);
    conn := OpenConnection(call.url, call.body, entries);
    forall name
      ensures NoMatch(AdmittedHeaders(call.headers), name) ==>
        RequestProperty(conn.properties, name) == DefaultProperty(name)
      ensures forall k :: SoleMatch(AdmittedHeaders(call.headers), k, name) ==>
        RequestProperty(conn.properties, name) == Some(call.headers[k])
      ensures !NoMatch(AdmittedHeaders(call.headers), name) ==>
        exists k :: k in AdmittedHeaders(call.headers) && EqualsIgnoreCase(k, name)
                 && RequestProperty(conn.properties, name) == Some(call.headers[k])
    {
      ForwardedHeaderValue(entries, call.headers, name);
    }
    result := Classify(outcome);
  }

  // ---------------------------------------------------------------------
  // The event id on the wire
  // ---------------------------------------------------------------------

  /** No spelling of `X-Workato-Event-Id` is a name the JDK reserves. */
  lemma EventIdNotRestricted(k: string, v: string)
    requires EqualsIgnoreCase(k, EventIdHeader)
    ensures !Restricted(k, v)
  {
    assert |LowerAscii(k)| == 18;
    assert LowerAscii(k)[0] == ToLowerAscii(EventIdHeader[0]) == 'x';
  }

  /**
   * When the event-id header has one spelling only, it is the sole admitted
   * match of `X-Workato-Event-Id`, so its value is what the wire carries.
   */
  lemma SoleEventIdHeader(headers: map<string, string>)
    requires EventIdHeader in headers && NoOtherEventIdSpelling(headers)
    ensures SoleMatch(AdmittedHeaders(headers), EventIdHeader, EventIdHeader)
  {
    EqualsIgnoreCaseIsEquivalence(EventIdHeader, EventIdHeader, EventIdHeader);
    EventIdNotRestricted(EventIdHeader, headers[EventIdHeader]);
  }

  /**
   * With the stamp corrected, the wire carries the fresh event id under
   * `X-Workato-Event-Id` for every order the map may yield its entries in.
   */
  lemma EventIdOnTheWire(headers: map<string, string>, eventId: string, entries: seq<(string, string)>)
    requires Enumerates(entries, StampEventId(headers, eventId))
    ensures EffectiveHeader(entries, EventIdHeader) == Some(eventId)
  {
    var stamped := StampEventId(headers, eventId);
    SoleEventIdHeader(stamped);
    ForwardedHeaderValue(entries, stamped, EventIdHeader);
  }

  /**
   * As written (lines 289-292 and 390-392): a `/proxy` request carrying
   * `x-workato-event-id: replayed` keeps that header next to the fresh one,
   * because the two names differ in case. When the HashMap yields the
   * fresh entry first, the case-insensitive `setRequestProperty` replaces
   * the fresh id with the replayed one.
   */
  lemma ReplayedEventIdWinsOnTheWire(newId: string)
    requires newId != "replayed"
    ensures var headers := PutEventId(ServletHeaders(map["x-workato-event-id" := "replayed"]), newId);
      var entries := [(EventIdHeader, newId), ("x-workato-event-id", "replayed")];
      && Enumerates(entries, headers)
      && EffectiveHeader(entries, EventIdHeader) == Some("replayed")
  {
    LowercaseEventIdHeader();
    var variant := "x-workato-event-id";
    EventIdNotRestricted(variant, "replayed");
    assert ServletHeaders(map[variant := "replayed"]) == map[variant := "replayed"];
  }

  /** The lower-case spelling is another name for the same header, and not `host`. */
  lemma LowercaseEventIdHeader()
    ensures EqualsIgnoreCase("x-workato-event-id", EventIdHeader)
    ensures "x-workato-event-id" != EventIdHeader && !IsHost("x-workato-event-id")
  {
  }
}
