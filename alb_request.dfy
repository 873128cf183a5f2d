/**
 * `AwsAlb.encode_query_string`, `AwsAlb.request` and `AwsAlb.body`: from the
 * load balancer's event to the generic request.
 */
module AlbRequest {

  import opened Text
  import opened Wrappers
  import opened Dict
  import opened Percent
  import opened AlbEvent
  import Base64

  const EVENT_TYPE: Bytes := [65, 87, 83, 95, 65, 76, 66]  // "AWS_ALB"
  const PATH_KEY: Bytes := [112, 97, 116, 104]  // "path"
  const HTTP_METHOD_KEY: Bytes := [104, 116, 116, 112, 77, 101, 116, 104, 111, 100]  // "httpMethod"
  const HOST: Bytes := [104, 111, 115, 116]  // "host"
  const X_FORWARDED_FOR: Bytes := [120, 45, 102, 111, 114, 119, 97, 114, 100, 101, 100, 45, 102, 111, 114]  // "x-forwarded-for"
  const X_FORWARDED_PORT: Bytes := [120, 45, 102, 111, 114, 119, 97, 114, 100, 101, 100, 45, 112, 111, 114, 116]  // "x-forwarded-port"
  const X_FORWARDED_PROTO: Bytes := [120, 45, 102, 111, 114, 119, 97, 114, 100, 101, 100, 45, 112, 114, 111, 116, 111]  // "x-forwarded-proto"
  const DEFAULT_SERVER_NAME: Bytes := [109, 97, 110, 103, 117, 109]  // "mangum"
  const DEFAULT_SERVER_PORT: nat := 80
  const DEFAULT_SCHEME: Bytes := [104, 116, 116, 112, 115]  // "https"
  const ROOT_PATH: Bytes := [47]  // "/"
  const COLON: Byte := 58

  /** The generic request handed to the application; `C` is the opaque invocation context. */
  datatype Request<C> = Request(
    httpMethod: Bytes,
    headers: seq<(Bytes, Bytes)>,
    path: Bytes,
    scheme: Bytes,
    queryString: Bytes,
    server: (Bytes, nat),
    client: (Bytes, nat),
    triggerEvent: Event,
    triggerContext: C,
    eventType: Bytes)

  // ---------------------------------------------------------------------------
  // encode_query_string

  /** Python's `not params` for a parameter dict read with `get`. */
  predicate IsFalsy(params: Option<Params>)
  {
    params.None? || params.value == []
  }

  /** The dict the query string is built from: the multi-value one unless it is empty. */
  function SelectedParams(e: Event): Params
  {
    if !IsFalsy(e.multiValueQueryStringParameters) then e.multiValueQueryStringParameters.value
    else if !IsFalsy(e.queryStringParameters) then e.queryStringParameters.value
    else []
  }

  /** `(unquote_plus(key), unquote_plus(v))` for each `v` of a list value, in order. */
  function MultiPairs(key: Bytes, vs: seq<Bytes>): seq<(Bytes, Bytes)>
  {
    if vs == [] then []
    else MultiPairs(key, vs[..|vs| - 1]) + [(UnquotePlus(key), UnquotePlus(vs[|vs| - 1]))]
  }

  /** The decoded pairs one parameter contributes. */
  function EntryPairs(entry: (Bytes, ParamValue)): seq<(Bytes, Bytes)>
  {
    match entry.1
    case Single(v) => [(UnquotePlus(entry.0), UnquotePlus(v))]
    case Multi(vs) => MultiPairs(entry.0, vs)
  }

  /** The decoded pairs of a parameter dict, key after key. */
  function DecodedPairs(ps: Params): seq<(Bytes, Bytes)>
  {
    if ps == [] then [] else DecodedPairs(ps[..|ps| - 1]) + EntryPairs(ps[|ps| - 1])
  }

  /** The query string the adapter promises: the decoded pairs, encoded once. */
  function QueryString(e: Event): Bytes
  {
    var ps := SelectedParams(e);
    if ps == [] then [] else FormEncode(DecodedPairs(ps))
  }

  /** `encode_query_string`: decode every key and value, collect the pairs, encode them once. */
  method EncodeQueryString(e: Event) returns (qs: Bytes)
    ensures qs == QueryString(e)
  {
    var params := e.multiValueQueryStringParameters;
    if IsFalsy(params) {
      params := e.queryStringParameters;
    }
    if IsFalsy(params) {
      return [];
    }
    var query := CollectPairs(params.value);
    qs := FormEncode(query);
  }

  /** The outer loop of `encode_query_string`: one entry of the dict after another. */
  method CollectPairs(ps: Params) returns (query: seq<(Bytes, Bytes)>)
    ensures query == DecodedPairs(ps)
  {
    query := [];
    var i := 0;
    while i < |ps|
      invariant 0 <= i <= |ps|
      invariant query == DecodedPairs(ps[..i])
    {
      DecodedPairsStep(ps, i);
      var key := ps[i].0;
      match ps[i].1 {
        case Multi(vs) =>
          query := AppendValues(query, key, vs);
        case Single(v) =>
          query := query + [(UnquotePlus(key), UnquotePlus(v))];
      }
      i := i + 1;
    }
    assert ps[..i] == ps;
  }

  /** The inner loop of `encode_query_string`: one pair per element of a list value. */
  method AppendValues(query: seq<(Bytes, Bytes)>, key: Bytes, vs: seq<Bytes>) returns (r: seq<(Bytes, Bytes)>)
    ensures r == query + MultiPairs(key, vs)
  {
    r := query;
    var j := 0;
    while j < |vs|
      invariant 0 <= j <= |vs|
      invariant r == query + MultiPairs(key, vs[..j])
    {
      r := r + [(UnquotePlus(key), UnquotePlus(vs[j]))];
      assert vs[..j + 1][..j] == vs[..j];
      j := j + 1;
    }
    assert vs[..j] == vs;
  }

  /** Each element of a list value gives one pair, in the list's order. */
  lemma {:induction false} MultiPairsAt(key: Bytes, vs: seq<Bytes>)
    ensures |MultiPairs(key, vs)| == |vs|
    ensures forall i | 0 <= i < |vs| :: MultiPairs(key, vs)[i] == (UnquotePlus(key), UnquotePlus(vs[i]))
  {
    if vs != [] {
      MultiPairsAt(key, vs[..|vs| - 1]);
    }
  }

  lemma DecodedPairsStep(ps: Params, i: nat)
    requires i < |ps|
    ensures DecodedPairs(ps[..i + 1]) == DecodedPairs(ps[..i]) + EntryPairs(ps[i])
  {
    assert ps[..i + 1][..i] == ps[..i];
  }

  lemma {:induction false} DecodedPairsConcat(a: Params, b: Params)
    ensures DecodedPairs(a + b) == DecodedPairs(a) + DecodedPairs(b)
    decreases |b|
  {
    if b != [] {
      var b' := b[..|b| - 1];
      assert a + b == (a + b') + [b[|b| - 1]];
      assert (a + b)[..|a + b| - 1] == a + b';
      DecodedPairsConcat(a, b');
    } else {
      assert a + b == a;
    }
  }

  /**
   * One pair per element of a list value and one per single value, in the
   * dict's key order: the pairs of the first key come before those of the rest.
   */
  lemma DecodedPairsOrder(ps: Params)
    requires ps != []
    ensures DecodedPairs(ps) == EntryPairs(ps[0]) + DecodedPairs(ps[1..])
  {
    assert ps == [ps[0]] + ps[1..];
    DecodedPairsConcat([ps[0]], ps[1..]);
    var first: Params := [ps[0]];
    assert DecodedPairs(first) == EntryPairs(ps[0]) by { assert first[..0] == []; }
  }

  /**
   * No parameters in either dict gives the empty query string, and a non-empty
   * multi-value dict takes precedence over the single-value one.
   */
  lemma QueryStringSource(e: Event)
    ensures IsFalsy(e.multiValueQueryStringParameters) && IsFalsy(e.queryStringParameters)
      ==> QueryString(e) == []
    ensures !IsFalsy(e.multiValueQueryStringParameters)
      ==> QueryString(e) == FormEncode(DecodedPairs(e.multiValueQueryStringParameters.value))
    ensures IsFalsy(e.multiValueQueryStringParameters) && !IsFalsy(e.queryStringParameters)
      ==> QueryString(e) == FormEncode(DecodedPairs(e.queryStringParameters.value))
  {
  }

  /** Form-decoding the query string gives back exactly the decoded pairs, in order. */
  lemma QueryStringDecodes(e: Event)
    ensures FormDecode(QueryString(e)) == DecodedPairs(SelectedParams(e))
  {
    FormRoundTrip(DecodedPairs(SelectedParams(e)));
    if SelectedParams(e) == [] {
      assert FormDecode([]) == FormDecode(FormEncode([]));
    }
  }

  /** The event's parameters as a load balancer passing them on undecoded would show them. */
  function QuotedParams(raw: seq<(Bytes, Bytes)>): (ps: Params)
    ensures |ps| == |raw|
  {
    seq(|raw|, i requires 0 <= i < |raw| => (QuotePlus(raw[i].0), Single(QuotePlus(raw[i].1))))
  }

  /** Parameters that arrive URL-encoded are decoded, so the query string is not encoded twice. */
  lemma QuotedEntryDecodes(pair: (Bytes, Bytes))
    ensures EntryPairs((QuotePlus(pair.0), Single(QuotePlus(pair.1)))) == [pair]
  {
    UnquotePlusQuotePlus(pair.0);
    UnquotePlusQuotePlus(pair.1);
  }

  lemma {:induction false} QuotedParamsDecode(raw: seq<(Bytes, Bytes)>)
    ensures DecodedPairs(QuotedParams(raw)) == raw
    decreases |raw|
  {
    if raw != [] {
      var n := |raw| - 1;
      var ps := QuotedParams(raw);
      var prefix := QuotedParams(raw[..n]);
      assert ps[..n] == prefix;
      QuotedParamsDecode(raw[..n]);
      QuotedEntryDecodes(raw[n]);
      assert EntryPairs(ps[n]) == [raw[n]];
      assert DecodedPairs(ps) == DecodedPairs(prefix) + EntryPairs(ps[n]);
      assert raw == raw[..n] + [raw[n]];
    }
  }

  /** URL-encoded single values, in whichever dict is read, are encoded once in the query string. */
  lemma QueryStringOfQuotedParams(e: Event, raw: seq<(Bytes, Bytes)>)
    requires SelectedParams(e) == QuotedParams(raw) && raw != []
    ensures QueryString(e) == FormEncode(raw)
  {
    QuotedParamsDecode(raw);
  }

  /** The pairs a list value stands for: its key with each element, in order. */
  function ListPairs(entry: (Bytes, seq<Bytes>)): (r: seq<(Bytes, Bytes)>)
    ensures |r| == |entry.1|
  {
    seq(|entry.1|, i requires 0 <= i < |entry.1| => (entry.0, entry.1[i]))
  }

  /** The pairs of a multi-value dict, key after key. */
  function FlatPairs(raw: seq<(Bytes, seq<Bytes>)>): seq<(Bytes, Bytes)>
  {
    if raw == [] then [] else FlatPairs(raw[..|raw| - 1]) + ListPairs(raw[|raw| - 1])
  }

  /** A multi-value dict as a load balancer passing it on undecoded would show it. */
  function QuotedMultiParams(raw: seq<(Bytes, seq<Bytes>)>): (ps: Params)
    ensures |ps| == |raw|
  {
    seq(|raw|, i requires 0 <= i < |raw| =>
      (QuotePlus(raw[i].0), Multi(seq(|raw[i].1|, j requires 0 <= j < |raw[i].1| => QuotePlus(raw[i].1[j])))))
  }

  /** A list value whose key and elements arrived `quote_plus`-encoded decodes to its raw pairs. */
  lemma QuotedListDecodes(entry: (Bytes, seq<Bytes>))
    ensures var vs := seq(|entry.1|, j requires 0 <= j < |entry.1| => QuotePlus(entry.1[j]));
      MultiPairs(QuotePlus(entry.0), vs) == ListPairs(entry)
  {
    var vs := seq(|entry.1|, j requires 0 <= j < |entry.1| => QuotePlus(entry.1[j]));
    MultiPairsAt(QuotePlus(entry.0), vs);
    UnquotePlusQuotePlus(entry.0);
    forall j | 0 <= j < |vs| ensures MultiPairs(QuotePlus(entry.0), vs)[j] == ListPairs(entry)[j] {
      UnquotePlusQuotePlus(entry.1[j]);
    }
  }

  lemma {:induction false} QuotedMultiParamsDecode(raw: seq<(Bytes, seq<Bytes>)>)
    ensures DecodedPairs(QuotedMultiParams(raw)) == FlatPairs(raw)
    decreases |raw|
  {
    if raw != [] {
      var n := |raw| - 1;
      var ps := QuotedMultiParams(raw);
      var prefix := QuotedMultiParams(raw[..n]);
      assert ps[..n] == prefix;
      QuotedMultiParamsDecode(raw[..n]);
      QuotedListDecodes(raw[n]);
      assert EntryPairs(ps[n]) == ListPairs(raw[n]);
      assert DecodedPairs(ps) == DecodedPairs(prefix) + EntryPairs(ps[n]);
    }
  }

  /**
   * URL-encoded list values are decoded before the query string is built, so
   * it holds each raw element once encoded, in the dict's and the lists' order.
   */
  lemma QueryStringOfQuotedMultiParams(e: Event, raw: seq<(Bytes, seq<Bytes>)>)
    requires SelectedParams(e) == QuotedMultiParams(raw) && raw != []
    ensures QueryString(e) == FormEncode(FlatPairs(raw))
    ensures FormDecode(QueryString(e)) == FlatPairs(raw)
  {
    QuotedMultiParamsDecode(raw);
    FormRoundTrip(FlatPairs(raw));
  }

  // ---------------------------------------------------------------------------
  // request

  /** The value of the last header whose name lower-cases to `name`. */
  function LastMatch(hs: seq<(Bytes, Bytes)>, name: Bytes): Option<Bytes>
  {
    if hs == [] then None
    else if LowerAll(hs[|hs| - 1].0) == name then Some(hs[|hs| - 1].1)
    else LastMatch(hs[..|hs| - 1], name)
  }

  /** `{k.lower(): v for k, v in headers.items()}`. */
  function LowerHeaders(hs: seq<(Bytes, Bytes)>): (d: Dict<Bytes, Bytes>)
    ensures DistinctKeys(d)
    ensures forall i | 0 <= i < |d| :: IsLowerCase(d[i].0)
    ensures forall name :: Get(d, name) == LastMatch(hs, name)
  {
    if hs == [] then []
    else
      var prefix := LowerHeaders(hs[..|hs| - 1]);
      var (k, v) := hs[|hs| - 1];
      var d := Put(prefix, LowerAll(k), v);
      PutDistinct(prefix, LowerAll(k), v);
      PutKeys(prefix, LowerAll(k), v);
      LowerAllIdempotent(k);
      KeysAt(d);
      KeysAt(prefix);
      d
  }

  /** The lower-cased header names, each once, in the order of their first spelling. */
  function FirstNames(hs: seq<(Bytes, Bytes)>): seq<Bytes>
  {
    if hs == [] then []
    else
      var names := FirstNames(hs[..|hs| - 1]);
      var name := LowerAll(hs[|hs| - 1].0);
      if name in names then names else names + [name]
  }

  /**
   * The dict keeps each lower-cased name where its first spelling put it: a
   * later header with the same name replaces the value, not the position.
   */
  lemma {:induction false} LowerHeadersOrder(hs: seq<(Bytes, Bytes)>)
    ensures Keys(LowerHeaders(hs)) == FirstNames(hs)
  {
    if hs != [] {
      LowerHeadersOrder(hs[..|hs| - 1]);
      var (k, v) := hs[|hs| - 1];
      PutKeys(LowerHeaders(hs[..|hs| - 1]), LowerAll(k), v);
    }
  }

  /** The request's header dict: empty when the event has no or empty `headers`. */
  function RequestHeaders(e: Event): (r: Dict<Bytes, Bytes>)
    ensures DistinctKeys(r)
    ensures forall i | 0 <= i < |r| :: IsLowerCase(r[i].0)
    ensures forall name :: Get(r, name) == EventHeader(e, name)
  {
    if e.headers.None? || e.headers.value == [] then [] else LowerHeaders(e.headers.value)
  }

  /** The event header `name` (lower-case) as the adapter sees it. */
  function EventHeader(e: Event, name: Bytes): Option<Bytes>
  {
    if e.headers.None? then None else LastMatch(e.headers.value, name)
  }

  /**
   * The server endpoint: the `host` header (default `mangum`) with the
   * `x-forwarded-port` header (default 80) when the host has no colon, and
   * otherwise the host split at its colon into name and port. A second colon
   * or a port that is not decimal digits is a `ValueError`.
   */
  function Server(h: Dict<Bytes, Bytes>): (r: Result<(Bytes, nat), Error>)
    ensures r.Ok? ==> COLON !in r.value.0
    ensures r.Ok? && COLON !in Get(h, HOST).GetOr(DEFAULT_SERVER_NAME) ==>
      r.value.0 == Get(h, HOST).GetOr(DEFAULT_SERVER_NAME)
    ensures r.Err? ==> r.error == ValueError
  {
    var name := Get(h, HOST).GetOr(DEFAULT_SERVER_NAME);
    if COLON !in name then
      match Get(h, X_FORWARDED_PORT)
      case None => Ok((name, DEFAULT_SERVER_PORT))
      case Some(p) =>
        match ParseDecimal(p)
        case None => Err(ValueError)
        case Some(n) => Ok((name, n))
    else
      var parts := Split(name, COLON);
      if |parts| != 2 then Err(ValueError)
      else
        match ParseDecimal(parts[1])
        case None => Err(ValueError)
        case Some(n) => Ok((parts[0], n))
  }

  /**
   * Host and port default independently: a colon-free host (or `mangum` when
   * there is none) names the server, and without `x-forwarded-port` the port is 80.
   */
  lemma ServerDefaults(h: Dict<Bytes, Bytes>)
    requires COLON !in Get(h, HOST).GetOr(DEFAULT_SERVER_NAME) && Get(h, X_FORWARDED_PORT).None?
    ensures Server(h) == Ok((Get(h, HOST).GetOr(DEFAULT_SERVER_NAME), DEFAULT_SERVER_PORT))
  {
  }

  /** With no `host` header the server is `mangum`, on port 80 or on `x-forwarded-port`. */
  lemma ServerNoHost(h: Dict<Bytes, Bytes>, port: nat)
    requires Get(h, HOST).None?
    ensures Get(h, X_FORWARDED_PORT).None? ==> Server(h) == Ok((DEFAULT_SERVER_NAME, DEFAULT_SERVER_PORT))
    ensures Get(h, X_FORWARDED_PORT) == Some(Decimal(port)) ==> Server(h) == Ok((DEFAULT_SERVER_NAME, port))
  {
    assert COLON !in DEFAULT_SERVER_NAME;
    ParseDecimalOfDecimal(port);
  }

  /** A colon-free host (or `mangum`) names the server; the port is `x-forwarded-port` read as an integer. */
  lemma ServerForwardedPort(h: Dict<Bytes, Bytes>, port: nat)
    requires COLON !in Get(h, HOST).GetOr(DEFAULT_SERVER_NAME)
    requires Get(h, X_FORWARDED_PORT) == Some(Decimal(port))
    ensures Server(h) == Ok((Get(h, HOST).GetOr(DEFAULT_SERVER_NAME), port))
  {
    ParseDecimalOfDecimal(port);
  }

  /** An `x-forwarded-port` that is not decimal digits is a `ValueError`. */
  lemma ServerBadPort(h: Dict<Bytes, Bytes>, p: Bytes)
    requires COLON !in Get(h, HOST).GetOr(DEFAULT_SERVER_NAME)
    requires Get(h, X_FORWARDED_PORT) == Some(p) && ParseDecimal(p).None?
    ensures Server(h) == Err(ValueError)
  {
  }

  /** A host `name:port` is split into its name and port. */
  lemma ServerHostWithPort(h: Dict<Bytes, Bytes>, name: Bytes, port: nat)
    requires Get(h, HOST) == Some(name + [COLON] + Decimal(port)) && COLON !in name
    ensures Server(h) == Ok((name, port))
  {
    var host := name + [COLON] + Decimal(port);
    assert host[|name|] == COLON;
    ParseDecimalOfDecimal(port);
    var digits := Decimal(port);
    assert COLON !in digits by {
      var r := ParseDecimal(digits);
      assert forall i | 0 <= i < |digits| :: IsDigit(digits[i]);
    }
    SplitJoin([name, digits], COLON);
    assert Join([name, digits], COLON) == host by {
      assert Join([digits], COLON) == digits;
    }
  }

  /** A host with two colons or more is a `ValueError`, whatever follows. */
  lemma ServerTwoColons(h: Dict<Bytes, Bytes>, a: Bytes, b: Bytes, c: Bytes)
    requires Get(h, HOST) == Some(a + [COLON] + b + [COLON] + c) && COLON !in a && COLON !in b
    ensures Server(h) == Err(ValueError)
  {
    var host := a + [COLON] + b + [COLON] + c;
    assert host[|a|] == COLON;
    var parts := Split(host, COLON);
    assert host[..|a|] == a;
    IndexOfAt(host, COLON, |a|);
    var rest := host[|a| + 1..];
    assert rest == b + [COLON] + c;
    assert rest[..|b|] == b;
    IndexOfAt(rest, COLON, |b|);
    assert |Split(rest, COLON)| >= 2;
    assert |parts| >= 3;
  }

  /** The path handed on: an empty path is `/`, and the path is percent-decoded once. */
  function RequestPath(path: Bytes): (r: Bytes)
    ensures r != []
    ensures |r| <= if path == [] then |ROOT_PATH| else |path|
  {
    Unquote(if path == [] then ROOT_PATH else path)
  }

  /** A path percent-encoded once arrives decoded, not decoded twice. */
  lemma RequestPathDecodesOnce(raw: Bytes)
    requires raw != []
    ensures RequestPath(Quote(raw)) == raw
  {
    UnquoteQuote(raw);
    assert Quote(raw) != [];
  }

  lemma RequestPathEmpty()
    ensures RequestPath([]) == ROOT_PATH
  {
    UnquoteLiteral(47, []);
    assert ROOT_PATH == [47] + [];
  }

  /** `/a%20b` becomes `/a b`. */
  lemma RequestPathExample()
    ensures RequestPath([47, 97, 37, 50, 48, 98]) == [47, 97, 32, 98]
  {
    var tail: Bytes := [98];
    UnquoteLiteral(98, []);
    assert Escape(32) == [37, 50, 48];
    UnquoteEscape(32, tail);
    var p2 := Escape(32) + tail;
    UnquoteLiteral(97, p2);
    UnquoteLiteral(47, [97] + p2);
    assert [47] + ([97] + p2) == [47, 97, 37, 50, 48, 98];
  }

  /** `AwsAlb.request`. */
  function BuildRequest<C>(e: Event, context: C): (r: Result<Request<C>, Error>)
    ensures e.path.None? ==> r == Err(KeyError(PATH_KEY))
    ensures e.path.Some? && e.httpMethod.None? ==> r == Err(KeyError(HTTP_METHOD_KEY))
    ensures r.Ok? <==> e.path.Some? && e.httpMethod.Some? && Server(RequestHeaders(e)).Ok?
    ensures r.Ok? ==> forall i | 0 <= i < |r.value.headers| :: IsLowerCase(r.value.headers[i].0)
    ensures r.Ok? && (e.headers.None? || e.headers.value == []) ==> r.value.headers == []
    ensures r.Ok? ==> r.value.client.1 == 0
    ensures r.Ok? ==> r.value.eventType == EVENT_TYPE
    ensures r.Ok? ==> r.value.triggerEvent == e && r.value.triggerContext == context
  {
    var headers := RequestHeaders(e);
    var sourceIp := Get(headers, X_FORWARDED_FOR).GetOr([]);
    if e.path.None? then Err(KeyError(PATH_KEY))
    else if e.httpMethod.None? then Err(KeyError(HTTP_METHOD_KEY))
    else
      match Server(headers)
      case Err(err) => Err(err)
      case Ok(server) =>
        Ok(Request(
          httpMethod := e.httpMethod.value,
          headers := headers,
          path := RequestPath(e.path.value),
          scheme := Get(headers, X_FORWARDED_PROTO).GetOr(DEFAULT_SCHEME),
          queryString := QueryString(e),
          server := server,
          client := (sourceIp, 0),
          triggerEvent := e,
          triggerContext := context,
          eventType := EVENT_TYPE))
  }

  /**
   * What the request carries, in terms of the event: the method, the decoded
   * path, the query string, the scheme from `x-forwarded-proto` (default
   * `https`) and the client from `x-forwarded-for` (default empty) with port 0,
   * each header taken from the last event header whose name lower-cases to it.
   */
  lemma RequestFields<C>(e: Event, context: C)
    requires BuildRequest(e, context).Ok?
    ensures var q := BuildRequest(e, context).value;
      && q.httpMethod == e.httpMethod.value
      && q.path == RequestPath(e.path.value)
      && q.queryString == QueryString(e)
      && q.scheme == EventHeader(e, X_FORWARDED_PROTO).GetOr(DEFAULT_SCHEME)
      && q.client == (EventHeader(e, X_FORWARDED_FOR).GetOr([]), 0)
      && q.server == Server(RequestHeaders(e)).value
      && (forall name :: Get(q.headers, name) == EventHeader(e, name))
  {
    assert forall name :: Get(RequestHeaders(e), name) == EventHeader(e, name);
  }

  /** Two event headers whose names differ only in case: the later value wins. */
  lemma LaterHeaderWins(hs: seq<(Bytes, Bytes)>, j: nat)
    requires j < |hs|
    requires forall j' | j < j' < |hs| :: LowerAll(hs[j'].0) != LowerAll(hs[j].0)
    ensures LastMatch(hs, LowerAll(hs[j].0)) == Some(hs[j].1)
    decreases |hs|
  {
    if j < |hs| - 1 {
      LaterHeaderWins(hs[..|hs| - 1], j);
    }
  }

  // ---------------------------------------------------------------------------
  // body

  /** The body bytes before any decoding; `body or b""` and `str.encode()`. */
  function RawBody(e: Event): (r: Bytes)
    ensures e.body.None? ==> r == []
    ensures e.body == Some(StrBody(r)) || e.body == Some(BytesBody(r)) || e.body.None?
  {
    match e.body
    case None => []
    case Some(StrBody(text)) => text
    case Some(BytesBody(data)) => data
  }

  /** `AwsAlb.body`: the raw bytes, base64-decoded when the event says so. */
  function Body(e: Event): (r: Result<Bytes, Error>)
    ensures RawBody(e) == [] ==> r == Ok([])
    ensures !e.isBase64Encoded ==> r == Ok(RawBody(e))
    ensures e.isBase64Encoded && |RawBody(e)| % 4 != 0 ==> r == Err(Base64Error)
    ensures r.Err? ==> e.isBase64Encoded && r.error == Base64Error
  {
    var raw := RawBody(e);
    if e.isBase64Encoded then
      match Base64.Decode(raw)
      case None => Err(Base64Error)
      case Some(data) => Ok(data)
    else
      Ok(raw)
  }

  /**
   * An absent or empty body is empty bytes; a body that is not base64-framed
   * is passed on as its bytes; a base64-framed body gives back the bytes that
   * were encoded.
   */
  lemma BodyCases(e: Event, data: Bytes)
    ensures RawBody(e) == [] ==> Body(e) == Ok([])
    ensures !e.isBase64Encoded ==> Body(e) == Ok(RawBody(e))
    ensures e.isBase64Encoded && RawBody(e) == Base64.Encode(data) ==> Body(e) == Ok(data)
    ensures e.isBase64Encoded && |RawBody(e)| % 4 != 0 ==> Body(e) == Err(Base64Error)
  {
    Base64.DecodeEncode(data);
  }

  /** The body `aGVsbG8=` with `isBase64Encoded` set is the bytes of `hello`. */
  lemma BodyExample(e: Event)
    requires e.isBase64Encoded && e.body == Some(StrBody([97, 71, 86, 115, 98, 71, 56, 61]))
    ensures Body(e) == Ok([104, 101, 108, 108, 111])
  {
    var hello: Bytes := [104, 101, 108, 108, 111];
    var lo: Bytes := [108, 111];
    assert hello[3..] == lo;
    assert Base64.Char(26) == 97 && Base64.Char(6) == 71 && Base64.Char(21) == 86;
    assert Base64.Char(44) == 115 && Base64.Char(27) == 98 && Base64.Char(60) == 56;
    assert Base64.EncodeBlock(104, 101, 108) == [97, 71, 86, 115];
    assert Base64.Encode(lo) == [98, 71, 56, 61];
    assert Base64.Encode(hello) == Base64.EncodeBlock(104, 101, 108) + Base64.Encode(lo);
    BodyCases(e, hello);
  }

}
