/**
 * `AwsAlb.handle_headers` and `AwsAlb.transform_response`: from the generic
 * response to the reply the load balancer expects.
 */
module AlbResponse {

  import opened Text
  import opened Casings
  import opened AlbEvent

  /** A multi-value header dict, in its key order. */
  type MultiHeaders = seq<(Bytes, seq<Bytes>)>

  /** The generic response the application produced. */
  datatype Response = Response(status: int, headers: seq<(Bytes, Bytes)>, body: Bytes)

  /**
   * The reply: exactly the five keys `statusCode`, `headers`,
   * `multiValueHeaders`, `body` and `isBase64Encoded`.
   */
  datatype Reply = Reply(
    statusCode: int,
    headers: map<Bytes, Bytes>,
    multiValueHeaders: MultiHeaders,
    body: Bytes,
    isBase64Encoded: bool)

  function Min(a: nat, b: nat): nat
  {
    if a < b then a else b
  }

  /** `for value, key in zip(values, keys): headers[key] = value`. */
  function ZipInto(headers: map<Bytes, Bytes>, values: seq<Bytes>, keys: seq<Bytes>): (r: map<Bytes, Bytes>)
    ensures headers.Keys <= r.Keys
    ensures forall k | k in r && k !in headers :: k in keys[..Min(|values|, |keys|)]
    decreases |values|
  {
    if values == [] || keys == [] then headers
    else
      var r := ZipInto(headers[keys[0] := values[0]], values[1..], keys[1..]);
      assert keys[..Min(|values|, |keys|)] == [keys[0]] + keys[1..][..Min(|values| - 1, |keys| - 1)];
      r
  }

  /** The keys one multi-value header writes: its first casings, one per value, when it has several values. */
  function SpreadKeys(entry: (Bytes, seq<Bytes>)): seq<Bytes>
  {
    if |entry.1| > 1 then
      var casings := AllCasings(entry.0);
      casings[..Min(|entry.1|, |casings|)]
    else
      []
  }

  /** One multi-value header spread over casings of its name. */
  function SpreadEntry(headers: map<Bytes, Bytes>, entry: (Bytes, seq<Bytes>)): (r: map<Bytes, Bytes>)
    ensures headers.Keys <= r.Keys
    ensures forall k | k in r && k !in headers :: k in SpreadKeys(entry)
  {
    if |entry.1| > 1 then ZipInto(headers, entry.1, AllCasings(entry.0)) else headers
  }

  /** Every multi-value header spread over casings of its name, in the dict's order. */
  function Spread(headers: map<Bytes, Bytes>, multi: MultiHeaders): (r: map<Bytes, Bytes>)
    ensures headers.Keys <= r.Keys
    ensures forall k | k in r && k !in headers :: exists j | 0 <= j < |multi| :: k in SpreadKeys(multi[j])
    decreases |multi|
  {
    if multi == [] then headers
    else
      var h := SpreadEntry(headers, multi[0]);
      var r := Spread(h, multi[1..]);
      assert forall k | k in r && k !in headers :: exists j | 0 <= j < |multi| :: k in SpreadKeys(multi[j]) by {
        forall k | k in r && k !in headers
          ensures exists j | 0 <= j < |multi| :: k in SpreadKeys(multi[j])
        {
          if k in h {
            assert k in SpreadKeys(multi[0]);
          } else {
            var j :| 0 <= j < |multi[1..]| && k in SpreadKeys(multi[1..][j]);
            assert multi[1..][j] == multi[j + 1];
          }
        }
      }
      r
  }

  /**
   * The two dicts `handle_headers` returns for the helper's two dicts: those
   * dicts untouched when the event has the `multiValueHeaders` key, and
   * otherwise the spread single-value dict with no multi-value headers.
   */
  function HandledHeaders(hasMultiValueHeaders: bool, headers: map<Bytes, Bytes>, multi: MultiHeaders)
    : (r: (map<Bytes, Bytes>, MultiHeaders))
    ensures hasMultiValueHeaders ==> r == (headers, multi)
    ensures !hasMultiValueHeaders ==> r.1 == [] && headers.Keys <= r.0.Keys
    ensures !hasMultiValueHeaders ==> forall k | k in r.0 && k !in headers ::
      exists j | 0 <= j < |multi| :: k in SpreadKeys(multi[j])
  {
    if hasMultiValueHeaders then (headers, multi) else (Spread(headers, multi), [])
  }

  /**
   * `handle_headers`. `splitHeaders` stands for `_handle_multi_value_headers`,
   * whose behaviour is not part of this model.
   */
  method HandleHeaders(
    event: Event,
    responseHeaders: seq<(Bytes, Bytes)>,
    splitHeaders: seq<(Bytes, Bytes)> -> (map<Bytes, Bytes>, MultiHeaders))
    returns (headers: map<Bytes, Bytes>, multiValueHeaders: MultiHeaders)
    ensures event.hasMultiValueHeaders ==> (headers, multiValueHeaders) == splitHeaders(responseHeaders)
    ensures !event.hasMultiValueHeaders ==> multiValueHeaders == []
    ensures (headers, multiValueHeaders) ==
      HandledHeaders(event.hasMultiValueHeaders, splitHeaders(responseHeaders).0, splitHeaders(responseHeaders).1)
  {
    var split := splitHeaders(responseHeaders);
    headers, multiValueHeaders := split.0, split.1;
    if !event.hasMultiValueHeaders {
      var i := 0;
      while i < |multiValueHeaders|
        invariant 0 <= i <= |multiValueHeaders|
        invariant multiValueHeaders == split.1
        invariant Spread(headers, multiValueHeaders[i..]) == Spread(split.0, split.1)
      {
        var (key, values) := multiValueHeaders[i];
        ghost var before := headers;
        if |values| > 1 {
          var casings := AllCasings(key);
          var j := 0;
          while j < |values| && j < |casings|
            invariant 0 <= j <= |values| && j <= |casings|
            invariant ZipInto(headers, values[j..], casings[j..]) == ZipInto(before, values, casings)
          {
            assert values[j..][1..] == values[j + 1..] && casings[j..][1..] == casings[j + 1..];
            headers := headers[casings[j] := values[j]];
            j := j + 1;
          }
          assert values[j..] == [] || casings[j..] == [];
        }
        assert headers == SpreadEntry(before, multiValueHeaders[i]);
        assert multiValueHeaders[i..][1..] == multiValueHeaders[i + 1..];
        i := i + 1;
      }
      assert multiValueHeaders[i..] == [];
      multiValueHeaders := [];
    }
  }

  /**
   * `transform_response`. `encodeBody` stands for
   * `_handle_base64_response_body`, whose behaviour is not part of this model.
   */
  method TransformResponse(
    event: Event,
    response: Response,
    splitHeaders: seq<(Bytes, Bytes)> -> (map<Bytes, Bytes>, MultiHeaders),
    encodeBody: (Bytes, map<Bytes, Bytes>) -> (Bytes, bool))
    returns (reply: Reply)
    ensures reply.statusCode == response.status
    ensures (reply.headers, reply.multiValueHeaders) ==
      HandledHeaders(event.hasMultiValueHeaders, splitHeaders(response.headers).0, splitHeaders(response.headers).1)
    ensures (reply.body, reply.isBase64Encoded) == encodeBody(response.body, reply.headers)
  {
    var headers, multiValueHeaders := HandleHeaders(event, response.headers, splitHeaders);
    var (body, isBase64Encoded) := encodeBody(response.body, headers);
    reply := Reply(response.status, headers, multiValueHeaders, body, isBase64Encoded);
  }

  // ---------------------------------------------------------------------------
  // What spreading over casings writes

  /**
   * With distinct keys, the zip stores each of the first `min(|values|, |keys|)`
   * values under its own key, and leaves every other key as it was.
   */
  lemma {:induction false} ZipIntoWrites(headers: map<Bytes, Bytes>, values: seq<Bytes>, keys: seq<Bytes>)
    requires forall a, b | 0 <= a < b < |keys| :: keys[a] != keys[b]
    ensures var r := ZipInto(headers, values, keys);
      forall i | 0 <= i < Min(|values|, |keys|) :: keys[i] in r && r[keys[i]] == values[i]
    ensures var r := ZipInto(headers, values, keys);
      forall k | k !in keys[..Min(|values|, |keys|)] :: (k in r <==> k in headers) && (k in headers ==> r[k] == headers[k])
    decreases |values|
  {
    if values != [] && keys != [] {
      var h' := headers[keys[0] := values[0]];
      ZipIntoWrites(h', values[1..], keys[1..]);
      var n := Min(|values|, |keys|);
      assert keys[1..][..n - 1] == keys[1..n];
      assert keys[0] !in keys[1..n] by {
        forall t | 1 <= t < n ensures keys[t] != keys[0] { }
      }
      forall i | 0 <= i < n ensures keys[i] in ZipInto(headers, values, keys) && ZipInto(headers, values, keys)[keys[i]] == values[i] {
        if i > 0 {
          assert keys[1..][i - 1] == keys[i] && values[1..][i - 1] == values[i];
        }
      }
      assert keys[..n] == [keys[0]] + keys[1..n];
    } else {
      assert Min(|values|, |keys|) == 0;
    }
  }

  /** What a header writes are casings of its name, so one with another lower-case name writes none of them. */
  lemma NotSpreadKey(entry: (Bytes, seq<Bytes>), k: Bytes)
    requires LowerAll(k) != LowerAll(entry.0)
    ensures k !in SpreadKeys(entry)
  {
    var ks := SpreadKeys(entry);
    forall i | 0 <= i < |ks| ensures ks[i] != k {
      AllCasingsShape(entry.0, ks[i]);
    }
  }

  lemma SpreadEntryWrites(headers: map<Bytes, Bytes>, entry: (Bytes, seq<Bytes>))
    ensures var r := SpreadEntry(headers, entry); var ks := SpreadKeys(entry);
      forall i | 0 <= i < |ks| :: ks[i] in r && r[ks[i]] == entry.1[i]
    ensures var r := SpreadEntry(headers, entry);
      forall k | k !in SpreadKeys(entry) :: (k in r <==> k in headers) && (k in headers ==> r[k] == headers[k])
  {
    if |entry.1| > 1 {
      AllCasingsDistinct(entry.0);
      ZipIntoWrites(headers, entry.1, AllCasings(entry.0));
    }
  }

  /** A key that no multi-value header writes keeps its place in the single-value dict. */
  lemma {:induction false} SpreadKeeps(headers: map<Bytes, Bytes>, multi: MultiHeaders, k: Bytes)
    requires forall j | 0 <= j < |multi| :: k !in SpreadKeys(multi[j])
    ensures var r := Spread(headers, multi); (k in r <==> k in headers) && (k in headers ==> r[k] == headers[k])
    decreases |multi|
  {
    if multi != [] {
      SpreadEntryWrites(headers, multi[0]);
      assert k !in SpreadKeys(multi[0]);
      SpreadKeeps(SpreadEntry(headers, multi[0]), multi[1..], k);
    }
  }

  /** Names of the multi-value dict that are distinct even after lower-casing. */
  predicate DistinctNames(multi: MultiHeaders)
  {
    forall a, b | 0 <= a < b < |multi| :: LowerAll(multi[a].0) != LowerAll(multi[b].0)
  }

  /**
   * Without native multi-value headers, the `i`-th value of a header with
   * several values is stored under the `i`-th casing of its name, for every
   * `i` below the number of casings; further values are dropped.
   */
  lemma {:induction false} SpreadWrites(headers: map<Bytes, Bytes>, multi: MultiHeaders, j: nat, i: nat)
    requires DistinctNames(multi)
    requires j < |multi| && |multi[j].1| > 1 && i < Min(|multi[j].1|, Pow2(LetterCount(multi[j].0)))
    ensures var r := Spread(headers, multi); var key := AllCasings(multi[j].0)[i];
      key in r && r[key] == multi[j].1[i]
    decreases |multi|
  {
    var key := AllCasings(multi[j].0)[i];
    var ks := SpreadKeys(multi[j]);
    assert ks[i] == key;
    if j == 0 {
      SpreadEntryWrites(headers, multi[0]);
      AllCasingsShape(multi[0].0, key);
      forall j' | 0 <= j' < |multi[1..]| ensures key !in SpreadKeys(multi[1..][j']) {
        assert multi[1..][j'] == multi[j' + 1];
        NotSpreadKey(multi[1..][j'], key);
      }
      SpreadKeeps(SpreadEntry(headers, multi[0]), multi[1..], key);
    } else {
      SpreadWrites(SpreadEntry(headers, multi[0]), multi[1..], j - 1, i);
    }
  }

  /** Keys that are no casing written for a multi-value header keep their value, and no other key appears. */
  lemma SpreadLeavesOthers(headers: map<Bytes, Bytes>, multi: MultiHeaders, k: Bytes)
    requires forall j | 0 <= j < |multi| && |multi[j].1| > 1 :: LowerAll(k) != LowerAll(multi[j].0)
    ensures var r := Spread(headers, multi); (k in r <==> k in headers) && (k in headers ==> r[k] == headers[k])
  {
    forall j | 0 <= j < |multi| ensures k !in SpreadKeys(multi[j]) {
      if |multi[j].1| > 1 {
        NotSpreadKey(multi[j], k);
      }
    }
    SpreadKeeps(headers, multi, k);
  }

  /**
   * Two `set-cookie` values `a` and `b` without native multi-value headers:
   * `set-cookie` holds `a`, `Set-cookie` holds `b`, and no multi-value headers
   * are left.
   */
  lemma SetCookieExample(a: Bytes, b: Bytes)
    ensures var setCookie: Bytes := [115, 101, 116, 45, 99, 111, 111, 107, 105, 101];
      var upper: Bytes := [83, 101, 116, 45, 99, 111, 111, 107, 105, 101];
      HandledHeaders(false, map[], [(setCookie, [a, b])]) == (map[setCookie := a, upper := b], [])
  {
    var setCookie: Bytes := [115, 101, 116, 45, 99, 111, 111, 107, 105, 101];
    var upper: Bytes := [83, 101, 116, 45, 99, 111, 111, 107, 105, 101];
    assert upper == [Upper(setCookie[0])] + setCookie[1..];
    TwoValues(setCookie, a, b);
  }

  /**
   * Two values under a lower-case name that starts with a letter: the first
   * keeps the name, the second goes under the name with that letter upper-cased.
   */
  lemma TwoValues(name: Bytes, a: Bytes, b: Bytes)
    requires |name| > 0 && IsLowerLetter(name[0])
    requires forall p | 0 <= p < |name| :: !IsUpperLetter(name[p])
    ensures HandledHeaders(false, map[], [(name, [a, b])])
      == (map[name := a, [Upper(name[0])] + name[1..] := b], [])
  {
    var casings := FirstTwoCasings(name);
    var multi: MultiHeaders := [(name, [a, b])];
    assert Spread(map[], multi) == Spread(SpreadEntry(map[], multi[0]), []);
    ZipTwo(a, b, casings);
  }

  lemma FirstTwoCasings(name: Bytes) returns (casings: seq<Bytes>)
    requires |name| > 0 && IsLowerLetter(name[0])
    requires forall p | 0 <= p < |name| :: !IsUpperLetter(name[p])
    ensures casings == AllCasings(name) && |casings| >= 2
    ensures casings[0] == name && casings[1] == [Upper(name[0])] + name[1..]
  {
    casings := AllCasings(name);
    AllCasingsFirst(name);
    AllCasingsSecond(name);
    assert LowerAll(name) == name;
    assert LowerAll(name[1..]) == name[1..];
  }

  lemma ZipTwo(a: Bytes, b: Bytes, casings: seq<Bytes>)
    requires |casings| >= 2
    ensures ZipInto(map[], [a, b], casings) == map[casings[0] := a, casings[1] := b]
  {
    var empty: map<Bytes, Bytes> := map[];
    var vs: seq<Bytes> := [a, b];
    assert vs[1..] == [b];
    var one := empty[casings[0] := a];
    assert ZipInto(empty, vs, casings) == ZipInto(one, [b], casings[1..]);
    var rest: seq<Bytes> := [b];
    assert rest[1..] == [];
    assert ZipInto(one, rest, casings[1..]) == ZipInto(one[casings[1] := b], [], casings[2..]);
  }
}
