# mangum's AWS Application Load Balancer adapter, in Dafny

mangum runs ASGI applications on AWS Lambda. Its handler for Application Load
Balancer events (`mangum/handlers/aws_alb.py`) does two things:

- it turns the event the load balancer delivers into mangum's generic request:
  method, lower-cased headers, percent-decoded path, scheme, query string,
  server and client endpoints, and body;
- it turns the application's response into the reply the load balancer expects.

This project models that handler and proves what it promises.

The modules follow the code's structure:

| module | file | what it holds |
|---|---|---|
| `Wrappers` | `wrappers.dfy` | `Option` and `Result` |
| `Text` | `text.dfy` | Byte strings with the ASCII case mapping, `split`, `join`, and decimal `int()`/`str()` |
| `Casings` | `casings.dfy` | `all_casings` and a reference definition by bits |
| `Percent` | `percent.dfy` | `quote`, `quote_plus`, `unquote`, `unquote_plus` and `urlencode`, with the form parser they round-trip with |
| `Base64` | `base64.dfy` | Strict base64 (section 4 of RFC 4648), with its decode/encode round trip |
| `Dict` | `dict.dfy` | Python's insertion-ordered dict as a sequence of pairs |
| `AlbEvent` | `alb_event.dfy` | The event's keys, and the errors reading them can raise |
| `AlbRequest` | `alb_request.dfy` | `encode_query_string` (an imperative method with nested loops), `request` and `body` |
| `AlbResponse` | `alb_response.dfy` | `handle_headers` (an imperative method that updates the header map in a loop) and `transform_response` |

Text is held as its UTF-8 bytes, so `str.encode()` is the identity.

Python exceptions become the `Err` side of a `Result`:

- `KeyError` for a missing `path` or `httpMethod`;
- `ValueError` from unpacking the host, split at its colons, into exactly two names (line 91), or from `int()` (line 92);
- the base64 error.

Two details of the code that the model keeps:

- `host`, `x-forwarded-port`, `x-forwarded-proto` and `x-forwarded-for` are read with
  `dict.get` and a default (lines 82, 87, 89, 102). A header present with an empty
  value therefore stays empty: it is not replaced by `mangum`, `80`, `https` or `""`.
- Request headers are collapsed by a dict comprehension (line 80). For names that
  differ only in case, the last value wins, and the name keeps the position where
  its first spelling appeared (`LowerHeadersOrder`).

## Model

| member | source | states |
|---|---|---|
| Casings.AllCasings | mangum/handlers/aws_alb.py:9-25 | There are exactly 2^k casings, k being the number of bytes whose lower and upper forms differ, and each has the input's length |
| Casings.AllCasingsAt | mangum/handlers/aws_alb.py:18-25 | Output `i` of the generator equals the reference casing `CasingAt(s, i)` |
| Casings.AllCasingsBits | mangum/handlers/aws_alb.py:18-25 | In output `i`, an uncased byte is unchanged, and the letter with `j` letters before it is upper-case exactly when bit `j` of `i` is set (the first letter varies fastest) |
| Casings.CasingAtBits | mangum/handlers/aws_alb.py:18-25 | The same bit description for the reference casing |
| Casings.CasingAtInjective | mangum/handlers/aws_alb.py:18-25 | Two different numbers below 2^k give different casings |
| Casings.AllCasingsDistinct | mangum/handlers/aws_alb.py:9-25 | The outputs are pairwise distinct |
| Casings.CasingAtIsCasing | mangum/handlers/aws_alb.py:18-25 | Each reference casing changes only the case of bytes of the input |
| Casings.CasingIndex | mangum/handlers/aws_alb.py:18-25 | Every casing of the input has a number below 2^k |
| Casings.CasingIndexAt | mangum/handlers/aws_alb.py:18-25 | The casing with that number is the given casing |
| Casings.AllCasingsComplete | mangum/handlers/aws_alb.py:9-25 | A string is an output exactly when it is a casing of the input (both directions) |
| Casings.AllCasingsShape | mangum/handlers/aws_alb.py:15-25 | Every output has the input's length, keeps each uncased byte in place, and lower-cases to the lower-cased input |
| Casings.CasingAtZero | mangum/handlers/aws_alb.py:18-24 | Casing 0 is the all-lower-case variant |
| Casings.AllCasingsFirst | mangum/handlers/aws_alb.py:15-16 | The empty string yields exactly `[""]`, and the first output is always the lower-cased input |
| Casings.AllCasingsSecond | mangum/handlers/aws_alb.py:22-25 | When the first byte is a letter, the second output upper-cases that letter and lower-cases the rest |
| Text.Split | mangum/handlers/aws_alb.py:91 | `str.split` gives at least one part |
| Text.SplitJoin | mangum/handlers/aws_alb.py:91 | Splitting a join of separator-free parts gives back those parts |
| Text.ParseDecimal | mangum/handlers/aws_alb.py:92 | `int()` of a port succeeds exactly on a non-empty run of decimal digits |
| Text.ParseDecimalOfDecimal | mangum/handlers/aws_alb.py:92 | `int(str(n)) == n` |
| Percent.UnquoteQuote | mangum/handlers/aws_alb.py:101 | Percent-decoding inverts `quote` |
| Percent.UnquotePlusQuotePlus | mangum/handlers/aws_alb.py:65 | `unquote_plus(quote_plus(s)) == s` |
| Percent.Unquote | mangum/handlers/aws_alb.py:101 | Percent-decoding never lengthens its input and leaves a non-empty input non-empty |
| Percent.QuotePlusFormSafe | mangum/handlers/aws_alb.py:72 | `quote_plus` emits only unreserved bytes, `%` and `+`, so never `&` or `=` |
| Percent.EncodeFieldDecodes | mangum/handlers/aws_alb.py:72 | One encoded `name=value` field is non-empty, has no `&`, and decodes to its pair |
| Percent.DecodeEncodedFields | mangum/handlers/aws_alb.py:72 | Decoding the encoded fields gives back the pairs, in order |
| Percent.FormRoundTrip | mangum/handlers/aws_alb.py:72 | Form-decoding `urlencode(pairs)` gives back exactly the pairs, in order |
| Base64.Encode | mangum/handlers/aws_alb.py:116 | The encoding's length is a multiple of four, and it is non-empty for non-empty input |
| Base64.Decode | mangum/handlers/aws_alb.py:116 | Decoding succeeds only on a length that is a multiple of four |
| Base64.DecodeEncode | mangum/handlers/aws_alb.py:116 | `b64decode(b64encode(b)) == b` |
| Dict.Put | mangum/handlers/aws_alb.py:80 | After `d[k] = v`, `k` maps to `v` and every other key maps as before |
| Dict.PutKeys | mangum/handlers/aws_alb.py:80 | A key already present keeps its place, and a new key goes last |
| Dict.PutDistinct | mangum/handlers/aws_alb.py:80 | The keys stay distinct |
| AlbRequest.EncodeQueryString | mangum/handlers/aws_alb.py:38-72 | The nested loops return exactly `QueryString(e)`: the selected dict's decoded pairs, encoded once |
| AlbRequest.CollectPairs | mangum/handlers/aws_alb.py:60-70 | The outer loop collects the decoded pairs of every key, in the dict's order |
| AlbRequest.AppendValues | mangum/handlers/aws_alb.py:62-66 | The inner loop appends one decoded pair per list element, in the list's order |
| AlbRequest.MultiPairsAt | mangum/handlers/aws_alb.py:62-66 | A list value gives as many pairs as it has elements, and pair `i` is the decoded key with the decoded element `i` |
| AlbRequest.DecodedPairsOrder | mangum/handlers/aws_alb.py:60-70 | The pairs of the first key come before those of the remaining keys |
| AlbRequest.DecodedPairsConcat | mangum/handlers/aws_alb.py:60-70 | The pairs of two consecutive runs of keys are concatenated |
| AlbRequest.QueryStringSource | mangum/handlers/aws_alb.py:51-55 | Both dicts absent or empty give `b""`, and a non-empty multi-value dict takes precedence over the single-value one |
| AlbRequest.QueryStringDecodes | mangum/handlers/aws_alb.py:60-72 | Form-decoding the query string gives back exactly the decoded pairs |
| AlbRequest.QuotedEntryDecodes | mangum/handlers/aws_alb.py:68-70 | An entry whose key and value arrived `quote_plus`-encoded decodes to the raw pair |
| AlbRequest.QuotedParamsDecode | mangum/handlers/aws_alb.py:57-70 | Single string values that arrive URL-encoded (key and value) are decoded back to the raw pairs |
| AlbRequest.QueryStringOfQuotedParams | mangum/handlers/aws_alb.py:38-72 | Whichever dict is read, URL-encoded single values are encoded once, not twice, in the query string |
| AlbRequest.QuotedListDecodes | mangum/handlers/aws_alb.py:62-66 | A list value whose key and elements arrived URL-encoded decodes to the key paired with each raw element, in order |
| AlbRequest.QuotedMultiParamsDecode | mangum/handlers/aws_alb.py:60-70 | A multi-value dict that arrived URL-encoded decodes to its raw pairs, key after key and element after element |
| AlbRequest.QueryStringOfQuotedMultiParams | mangum/handlers/aws_alb.py:38-72 | URL-encoded list values are encoded once, not twice, and form-decoding the query string gives back the raw pairs |
| AlbRequest.LowerHeaders | mangum/handlers/aws_alb.py:78-80 | The header dict has distinct, lower-case names, and each name holds the value of the last event header that lower-cases to it |
| AlbRequest.LowerHeadersOrder | mangum/handlers/aws_alb.py:80 | The dict's names are the lower-cased event header names, each once, in the order of their first spelling |
| AlbRequest.RequestHeaders | mangum/handlers/aws_alb.py:79-80 | The request's header dict has distinct lower-case names, and each holds the event header of that name as the adapter reads it (none when the event has no or empty `headers`) |
| AlbRequest.LaterHeaderWins | mangum/handlers/aws_alb.py:80 | Of two event headers whose names differ only in case, the later value wins |
| AlbRequest.Server | mangum/handlers/aws_alb.py:87-92 | A server name never contains a colon, a colon-free host (or `mangum`) is the name itself, and the only error is `ValueError` |
| AlbRequest.ServerDefaults | mangum/handlers/aws_alb.py:87-89 | With no `x-forwarded-port`, a colon-free host (or `mangum` when there is none) is served on port 80 |
| AlbRequest.ServerNoHost | mangum/handlers/aws_alb.py:87-89 | With no `host`, the server name is `mangum`, on port 80 or on the port `x-forwarded-port` gives |
| AlbRequest.ServerForwardedPort | mangum/handlers/aws_alb.py:87-92 | A colon-free host (or `mangum`) names the server, and its port is `x-forwarded-port` read as an integer |
| AlbRequest.ServerBadPort | mangum/handlers/aws_alb.py:89-92 | An `x-forwarded-port` that is not decimal digits is a `ValueError` |
| AlbRequest.ServerHostWithPort | mangum/handlers/aws_alb.py:88-92 | A host `name:port` is split into its name and port |
| AlbRequest.ServerTwoColons | mangum/handlers/aws_alb.py:91 | A host with two colons or more is a `ValueError` |
| AlbRequest.RequestPath | mangum/handlers/aws_alb.py:95-101 | The path handed on is never empty, and is no longer than the event's path (or `/` for an empty one) |
| AlbRequest.RequestPathDecodesOnce | mangum/handlers/aws_alb.py:101 | A path percent-encoded once arrives decoded, not decoded twice |
| AlbRequest.RequestPathEmpty | mangum/handlers/aws_alb.py:95-96 | An empty path becomes `/` |
| AlbRequest.RequestPathExample | mangum/handlers/aws_alb.py:101 | `/a%20b` becomes `/a b` |
| AlbRequest.BuildRequest | mangum/handlers/aws_alb.py:74-109 | A missing `path` is a `KeyError` on `path`, and a missing `httpMethod` (with the path present) is a `KeyError` on `httpMethod`. The request is built exactly when both are present and the server endpoint can be read. It then has lower-case header names, no headers when the event has none, a client port of 0, the event type `AWS_ALB`, and the event and context passed through |
| AlbRequest.RequestFields | mangum/handlers/aws_alb.py:78-105 | The method, decoded path, query string and server are as the event gives them. The scheme is `x-forwarded-proto` (default `https`), the client is `(x-forwarded-for or "", 0)`, and each header is the last event header lower-casing to it |
| AlbRequest.RawBody | mangum/handlers/aws_alb.py:111-118 | An absent body is `b""`, and a text or bytes body is its own bytes |
| AlbRequest.Body | mangum/handlers/aws_alb.py:111-120 | An empty body gives `b""`, a body that is not base64-framed gives its bytes, a base64-framed body whose length is not a multiple of four is the base64 error, and that error is the only one |
| AlbRequest.BodyCases | mangum/handlers/aws_alb.py:111-120 | An absent or empty body gives `b""`. A body that is not base64-framed gives its bytes. A base64-framed body gives back the encoded bytes, and one whose length is not a multiple of four is an error |
| AlbRequest.BodyExample | mangum/handlers/aws_alb.py:115-116 | A base64-framed `aGVsbG8=` is `hello` |
| AlbResponse.HandleHeaders | mangum/handlers/aws_alb.py:122-139 | With the `multiValueHeaders` key, the helper's two dicts come back untouched. Without it, the multi-value dict is empty and the single-value dict is the helper's, with each multi-value header spread over casings of its name (`HandledHeaders`) |
| AlbResponse.TransformResponse | mangum/handlers/aws_alb.py:141-154 | The reply's five fields: the status code is the response's status, the headers come from `handle_headers`, and the body and flag come from the body helper applied to the response body and the final headers |
| AlbResponse.HandledHeaders | mangum/handlers/aws_alb.py:129-137 | With `multiValueHeaders` the two dicts are returned as they are. Without it the multi-value dict is empty, and the single-value dict keeps every key it had and gains only casings that some multi-value header writes |
| AlbResponse.ZipInto | mangum/handlers/aws_alb.py:134-135 | The zip keeps every key and adds only the first `min(len(values), len(keys))` keys |
| AlbResponse.SpreadEntry | mangum/handlers/aws_alb.py:133-135 | One header keeps every key and adds only the casings it writes |
| AlbResponse.Spread | mangum/handlers/aws_alb.py:132-135 | The loop over the multi-value headers keeps every key and adds only casings that one of them writes |
| AlbResponse.ZipIntoWrites | mangum/handlers/aws_alb.py:134-135 | The zip stores value `i` under distinct key `i` for `i < min(len(values), len(keys))`, and leaves every other key as it was |
| AlbResponse.SpreadEntryWrites | mangum/handlers/aws_alb.py:133-135 | One header with several values writes each value under its casing, and nothing else |
| AlbResponse.NotSpreadKey | mangum/handlers/aws_alb.py:134 | A header never writes a key whose lower-case form differs from its name's |
| AlbResponse.SpreadKeeps | mangum/handlers/aws_alb.py:132-135 | A key that no multi-value header writes keeps its value (or its absence) |
| AlbResponse.SpreadWrites | mangum/handlers/aws_alb.py:129-135 | Without native multi-value headers, value `i` of a header with `n > 1` values ends up under casing `i` of its name, for `i < min(n, 2^k)`. Values beyond that are dropped |
| AlbResponse.SpreadLeavesOthers | mangum/handlers/aws_alb.py:132-135 | Names whose headers have a single value add nothing, and keys that are not casings of a spread name keep their value |
| AlbResponse.TwoValues | mangum/handlers/aws_alb.py:132-137 | Two values under a lower-case name starting with a letter: the first goes under the name, the second goes under the name with its first letter upper-cased, and no multi-value headers are left |
| AlbResponse.SetCookieExample | mangum/handlers/aws_alb.py:129-137 | Two `set-cookie` values become `set-cookie` and `Set-cookie` |

## Left out

- Unicode case mapping: only ASCII letters have a case, and header names are ASCII tokens (section 5.1 of RFC 9110). Python's `'ß'.upper()`, for one, changes length; the model does not cover that.
- Percent.Unquote: percent-decoding produces bytes. `unquote` and `unquote_plus` then decode those bytes as UTF-8 with replacement characters, which is not modelled.
- Text.ParseDecimal: parses decimal digits only. Python's `int()` also accepts surrounding whitespace, a sign, underscores and non-ASCII digits.
- Base64.Decode: strict, so anything but padded quanta of alphabet bytes is an error. Python's `b64decode` is lenient in two ways the model does not follow: it discards bytes outside the alphabet, and it stops at the first completed padding group, ignoring further `=` and what follows (`aGk==` and `aGk=aGk=` both give `hi`).
- AlbRequest.Body: its error case, a base64-framed body whose length is not a multiple of four, follows the strict decoder. Python decodes some such bodies, for example `aGk==`, so the model and Python differ there.
- AlbRequest.BodyCases: its error case, a base64-framed body whose length is not a multiple of four, follows the strict decoder. Python decodes some such bodies, for example `aGk==`, so the model and Python differ there.
- `_handle_multi_value_headers` and `_handle_base64_response_body` live in `AbstractHandler`, which is not part of this model. They are the function parameters `splitHeaders` and `encodeBody`, and nothing is assumed about them.
- AlbResponse.HandleHeaders: the single-value reply headers are a map, so the order in which Python's dict lists them is not modelled.
- A JSON `null` for `path` or `httpMethod` would reach `request` as `None`. The model only distinguishes a present value from an absent key, which raises `KeyError`.
- `isBase64Encoded` is taken as a boolean, so Python's truthiness of other values is not modelled.
- The exact Python exception types and messages are not modelled. Only which of `KeyError`, `ValueError` or the base64 error is raised is kept.
- `all_casings` is a lazy generator, which `zip` stops consuming early. The model materialises all its outputs, so the laziness, and the running time, are not modelled.
- The `Request` and `Response` classes are plain datatypes. The invocation context is an opaque type parameter.
