/**
 * The invocation event an Application Load Balancer delivers, and the errors
 * reading it can raise.
 */
module AlbEvent {

  import opened Text
  import opened Wrappers

  /** A query parameter's value: one string, or a list of them. */
  datatype ParamValue = Single(value: Bytes) | Multi(values: seq<Bytes>)

  /** A parameter dict, in its key order. */
  type Params = seq<(Bytes, ParamValue)>

  /** The event's `body`: a `str` (held as its UTF-8 bytes) or `bytes`. */
  datatype BodyValue = StrBody(text: Bytes) | BytesBody(data: Bytes)

  /**
   * The keys of the event the adapter reads. `None` stands for a key that is
   * absent (or, for the keys read with `get`, null); `isBase64Encoded` is false
   * when absent; `hasMultiValueHeaders` says only whether the key
   * `multiValueHeaders` is present.
   */
  datatype Event = Event(
    path: Option<Bytes>,
    httpMethod: Option<Bytes>,
    headers: Option<seq<(Bytes, Bytes)>>,
    queryStringParameters: Option<Params>,
    multiValueQueryStringParameters: Option<Params>,
    body: Option<BodyValue>,
    isBase64Encoded: bool,
    hasMultiValueHeaders: bool)

  /** What Python raises: `KeyError`, `ValueError`, `binascii.Error`. */
  datatype Error = KeyError(key: Bytes) | ValueError | Base64Error
}
