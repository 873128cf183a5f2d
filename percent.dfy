/**
 * Percent-encoding (section 2.1 of RFC 3986) and the
 * application/x-www-form-urlencoded format (section 5 of the WHATWG URL
 * Standard), over bytes, as Python's `urllib.parse` implements them:
 * `quote`, `quote_plus`, `unquote`, `unquote_plus` and `urlencode`.
 */
module Percent {

  import opened Text

  const PERCENT: Byte := 37
  const PLUS: Byte := 43
  const SPACE: Byte := 32
  const AMPERSAND: Byte := 38
  const EQUALS: Byte := 61

  predicate IsHexDigit(b: Byte)
  {
    IsDigit(b) || 65 <= b <= 70 || 97 <= b <= 102
  }

  function HexValue(b: Byte): (v: nat)
    requires IsHexDigit(b)
    ensures v < 16
  {
    if IsDigit(b) then b - 48 else if b <= 70 then b - 55 else b - 87
  }

  /** An upper-case hexadecimal digit, as `quote` writes them. */
  function HexDigit(n: nat): (b: Byte)
    requires n < 16
    ensures IsHexDigit(b) && HexValue(b) == n
  {
    if n < 10 then 48 + n else 55 + n
  }

  /** Bytes that `quote` never escapes: letters, digits and `_.-~`. */
  predicate IsUnreserved(b: Byte)
  {
    IsUpperLetter(b) || IsLowerLetter(b) || IsDigit(b) || b == 95 || b == 46 || b == 45 || b == 126
  }

  function Escape(b: Byte): Bytes
  {
    [PERCENT, HexDigit(b / 16), HexDigit(b % 16)]
  }

  /** `quote(s, safe='')`: every byte outside the unreserved set becomes `%XX`. */
  function Quote(s: Bytes): Bytes
  {
    if s == [] then []
    else (if IsUnreserved(s[0]) then [s[0]] else Escape(s[0])) + Quote(s[1..])
  }

  /** `quote_plus(s, safe='')`: as `Quote`, but a space becomes `+`. */
  function QuotePlus(s: Bytes): Bytes
  {
    if s == [] then []
    else (if IsUnreserved(s[0]) then [s[0]] else if s[0] == SPACE then [PLUS] else Escape(s[0]))
         + QuotePlus(s[1..])
  }

  /**
   * `unquote(s)`: each `%` followed by two hexadecimal digits becomes the byte
   * they denote; any other `%` stays as it is.
   */
  function Unquote(s: Bytes): (r: Bytes)
    ensures |r| <= |s|
    ensures s != [] ==> r != []
    decreases |s|
  {
    if s == [] then []
    else if s[0] == PERCENT && |s| >= 3 && IsHexDigit(s[1]) && IsHexDigit(s[2]) then
      [16 * HexValue(s[1]) + HexValue(s[2])] + Unquote(s[3..])
    else
      [s[0]] + Unquote(s[1..])
  }

  /** `s.replace('+', ' ')`. */
  function PlusToSpace(s: Bytes): (r: Bytes)
    ensures |r| == |s|
  {
    seq(|s|, i requires 0 <= i < |s| => if s[i] == PLUS then SPACE else s[i])
  }

  /** `unquote_plus(s)`: plus signs are spaces, then percent-decoding. */
  function UnquotePlus(s: Bytes): Bytes
  {
    Unquote(PlusToSpace(s))
  }

  lemma UnquoteLiteral(b: Byte, tail: Bytes)
    requires b != PERCENT
    ensures Unquote([b] + tail) == [b] + Unquote(tail)
  {
    assert ([b] + tail)[1..] == tail;
  }

  lemma UnquoteEscape(b: Byte, tail: Bytes)
    ensures Unquote(Escape(b) + tail) == [b] + Unquote(tail)
  {
    assert (Escape(b) + tail)[3..] == tail;
  }

  /** Percent-decoding inverts `quote`. */
  lemma {:induction false} UnquoteQuote(s: Bytes)
    ensures Unquote(Quote(s)) == s
  {
    if s != [] {
      UnquoteQuote(s[1..]);
      if IsUnreserved(s[0]) {
        UnquoteLiteral(s[0], Quote(s[1..]));
      } else {
        UnquoteEscape(s[0], Quote(s[1..]));
      }
      assert s == [s[0]] + s[1..];
    }
  }

  lemma PlusToSpaceConcat(a: Bytes, b: Bytes)
    ensures PlusToSpace(a + b) == PlusToSpace(a) + PlusToSpace(b)
  {
  }

  /** Form-decoding a value inverts `quote_plus`. */
  lemma {:induction false} UnquotePlusQuotePlus(s: Bytes)
    ensures UnquotePlus(QuotePlus(s)) == s
  {
    if s != [] {
      UnquotePlusQuotePlus(s[1..]);
      var rest := QuotePlus(s[1..]);
      var head := if IsUnreserved(s[0]) then [s[0]] else if s[0] == SPACE then [PLUS] else Escape(s[0]);
      assert QuotePlus(s) == head + rest;
      PlusToSpaceConcat(head, rest);
      if IsUnreserved(s[0]) {
        assert PlusToSpace(head) == [s[0]];
        UnquoteLiteral(s[0], PlusToSpace(rest));
      } else if s[0] == SPACE {
        assert PlusToSpace(head) == [SPACE];
        UnquoteLiteral(SPACE, PlusToSpace(rest));
      } else {
        assert PlusToSpace(head) == Escape(s[0]);
        UnquoteEscape(s[0], PlusToSpace(rest));
      }
      assert s == [s[0]] + s[1..];
    }
  }

  /** What `quote_plus` can emit: unreserved bytes, `%`, `+`. */
  predicate IsFormSafe(b: Byte)
  {
    IsUnreserved(b) || b == PERCENT || b == PLUS
  }

  lemma {:induction false} QuotePlusFormSafe(s: Bytes)
    ensures forall i | 0 <= i < |QuotePlus(s)| :: IsFormSafe(QuotePlus(s)[i])
  {
    if s != [] {
      QuotePlusFormSafe(s[1..]);
    }
  }

  /** One `name=value` field of `urlencode`. */
  function EncodeField(pair: (Bytes, Bytes)): Bytes
  {
    QuotePlus(pair.0) + [EQUALS] + QuotePlus(pair.1)
  }

  /** The encoded fields, one per pair, in order. */
  function EncodedFields(pairs: seq<(Bytes, Bytes)>): (r: seq<Bytes>)
    ensures |r| == |pairs|
  {
    if pairs == [] then [] else [EncodeField(pairs[0])] + EncodedFields(pairs[1..])
  }

  /** `urlencode(pairs)`: the fields joined by `&`. */
  function FormEncode(pairs: seq<(Bytes, Bytes)>): Bytes
  {
    Join(EncodedFields(pairs), AMPERSAND)
  }

  /** A field with its name and value form-decoded; without `=` the value is empty. */
  function DecodeField(field: Bytes): (Bytes, Bytes)
  {
    if EQUALS in field then
      var i := IndexOf(field, EQUALS);
      (UnquotePlus(field[..i]), UnquotePlus(field[i + 1..]))
    else
      (UnquotePlus(field), [])
  }

  function DecodeFields(fields: seq<Bytes>): seq<(Bytes, Bytes)>
  {
    if fields == [] then []
    else (if fields[0] == [] then [] else [DecodeField(fields[0])]) + DecodeFields(fields[1..])
  }

  /** The form parser: split on `&`, skip empty fields, decode name and value. */
  function FormDecode(s: Bytes): seq<(Bytes, Bytes)>
  {
    DecodeFields(Split(s, AMPERSAND))
  }

  lemma EncodeFieldDecodes(pair: (Bytes, Bytes))
    ensures EncodeField(pair) != [] && AMPERSAND !in EncodeField(pair)
    ensures DecodeField(EncodeField(pair)) == pair
  {
    QuotePlusFormSafe(pair.0);
    QuotePlusFormSafe(pair.1);
    SafeFieldDecodes(QuotePlus(pair.0), QuotePlus(pair.1));
    UnquotePlusQuotePlus(pair.0);
    UnquotePlusQuotePlus(pair.1);
  }

  /** A field whose two halves are form-safe: no `&` in it, and it splits at the `=` between them. */
  lemma SafeFieldDecodes(a: Bytes, b: Bytes)
    requires forall i | 0 <= i < |a| :: IsFormSafe(a[i])
    requires forall i | 0 <= i < |b| :: IsFormSafe(b[i])
    ensures AMPERSAND !in a + [EQUALS] + b
    ensures DecodeField(a + [EQUALS] + b) == (UnquotePlus(a), UnquotePlus(b))
  {
    var f := a + [EQUALS] + b;
    var n := |a|;
    assert f[..n] == a && f[n + 1..] == b;
    assert EQUALS !in a;
    IndexOfAt(f, EQUALS, n);
    forall i | 0 <= i < |f| ensures f[i] != AMPERSAND {
      if i > n { assert f[i] == b[i - n - 1]; }
    }
  }

  lemma {:induction false} DecodeEncodedFields(pairs: seq<(Bytes, Bytes)>)
    ensures DecodeFields(EncodedFields(pairs)) == pairs
  {
    if pairs != [] {
      var fields := EncodedFields(pairs);
      EncodeFieldDecodes(pairs[0]);
      DecodeEncodedFields(pairs[1..]);
      assert fields[1..] == EncodedFields(pairs[1..]);
      assert [pairs[0]] + pairs[1..] == pairs;
    }
  }

  /** No encoded field contains the separator `&`. */
  lemma {:induction false} EncodedFieldsSafe(pairs: seq<(Bytes, Bytes)>)
    ensures forall k | 0 <= k < |pairs| :: AMPERSAND !in EncodedFields(pairs)[k]
  {
    if pairs != [] {
      EncodeFieldDecodes(pairs[0]);
      EncodedFieldsSafe(pairs[1..]);
      var fields := EncodedFields(pairs);
      assert forall k | 1 <= k < |pairs| :: fields[k] == EncodedFields(pairs[1..])[k - 1];
    }
  }

  /** Form-decoding what `urlencode` wrote gives back exactly the pairs, in order. */
  lemma FormRoundTrip(pairs: seq<(Bytes, Bytes)>)
    ensures FormDecode(FormEncode(pairs)) == pairs
  {
    var fields := EncodedFields(pairs);
    if pairs == [] {
      assert Split([], AMPERSAND) == [[]];
      assert DecodeFields([[]]) == [];
    } else {
      EncodedFieldsSafe(pairs);
      SplitJoin(fields, AMPERSAND);
    }
    DecodeEncodedFields(pairs);
  }
}
