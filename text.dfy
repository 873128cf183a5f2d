/**
 * Byte strings and the ASCII operations on them. Python text values of the
 * event are modelled by their UTF-8 encodings, so `str.encode()` is the
 * identity on this representation; only ASCII letters have a case.
 */
module Text {

  import opened Wrappers

  type Byte = b: int | 0 <= b < 256
  type Bytes = seq<Byte>

  predicate IsUpperLetter(b: Byte) { 65 <= b <= 90 }
  predicate IsLowerLetter(b: Byte) { 97 <= b <= 122 }
  predicate IsDigit(b: Byte) { 48 <= b <= 57 }

  /** `bytes.lower()` on one byte: only A-Z change. */
  function Lower(b: Byte): Byte
  {
    if IsUpperLetter(b) then b + 32 else b
  }

  /** `bytes.upper()` on one byte: only a-z change. */
  function Upper(b: Byte): Byte
  {
    if IsLowerLetter(b) then b - 32 else b
  }

  /** A byte whose lower and upper forms differ: an ASCII letter. */
  predicate IsCased(b: Byte)
  {
    Lower(b) != Upper(b)
  }

  /** `s.lower()`. */
  function LowerAll(s: Bytes): (r: Bytes)
    ensures |r| == |s|
  {
    seq(|s|, i requires 0 <= i < |s| => Lower(s[i]))
  }

  predicate IsLowerCase(s: Bytes)
  {
    LowerAll(s) == s
  }

  lemma LowerAllIdempotent(s: Bytes)
    ensures IsLowerCase(LowerAll(s))
  {
  }

  /** Index of the first occurrence of `d` in `s`. */
  function IndexOf(s: Bytes, d: Byte): (i: nat)
    requires d in s
    ensures i < |s| && s[i] == d && d !in s[..i]
  {
    if s[0] == d then 0 else 1 + IndexOf(s[1..], d)
  }

  /** The first occurrence is determined by the bytes around it. */
  lemma IndexOfAt(s: Bytes, d: Byte, k: nat)
    requires k < |s| && s[k] == d && d !in s[..k]
    ensures d in s && IndexOf(s, d) == k
  {
    var i := IndexOf(s, d);
    assert forall j | 0 <= j < k :: s[..k][j] == s[j];
    assert forall j | 0 <= j < i :: s[..i][j] == s[j];
  }

  /** `s.split(d)`: the pieces between occurrences of the separator `d`. */
  function Split(s: Bytes, d: Byte): (r: seq<Bytes>)
    ensures |r| >= 1
    decreases |s|
  {
    if d in s then
      var i := IndexOf(s, d);
      [s[..i]] + Split(s[i + 1..], d)
    else
      [s]
  }

  /** `d.join(parts)`. */
  function Join(parts: seq<Bytes>, d: Byte): Bytes
  {
    if |parts| == 0 then []
    else if |parts| == 1 then parts[0]
    else parts[0] + [d] + Join(parts[1..], d)
  }

  /** Splitting undoes joining when no part contains the separator. */
  lemma {:induction false} SplitJoin(parts: seq<Bytes>, d: Byte)
    requires |parts| >= 1
    requires forall k | 0 <= k < |parts| :: d !in parts[k]
    ensures Split(Join(parts, d), d) == parts
  {
    if |parts| == 1 {
      assert d !in parts[0];
    } else {
      var rest := Join(parts[1..], d);
      SplitJoin(parts[1..], d);
      SplitAtFirst(parts[0], rest, d);
      assert [parts[0]] + parts[1..] == parts;
    }
  }

  /** A separator after a part free of it is the first one, and splitting starts there. */
  lemma SplitAtFirst(part: Bytes, rest: Bytes, d: Byte)
    requires d !in part
    ensures Split(part + [d] + rest, d) == [part] + Split(rest, d)
  {
    var s := part + [d] + rest;
    var n := |part|;
    assert s[..n] == part;
    IndexOfAt(s, d, n);
    assert s[n + 1..] == rest;
  }

  /** Decimal digits of a non-empty byte string, as Python's `int(s)` reads them. */
  function ParseDecimal(s: Bytes): (r: Option<nat>)
    ensures r.Some? <==> |s| > 0 && forall i | 0 <= i < |s| :: IsDigit(s[i])
    decreases |s|
  {
    if |s| == 0 || !IsDigit(s[|s| - 1]) then None
    else if |s| == 1 then Some(s[0] - 48)
    else
      match ParseDecimal(s[..|s| - 1])
      case None => None
      case Some(n) => Some(10 * n + (s[|s| - 1] - 48))
  }

  /** `str(n)` for a natural number. */
  function Decimal(n: nat): (r: Bytes)
    decreases n
  {
    if n < 10 then [48 + n] else Decimal(n / 10) + [48 + n % 10]
  }

  lemma {:induction false} ParseDecimalOfDecimal(n: nat)
    ensures ParseDecimal(Decimal(n)) == Some(n)
    decreases n
  {
    if n >= 10 {
      var s := Decimal(n);
      ParseDecimalOfDecimal(n / 10);
      assert s[..|s| - 1] == Decimal(n / 10);
    }
  }
}
