/**
 * Base64 with padding, section 4 of RFC 4648: the decoder the body of a
 * base64-framed event goes through, and the encoder it inverts.
 */
module Base64 {

  import opened Text
  import opened Wrappers

  const PAD: Byte := 61

  type Index = i: nat | i < 64

  /** The alphabet of section 4 of RFC 4648: A-Z, a-z, 0-9, `+`, `/`. */
  function Char(i: Index): Byte
  {
    if i < 26 then 65 + i
    else if i < 52 then 97 + (i - 26)
    else if i < 62 then 48 + (i - 52)
    else if i == 62 then 43
    else 47
  }

  predicate IsAlphabet(c: Byte)
  {
    IsUpperLetter(c) || IsLowerLetter(c) || IsDigit(c) || c == 43 || c == 47
  }

  function CharValue(c: Byte): (i: Index)
    requires IsAlphabet(c)
    ensures Char(i) == c
  {
    if IsUpperLetter(c) then c - 65
    else if IsLowerLetter(c) then c - 97 + 26
    else if IsDigit(c) then c - 48 + 52
    else if c == 43 then 62
    else 63
  }

  lemma CharValueOfChar(i: Index)
    ensures IsAlphabet(Char(i)) && CharValue(Char(i)) == i
  {
  }

  /** Three bytes as four characters. */
  function EncodeBlock(b0: Byte, b1: Byte, b2: Byte): Bytes
  {
    [Char(b0 / 4), Char((b0 % 4) * 16 + b1 / 16), Char((b1 % 16) * 4 + b2 / 64), Char(b2 % 64)]
  }

  /** `base64.b64encode(b)`. */
  function Encode(b: Bytes): (r: Bytes)
    ensures |r| % 4 == 0
    ensures |b| > 0 ==> |r| > 0
    decreases |b|
  {
    if |b| == 0 then []
    else if |b| == 1 then [Char(b[0] / 4), Char((b[0] % 4) * 16), PAD, PAD]
    else if |b| == 2 then [Char(b[0] / 4), Char((b[0] % 4) * 16 + b[1] / 16), Char((b[1] % 16) * 4), PAD]
    else EncodeBlock(b[0], b[1], b[2]) + Encode(b[3..])
  }

  /** Four alphabet characters as three bytes. */
  function DecodeBlock(q: Bytes): Bytes
    requires |q| == 4 && forall k | 0 <= k < 4 :: IsAlphabet(q[k])
  {
    var c0, c1, c2, c3 := CharValue(q[0]), CharValue(q[1]), CharValue(q[2]), CharValue(q[3]);
    [c0 * 4 + c1 / 16, (c1 % 16) * 16 + c2 / 4, (c2 % 4) * 64 + c3]
  }

  /** The last quantum, which may end in one or two padding characters. */
  function DecodeFinal(q: Bytes): Option<Bytes>
    requires |q| == 4
  {
    if IsAlphabet(q[0]) && IsAlphabet(q[1]) && IsAlphabet(q[2]) && IsAlphabet(q[3]) then
      Some(DecodeBlock(q))
    else if IsAlphabet(q[0]) && IsAlphabet(q[1]) && q[2] == PAD && q[3] == PAD then
      Some([CharValue(q[0]) * 4 + CharValue(q[1]) / 16])
    else if IsAlphabet(q[0]) && IsAlphabet(q[1]) && IsAlphabet(q[2]) && q[3] == PAD then
      Some([CharValue(q[0]) * 4 + CharValue(q[1]) / 16, (CharValue(q[1]) % 16) * 16 + CharValue(q[2]) / 4])
    else
      None
  }

  /**
   * `base64.b64decode(s)`, strictly: the length must be a multiple of four,
   * every character must be in the alphabet, and padding may only end the
   * last quantum. `None` is the `binascii.Error` the decoder raises.
   */
  function Decode(s: Bytes): (r: Option<Bytes>)
    ensures r.Some? ==> |s| % 4 == 0
    decreases |s|
  {
    if |s| == 0 then Some([])
    else if |s| < 4 then None
    else if |s| == 4 then DecodeFinal(s)
    else if IsAlphabet(s[0]) && IsAlphabet(s[1]) && IsAlphabet(s[2]) && IsAlphabet(s[3]) then
      match Decode(s[4..])
      case None => None
      case Some(rest) => Some(DecodeBlock(s[..4]) + rest)
    else
      None
  }

  lemma DecodeEncodeBlock(b0: Byte, b1: Byte, b2: Byte)
    ensures var q := EncodeBlock(b0, b1, b2);
      (forall k | 0 <= k < 4 :: IsAlphabet(q[k])) && DecodeBlock(q) == [b0, b1, b2]
  {
    var c0, c1, c2, c3 := b0 / 4, (b0 % 4) * 16 + b1 / 16, (b1 % 16) * 4 + b2 / 64, b2 % 64;
    CharValueOfChar(c0);
    CharValueOfChar(c1);
    CharValueOfChar(c2);
    CharValueOfChar(c3);
    var q := EncodeBlock(b0, b1, b2);
    assert q == [Char(c0), Char(c1), Char(c2), Char(c3)];
    assert c1 / 16 == b0 % 4 && c1 % 16 == b1 / 16;
    assert c2 / 4 == b1 % 16 && c2 % 4 == b2 / 64;
    assert c0 * 4 + c1 / 16 == b0;
    assert (c1 % 16) * 16 + c2 / 4 == b1;
    assert (c2 % 4) * 64 + c3 == b2;
  }

  lemma DecodeEncodeOne(b0: Byte)
    ensures Decode(Encode([b0])) == Some([b0])
  {
    CharValueOfChar(b0 / 4);
    CharValueOfChar((b0 % 4) * 16);
  }

  lemma DecodeEncodeTwo(b0: Byte, b1: Byte)
    ensures Decode(Encode([b0, b1])) == Some([b0, b1])
  {
    var c0, c1, c2 := b0 / 4, (b0 % 4) * 16 + b1 / 16, (b1 % 16) * 4;
    CharValueOfChar(c0);
    CharValueOfChar(c1);
    CharValueOfChar(c2);
    assert c1 / 16 == b0 % 4 && c1 % 16 == b1 / 16;
    assert c2 / 4 == b1 % 16;
    var s := Encode([b0, b1]);
    assert s == [Char(c0), Char(c1), Char(c2), PAD];
    assert DecodeFinal(s) == Some([b0, b1]);
  }

  /** Decoding inverts encoding. */
  lemma {:induction false} DecodeEncode(b: Bytes)
    ensures Decode(Encode(b)) == Some(b)
    decreases |b|
  {
    if |b| == 1 {
      DecodeEncodeOne(b[0]);
      assert b == [b[0]];
    } else if |b| == 2 {
      DecodeEncodeTwo(b[0], b[1]);
      assert b == [b[0], b[1]];
    } else if |b| >= 3 {
      var s := Encode(b);
      DecodeEncodeBlock(b[0], b[1], b[2]);
      DecodeEncode(b[3..]);
      var q := EncodeBlock(b[0], b[1], b[2]);
      assert s == q + Encode(b[3..]);
      assert s[..4] == q && s[4..] == Encode(b[3..]);
      assert b == [b[0], b[1], b[2]] + b[3..];
      if |b| == 3 {
        assert s == q;
        assert Decode(s) == Some(DecodeBlock(q));
        assert DecodeBlock(q) == [b[0], b[1], b[2]];
        assert b == [b[0], b[1], b[2]];
      } else {
        assert |s| > 4;
        assert Decode(s) == Some(DecodeBlock(q) + b[3..]);
      }
    }
  }
}
