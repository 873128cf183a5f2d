/**
 * `all_casings`: every upper/lower-case variant of a header name, in the
 * order the recursive generator yields them.
 */
module Casings {

  import opened Text

  /** Number of positions of `s` whose case can change. */
  function LetterCount(s: Bytes): nat
  {
    if s == [] then 0 else (if IsCased(s[0]) then 1 else 0) + LetterCount(s[1..])
  }

  function Pow2(n: nat): (r: nat)
    ensures r >= 1
  {
    if n == 0 then 1 else 2 * Pow2(n - 1)
  }

  /**
   * The generator's output as a sequence. An uncased first byte is kept as it
   * is in front of every casing of the rest; a letter yields, for each casing
   * of the rest, first its lower-case and then its upper-case form.
   */
  function AllCasings(s: Bytes): (r: seq<Bytes>)
    ensures |r| == Pow2(LetterCount(s))
    ensures forall k | 0 <= k < |r| :: |r[k]| == |s|
    decreases |s|
  {
    if s == [] then [[]]
    else
      var rest := AllCasings(s[1..]);
      if Lower(s[0]) == Upper(s[0]) then
        seq(|rest|, k requires 0 <= k < |rest| => [s[0]] + rest[k])
      else
        seq(2 * |rest|, k requires 0 <= k < 2 * |rest| =>
          [if k % 2 == 0 then Lower(s[0]) else Upper(s[0])] + rest[k / 2])
  }

  /** Bit `j` of `i`. */
  predicate BitSet(i: nat, j: nat)
  {
    if j == 0 then i % 2 == 1 else BitSet(i / 2, j - 1)
  }

  /**
   * Reference definition: the casing numbered `i`, whose `j`-th letter is
   * upper-case exactly when bit `j` of `i` is set.
   */
  function CasingAt(s: Bytes, i: nat): (t: Bytes)
    ensures |t| == |s|
  {
    if s == [] then []
    else if IsCased(s[0]) then
      [if i % 2 == 0 then Lower(s[0]) else Upper(s[0])] + CasingAt(s[1..], i / 2)
    else
      [s[0]] + CasingAt(s[1..], i)
  }

  /** `t` is `s` with some of its letters changed in case. */
  predicate IsCasingOf(t: Bytes, s: Bytes)
  {
    |t| == |s| && forall p | 0 <= p < |s| :: t[p] == Lower(s[p]) || t[p] == Upper(s[p])
  }

  /** The generator's `i`-th output is the reference casing `i`. */
  lemma {:induction false} AllCasingsAt(s: Bytes, i: nat)
    requires i < Pow2(LetterCount(s))
    ensures AllCasings(s)[i] == CasingAt(s, i)
    decreases |s|
  {
    if s != [] {
      if IsCased(s[0]) {
        AllCasingsAt(s[1..], i / 2);
      } else {
        AllCasingsAt(s[1..], i);
      }
    }
  }

  /**
   * Position `p` of output `i`: a byte without case is unchanged, and the
   * letter with `j` letters before it is upper-case exactly when bit `j` of
   * `i` is set, so the first letter varies fastest.
   */
  lemma {:induction false} AllCasingsBits(s: Bytes, i: nat, p: nat)
    requires i < Pow2(LetterCount(s)) && p < |s|
    ensures AllCasings(s)[i][p] ==
      if !IsCased(s[p]) then s[p]
      else if BitSet(i, LetterCount(s[..p])) then Upper(s[p])
      else Lower(s[p])
  {
    AllCasingsAt(s, i);
    CasingAtBits(s, i, p);
  }

  lemma {:induction false} CasingAtBits(s: Bytes, i: nat, p: nat)
    requires p < |s|
    ensures CasingAt(s, i)[p] ==
      if !IsCased(s[p]) then s[p]
      else if BitSet(i, LetterCount(s[..p])) then Upper(s[p])
      else Lower(s[p])
    decreases p
  {
    if p > 0 {
      var i' := if IsCased(s[0]) then i / 2 else i;
      CasingAtBits(s[1..], i', p - 1);
      assert s[1..][..p - 1] == s[..p][1..];
      assert s[1..][p - 1] == s[p];
    }
  }

  /** There are no repeats among the casings. */
  lemma {:induction false} CasingAtInjective(s: Bytes, i: nat, i': nat)
    requires i < Pow2(LetterCount(s)) && i' < Pow2(LetterCount(s)) && i != i'
    ensures CasingAt(s, i) != CasingAt(s, i')
    decreases |s|
  {
    if s == [] {
      assert false;
    } else if IsCased(s[0]) {
      if i % 2 == i' % 2 {
        CasingAtInjective(s[1..], i / 2, i' / 2);
        assert CasingAt(s, i)[1..] == CasingAt(s[1..], i / 2);
        assert CasingAt(s, i')[1..] == CasingAt(s[1..], i' / 2);
      } else {
        assert CasingAt(s, i)[0] != CasingAt(s, i')[0];
      }
    } else {
      CasingAtInjective(s[1..], i, i');
      assert CasingAt(s, i)[1..] == CasingAt(s[1..], i);
      assert CasingAt(s, i')[1..] == CasingAt(s[1..], i');
    }
  }

  lemma AllCasingsDistinct(s: Bytes)
    ensures forall a, b | 0 <= a < b < |AllCasings(s)| :: AllCasings(s)[a] != AllCasings(s)[b]
  {
    forall a, b | 0 <= a < b < |AllCasings(s)|
      ensures AllCasings(s)[a] != AllCasings(s)[b]
    {
      AllCasingsAt(s, a);
      AllCasingsAt(s, b);
      CasingAtInjective(s, a, b);
    }
  }

  lemma {:induction false} CasingAtIsCasing(s: Bytes, i: nat)
    ensures IsCasingOf(CasingAt(s, i), s)
    decreases |s|
  {
    if s != [] {
      var i' := if IsCased(s[0]) then i / 2 else i;
      CasingAtIsCasing(s[1..], i');
      var t := CasingAt(s, i);
      assert t[1..] == CasingAt(s[1..], i');
      forall p | 0 <= p < |s| ensures t[p] == Lower(s[p]) || t[p] == Upper(s[p]) {
        if p > 0 { assert t[p] == t[1..][p - 1]; }
      }
    }
  }

  /** The number of a casing: bit `j` set where its `j`-th letter is not lower-case. */
  function CasingIndex(t: Bytes, s: Bytes): (i: nat)
    requires IsCasingOf(t, s)
    ensures i < Pow2(LetterCount(s))
    decreases |s|
  {
    if s == [] then 0
    else
      CasingOfTail(t, s);
      var m := CasingIndex(t[1..], s[1..]);
      if !IsCased(s[0]) then m
      else if t[0] == Lower(s[0]) then 2 * m
      else 2 * m + 1
  }

  lemma CasingOfTail(t: Bytes, s: Bytes)
    requires IsCasingOf(t, s) && s != []
    ensures IsCasingOf(t[1..], s[1..])
  {
    forall p | 0 <= p < |s| - 1
      ensures t[1..][p] == Lower(s[1..][p]) || t[1..][p] == Upper(s[1..][p])
    {
      assert t[p + 1] == Lower(s[p + 1]) || t[p + 1] == Upper(s[p + 1]);
    }
  }

  /** The casing numbered `CasingIndex(t, s)` is `t`. */
  lemma {:induction false} CasingIndexAt(t: Bytes, s: Bytes)
    requires IsCasingOf(t, s)
    ensures CasingAt(s, CasingIndex(t, s)) == t
    decreases |s|
  {
    if s != [] {
      CasingOfTail(t, s);
      var m := CasingIndex(t[1..], s[1..]);
      CasingIndexAt(t[1..], s[1..]);
      var i := CasingIndex(t, s);
      if IsCased(s[0]) {
        assert i / 2 == m;
        assert CasingAt(s, i) == [t[0]] + CasingAt(s[1..], m);
      } else {
        assert CasingAt(s, i) == [t[0]] + CasingAt(s[1..], m);
      }
      assert t == [t[0]] + t[1..];
    }
  }

  /** Every output is a casing of the input, and every casing of the input is an output. */
  lemma AllCasingsComplete(s: Bytes, t: Bytes)
    ensures t in AllCasings(s) <==> IsCasingOf(t, s)
  {
    if t in AllCasings(s) {
      var k :| 0 <= k < |AllCasings(s)| && AllCasings(s)[k] == t;
      AllCasingsAt(s, k);
      CasingAtIsCasing(s, k);
    }
    if IsCasingOf(t, s) {
      var k := CasingIndex(t, s);
      CasingIndexAt(t, s);
      AllCasingsAt(s, k);
    }
  }

  /**
   * What the generator promises: every output has the input's length, keeps
   * each uncased byte where it is, and lower-cases to the lower-cased input.
   */
  lemma AllCasingsShape(s: Bytes, t: Bytes)
    requires t in AllCasings(s)
    ensures |t| == |s|
    ensures forall p | 0 <= p < |s| && !IsCased(s[p]) :: t[p] == s[p]
    ensures LowerAll(t) == LowerAll(s)
  {
    AllCasingsComplete(s, t);
    forall p | 0 <= p < |s|
      ensures LowerAll(t)[p] == LowerAll(s)[p]
      ensures !IsCased(s[p]) ==> t[p] == s[p]
    {
      assert t[p] == Lower(s[p]) || t[p] == Upper(s[p]);
    }
  }

  lemma {:induction false} CasingAtZero(s: Bytes)
    ensures CasingAt(s, 0) == LowerAll(s)
    decreases |s|
  {
    if s != [] {
      CasingAtZero(s[1..]);
      assert LowerAll(s) == [Lower(s[0])] + LowerAll(s[1..]);
    }
  }

  /** The empty name has exactly one casing, itself; otherwise the first is all lower-case. */
  lemma AllCasingsFirst(s: Bytes)
    ensures AllCasings(s)[0] == LowerAll(s)
    ensures s == [] ==> AllCasings(s) == [[]]
  {
    AllCasingsAt(s, 0);
    CasingAtZero(s);
  }

  /** When the name starts with a letter, the second casing upper-cases that letter only. */
  lemma AllCasingsSecond(s: Bytes)
    requires |s| > 0 && IsCased(s[0])
    ensures |AllCasings(s)| >= 2
    ensures AllCasings(s)[1] == [Upper(s[0])] + LowerAll(s[1..])
  {
    assert Pow2(LetterCount(s)) == 2 * Pow2(LetterCount(s[1..]));
    AllCasingsAt(s, 1);
    CasingAtZero(s[1..]);
  }
}
