/** Bit-vector bookkeeping behind `np.reshape(.., [2] * m)`: a basis index of a
    2^m-dimensional space is read as m bits, most significant first, so that
    axis 0 of the reshaped tensor is the first wire of the ordering. */
module Bits {

  type Bit = b: nat | b < 2

  function Pow2(n: nat): (r: nat)
    ensures r >= 1
  {
    if n == 0 then 1 else 2 * Pow2(n - 1)
  }

  /** The big-endian value of a bit string: s[0] is the most significant bit. */
  function FromBits(s: seq<Bit>): (v: nat)
    ensures v < Pow2(|s|)
  {
    if |s| == 0 then 0 else 2 * FromBits(s[..|s| - 1]) + s[|s| - 1]
  }

  /** The m low bits of x, most significant first (row-major reshape to [2] * m). */
  function ToBits(x: nat, m: nat): (s: seq<Bit>)
    ensures |s| == m
  {
    if m == 0 then [] else ToBits(x / 2, m - 1) + [x % 2]
  }

  /** Reading a bit string as a number and writing it back is the identity. */
  lemma {:induction false} ToBitsFromBits(s: seq<Bit>)
    ensures ToBits(FromBits(s), |s|) == s
  {
    if |s| > 0 {
      var init := s[..|s| - 1];
      ToBitsFromBits(init);
      var v := FromBits(s);
      assert v / 2 == FromBits(init);
      assert v % 2 == s[|s| - 1];
      assert s == init + [s[|s| - 1]];
    }
  }

  /** Every index below 2^m is recovered from its m bits. */
  lemma {:induction false} FromBitsToBits(x: nat, m: nat)
    requires x < Pow2(m)
    ensures FromBits(ToBits(x, m)) == x
  {
    if m > 0 {
      FromBitsToBits(x / 2, m - 1);
      var s := ToBits(x, m);
      assert s[..m - 1] == ToBits(x / 2, m - 1);
    }
  }

  /** Distinct bit strings of one length denote distinct indices. */
  lemma FromBitsInjective(a: seq<Bit>, b: seq<Bit>)
    requires |a| == |b|
    ensures FromBits(a) == FromBits(b) <==> a == b
  {
    ToBitsFromBits(a);
    ToBitsFromBits(b);
  }

  /** Bit q of an m-bit index is the usual shift-and-mask: (x / 2^(m-1-q)) % 2. */
  lemma {:induction false} ToBitsIsShiftAndMask(x: nat, m: nat, q: nat)
    requires q < m
    ensures ToBits(x, m)[q] == (x / Pow2(m - 1 - q)) % 2
  {
    if q == m - 1 {
      assert Pow2(0) == 1;
    } else {
      ToBitsIsShiftAndMask(x / 2, m - 1, q);
      DivTwice(x, Pow2(m - 2 - q));
    }
  }

  /** Halving and then dividing by d is dividing by 2d. */
  lemma DivTwice(x: nat, d: nat)
    requires d >= 1
    ensures (x / 2) / d == x / (2 * d)
  {
    var q := x / (2 * d);
    var r := x % (2 * d);
    assert x == q * (2 * d) + r;
    assert x / 2 == q * d + r / 2 by {
      assert x == 2 * (q * d) + r;
      assert r == 2 * (r / 2) + r % 2;
      assert x == 2 * (q * d + r / 2) + r % 2;
    }
    assert r / 2 < d;
    assert (q * d + r / 2) / d == q by {
      LinearDiv(q, d, r / 2);
    }
  }

  lemma LinearDiv(q: nat, d: nat, r: nat)
    requires d >= 1 && r < d
    ensures (q * d + r) / d == q
  {
    var x := q * d + r;
    var q' := x / d;
    var r' := x % d;
    assert x == q' * d + r';
    if q' > q {
      MulLe(q + 1, q', d);
      assert false;
    } else if q' < q {
      MulLe(q' + 1, q, d);
      assert false;
    }
  }

  lemma MulLe(a: nat, b: nat, d: nat)
    requires a <= b
    ensures a * d <= b * d
  {
  }
}
