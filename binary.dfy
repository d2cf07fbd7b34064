/** Unsigned words as sequences of bits, least significant first, and the bit length of a
    number: the arithmetic that the field degree, the polynomial masks and the 32-bit data
    and code words of FEC.h rest on. */
module Binary {

  function Pow2(n: nat): (r: nat)
    ensures r >= 1
  {
    if n == 0 then 1 else 2 * Pow2(n - 1)
  }

  /** Powers of two grow with the exponent. */
  lemma {:induction false} Pow2Monotone(a: nat, b: nat)
    requires a <= b
    ensures Pow2(a) <= Pow2(b)
    decreases b
  {
    if a < b {
      Pow2Monotone(a, b - 1);
    }
  }

  /** 2^32, the number of values of a 32-bit word. */
  lemma Pow2Of32()
    ensures Pow2(32) == 0x1_0000_0000
  {
    assert Pow2(8) == 0x100;
    assert Pow2(16) == 0x1_0000;
    assert Pow2(24) == 0x100_0000;
  }

  /** The number of bits needed to write x: the least b with x < 2^b. For a code length n
      it is the field degree m with n <= 2^m - 1; for a polynomial mask it is the degree + 1. */
  function BitLength(x: nat): (b: nat)
    ensures x < Pow2(b)
    ensures x > 0 ==> b >= 1 && Pow2(b - 1) <= x
    ensures x == 0 ==> b == 0
  {
    if x == 0 then 0 else 1 + BitLength(x / 2)
  }

  /** The low len bits of w, least significant first. */
  function ToBits(w: nat, len: nat): (r: seq<bool>)
    ensures |r| == len
  {
    if len == 0 then [] else [w % 2 == 1] + ToBits(w / 2, len - 1)
  }

  /** The number whose bits, least significant first, are p. */
  function FromBits(p: seq<bool>): (r: nat)
    ensures r < Pow2(|p|)
  {
    if p == [] then 0 else (if p[0] then 1 else 0) + 2 * FromBits(p[1..])
  }

  /** Zero has no bits set. */
  lemma {:induction false} ToBitsZero(len: nat)
    ensures forall i :: 0 <= i < len ==> !ToBits(0, len)[i]
  {
    if len > 0 {
      ToBitsZero(len - 1);
    }
  }

  /** No bits set reads as zero. */
  lemma {:induction false} FromBitsNone(p: seq<bool>)
    requires forall i :: 0 <= i < |p| ==> !p[i]
    ensures FromBits(p) == 0
  {
    if p != [] {
      FromBitsNone(p[1..]);
    }
  }

  /** A quotient and remainder that satisfy the division equation are the quotient and
      remainder. */
  lemma DivModUnique(w: nat, d: nat, q: nat, r: nat)
    requires d > 0 && w == d * q + r && r < d
    ensures w / d == q && w % d == r
  {
    var q', r' := w / d, w % d;
    assert d * q' + r' == d * q + r;
    if q' > q {
      MulAtLeast(d, q' - q);
    } else if q' < q {
      MulAtLeast(d, q - q');
    }
  }

  lemma MulAtLeast(d: nat, t: nat)
    requires t >= 1
    ensures d * t >= d
  {
  }

  /** Reading back the low len bits of w gives w modulo 2^len. */
  lemma {:induction false} FromToBits(w: nat, len: nat)
    ensures FromBits(ToBits(w, len)) == w % Pow2(len)
  {
    if len > 0 {
      FromToBits(w / 2, len - 1);
      assert ToBits(w, len)[1..] == ToBits(w / 2, len - 1);
      ModDouble(w, Pow2(len - 1));
    }
  }

  /** Taking w modulo 2p keeps its lowest bit and (w / 2) modulo p above it. */
  lemma ModDouble(w: nat, p: nat)
    requires p > 0
    ensures w % (2 * p) == 2 * ((w / 2) % p) + w % 2
  {
    var h := w / 2;
    var t, low := h / p, h % p;
    assert h == p * t + low;
    assert w == (2 * p) * t + (2 * low + w % 2);
    DivModUnique(w, 2 * p, t, 2 * low + w % 2);
  }

  /** Writing out the bits of FromBits(p) gives p back. */
  lemma {:induction false} ToFromBits(p: seq<bool>)
    ensures ToBits(FromBits(p), |p|) == p
  {
    if p != [] {
      ToFromBits(p[1..]);
      var w := FromBits(p);
      assert w % 2 == (if p[0] then 1 else 0) && w / 2 == FromBits(p[1..]);
    }
  }

  /** Bits written above others scale by 2^(number of lower bits). */
  lemma {:induction false} FromBitsAppend(a: seq<bool>, b: seq<bool>)
    ensures FromBits(a + b) == FromBits(a) + Pow2(|a|) * FromBits(b)
  {
    if a == [] {
      assert a + b == b;
    } else {
      assert (a + b)[1..] == a[1..] + b;
      FromBitsAppend(a[1..], b);
      assert (a + b)[0] == a[0];
      ShiftSum(if a[0] then 1 else 0, FromBits(a[1..]), Pow2(|a| - 1), FromBits(b));
    }
  }

  /** The number of low bits p and high bits d splits, by 2^|p|, into FromBits(d) and
      FromBits(p). */
  lemma SplitWord(p: seq<bool>, d: seq<bool>)
    ensures FromBits(p + d) / Pow2(|p|) == FromBits(d)
    ensures FromBits(p + d) % Pow2(|p|) == FromBits(p)
  {
    FromBitsAppend(p, d);
    DivModUnique(FromBits(p + d), Pow2(|p|), FromBits(d), FromBits(p));
  }

  lemma ShiftSum(bit: nat, x: nat, p: nat, y: nat)
    ensures bit + 2 * (x + p * y) == (bit + 2 * x) + (2 * p) * y
  {
  }

  /** A bit string whose top bit is set reads as at least 2^(length - 1). */
  lemma TopBitBounds(p: seq<bool>)
    requires p != [] && p[|p| - 1]
    ensures Pow2(|p| - 1) <= FromBits(p)
  {
    var low := p[..|p| - 1];
    assert p == low + [true];
    FromBitsAppend(low, [true]);
    assert FromBits([true]) == 1;
  }

  /** A number lies between consecutive powers of two for one exponent only. */
  lemma SameBitLength(a: nat, b: nat, x: nat)
    requires 1 <= a && 1 <= b
    requires Pow2(a - 1) <= x < Pow2(a) && Pow2(b - 1) <= x < Pow2(b)
    ensures a == b
  {
    if a < b {
      Pow2Monotone(a, b - 1);
    } else if b < a {
      Pow2Monotone(b, a - 1);
    }
  }

  /** Bit strings of one length that read as the same number are equal. */
  lemma FromBitsInjective(p: seq<bool>, q: seq<bool>)
    requires |p| == |q| && FromBits(p) == FromBits(q)
    ensures p == q
  {
    ToFromBits(p);
    ToFromBits(q);
  }
}
