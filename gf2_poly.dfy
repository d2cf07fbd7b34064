/** Polynomials over GF(2) and the systematic encoding of a binary cyclic code: the
    design-level meaning of "encode one data word into a code word with check bits".
    A polynomial is the sequence of its coefficients, lowest power first: p[i] is the
    coefficient of x^i. A generator g of degree r = |g| - 1 has g[r] == true. */
module Gf2Poly {
  import opened Binary

  type Poly = seq<bool>

  function Zeros(n: nat): (r: Poly)
    ensures |r| == n && forall i :: 0 <= i < n ==> !r[i]
  {
    seq(n, _ => false)
  }

  /** Sum (and difference) of polynomials over GF(2): coefficient-wise exclusive or. */
  function Add(a: Poly, b: Poly): (r: Poly)
    requires |a| == |b|
    ensures |r| == |a|
    ensures forall i :: 0 <= i < |a| ==> r[i] == (a[i] != b[i])
  {
    seq(|a|, i requires 0 <= i < |a| => a[i] != b[i])
  }

  /** One step of long division: when the top coefficient of a is 1, subtract g aligned
      under it; then drop that (now zero) top coefficient. */
  function Reduce(a: Poly, g: Poly): (r: Poly)
    requires 1 <= |g| <= |a|
    ensures |r| == |a| - 1
  {
    var low := a[..|a| - 1];
    if a[|a| - 1] then Add(low, Zeros(|a| - |g|) + g[..|g| - 1]) else low
  }

  /** Remainder of a divided by g over GF(2), reducing from the top coefficient down
      until fewer than |g| coefficients are left. */
  function Rem(a: Poly, g: Poly): (r: Poly)
    requires |g| >= 1
    ensures |r| == |g| - 1
    decreases |a|
  {
    if |a| < |g| then a + Zeros(|g| - 1 - |a|) else Rem(Reduce(a, g), g)
  }

  /** Quotient of the same long division: the top coefficients seen, one per step. */
  function Quot(a: Poly, g: Poly): (q: Poly)
    requires 1 <= |g| && |g| - 1 <= |a|
    ensures |q| == |a| - (|g| - 1)
    decreases |a|
  {
    if |a| < |g| then [] else Quot(Reduce(a, g), g) + [a[|a| - 1]]
  }

  /** Product q(x) g(x) over GF(2), built from the top coefficient of q down. */
  function Mul(q: Poly, g: Poly): (r: Poly)
    requires |g| >= 1
    ensures |r| == |q| + |g| - 1
    decreases |q|
  {
    if q == [] then Zeros(|g| - 1)
    else
      var top := if q[|q| - 1] then Zeros(|q| - 1) + g else Zeros(|q| + |g| - 1);
      Add(Mul(q[..|q| - 1], g) + [false], top)
  }

  /** The check bits of data word d: the remainder of x^r d(x) divided by g. */
  function CheckBits(d: Poly, g: Poly): (p: Poly)
    requires |g| >= 1
    ensures |p| == |g| - 1
  {
    Rem(Zeros(|g| - 1) + d, g)
  }

  /** The systematic code word of d: the r check bits below, the data bits above. */
  function SystematicEncode(d: Poly, g: Poly): (c: Poly)
    requires |g| >= 1
    ensures |c| == |g| - 1 + |d|
    ensures c[|g| - 1..] == d
  {
    CheckBits(d, g) + d
  }

  /** The remainder is additive: dividing a sum is summing the remainders. */
  lemma {:induction false} RemAdd(a: Poly, b: Poly, g: Poly)
    requires |g| >= 1 && |a| == |b|
    ensures Rem(Add(a, b), g) == Add(Rem(a, g), Rem(b, g))
    decreases |a|
  {
    if |a| < |g| {
      assert Add(a, b) + Zeros(|g| - 1 - |a|) == Add(a + Zeros(|g| - 1 - |a|), b + Zeros(|g| - 1 - |a|));
    } else {
      ReduceAdd(a, b, g);
      RemAdd(Reduce(a, g), Reduce(b, g), g);
    }
  }

  /** One division step is additive too. */
  lemma ReduceAdd(a: Poly, b: Poly, g: Poly)
    requires 1 <= |g| <= |a| == |b|
    ensures Reduce(Add(a, b), g) == Add(Reduce(a, g), Reduce(b, g))
  {
    var s := Zeros(|a| - |g|) + g[..|g| - 1];
    var n := |a| - 1;
    forall i | 0 <= i < n
      ensures Reduce(Add(a, b), g)[i] == Add(Reduce(a, g), Reduce(b, g))[i]
    {
      var sa := a[n] && s[i];
      var sb := b[n] && s[i];
    }
  }

  /** A polynomial of degree below r is its own remainder, whatever zero coefficients
      stand above it. */
  lemma {:induction false} RemPadded(p: Poly, j: nat, g: Poly)
    requires |g| >= 1 && |p| == |g| - 1
    ensures Rem(p + Zeros(j), g) == p
  {
    if j == 0 {
      assert p + Zeros(0) == p;
    } else {
      assert Reduce(p + Zeros(j), g) == p + Zeros(j - 1);
      RemPadded(p, j - 1, g);
    }
  }

  /** The zero polynomial leaves remainder zero. */
  lemma {:induction false} RemZeros(n: nat, g: Poly)
    requires |g| >= 1
    ensures Rem(Zeros(n), g) == Zeros(|g| - 1)
  {
    if n >= |g| {
      assert Reduce(Zeros(n), g) == Zeros(n - 1);
      RemZeros(n - 1, g);
    } else {
      assert Zeros(n) + Zeros(|g| - 1 - n) == Zeros(|g| - 1);
    }
  }

  /** Long division is exact: a == Quot(a, g) * g + Rem(a, g), for a generator whose
      leading coefficient is 1. */
  lemma {:induction false} DivisionIdentity(a: Poly, g: Poly)
    requires |g| >= 1 && g[|g| - 1] && |g| - 1 <= |a|
    ensures a == Add(Mul(Quot(a, g), g), Rem(a, g) + Zeros(|a| - (|g| - 1)))
    decreases |a|
  {
    var r := |g| - 1;
    if |a| < |g| {
      assert Rem(a, g) + Zeros(0) == a;
      assert Add(Zeros(|a|), a) == a;
    } else {
      var n, t := Reduce(a, g), a[|a| - 1];
      var qn := Quot(n, g);
      var m, rz := Mul(qn, g), Rem(n, g) + Zeros(|n| - r);
      DivisionIdentity(n, g);
      var s := Zeros(|a| - |g|) + g[..r];
      var top := if t then s + [true] else Zeros(|a|);
      QuotMulStep(a, g);
      RemStep(a, g);
      DivisionStep(a, s, m, rz, top);
    }
  }

  /** Quotient and product after one division step. */
  lemma QuotMulStep(a: Poly, g: Poly)
    requires 1 <= |g| <= |a| && g[|g| - 1]
    ensures Quot(a, g) == Quot(Reduce(a, g), g) + [a[|a| - 1]]
    ensures Mul(Quot(a, g), g) == Add(Mul(Quot(Reduce(a, g), g), g) + [false],
      if a[|a| - 1] then Zeros(|a| - |g|) + g[..|g| - 1] + [true] else Zeros(|a|))
  {
    var qn, t := Quot(Reduce(a, g), g), a[|a| - 1];
    assert (qn + [t])[..|qn|] == qn;
    if t {
      AppendLast(Zeros(|a| - |g|), g);
    }
  }

  /** The remainder after one division step, padded to the length of a. */
  lemma RemStep(a: Poly, g: Poly)
    requires 1 <= |g| <= |a|
    ensures Rem(a, g) + Zeros(|a| - (|g| - 1))
         == Rem(Reduce(a, g), g) + Zeros(|a| - 1 - (|g| - 1)) + [false]
  {
    ZerosAppend(|a| - 1 - (|g| - 1), 1);
    assert Zeros(1) == [false];
  }

  /** Zero is neutral for addition. */
  lemma AddZero(a: Poly)
    ensures Add(a, Zeros(|a|)) == a
  {
  }

  lemma ZerosAppend(j: nat, k: nat)
    ensures Zeros(j) + Zeros(k) == Zeros(j + k)
  {
  }

  lemma AppendLast(z: Poly, g: Poly)
    requires |g| >= 1
    ensures z + g == (z + g[..|g| - 1]) + [g[|g| - 1]]
  {
    assert g == g[..|g| - 1] + [g[|g| - 1]];
  }

  /** The algebra of one step of DivisionIdentity: if the reduced polynomial n is
      m + rz, then a is (m shifted up by one) + (g aligned under a's top) + rz. */
  lemma DivisionStep(a: Poly, s: Poly, m: Poly, rz: Poly, top: Poly)
    requires |a| >= 1 && |s| == |m| == |rz| == |a| - 1
    requires (if a[|a| - 1] then Add(a[..|a| - 1], s) else a[..|a| - 1]) == Add(m, rz)
    requires top == if a[|a| - 1] then s + [true] else Zeros(|a|)
    ensures a == Add(Add(m + [false], top), rz + [false])
  {
    var low := a[..|a| - 1];
    forall i | 0 <= i < |a|
      ensures a[i] == Add(Add(m + [false], top), rz + [false])[i]
    {
      if i < |a| - 1 {
        assert Add(m, rz)[i] == (m[i] != rz[i]);
        assert a[i] == low[i];
      }
    }
  }

  /** The code word of d is the one and only polynomial that ends in d, has r check bits
      below it and leaves remainder zero when divided by g. */
  lemma CodeWordUnique(d: Poly, p: Poly, g: Poly)
    requires |g| >= 1 && |p| == |g| - 1
    ensures Rem(p + d, g) == Zeros(|g| - 1) <==> p == CheckBits(d, g)
  {
    RemOfPrefixed(d, p, g);
    SumZeroIff(p, CheckBits(d, g));
  }

  /** The remainder of p + x^r d is p plus the check bits of d. */
  lemma RemOfPrefixed(d: Poly, p: Poly, g: Poly)
    requires |g| >= 1 && |p| == |g| - 1
    ensures Rem(p + d, g) == Add(p, CheckBits(d, g))
  {
    var r := |g| - 1;
    ConcatIsSum(p, d);
    RemAdd(p + Zeros(|d|), Zeros(r) + d, g);
    RemPadded(p, |d|, g);
  }

  /** Writing d above p is adding p and x^|p| d. */
  lemma ConcatIsSum(p: Poly, d: Poly)
    ensures p + d == Add(p + Zeros(|d|), Zeros(|p|) + d)
  {
    var a, b := p + Zeros(|d|), Zeros(|p|) + d;
    forall i | 0 <= i < |p| + |d|
      ensures (p + d)[i] == Add(a, b)[i]
    {
      if i < |p| {
        assert a[i] == p[i] && !b[i];
      } else {
        assert !a[i] && b[i] == d[i - |p|];
      }
    }
  }

  /** Over GF(2), a + b is zero exactly when a and b are equal. */
  lemma SumZeroIff(a: Poly, b: Poly)
    requires |a| == |b|
    ensures Add(a, b) == Zeros(|a|) <==> a == b
  {
    if Add(a, b) == Zeros(|a|) {
      forall i | 0 <= i < |a|
        ensures a[i] == b[i]
      {
        assert Add(a, b)[i] == Zeros(|a|)[i];
      }
    }
  }

  /** The systematic code word is a multiple of the generator: c == q * g exactly. */
  lemma CodeWordIsMultiple(d: Poly, g: Poly)
    requires |g| >= 1 && g[|g| - 1]
    ensures Rem(SystematicEncode(d, g), g) == Zeros(|g| - 1)
    ensures Mul(Quot(SystematicEncode(d, g), g), g) == SystematicEncode(d, g)
  {
    var c := SystematicEncode(d, g);
    assert Rem(c, g) == Zeros(|g| - 1) by {
      CodeWordUnique(d, CheckBits(d, g), g);
    }
    var m := Mul(Quot(c, g), g);
    assert c == Add(m, Rem(c, g) + Zeros(|c| - (|g| - 1))) by {
      DivisionIdentity(c, g);
    }
    ZerosAppend(|g| - 1, |c| - (|g| - 1));
    AddZero(m);
  }

  /** Encoding the all-zero data word gives the all-zero code word. */
  lemma EncodeZero(k: nat, g: Poly)
    requires |g| >= 1
    ensures SystematicEncode(Zeros(k), g) == Zeros(|g| - 1 + k)
  {
    assert Zeros(|g| - 1) + Zeros(k) == Zeros(|g| - 1 + k);
    RemZeros(|g| - 1 + k, g);
  }

  /** The code word, as an integer, of the low k bits of data word w: the data bits are
      moved up by r = |g| - 1 places and the check bits fill the low r bits. */
  function EncodeWord(w: nat, k: nat, g: Poly): (c: nat)
    requires |g| >= 1
    ensures c < Pow2(|g| - 1 + k)
    ensures c / Pow2(|g| - 1) == w % Pow2(k)
    ensures c % Pow2(|g| - 1) == FromBits(CheckBits(ToBits(w, k), g))
  {
    var d := ToBits(w, k);
    var p := CheckBits(d, g);
    SplitWord(p, d);
    FromToBits(w, k);
    FromBits(p + d)
  }

  /** Read back as bits, the integer code word is the polynomial code word: a multiple of
      g whose top k bits are the data word's low k bits. */
  lemma EncodeWordIsCodeWord(w: nat, k: nat, g: Poly)
    requires |g| >= 1 && g[|g| - 1]
    ensures Rem(ToBits(EncodeWord(w, k, g), |g| - 1 + k), g) == Zeros(|g| - 1)
    ensures ToBits(EncodeWord(w, k, g), |g| - 1 + k)[|g| - 1..] == ToBits(w, k)
  {
    EncodeWordBits(w, k, g);
    CodeWordIsMultiple(ToBits(w, k), g);
  }

  /** The bits of the integer code word are the polynomial code word. */
  lemma EncodeWordBits(w: nat, k: nat, g: Poly)
    requires |g| >= 1
    ensures ToBits(EncodeWord(w, k, g), |g| - 1 + k) == SystematicEncode(ToBits(w, k), g)
  {
    var c := SystematicEncode(ToBits(w, k), g);
    assert EncodeWord(w, k, g) == FromBits(c);
    ToFromBits(c);
  }

  /** The data word 0 encodes to the code word 0. */
  lemma EncodeWordZero(k: nat, g: Poly)
    requires |g| >= 1
    ensures EncodeWord(0, k, g) == 0
  {
    ToBitsZero(k);
    assert ToBits(0, k) == Zeros(k);
    EncodeZero(k, g);
    FromBitsNone(Zeros(|g| - 1 + k));
  }
}
