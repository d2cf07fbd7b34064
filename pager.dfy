/** The pager code of RadioLib: BCH(31, 21) over GF(2^5) with the field polynomial
    x^5 + x^2 + 1. Its power and log tables, the minimal polynomials of alpha and alpha^3,
    and the generator polynomial 0x769 that begin() builds for it. */
module Pager {
  import opened Binary
  import opened Gf2Poly
  import opened GaloisField
  import opened MinimalPolynomial

  /** RADIOLIB_PAGER_BCH_N and _K: code words of 31 bits carrying 21 data bits. */
  const N: nat := 31
  const K: nat := 21

  /** RADIOLIB_PAGER_BCH_PRIMITIVE_POLY: 0x25 = x^5 + x^2 + 1, of degree 5. */
  const PrimitivePoly: bv32 := 0x25
  const Degree: nat := 5

  /** The powers alpha^0 .. alpha^31 in the pager field. */
  const Table: seq<int> := [1, 2, 4, 8, 16, 5, 10, 20, 13, 26, 17, 7, 14, 28, 29, 31, 27, 19, 3, 6, 12, 24, 21, 15, 30, 25, 23, 11, 22, 9, 18, 1]

  /** alpha^0 .. alpha^7, each one step of Times from the one before. */
  lemma Powers0()
    ensures Power(PrimitivePoly, Degree, 0) == 1 && Power(PrimitivePoly, Degree, 1) == 2
    ensures Power(PrimitivePoly, Degree, 2) == 4 && Power(PrimitivePoly, Degree, 3) == 8
    ensures Power(PrimitivePoly, Degree, 4) == 16 && Power(PrimitivePoly, Degree, 5) == 5
    ensures Power(PrimitivePoly, Degree, 6) == 10 && Power(PrimitivePoly, Degree, 7) == 20
  {
    assert Power(PrimitivePoly, Degree, 1) == 2;
    assert Power(PrimitivePoly, Degree, 2) == 4;
    assert Power(PrimitivePoly, Degree, 3) == 8;
    assert Power(PrimitivePoly, Degree, 4) == 16;
    assert Power(PrimitivePoly, Degree, 5) == 5;
    assert Power(PrimitivePoly, Degree, 6) == 10;
    assert Power(PrimitivePoly, Degree, 7) == 20;
  }

  /** alpha^8 .. alpha^15, each one step of Times from the one before. */
  lemma Powers1()
    requires Power(PrimitivePoly, Degree, 7) == 20
    ensures Power(PrimitivePoly, Degree, 8) == 13 && Power(PrimitivePoly, Degree, 9) == 26
    ensures Power(PrimitivePoly, Degree, 10) == 17 && Power(PrimitivePoly, Degree, 11) == 7
    ensures Power(PrimitivePoly, Degree, 12) == 14 && Power(PrimitivePoly, Degree, 13) == 28
    ensures Power(PrimitivePoly, Degree, 14) == 29 && Power(PrimitivePoly, Degree, 15) == 31
  {
    assert Power(PrimitivePoly, Degree, 8) == 13;
    assert Power(PrimitivePoly, Degree, 9) == 26;
    assert Power(PrimitivePoly, Degree, 10) == 17;
    assert Power(PrimitivePoly, Degree, 11) == 7;
    assert Power(PrimitivePoly, Degree, 12) == 14;
    assert Power(PrimitivePoly, Degree, 13) == 28;
    assert Power(PrimitivePoly, Degree, 14) == 29;
    assert Power(PrimitivePoly, Degree, 15) == 31;
  }

  /** alpha^16 .. alpha^23, each one step of Times from the one before. */
  lemma Powers2()
    requires Power(PrimitivePoly, Degree, 15) == 31
    ensures Power(PrimitivePoly, Degree, 16) == 27 && Power(PrimitivePoly, Degree, 17) == 19
    ensures Power(PrimitivePoly, Degree, 18) == 3 && Power(PrimitivePoly, Degree, 19) == 6
    ensures Power(PrimitivePoly, Degree, 20) == 12 && Power(PrimitivePoly, Degree, 21) == 24
    ensures Power(PrimitivePoly, Degree, 22) == 21 && Power(PrimitivePoly, Degree, 23) == 15
  {
    assert Power(PrimitivePoly, Degree, 16) == 27;
    assert Power(PrimitivePoly, Degree, 17) == 19;
    assert Power(PrimitivePoly, Degree, 18) == 3;
    assert Power(PrimitivePoly, Degree, 19) == 6;
    assert Power(PrimitivePoly, Degree, 20) == 12;
    assert Power(PrimitivePoly, Degree, 21) == 24;
    assert Power(PrimitivePoly, Degree, 22) == 21;
    assert Power(PrimitivePoly, Degree, 23) == 15;
  }

  /** alpha^24 .. alpha^31, each one step of Times from the one before. */
  lemma Powers3()
    requires Power(PrimitivePoly, Degree, 23) == 15
    ensures Power(PrimitivePoly, Degree, 24) == 30 && Power(PrimitivePoly, Degree, 25) == 25
    ensures Power(PrimitivePoly, Degree, 26) == 23 && Power(PrimitivePoly, Degree, 27) == 11
    ensures Power(PrimitivePoly, Degree, 28) == 22 && Power(PrimitivePoly, Degree, 29) == 9
    ensures Power(PrimitivePoly, Degree, 30) == 18 && Power(PrimitivePoly, Degree, 31) == 1
  {
    assert Power(PrimitivePoly, Degree, 24) == 30;
    assert Power(PrimitivePoly, Degree, 25) == 25;
    assert Power(PrimitivePoly, Degree, 26) == 23;
    assert Power(PrimitivePoly, Degree, 27) == 11;
    assert Power(PrimitivePoly, Degree, 28) == 22;
    assert Power(PrimitivePoly, Degree, 29) == 9;
    assert Power(PrimitivePoly, Degree, 30) == 18;
    assert Power(PrimitivePoly, Degree, 31) == 1;
  }

  /** alpha^0 .. alpha^31 in the pager field, all of them: the table. */
  lemma PowerValues()
    ensures forall i :: 0 <= i < 32 ==> Power(PrimitivePoly, Degree, i) as int == Table[i]
  {
    PowerRows0();
    PowerRows1();
    PowerRows2();
    PowerRows3();
  }

  /** Rows 0 .. 7 of the table. */
  lemma PowerRows0()
    ensures Power(PrimitivePoly, Degree, 7) == 20
    ensures forall i :: 0 <= i < 8 ==> Power(PrimitivePoly, Degree, i) as int == Table[i]
  {
    Powers0();
  }

  /** Rows 8 .. 15 of the table. */
  lemma PowerRows1()
    requires Power(PrimitivePoly, Degree, 7) == 20
    ensures Power(PrimitivePoly, Degree, 15) == 31
    ensures forall i :: 8 <= i < 16 ==> Power(PrimitivePoly, Degree, i) as int == Table[i]
  {
    Powers1();
  }

  /** Rows 16 .. 23 of the table. */
  lemma PowerRows2()
    requires Power(PrimitivePoly, Degree, 15) == 31
    ensures Power(PrimitivePoly, Degree, 23) == 15
    ensures forall i :: 16 <= i < 24 ==> Power(PrimitivePoly, Degree, i) as int == Table[i]
  {
    Powers2();
  }

  /** Rows 24 .. 31 of the table. */
  lemma PowerRows3()
    requires Power(PrimitivePoly, Degree, 23) == 15
    ensures Power(PrimitivePoly, Degree, 31) == 1
    ensures forall i :: 24 <= i < 32 ==> Power(PrimitivePoly, Degree, i) as int == Table[i]
  {
    Powers3();
  }

  /** The table closes at alpha^31 = 1, never holds 0, and holds 1 nowhere else
      after alpha^0. */
  lemma TableOrder()
    ensures Table[31] == 1
    ensures forall i :: 0 <= i < 32 ==> Table[i] != 0
    ensures forall i :: 0 < i < 31 ==> Table[i] != 1
  {
  }

  /** The discrete logarithms of the pager field's non-zero elements. */
  const Log: seq<int> := [0, 0, 1, 18, 2, 5, 19, 11, 3, 29, 6, 27, 20, 8, 12, 23, 4, 10, 30, 17, 7, 22, 28, 26, 21, 25, 9, 16, 13, 14, 24, 15]

  /** alpha^0 .. alpha^30 are pairwise distinct: Log undoes each of them. */
  lemma TableDistinct()
    ensures forall i, j :: 0 <= i < j < 31 ==> Table[i] != Table[j]
  {
    LogLow();
    LogHigh();
  }

  /** Log inverts the first half of Table ... */
  lemma LogLow()
    ensures forall i :: 0 <= i < 16 ==> 0 <= Table[i] < 32 && Log[Table[i]] == i
  {
  }

  /** ... and the second half. */
  lemma LogHigh()
    ensures forall i :: 16 <= i < 31 ==> 0 <= Table[i] < 32 && Log[Table[i]] == i
  {
  }

  /** 0x25 is primitive in GF(2^5): alpha has order exactly 31 = 2^5 - 1, so alpha^0 ..
      alpha^30 are 31 distinct elements, all the non-zero elements of the field. */
  lemma PolyIsPrimitive()
    ensures Power(PrimitivePoly, Degree, 31) == 1
    ensures forall i :: 0 < i < 31 ==> Power(PrimitivePoly, Degree, i) != 1
    ensures forall i, j :: 0 <= i < j < 31 ==> Power(PrimitivePoly, Degree, i) != Power(PrimitivePoly, Degree, j)
    ensures forall i :: 0 <= i < 32 ==> Power(PrimitivePoly, Degree, i) != 0
  {
    PowerValues();
    TableOrder();
    TableDistinct();
  }

  /** The minimal polynomial of alpha: x^5 + x^2 + 1, which reads as 37. */
  const MinPoly1: Poly := [true, false, true, false, false, true]

  /** The minimal polynomial of alpha^3: x^5 + x^4 + x^3 + x^2 + 1, which reads as 61. */
  const MinPoly3: Poly := [true, false, true, true, true, true]

  /** The generator of the pager code: x^10 + x^9 + x^8 + x^6 + x^5 + x^3 + 1 = 0x769. */
  const GeneratorPolynomial: Poly := [true, false, false, true, false, true, true, false, true, true, true]

  /** alpha is a root of x^5 + x^2 + 1, and no monic polynomial that reads as a smaller
      number has it as a root: it is the minimal polynomial the search finds. */
  lemma MinPolyOfAlpha()
    ensures MinPoly(1, PrimitivePoly, Degree) == Some(MinPoly1)
  {
    AlphaIsRoot();
    NoSmallerRootOfAlpha();
    MinPolyIs(1, PrimitivePoly, Degree, MinPoly1);
  }

  /** x^5 + x^2 + 1 reads as 37 and has alpha as a root. */
  lemma AlphaIsRoot()
    ensures FromBits(MinPoly1) == 37 && EvalAt(MinPoly1, 1, PrimitivePoly, Degree) == 0
  {
    Powers0();
    EvalSix(MinPoly1, 1);
  }

  /** No monic polynomial that reads as less than 37 has alpha as a root. */
  lemma NoSmallerRootOfAlpha()
    ensures forall q :: IsMonic(q) && 2 <= |q| && FromBits(q) < 37 ==> EvalAt(q, 1, PrimitivePoly, Degree) != 0
  {
    AlphaIsRoot();
    forall q | |q| == 6 && EvalAt(q, 1, PrimitivePoly, Degree) == 0
      ensures FromBits(q) == 0 || FromBits(q) >= 37
    {
      SixRootsOfAlpha(q);
      FromBitsNone(Zeros(6));
    }
    NoRootBelow(1, 37);
  }

  /** The same for alpha^3 and x^5 + x^4 + x^3 + x^2 + 1. */
  lemma MinPolyOfAlpha3()
    ensures MinPoly(3, PrimitivePoly, Degree) == Some(MinPoly3)
  {
    Alpha3IsRoot();
    NoSmallerRootOfAlpha3();
    MinPolyIs(3, PrimitivePoly, Degree, MinPoly3);
  }

  /** x^5 + x^4 + x^3 + x^2 + 1 reads as 61 and has alpha^3 as a root. */
  lemma Alpha3IsRoot()
    ensures FromBits(MinPoly3) == 61 && EvalAt(MinPoly3, 3, PrimitivePoly, Degree) == 0
  {
    Powers0();
    Powers1();
    EvalSix(MinPoly3, 3);
  }

  /** No monic polynomial that reads as less than 61 has alpha^3 as a root. */
  lemma NoSmallerRootOfAlpha3()
    ensures forall q :: IsMonic(q) && 2 <= |q| && FromBits(q) < 61 ==> EvalAt(q, 3, PrimitivePoly, Degree) != 0
  {
    Alpha3IsRoot();
    forall q | |q| == 6 && EvalAt(q, 3, PrimitivePoly, Degree) == 0
      ensures FromBits(q) == 0 || FromBits(q) >= 61
    {
      SixRootsOfAlpha3(q);
      FromBitsNone(Zeros(6));
    }
    NoRootBelow(3, 61);
  }

  /** Among the polynomials with six coefficients, only 0 and x^5 + x^2 + 1 have alpha as
      a root. */
  lemma SixRootsOfAlpha(q: Poly)
    requires |q| == 6 && EvalAt(q, 1, PrimitivePoly, Degree) == 0
    ensures q == Zeros(6) || q == MinPoly1
  {
    AlphaRootSum(q);
    AlphaRootBits(q[0], q[1], q[2], q[3], q[4], q[5]);
    if q[0] {
      assert q == MinPoly1;
    } else {
      assert q == Zeros(6);
    }
  }

  /** Only 0 and x^5 + x^4 + x^3 + x^2 + 1 have alpha^3 as a root. */
  lemma SixRootsOfAlpha3(q: Poly)
    requires |q| == 6 && EvalAt(q, 3, PrimitivePoly, Degree) == 0
    ensures q == Zeros(6) || q == MinPoly3
  {
    Alpha3RootSum(q);
    Alpha3RootBits(q[0], q[1], q[2], q[3], q[4], q[5]);
    if q[0] {
      assert q == MinPoly3;
    } else {
      assert q == Zeros(6);
    }
  }

  /** The value of a six-coefficient polynomial at alpha, with the powers written out. */
  lemma AlphaRootSum(q: Poly)
    requires |q| == 6 && EvalAt(q, 1, PrimitivePoly, Degree) == 0
    ensures Sum(Term(q[0], 1), Sum(Term(q[1], 2), Sum(Term(q[2], 4), Sum(Term(q[3], 8), Sum(Term(q[4], 16),
      Term(q[5], 5)))))) == 0
  {
    Powers0();
    EvalSix(q, 1);
  }

  /** The value of a six-coefficient polynomial at alpha^3, with the powers written out. */
  lemma Alpha3RootSum(q: Poly)
    requires |q| == 6 && EvalAt(q, 3, PrimitivePoly, Degree) == 0
    ensures Sum(Term(q[0], 1), Sum(Term(q[1], 8), Sum(Term(q[2], 10), Sum(Term(q[3], 26), Sum(Term(q[4], 14),
      Term(q[5], 31)))))) == 0
  {
    Powers0();
    Powers1();
    EvalSix(q, 3);
  }

  /** The sum b0 + b1 alpha + ... + b5 alpha^5 vanishes only for the coefficients of 0 and
      x^5 + x^2 + 1. */
  lemma AlphaRootBits(b0: bool, b1: bool, b2: bool, b3: bool, b4: bool, b5: bool)
    requires Sum(Term(b0, 1), Sum(Term(b1, 2), Sum(Term(b2, 4), Sum(Term(b3, 8), Sum(Term(b4, 16), Term(b5, 5)))))) == 0
    ensures !b1 && !b3 && !b4 && b0 == b2 && b2 == b5
  {
  }

  /** The sum b0 + b1 alpha^3 + ... + b5 alpha^15 vanishes only for the coefficients of 0
      and x^5 + x^4 + x^3 + x^2 + 1. */
  lemma Alpha3RootBits(b0: bool, b1: bool, b2: bool, b3: bool, b4: bool, b5: bool)
    requires Sum(Term(b0, 1), Sum(Term(b1, 8), Sum(Term(b2, 10), Sum(Term(b3, 26), Sum(Term(b4, 14), Term(b5, 31)))))) == 0
    ensures !b1 && b0 == b2 && b2 == b3 && b3 == b4 && b4 == b5
  {
  }

  /** When every root polynomial with six coefficients reads as 0 or as at least c, no
      monic polynomial of degree 1 or more that reads as less than c has alpha^e as a root:
      it pads with zeros to six coefficients. */
  lemma NoRootBelow(e: nat, c: nat)
    requires c <= 64
    requires forall q :: |q| == 6 && EvalAt(q, e, PrimitivePoly, Degree) == 0 ==> FromBits(q) == 0 || FromBits(q) >= c
    ensures forall q :: IsMonic(q) && 2 <= |q| && FromBits(q) < c ==> EvalAt(q, e, PrimitivePoly, Degree) != 0
  {
    forall q | IsMonic(q) && 2 <= |q| && FromBits(q) < c
      ensures EvalAt(q, e, PrimitivePoly, Degree) != 0
    {
      TopBitBounds(q);
      Pow2Monotone(1, |q| - 1);
      if |q| > 6 {
        Pow2Monotone(6, |q| - 1);
      }
      var padded := q + Zeros(6 - |q|);
      EvalAtPadded(q, 6 - |q|, e, PrimitivePoly, Degree);
      FromBitsPadded(q, 6 - |q|);
    }
  }

  /** A polynomial with six coefficients evaluated term by term. */
  lemma EvalSix(q: Poly, e: nat)
    requires |q| == 6
    ensures EvalAt(q, e, PrimitivePoly, Degree) ==
      Sum(Term(q[0], Power(PrimitivePoly, Degree, e * 0)), Sum(Term(q[1], Power(PrimitivePoly, Degree, e * 1)),
      Sum(Term(q[2], Power(PrimitivePoly, Degree, e * 2)), Sum(Term(q[3], Power(PrimitivePoly, Degree, e * 3)),
      Sum(Term(q[4], Power(PrimitivePoly, Degree, e * 4)), Term(q[5], Power(PrimitivePoly, Degree, e * 5)))))))
  {
    var q1, q2, q3, q4, q5 := q[1..], q[2..], q[3..], q[4..], q[5..];
    assert q1[1..] == q2 && q2[1..] == q3 && q3[1..] == q4 && q4[1..] == q5 && q5[1..] == [];
    assert EvalFrom(q5, e, PrimitivePoly, Degree, 5) == Term(q[5], Power(PrimitivePoly, Degree, e * 5));
    assert EvalFrom(q4, e, PrimitivePoly, Degree, 4) ==
      Sum(Term(q[4], Power(PrimitivePoly, Degree, e * 4)), EvalFrom(q5, e, PrimitivePoly, Degree, 5));
    assert EvalFrom(q3, e, PrimitivePoly, Degree, 3) ==
      Sum(Term(q[3], Power(PrimitivePoly, Degree, e * 3)), EvalFrom(q4, e, PrimitivePoly, Degree, 4));
    assert EvalFrom(q2, e, PrimitivePoly, Degree, 2) ==
      Sum(Term(q[2], Power(PrimitivePoly, Degree, e * 2)), EvalFrom(q3, e, PrimitivePoly, Degree, 3));
    assert EvalFrom(q1, e, PrimitivePoly, Degree, 1) ==
      Sum(Term(q[1], Power(PrimitivePoly, Degree, e * 1)), EvalFrom(q2, e, PrimitivePoly, Degree, 2));
  }

  /** The generator is the product of the two minimal polynomials, x^5 + x^2 + 1 times
      x^5 + x^4 + x^3 + x^2 + 1, worked out as a long multiplication row by row. */
  lemma GeneratorIsProduct()
    ensures Mul(MinPoly1, MinPoly3) == GeneratorPolynomial
  {
    ProductRows3();
    ProductRow4();
    ProductRow5();
    ProductRow6();
  }

  /** The product of the lowest three coefficients of x^5 + x^2 + 1 with x^5 + x^4 + x^3 + x^2 + 1. */
  lemma ProductRows3()
    ensures Mul([true, false, true], MinPoly3) == [true, false, false, true, false, false, true, true]
  {
    assert Mul([true], MinPoly3) == [true, false, true, true, true, true];
    assert Mul([true, false], MinPoly3) == [true, false, true, true, true, true, false];
  }

  /** The fourth row adds nothing: x^3 has coefficient 0 in x^5 + x^2 + 1. */
  lemma ProductRow4()
    requires Mul([true, false, true], MinPoly3) == [true, false, false, true, false, false, true, true]
    ensures Mul([true, false, true, false], MinPoly3) == [true, false, false, true, false, false, true, true, false]
  {
    assert [true, false, true, false][..3] == [true, false, true];
  }

  /** The fifth row adds nothing either: the coefficient of x^4 is 0. */
  lemma ProductRow5()
    requires Mul([true, false, true, false], MinPoly3) == [true, false, false, true, false, false, true, true, false]
    ensures Mul([true, false, true, false, false], MinPoly3) == [true, false, false, true, false, false, true, true, false, false]
  {
    assert [true, false, true, false, false][..4] == [true, false, true, false];
  }

  /** The sixth row adds x^5 times x^5 + x^4 + x^3 + x^2 + 1, which completes the product. */
  lemma ProductRow6()
    requires Mul([true, false, true, false, false], MinPoly3) == [true, false, false, true, false, false, true, true, false, false]
    ensures Mul(MinPoly1, MinPoly3) == GeneratorPolynomial
  {
    assert MinPoly1[..5] == [true, false, true, false, false];
  }

  /** alpha^(e i) in the pager field. */
  function AlphaPow(e: nat, i: nat): bv32
  {
    Power(PrimitivePoly, Degree, e * i)
  }

  /** begin() builds 0x769 for the pager code: the generator grown from 1 takes the
      minimal polynomial of alpha, skips alpha^2 (already a root), takes the minimal
      polynomial of alpha^3 and stops at degree 10 = n - k. */
  lemma GeneratorIs()
    ensures Generator(N, K, PrimitivePoly, Degree) == GeneratorPolynomial
    ensures |GeneratorPolynomial| == N - K + 1
  {
    GrowAlpha();
    GrowAlpha2();
    GrowAlpha3();
  }

  /** alpha is no root of 1: the generator takes the minimal polynomial of alpha. */
  lemma GrowAlpha()
    ensures Grow(One(Degree), 1, N, N - K, PrimitivePoly, Degree) == Grow(MinPoly1, 2, N, N - K, PrimitivePoly, Degree)
  {
    MinPolyOfAlpha();
    assert EvalAt(One(Degree), 1, PrimitivePoly, Degree) == 1;
    assert Mul(One(Degree), MinPoly1) == MinPoly1;
  }

  /** alpha^2 is already a root of x^5 + x^2 + 1: the generator stays. */
  lemma GrowAlpha2()
    ensures Grow(MinPoly1, 2, N, N - K, PrimitivePoly, Degree) == Grow(MinPoly1, 3, N, N - K, PrimitivePoly, Degree)
  {
    Powers0();
    Powers1();
    EvalSix(MinPoly1, 2);
    assert EvalAt(MinPoly1, 2, PrimitivePoly, Degree) == 0;
  }

  /** alpha^3 is no root of x^5 + x^2 + 1: the generator takes the minimal polynomial of
      alpha^3 and, at degree 10, is complete. */
  lemma GrowAlpha3()
    ensures Grow(MinPoly1, 3, N, N - K, PrimitivePoly, Degree) == GeneratorPolynomial
  {
    assert EvalAt(MinPoly1, 3, PrimitivePoly, Degree) == 20 by {
      Powers0();
      Powers1();
      EvalSix(MinPoly1, 3);
    }
    MinPolyOfAlpha3();
    GeneratorIsProduct();
    assert Grow(GeneratorPolynomial, 4, N, N - K, PrimitivePoly, Degree) == GeneratorPolynomial;
  }

  /** alpha, alpha^2, alpha^3 and alpha^4 are roots of the generator: the code has designed
      distance 5 and corrects two bit errors per code word. */
  lemma GeneratorRoots()
    ensures EvalAt(GeneratorPolynomial, 1, PrimitivePoly, Degree) == 0
    ensures EvalAt(GeneratorPolynomial, 2, PrimitivePoly, Degree) == 0
    ensures EvalAt(GeneratorPolynomial, 3, PrimitivePoly, Degree) == 0
    ensures EvalAt(GeneratorPolynomial, 4, PrimitivePoly, Degree) == 0
  {
    Powers0();
    Powers1();
    Powers2();
    Powers3();
    assert EvalAt(GeneratorPolynomial, 1, PrimitivePoly, Degree) == 0 by {
      EvalGeneratorLow(1);
      EvalGeneratorHigh(1);
    }
    assert EvalAt(GeneratorPolynomial, 2, PrimitivePoly, Degree) == 0 by {
      EvalGeneratorLow(2);
      EvalGeneratorHigh(2);
    }
    assert EvalAt(GeneratorPolynomial, 3, PrimitivePoly, Degree) == 0 by {
      EvalGeneratorLow(3);
      EvalGeneratorHigh(3);
    }
    assert EvalAt(GeneratorPolynomial, 4, PrimitivePoly, Degree) == 0 by {
      PowerPeriod(PrimitivePoly, Degree, 31, 1);
      PowerPeriod(PrimitivePoly, Degree, 31, 5);
      PowerPeriod(PrimitivePoly, Degree, 31, 9);
      EvalGeneratorLow(4);
      EvalGeneratorHigh(4);
    }
  }

  /** The generator at alpha^e, from the bottom: the coefficients 0 and 3 are set, 1, 2
      and 4 are not. */
  lemma EvalGeneratorLow(e: nat)
    ensures EvalAt(GeneratorPolynomial, e, PrimitivePoly, Degree) ==
      Sum(AlphaPow(e, 0), Sum(AlphaPow(e, 3), EvalFrom(GeneratorPolynomial[5..], e, PrimitivePoly, Degree, 5)))
  {
    assert GeneratorPolynomial[0..] == GeneratorPolynomial;
    EvalGeneratorStep(e, 0);
    EvalGeneratorStep(e, 1);
    EvalGeneratorStep(e, 2);
    EvalGeneratorMiddle(e);
    SumZero(EvalFrom(GeneratorPolynomial[3..], e, PrimitivePoly, Degree, 3));
    SumZero(EvalFrom(GeneratorPolynomial[2..], e, PrimitivePoly, Degree, 2));
  }

  /** The terms of x^3 and x^4. */
  lemma EvalGeneratorMiddle(e: nat)
    ensures EvalFrom(GeneratorPolynomial[3..], e, PrimitivePoly, Degree, 3) ==
      Sum(AlphaPow(e, 3), EvalFrom(GeneratorPolynomial[5..], e, PrimitivePoly, Degree, 5))
  {
    EvalGeneratorStep(e, 3);
    EvalGeneratorStep(e, 4);
    SumZero(EvalFrom(GeneratorPolynomial[5..], e, PrimitivePoly, Degree, 5));
  }

  /** The generator at alpha^e, from x^5 up: the coefficients 5, 6, 8, 9 and 10 are set,
      7 is not. */
  lemma EvalGeneratorHigh(e: nat)
    ensures EvalFrom(GeneratorPolynomial[5..], e, PrimitivePoly, Degree, 5) ==
      Sum(AlphaPow(e, 5), Sum(AlphaPow(e, 6), Sum(AlphaPow(e, 8), Sum(AlphaPow(e, 9), AlphaPow(e, 10)))))
  {
    EvalGeneratorStep(e, 5);
    EvalGeneratorStep(e, 6);
    EvalGeneratorStep(e, 7);
    EvalGeneratorTop(e);
    SumZero(EvalFrom(GeneratorPolynomial[8..], e, PrimitivePoly, Degree, 8));
  }

  /** The terms of x^8, x^9 and x^10. */
  lemma EvalGeneratorTop(e: nat)
    ensures EvalFrom(GeneratorPolynomial[8..], e, PrimitivePoly, Degree, 8) ==
      Sum(AlphaPow(e, 8), Sum(AlphaPow(e, 9), AlphaPow(e, 10)))
  {
    assert GeneratorPolynomial[11..] == [];
    EvalGeneratorStep(e, 8);
    EvalGeneratorStep(e, 9);
    EvalGeneratorStep(e, 10);
  }

  /** One step of the evaluation of the generator: the term of x^i and the terms above. */
  lemma EvalGeneratorStep(e: nat, i: nat)
    requires i <= 10
    ensures EvalFrom(GeneratorPolynomial[i..], e, PrimitivePoly, Degree, i) ==
      Sum(Term(GeneratorPolynomial[i], AlphaPow(e, i)), EvalFrom(GeneratorPolynomial[i + 1..], e, PrimitivePoly, Degree, i + 1))
  {
    assert GeneratorPolynomial[i..][1..] == GeneratorPolynomial[i + 1..];
  }

}
