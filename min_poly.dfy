// The search for a minimal polynomial tries monic polynomials in increasing order of the
// number their coefficients read as (coefficient i as bit i). These lemmas show that the
// one it returns is the least monic polynomial with alpha^e as a root, hence of least
// degree, and conversely which polynomial it returns.

module MinimalPolynomial {
  import opened Binary
  import opened Gf2Poly
  import opened GaloisField

  /** Read as a number (coefficient i as bit i), the candidate at (d, j) is 2^d + j, so
      the search tries monic polynomials in increasing order of that number. */
  lemma CandidateCode(d: nat, j: nat)
    requires j < Pow2(d)
    ensures FromBits(Candidate(d, j)) == Pow2(d) + j
  {
    var low := ToBits(j, d);
    var top: seq<bool> := [true];
    assert Candidate(d, j) == low + top;
    assert FromBits(top) == 1 by {
      assert top[1..] == [];
    }
    FromBitsAppend(low, top);
    var b := FromBits(low);
    assert b == j by {
      FromToBits(j, d);
      DivModUnique(j, Pow2(d), 0, j);
    }
    assert FromBits(low + top) == b + Pow2(d) * 1;
  }

  /** Monic polynomials that read as the same number are equal. */
  lemma MonicUnique(q: Poly, c: Poly)
    requires IsMonic(q) && IsMonic(c) && FromBits(q) == FromBits(c)
    ensures q == c
  {
    TopBitBounds(q);
    TopBitBounds(c);
    SameBitLength(|q|, |c|, FromBits(q));
    FromBitsInjective(q, c);
  }

  /** A monic polynomial q of degree at most m that has alpha^e as a root and reads as 2^d + j
      or more is found by the search from (d, j), unless one that reads as a smaller
      number is found first. */
  lemma {:induction false} SearchReaches(e: nat, poly: bv32, m: nat, d: nat, j: nat, q: Poly)
    requires m < 32 && 1 <= d && j <= Pow2(d)
    requires IsMonic(q) && |q| <= m + 1 && EvalAt(q, e, poly, m) == 0
    requires Pow2(d) + j <= FromBits(q)
    ensures MinPolySearch(e, poly, m, d, j).Some?
    ensures FromBits(MinPolySearch(e, poly, m, d, j).value) <= FromBits(q)
    decreases m + 1 - d, Pow2(d) - j, 1
  {
    if d > m {
      Pow2Monotone(|q|, d);
      assert false;
    } else if j >= Pow2(d) {
      ReachesNextDegree(e, poly, m, d, j, q);
    } else if EvalAt(Candidate(d, j), e, poly, m) == 0 {
      CandidateCode(d, j);
      assert MinPolySearch(e, poly, m, d, j) == Some(Candidate(d, j));
    } else {
      ReachesNextCandidate(e, poly, m, d, j, q);
    }
  }

  /** Once degree d is exhausted, the search goes on with degree d + 1. */
  lemma {:induction false} ReachesNextDegree(e: nat, poly: bv32, m: nat, d: nat, j: nat, q: Poly)
    requires m < 32 && 1 <= d <= m && j == Pow2(d)
    requires IsMonic(q) && |q| <= m + 1 && EvalAt(q, e, poly, m) == 0
    requires Pow2(d) + j <= FromBits(q)
    ensures MinPolySearch(e, poly, m, d, j).Some?
    ensures FromBits(MinPolySearch(e, poly, m, d, j).value) <= FromBits(q)
    decreases m + 1 - d, Pow2(d) - j, 0
  {
    SearchReaches(e, poly, m, d + 1, 0, q);
    assert MinPolySearch(e, poly, m, d, j) == MinPolySearch(e, poly, m, d + 1, 0);
  }

  /** A candidate without alpha^e as a root is passed over. */
  lemma {:induction false} ReachesNextCandidate(e: nat, poly: bv32, m: nat, d: nat, j: nat, q: Poly)
    requires m < 32 && 1 <= d <= m && j < Pow2(d) && EvalAt(Candidate(d, j), e, poly, m) != 0
    requires IsMonic(q) && |q| <= m + 1 && EvalAt(q, e, poly, m) == 0
    requires Pow2(d) + j <= FromBits(q)
    ensures MinPolySearch(e, poly, m, d, j).Some?
    ensures FromBits(MinPolySearch(e, poly, m, d, j).value) <= FromBits(q)
    decreases m + 1 - d, Pow2(d) - j, 0
  {
    PassOver(e, poly, m, d, j, q);
    SearchReaches(e, poly, m, d, j + 1, q);
    SkipStep(e, poly, m, d, j, FromBits(q));
  }

  /** The search at a candidate without alpha^e as a root returns what the search from the next
      candidate returns. */
  lemma SkipStep(e: nat, poly: bv32, m: nat, d: nat, j: nat, bound: nat)
    requires m < 32 && 1 <= d <= m && j < Pow2(d) && EvalAt(Candidate(d, j), e, poly, m) != 0
    requires MinPolySearch(e, poly, m, d, j + 1).Some?
    requires FromBits(MinPolySearch(e, poly, m, d, j + 1).value) <= bound
    ensures MinPolySearch(e, poly, m, d, j).Some?
    ensures FromBits(MinPolySearch(e, poly, m, d, j).value) <= bound
  {
    assert MinPolySearch(e, poly, m, d, j) == MinPolySearch(e, poly, m, d, j + 1);
  }

  /** A candidate without alpha^e as a root is not q, so q reads as a larger number. */
  lemma PassOver(e: nat, poly: bv32, m: nat, d: nat, j: nat, q: Poly)
    requires m < 32 && j < Pow2(d) && EvalAt(Candidate(d, j), e, poly, m) != 0
    requires IsMonic(q) && EvalAt(q, e, poly, m) == 0 && Pow2(d) + j <= FromBits(q)
    ensures Pow2(d) + (j + 1) <= FromBits(q)
  {
    var c := Candidate(d, j);
    CandidateCode(d, j);
    if FromBits(q) == FromBits(c) {
      MonicUnique(q, c);
      assert false;
    }
  }

  /** The search from degree 1 finds the monic polynomial of least number with alpha^e as
      a root, among those of degree 1 and up; it finds none only when no monic polynomial of
      degree 1 .. m has alpha^e as a root. */
  lemma SearchLeast(e: nat, poly: bv32, m: nat)
    requires m < 32
    ensures MinPolySearch(e, poly, m, 1, 0).Some? ==>
      forall q :: IsMonic(q) && 2 <= |q| && FromBits(q) < FromBits(MinPolySearch(e, poly, m, 1, 0).value) ==>
        EvalAt(q, e, poly, m) != 0
    ensures MinPolySearch(e, poly, m, 1, 0).None? ==>
      forall q :: IsMonic(q) && 2 <= |q| <= m + 1 ==> EvalAt(q, e, poly, m) != 0
  {
    var r := MinPolySearch(e, poly, m, 1, 0);
    forall q | IsMonic(q) && 2 <= |q| <= m + 1 && EvalAt(q, e, poly, m) == 0
      ensures r.Some? && FromBits(r.value) <= FromBits(q)
    {
      TopBitBounds(q);
      Pow2Monotone(1, |q| - 1);
      SearchReaches(e, poly, m, 1, 0, q);
    }
    if r.Some? {
      forall q | IsMonic(q) && FromBits(q) < FromBits(r.value)
        ensures |q| <= m + 1
      {
        TopBitBounds(q);
        Pow2Monotone(|r.value|, m + 1);
        if |q| > m + 1 {
          Pow2Monotone(m + 1, |q| - 1);
        }
      }
    }
  }

  /** MinPoly(e) is minimal: no monic polynomial of lower degree, nor any of its degree that
      reads as a smaller number, has alpha^e as a root; and it finds none only when no monic
      polynomial of degree 1 .. m has alpha^e as a root. */
  lemma MinPolyLeast(e: nat, poly: bv32, m: nat)
    requires m < 32
    ensures MinPoly(e, poly, m).Some? ==>
      forall q :: IsMonic(q) && 2 <= |q| && FromBits(q) < FromBits(MinPoly(e, poly, m).value) ==>
        EvalAt(q, e, poly, m) != 0
    ensures MinPoly(e, poly, m).Some? ==>
      forall q :: IsMonic(q) && 2 <= |q| < |MinPoly(e, poly, m).value| ==> EvalAt(q, e, poly, m) != 0
    ensures MinPoly(e, poly, m).None? ==>
      forall q :: IsMonic(q) && 2 <= |q| <= m + 1 ==> EvalAt(q, e, poly, m) != 0
  {
    SearchLeast(e, poly, m);
    if MinPoly(e, poly, m).Some? {
      LowerDegreeBelow(MinPoly(e, poly, m).value);
    }
  }

  /** A monic polynomial of lower degree than r reads as a smaller number. */
  lemma LowerDegreeBelow(r: Poly)
    requires IsMonic(r)
    ensures forall q :: |q| < |r| ==> FromBits(q) < FromBits(r)
  {
    forall q | |q| < |r|
      ensures FromBits(q) < FromBits(r)
    {
      TopBitBounds(r);
      Pow2Monotone(|q|, |r| - 1);
    }
  }

  /** Conversely, a monic root polynomial of degree 1 .. m below which no monic polynomial
      is a root is what MinPoly returns. */
  lemma MinPolyIs(e: nat, poly: bv32, m: nat, c: Poly)
    requires m < 32 && IsMonic(c) && 2 <= |c| <= m + 1 && EvalAt(c, e, poly, m) == 0
    requires forall q :: IsMonic(q) && 2 <= |q| && FromBits(q) < FromBits(c) ==> EvalAt(q, e, poly, m) != 0
    ensures MinPoly(e, poly, m) == Some(c)
  {
    var r := MinPoly(e, poly, m);
    MinPolyLeast(e, poly, m);
    assert r.Some?;
    var v := r.value;
    assert IsMonic(v) && 2 <= |v| && EvalAt(v, e, poly, m) == 0;
    assert !(FromBits(c) < FromBits(v));
    assert !(FromBits(v) < FromBits(c));
    MonicUnique(v, c);
  }
}
