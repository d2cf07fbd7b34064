/** The finite field GF(2^m) behind the BCH code, on the design level: the power table
    alpha^0, alpha^1, ... generated by repeated multiplication by the primitive element,
    its inverse (the discrete-log table), the evaluation of a binary polynomial at a power
    of alpha, and the generator polynomial of the code as the product of the minimal
    polynomials of alpha^1, alpha^2, ... A field element is a bit mask: bit i is the
    coefficient of alpha^i. */
module GaloisField {
  import opened Binary
  import opened Gf2Poly

  datatype Option<T> = None | Some(value: T)

  /** The m low bits: every element of GF(2^m) fits under this mask. */
  function FieldMask(m: nat): (r: bv32)
    requires m < 32
    ensures m <= 6 ==> r as int < 64
  {
    (1 << m) - 1
  }

  /** Multiplication by alpha: shift up one place; when the coefficient of alpha^m
      appears, subtract (exclusive-or) the field polynomial; keep the m low bits. */
  function Times(x: bv32, poly: bv32, m: nat): (r: bv32)
    requires m < 32
    ensures r <= FieldMask(m)
  {
    var y := x << 1;
    (if y & (1 << m) != 0 then y ^ poly else y) & FieldMask(m)
  }

  /** alpha^i in GF(2^m) for the field polynomial poly. */
  function Power(poly: bv32, m: nat, i: nat): (r: bv32)
    requires m < 32
    ensures i == 0 ==> r == 1
    ensures i > 0 ==> r <= FieldMask(m)
  {
    if i == 0 then 1 else Times(Power(poly, m, i - 1), poly, m)
  }

  /** Every power fits an index of a 64-entry table when the field has at most 2^6
      elements. */
  lemma PowerBelow64(poly: bv32, m: nat, i: nat)
    requires m <= 6
    ensures 0 <= Power(poly, m, i) as int < 64
  {
  }

  /** alpha^i as a table entry, for a field of at most 2^6 elements. */
  function Alpha(poly: bv32, m: nat, i: nat): (r: int)
    requires m <= 6
    ensures 0 <= r < 64
  {
    PowerBelow64(poly, m, i);
    Power(poly, m, i) as int
  }

  /** Multiplication by alpha on a table entry. */
  function TimesAlpha(x: int, poly: bv32, m: nat): (r: int)
    requires m <= 6 && 0 <= x < 64
    ensures 0 <= r < 64
  {
    Times(x as bv32, poly, m) as int
  }

  /** Each entry of the power table is alpha times the one before. */
  lemma AlphaStep(poly: bv32, m: nat, i: nat)
    requires m <= 6
    ensures Alpha(poly, m, i + 1) == TimesAlpha(Alpha(poly, m, i), poly, m)
  {
    assert Power(poly, m, i + 1) == Times(Power(poly, m, i), poly, m);
  }

  /** The power table alpha^0 .. alpha^n, as signed table entries. */
  function PowerTable(poly: bv32, m: nat, n: nat): (t: seq<int>)
    requires m <= 6
    ensures |t| == n + 1
    ensures forall i :: 0 <= i <= n ==> t[i] == Alpha(poly, m, i)
  {
    seq(n + 1, i requires 0 <= i <= n => Alpha(poly, m, i))
  }

  /** The discrete-log table built from the first count entries of a power table: each
      entry t[i] in turn records i at position t[i], over a table of 64 zeros; a later
      power with the same value overwrites an earlier one. */
  function LogTable(t: seq<int>, count: nat): (r: seq<int>)
    requires count <= |t|
    requires forall i :: 0 <= i < |t| ==> 0 <= t[i] < 64
    ensures |r| == 64
  {
    if count == 0 then seq(64, _ => 0)
    else LogTable(t, count - 1)[t[count - 1] := count - 1]
  }

  /** The log table inverts the power table wherever the powers are distinct. */
  lemma {:induction false} LogInvertsPowers(t: seq<int>, count: nat, i: nat)
    requires count <= |t|
    requires forall j :: 0 <= j < |t| ==> 0 <= t[j] < 64
    requires forall a, b :: 0 <= a < b < count ==> t[a] != t[b]
    requires i < count
    ensures LogTable(t, count)[t[i]] == i
  {
    if i < count - 1 {
      LogInvertsPowers(t, count - 1, i);
      assert t[i] != t[count - 1];
    }
  }

  /** The value of polynomial p at alpha^e: the sum of alpha^(e i) over the
      coefficients p[i] that are set. */
  function EvalAt(p: Poly, e: nat, poly: bv32, m: nat): (r: bv32)
    requires m < 32
    ensures p == [] ==> r == 0
  {
    EvalFrom(p, e, poly, m, 0)
  }

  /** The sum of alpha^(e (i + k)) over the coefficients p[k] that are set: the value of
      p's terms when they stand from x^i upward. */
  function EvalFrom(p: Poly, e: nat, poly: bv32, m: nat, i: nat): (r: bv32)
    requires m < 32
    ensures p == [] ==> r == 0
  {
    if p == [] then 0
    else Sum(Term(p[0], Power(poly, m, e * i)), EvalFrom(p[1..], e, poly, m, i + 1))
  }

  /** Addition in GF(2^m): the exclusive or of the coefficient masks. */
  function Sum(a: bv32, b: bv32): bv32
  {
    a ^ b
  }

  /** 0 is the identity of addition. */
  lemma SumZero(b: bv32)
    ensures Sum(0, b) == b
  {
  }

  /** The contribution of one coefficient to a value: the power when the coefficient is set. */
  function Term(b: bool, v: bv32): (r: bv32)
    ensures r == (if b then v else 0)
  {
    if b then v else 0
  }

  /** A monic polynomial: its top coefficient is 1. */
  predicate IsMonic(q: Poly)
  {
    |q| >= 1 && q[|q| - 1]
  }

  /** The monic polynomial of degree d whose lower d coefficients are the bits of j: the
      candidate the minimal-polynomial search tries at (d, j). */
  function Candidate(d: nat, j: nat): (c: Poly)
    ensures |c| == d + 1 && IsMonic(c)
  {
    ToBits(j, d) + [true]
  }

  /** The first monic polynomial with alpha^e as a root, trying degree d and then higher
      degrees up to m, and within degree d the low coefficients given by the bits of j and
      upward: searched in order of degree, so the one found is of least degree. */
  function MinPolySearch(e: nat, poly: bv32, m: nat, d: nat, j: nat): (r: Option<Poly>)
    requires 1 <= d && m < 32
    ensures r.Some? ==> d + 1 <= |r.value| <= m + 1 && IsMonic(r.value) && EvalAt(r.value, e, poly, m) == 0
    decreases m + 1 - d, Pow2(d) - j
  {
    if d > m then None
    else if j >= Pow2(d) then MinPolySearch(e, poly, m, d + 1, 0)
    else
      var c := Candidate(d, j);
      if EvalAt(c, e, poly, m) == 0 then Some(c) else MinPolySearch(e, poly, m, d, j + 1)
  }

  /** The minimal polynomial of alpha^e over GF(2), when one of degree at most m exists. */
  function MinPoly(e: nat, poly: bv32, m: nat): (r: Option<Poly>)
    requires m < 32
    ensures r.Some? ==> 2 <= |r.value| <= m + 1 && r.value[|r.value| - 1]
    ensures r.Some? ==> EvalAt(r.value, e, poly, m) == 0
  {
    MinPolySearch(e, poly, m, 1, 0)
  }

  /** A product of monic polynomials is monic. */
  lemma MulMonic(q: Poly, g: Poly)
    requires |q| >= 1 && |g| >= 1 && q[|q| - 1] && g[|g| - 1]
    ensures Mul(q, g)[|q| + |g| - 2]
  {
  }

  /** Growing the generator from alpha^e on: a root alpha^e that g already has is
      skipped, otherwise g is multiplied by the minimal polynomial of alpha^e. Stops when
      the degree reaches the number of check bits, after alpha^n, or when the next factor
      would not fit in 33 coefficients. */
  function Grow(g: Poly, e: nat, n: nat, checkBits: nat, poly: bv32, m: nat): (r: Poly)
    requires m < 32
    requires 1 <= |g| <= 33 && g[|g| - 1]
    ensures |g| <= |r| <= 33 && r[|r| - 1]
    decreases n + 1 - e
  {
    if e > n || |g| - 1 >= checkBits then g
    else
      var f := MinPoly(e, poly, m);
      var next := Factor(g, f, EvalAt(g, e, poly, m) == 0);
      if |next| > 33 then g else Grow(next, e + 1, n, checkBits, poly, m)
  }

  /** One factor of the growing generator: none when alpha^e is already a root of g or
      has no minimal polynomial of degree at most m, its minimal polynomial otherwise. */
  function Factor(g: Poly, f: Option<Poly>, isRoot: bool): (r: Poly)
    requires 1 <= |g| && g[|g| - 1]
    requires f.Some? ==> 1 <= |f.value| && f.value[|f.value| - 1]
    ensures |g| <= |r| && r[|r| - 1]
  {
    if isRoot || f.None? then g
    else
      var h := f.value;
      var r := Mul(g, h);
      MulMonic(g, h);
      assert |r| == |g| + |h| - 1;
      r
  }

  /** The generator polynomial of the BCH(n, k) code over GF(2^m): the least common
      multiple of the minimal polynomials of alpha^1, alpha^2, ..., grown from g(x) = 1. */
  function Generator(n: nat, k: nat, poly: bv32, m: nat): (g: Poly)
    requires m < 32 && k <= n
    ensures 1 <= |g| <= 33 && g[|g| - 1]
  {
    Grow(One(m), 1, n, n - k, poly, m)
  }

  /** The polynomial 1 of the field GF(2^m)[x], where the generator starts. */
  function One(m: nat): (r: Poly)
    ensures |r| == 1 && r[0]
  {
    [true]
  }

  /** Coefficients of zero above the top change no value. */
  lemma EvalAtPadded(q: Poly, k: nat, e: nat, poly: bv32, m: nat)
    requires m < 32
    ensures EvalAt(q + Zeros(k), e, poly, m) == EvalAt(q, e, poly, m)
  {
    EvalFromPadded(q, k, e, poly, m, 0);
  }

  lemma {:induction false} EvalFromPadded(q: Poly, k: nat, e: nat, poly: bv32, m: nat, i: nat)
    requires m < 32
    ensures EvalFrom(q + Zeros(k), e, poly, m, i) == EvalFrom(q, e, poly, m, i)
    decreases |q| + k
  {
    if q != [] {
      assert (q + Zeros(k))[1..] == q[1..] + Zeros(k);
      EvalFromPadded(q[1..], k, e, poly, m, i + 1);
    } else if k > 0 {
      assert (q + Zeros(k))[1..] == [] + Zeros(k - 1);
      EvalFromPadded([], k - 1, e, poly, m, i + 1);
    } else {
      assert q + Zeros(0) == q;
    }
  }

  /** Nor do they change the number the coefficients read as. */
  lemma FromBitsPadded(q: Poly, k: nat)
    ensures FromBits(q + Zeros(k)) == FromBits(q)
  {
    FromBitsAppend(q, Zeros(k));
    FromBitsNone(Zeros(k));
  }

  /** Once alpha^a is 1, the powers repeat with period a. */
  lemma {:induction false} PowerPeriod(poly: bv32, m: nat, a: nat, b: nat)
    requires m < 32 && Power(poly, m, a) == 1
    ensures Power(poly, m, a + b) == Power(poly, m, b)
  {
    if b > 0 {
      PowerPeriod(poly, m, a, b - 1);
    }
  }
}
