/** The RadioLibBCH encoder of FEC.h: the constants of the pager BCH(31, 21) code, the
    static table capacities, and the encoder object whose fields begin() overwrites and
    encode() reads. */
module Bch {
  import opened Binary
  import opened Gf2Poly
  import opened GaloisField
  import Pager

  /** The C integer types of the encoder's fields and parameters. */
  type U8 = x: int | 0 <= x < 0x100
  type U32 = x: int | 0 <= x < 0x1_0000_0000
  type I32 = x: int | -0x8000_0000 <= x < 0x8000_0000

  /** RADIOLIB_PAGER_BCH_N, _K and _PRIMITIVE_POLY, as the encoder's integer types. */
  const PagerN: U8 := Pager.N
  const PagerK: U8 := Pager.K
  const PagerPrimitivePoly: U32 := Pager.PrimitivePoly as int

  /** RADIOLIB_BCH_MAX_N and _MAX_K, which size the static tables. */
  const MaxN: nat := 63
  const MaxK: nat := 31

  /** Capacities of alphaTo / indexOf (MaxN + 1) and of generator (MaxN - MaxK + 1). */
  const TableCapacity: nat := MaxN + 1
  const GeneratorCapacity: nat := MaxN - MaxK + 1

  /** The pager constants: a code word of 31 = 2^5 - 1 bits, 10 check bits, and a field
      polynomial x^5 + x^2 + 1 of degree 5, the field degree that n = 31 calls for. */
  lemma PagerConstants()
    ensures PagerN == Pow2(Pager.Degree) - 1
    ensures PagerN - PagerK == 10
    ensures BitLength(PagerPrimitivePoly) - 1 == Pager.Degree
    ensures FieldDegree(PagerN) == Pager.Degree
    ensures PagerPrimitivePoly as bv32 == Pager.PrimitivePoly
  {
    assert PagerPrimitivePoly == 0x25;
  }

  /** What begin() accepts fits the static storage: indices 0..n fit alphaTo and indexOf,
      the n - k + 1 generator coefficients fit generator, and the field of degree
      m = BitLength(n) has at most 64 elements, so every element indexes indexOf. */
  lemma Capacities(n: nat, k: nat)
    requires n <= 32 && k <= n
    ensures n + 1 <= TableCapacity
    ensures n - k + 1 <= GeneratorCapacity
    ensures BitLength(n) <= 6 && Pow2(BitLength(n)) <= TableCapacity
    ensures n <= Pow2(BitLength(n)) - 1
  {
    var m := BitLength(n);
    if m > 6 {
      Pow2Monotone(6, m - 1);
      assert false;
    }
    Pow2Monotone(m, 6);
  }

  /** The field degree for code length n: the least m with n <= 2^m - 1. */
  function FieldDegree(n: nat): (m: nat)
    requires n <= 32
    ensures m <= 6 && n < Pow2(m)
    ensures m > 0 ==> Pow2(m - 1) <= n
  {
    Capacities(n, 0);
    BitLength(n)
  }

  /** alphaTo after begin(n, k, poly): alpha^0 .. alpha^n, then zeros. */
  function AlphaToTable(n: nat, poly: U32): (t: seq<int>)
    requires n <= 32
    ensures |t| == TableCapacity
    ensures forall i :: 0 <= i < TableCapacity ==> 0 <= t[i] < 64
    ensures t[0] == 1
  {
    PowerTable(poly as bv32, FieldDegree(n), n) + seq(TableCapacity - (n + 1), _ => 0)
  }

  /** Entry i of alphaTo after begin(n, k, poly). */
  lemma AlphaToTableAt(n: nat, poly: U32, i: nat)
    requires n <= 32 && i < TableCapacity
    ensures AlphaToTable(n, poly)[i] == if i <= n then Alpha(poly as bv32, FieldDegree(n), i) else 0
  {
  }

  /** indexOf after begin(n, k, poly): the log table of alpha^0 .. alpha^(n-1), with the
      sentinel -1 for the element 0, which has no logarithm. */
  function IndexOfTable(n: nat, poly: U32): (t: seq<int>)
    requires n <= 32
    ensures |t| == TableCapacity && t[0] == -1
  {
    LogTable(AlphaToTable(n, poly), n)[0 := -1]
  }

  /** The coefficients of polynomial g as 0/1 table entries, padded with zeros. */
  function Coefficients(g: Poly, size: nat): (t: seq<int>)
    requires |g| <= size
    ensures |t| == size
    ensures forall j :: 0 <= j < |g| ==> (t[j] == 1 <==> g[j]) && (t[j] == 0 <==> !g[j])
    ensures forall j :: |g| <= j < size ==> t[j] == 0
  {
    seq(size, j requires 0 <= j < size => if j < |g| && g[j] then 1 else 0)
  }

  /** generator after begin(n, k, poly), whose field has degree m. */
  function GeneratorTable(n: nat, k: nat, poly: U32, m: nat): (t: seq<int>)
    requires n <= 32 && k <= n && m <= 6
    ensures |t| == GeneratorCapacity
  {
    Coefficients(Generator(n, k, poly as bv32, m), GeneratorCapacity)
  }

  /** The generator polynomial of degree checkBits read back from its coefficient table. */
  function GeneratorPoly(t: seq<int>, checkBits: nat): (g: Poly)
    requires checkBits < |t|
    ensures |g| == checkBits + 1
    ensures forall j :: 0 <= j <= checkBits ==> (g[j] <==> t[j] != 0)
  {
    seq(checkBits + 1, j requires 0 <= j <= checkBits => t[j] != 0)
  }

  /** For the pager code the tables built by begin() are those of GF(2^5): alpha^0 = 1,
      alpha^31 = alpha^0 (the multiplicative group closes at order n = 31), no power in
      between is 1, and indexOf inverts alphaTo on 0 .. n - 1. */
  lemma PagerTables()
    ensures AlphaToTable(PagerN, PagerPrimitivePoly)[0] == 1
    ensures AlphaToTable(PagerN, PagerPrimitivePoly)[PagerN] == 1
    ensures forall i :: 0 < i < PagerN ==> AlphaToTable(PagerN, PagerPrimitivePoly)[i] != 1
    ensures forall i :: 0 <= i < PagerN ==>
      IndexOfTable(PagerN, PagerPrimitivePoly)[AlphaToTable(PagerN, PagerPrimitivePoly)[i]] == i
  {
    PagerAlphaToOrder();
    PagerIndexOf();
  }

  /** alpha has order 31 in the pager field, read off the alphaTo table. */
  lemma PagerAlphaToOrder()
    ensures AlphaToTable(PagerN, PagerPrimitivePoly)[0] == 1
    ensures AlphaToTable(PagerN, PagerPrimitivePoly)[PagerN] == 1
    ensures forall i :: 0 < i < PagerN ==> AlphaToTable(PagerN, PagerPrimitivePoly)[i] != 1
    ensures forall i :: 0 <= i < PagerN ==> AlphaToTable(PagerN, PagerPrimitivePoly)[i] != 0
  {
    PagerAlphaTo();
    Pager.TableOrder();
  }

  /** The pager indexOf table inverts the first 31 entries of the alphaTo table. */
  lemma PagerIndexOf()
    ensures forall i :: 0 <= i < PagerN ==>
      IndexOfTable(PagerN, PagerPrimitivePoly)[AlphaToTable(PagerN, PagerPrimitivePoly)[i]] == i
  {
    PagerAlphaToOrder();
    PagerAlphaToDistinct();
    IndexOfInvertsAlphaTo(PagerN, PagerPrimitivePoly);
  }

  /** Whenever alpha^0 .. alpha^(n-1) are distinct and non-zero, indexOf maps each of them
      back to its exponent. */
  lemma IndexOfInvertsAlphaTo(n: nat, poly: U32)
    requires n <= 32
    requires forall i :: 0 <= i < n ==> AlphaToTable(n, poly)[i] != 0
    requires forall a, b :: 0 <= a < b < n ==> AlphaToTable(n, poly)[a] != AlphaToTable(n, poly)[b]
    ensures forall i :: 0 <= i < n ==> IndexOfTable(n, poly)[AlphaToTable(n, poly)[i]] == i
  {
    var t := AlphaToTable(n, poly);
    var log := LogTable(t, n);
    forall i | 0 <= i < n
      ensures log[t[i]] == i
    {
      LogInvertsPowers(t, n, i);
    }
    assert IndexOfTable(n, poly) == log[0 := -1];
  }

  /** The first 31 entries of the pager alphaTo table are distinct. */
  lemma PagerAlphaToDistinct()
    ensures forall a, b :: 0 <= a < b < PagerN ==>
      AlphaToTable(PagerN, PagerPrimitivePoly)[a] != AlphaToTable(PagerN, PagerPrimitivePoly)[b]
  {
    PagerAlphaTo();
    Pager.TableDistinct();
  }

  /** The pager alphaTo table starts with the 32 pager powers of alpha. */
  lemma PagerAlphaTo()
    ensures forall i :: 0 <= i <= PagerN ==> AlphaToTable(PagerN, PagerPrimitivePoly)[i] == Pager.Table[i]
  {
    PagerConstants();
    Pager.PowerValues();
  }

  /** A monic polynomial of degree less than GeneratorCapacity is read back from its
      coefficient table, whose entry for the top coefficient is 1: the generator built by
      begin() is what encode() divides by whenever its degree is n - k. */
  lemma GeneratorReadBack(g: Poly)
    requires IsMonic(g) && |g| <= GeneratorCapacity
    ensures GeneratorPoly(Coefficients(g, GeneratorCapacity), |g| - 1) == g
    ensures Coefficients(g, GeneratorCapacity)[|g| - 1] == 1
  {
  }

  /** For the pager code begin() fills the generator table with the coefficients of
      x^10 + x^9 + x^8 + x^6 + x^5 + x^3 + 1. */
  lemma PagerGeneratorTable()
    ensures GeneratorTable(PagerN, PagerK, PagerPrimitivePoly, FieldDegree(PagerN))
      == Coefficients(Pager.GeneratorPolynomial, GeneratorCapacity)
  {
    PagerConstants();
    Pager.GeneratorIs();
  }

  /** A code word of at most 32 bits fits the 32-bit result of encode(). */
  lemma CodeWordFits(w: nat, k: nat, g: Poly)
    requires |g| >= 1 && |g| - 1 + k <= 32
    ensures EncodeWord(w, k, g) < 0x1_0000_0000
  {
    Pow2Monotone(|g| - 1 + k, 32);
    Pow2Of32();
  }

  /** The encoder: code parameters n, k, poly and field degree m, and the three tables in
      their static-storage form. */
  class RadioLibBCH {
    var n: U8
    var k: U8
    var poly: U32
    var m: U8
    const alphaTo: array<I32>
    const indexOf: array<I32>
    const generator: array<I32>

    /** The tables have their static capacities, are distinct, and the parameters are
        within what begin() accepts. */
    predicate Valid()
      reads this
    {
      alphaTo.Length == TableCapacity && indexOf.Length == TableCapacity
      && generator.Length == GeneratorCapacity
      && alphaTo != indexOf && alphaTo != generator && indexOf != generator
      && n <= 32 && k <= n && m <= 6
    }

    /** RadioLibBCH(): every field and every table entry is zero. */
    constructor()
      ensures Valid()
      ensures n == 0 && k == 0 && poly == 0 && m == 0
      ensures alphaTo[..] == seq(TableCapacity, _ => 0)
      ensures indexOf[..] == seq(TableCapacity, _ => 0)
      ensures generator[..] == seq(GeneratorCapacity, _ => 0)
      ensures fresh(alphaTo) && fresh(indexOf) && fresh(generator)
    {
      n, k, poly, m := 0, 0, 0, 0;
      alphaTo := new I32[TableCapacity](_ => 0);
      indexOf := new I32[TableCapacity](_ => 0);
      generator := new I32[GeneratorCapacity](_ => 0);
    }

    /** begin(n, k, poly): takes a code word length of at most 32 bits and a data length of
        at most n, and rebuilds the field tables and the generator from scratch. */
    method Begin(n': U8, k': U8, poly': U32)
      requires Valid()
      requires n' <= 32 && k' <= n'
      modifies this, alphaTo, indexOf, generator
      ensures Valid()
      ensures n == n' && k == k' && poly == poly' && m == FieldDegree(n')
      ensures alphaTo[..] == AlphaToTable(n', poly')
      ensures indexOf[..] == IndexOfTable(n', poly')
      ensures generator[..] == GeneratorTable(n', k', poly', FieldDegree(n'))
    {
      FillAlphaTo(n', poly');
      FillIndexOf(n', AlphaToTable(n', poly'));
      FillGenerator(n', k', poly', FieldDegree(n'));
      n, k, poly, m := n', k', poly', FieldDegree(n');
    }

    /** alpha^0 .. alpha^n by repeated multiplication by alpha, zeros above. */
    method FillAlphaTo(n': U8, poly': U32)
      requires Valid() && n' <= 32
      modifies alphaTo
      ensures alphaTo[..] == AlphaToTable(n', poly')
    {
      var deg := FieldDegree(n');
      var p := poly' as bv32;
      ghost var powers := AlphaToTable(n', poly');
      var x := 1;
      var i := 0;
      while i < TableCapacity
        invariant 0 <= i <= TableCapacity
        invariant i <= n' + 1 ==> x == Alpha(p, deg, i)
        invariant alphaTo[..i] == powers[..i]
      {
        AlphaToTableAt(n', poly', i);
        if i <= n' {
          alphaTo[i] := x;
          AlphaStep(p, deg, i);
          x := TimesAlpha(x, p, deg);
        } else {
          alphaTo[i] := 0;
        }
        i := i + 1;
      }
    }

    /** The log of each of alpha^0 .. alpha^(n-1) over a cleared table; -1 for zero. */
    method FillIndexOf(n': U8, ghost powers: seq<int>)
      requires Valid() && n' <= 32
      requires |powers| == TableCapacity && forall i :: 0 <= i < |powers| ==> 0 <= powers[i] < 64
      requires alphaTo[..] == powers
      modifies indexOf
      ensures indexOf[..] == LogTable(powers, n')[0 := -1]
    {
      var i := 0;
      while i < TableCapacity
        invariant 0 <= i <= TableCapacity
        invariant indexOf[..i] == seq(i, _ => 0)
      {
        indexOf[i] := 0;
        i := i + 1;
      }
      assert indexOf[..] == LogTable(powers, 0);
      i := 0;
      while i < n'
        invariant 0 <= i <= n'
        invariant indexOf[..] == LogTable(powers, i)
      {
        var x := alphaTo[i];
        assert x == powers[i];
        indexOf[x] := i;
        i := i + 1;
      }
      indexOf[0] := -1;
    }

    /** The generator's coefficients, zeros above its degree. */
    method FillGenerator(n': U8, k': U8, poly': U32, m': nat)
      requires Valid() && n' <= 32 && k' <= n' && m' <= 6
      modifies generator
      ensures generator[..] == GeneratorTable(n', k', poly', m')
    {
      var g := Generator(n', k', poly' as bv32, m');
      ghost var coeffs := Coefficients(g, GeneratorCapacity);
      var j := 0;
      while j < GeneratorCapacity
        invariant 0 <= j <= GeneratorCapacity
        invariant generator[..j] == coeffs[..j]
      {
        generator[j] := if j < |g| && g[j] then 1 else 0;
        j := j + 1;
      }
      assert generator[..] == coeffs[..GeneratorCapacity];
    }

    /** encode(dataword): the code word of the low k bits of the data word, n bits wide:
        the data bits moved up above n - k check bits. */
    function Encode(dataword: U32): (r: U32)
      requires Valid()
      reads this, generator
      ensures r < Pow2(n)
      ensures r / Pow2(n - k) == dataword % Pow2(k)
      ensures r % Pow2(n - k) == FromBits(CheckBits(ToBits(dataword, k), GeneratorPoly(generator[..], n - k)))
    {
      var g := GeneratorPoly(generator[..], n - k);
      CodeWordFits(dataword, k, g);
      EncodeWord(dataword, k, g)
    }

    /** Encode is the integer code word under the generator stored in the table. */
    lemma EncodeUnfold(dataword: U32)
      requires Valid()
      ensures Encode(dataword) == EncodeWord(dataword, k, GeneratorPoly(generator[..], n - k))
    {
    }

    /** Every code word is a multiple of the stored generator polynomial, and carries the
        data word's low k bits unchanged in its top k bits. */
    lemma EncodeIsCodeWord(dataword: U32)
      requires Valid() && generator[n - k] != 0
      ensures Rem(ToBits(Encode(dataword), n), GeneratorPoly(generator[..], n - k)) == Zeros(n - k)
      ensures ToBits(Encode(dataword), n)[n - k..] == ToBits(dataword, k)
    {
      var g := GeneratorPoly(generator[..], n - k);
      EncodeUnfold(dataword);
      EncodeWordIsCodeWord(dataword, k, g);
    }

    /** Every code word is a multiple of a monic polynomial g of degree n - k whose
        coefficients fill the generator table. After begin(n, k, poly) that holds for
        g = Generator(n, k, poly, m) whenever its degree is n - k: begin() leaves its
        coefficients in the table and it is monic. */
    lemma EncodeIsGeneratorMultiple(dataword: U32, g: Poly)
      requires Valid() && IsMonic(g) && |g| == n - k + 1
      requires generator[..] == Coefficients(g, GeneratorCapacity)
      ensures Rem(ToBits(Encode(dataword), n), g) == Zeros(n - k)
      ensures ToBits(Encode(dataword), n)[n - k..] == ToBits(dataword, k)
    {
      GeneratorReadBack(g);
      EncodeIsCodeWord(dataword);
    }

    /** After begin(PagerN, PagerK, PagerPrimitivePoly) the generator table holds
        x^10 + x^9 + x^8 + x^6 + x^5 + x^3 + 1 (0x769), and every code word is a multiple of
        it, so alpha, alpha^2, alpha^3 and alpha^4 are roots of every code word. */
    lemma PagerEncode(dataword: U32)
      requires Valid() && n == PagerN && k == PagerK && poly == PagerPrimitivePoly
      requires generator[..] == GeneratorTable(PagerN, PagerK, PagerPrimitivePoly, FieldDegree(PagerN))
      ensures generator[n - k] != 0
      ensures GeneratorPoly(generator[..], n - k) == Pager.GeneratorPolynomial
      ensures Rem(ToBits(Encode(dataword), n), Pager.GeneratorPolynomial) == Zeros(n - k)
    {
      PagerGeneratorTable();
      GeneratorReadBack(Pager.GeneratorPolynomial);
      EncodeIsGeneratorMultiple(dataword, Pager.GeneratorPolynomial);
    }

    /** The data word 0 encodes to the code word 0. */
    lemma EncodeZeroIsZero()
      requires Valid()
      ensures Encode(0) == 0
    {
      EncodeWordZero(k, GeneratorPoly(generator[..], n - k));
    }
  }
}
