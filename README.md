# RadioLib BCH encoder and bit-array macros, in Dafny

This project models `src/utils/FEC.h` of RadioLib. That header holds two things.

1. Four byte-array bit-access macros: `SET_`, `CLEAR_`, `TEST_` and `GET_BIT_IN_ARRAY_MSB`.
2. `RadioLibBCH`, the encoder for BCH(n, k) forward error correction. It comes with:
   - the constants of the pager code: BCH(31, 21) over the field polynomial 0x25 = x^5 + x^2 + 1;
   - the static-storage limits RADIOLIB_BCH_MAX_N = 63 and RADIOLIB_BCH_MAX_K = 31.

The project has seven modules.

- `BitArray` (`bit_array.dfy`) models the four macros.
  - Bit k of a buffer is bit k % 8 of byte k / 8, under the mask `1 << (k % 8)`. So within a byte, bits are counted from the least-significant end.
  - TEST and GET are functions of the buffer's contents.
  - SET and CLEAR are methods that update an `array<bv8>` in place. Each is specified by a function of the old contents.
  - Lemmas tie all four to a bit-sequence view of the buffer. In that view, SET writes 1 at position k and nothing else, and CLEAR writes 0.
- `Bch` (`bch.dfy`) models the encoder.
  - It holds the header constants and the capacities of the three tables: 64, 64 and 33 entries.
  - The class `RadioLibBCH` has the fields `n`, `k`, `poly` and `m`, and the arrays `alphaTo`, `indexOf` and `generator`.
  - `begin` overwrites all of them. `encode` reads them.
- `Binary`, `Gf2Poly`, `GaloisField` and `MinimalPolynomial` are a separate design-level model of the encoder's job:
  - integers as bit strings;
  - polynomials over GF(2) with long division and systematic encoding;
  - the power and log tables of GF(2^m);
  - minimal polynomials, found by a search in order of degree and then of value, with proofs that the search finds the least one;
  - the generator as a product of minimal polynomials.
- `Pager` (`pager.dfy`) works the design model out for the pager code.
  - It gives the 32 powers of alpha under 0x25, and proves that the polynomial is primitive.
  - It gives the minimal polynomials of alpha (x^5 + x^2 + 1) and alpha^3 (x^5 + x^4 + x^3 + x^2 + 1).
  - It shows that the generator is their product x^10 + x^9 + x^8 + x^6 + x^5 + x^3 + 1 (0x769), of degree n - k = 10, with alpha .. alpha^4 as roots.

The implementation file of the encoder (`src/utils/FEC.cpp`) is not part of this model. The bodies that `Begin` and `Encode` have here follow that design model. Their contracts state what this model computes together with the bounds the header declares. They are not a claim about the concrete tables or code words of the original implementation.

The macro names end in `_MSB`. Their expressions, however, use the mask `1 << ((k)%8)` on byte `(k)/8` (FEC.h:75-78), which addresses bit k % 8 counted from the least-significant end. The model follows the expressions.

## Model

| member | source | states |
|---|---|---|
| BitArray.Test | src/utils/FEC.h:77 | the result is 0 or the mask of bit k % 8; it is non-zero exactly when bit k % 8 of byte k / 8 is 1 |
| BitArray.Get | src/utils/FEC.h:78 | the result is 0 or 1; it is 1 exactly when TEST is non-zero, and it equals bit k % 8 of byte k / 8 |
| BitArray.SetWritesBit | src/utils/FEC.h:75 | after SET, GET at k is 1; every other byte and every other bit of byte k / 8 is unchanged |
| BitArray.ClearWritesBit | src/utils/FEC.h:76 | after CLEAR, GET at k is 0; every other byte and every other bit of byte k / 8 is unchanged |
| BitArray.SetBitInArray | src/utils/FEC.h:75 | SET in place on an array needs k / 8 < length; the new contents are the old ones with only bit k set to 1 |
| BitArray.ClearBitInArray | src/utils/FEC.h:76 | CLEAR in place on an array needs k / 8 < length; the new contents are the old ones with only bit k set to 0 |
| BitArray.BitsAt | src/utils/FEC.h:78 | GET at k reads position k of the buffer's bit sequence (byte 0's bits 0..7, then byte 1's, ...) |
| BitArray.SetIsBitUpdate | src/utils/FEC.h:75 | SET changes the bit sequence at position k to 1 and nowhere else |
| BitArray.ClearIsBitUpdate | src/utils/FEC.h:76 | CLEAR changes the bit sequence at position k to 0 and nowhere else |
| BitArray.GetAfterUpdate | src/utils/FEC.h:75-78 | after SET or CLEAR at k, GET at k reads the written bit and GET at any j != k reads what it read before |
| BitArray.SetIdempotent | src/utils/FEC.h:75 | SET twice at k is SET once |
| BitArray.ClearIdempotent | src/utils/FEC.h:76 | CLEAR twice at k is CLEAR once |
| BitArray.SetAfterClear | src/utils/FEC.h:75-76 | SET after CLEAR at k is SET alone |
| BitArray.ClearAfterSet | src/utils/FEC.h:75-76 | CLEAR after SET at k is CLEAR alone |
| Bch.PagerConstants | src/utils/FEC.h:11-13 | N = 31 = 2^5 - 1, N - K = 10 check bits, and 0x25 has degree 5, which is the field degree N calls for |
| Bch.Capacities | src/utils/FEC.h:61-63 | for n <= 32 and k <= n: indices 0..n fit the 64-entry tables, the n - k + 1 generator coefficients fit the 33-entry table, and every element of GF(2^m) indexes indexOf |
| Bch.FieldDegree | src/utils/FEC.h:58 | m is the least degree with n <= 2^m - 1, and m <= 6 |
| Bch.RadioLibBCH.constructor | src/utils/FEC.h:55-63 | a new encoder has n = k = poly = m = 0 and three fresh all-zero tables of capacities 64, 64 and 33 |
| Bch.RadioLibBCH.Begin | src/utils/FEC.h:38-44 | begin accepts n <= 32 and k <= n; it stores n, k and poly, sets m to the field degree of n, and rebuilds all three tables within their capacities |
| Bch.RadioLibBCH.FillAlphaTo | src/utils/FEC.h:61 | alphaTo holds alpha^0 .. alpha^n, each alpha times the one before, then zeros |
| Bch.RadioLibBCH.FillIndexOf | src/utils/FEC.h:62 | indexOf holds the log of each of alpha^0 .. alpha^(n-1), and -1 for the element 0 |
| Bch.RadioLibBCH.FillGenerator | src/utils/FEC.h:63 | generator holds the 0/1 coefficients of the generator polynomial, then zeros |
| Bch.IndexOfInvertsAlphaTo | src/utils/FEC.h:61-62 | when alpha^0 .. alpha^(n-1) are distinct and non-zero, indexOf maps each of them back to its exponent |
| Bch.PagerTables | src/utils/FEC.h:11-13 | for the pager code: alphaTo[0] = alphaTo[31] = 1, no entry in between is 1, and indexOf inverts alphaTo on 0..30 |
| Bch.GeneratorReadBack | src/utils/FEC.h:63 | a monic polynomial with at most 33 coefficients is read back exactly from its coefficient table, whose entry for the top coefficient is 1 |
| Bch.PagerGeneratorTable | src/utils/FEC.h:63 | for the pager code, the generator table holds the coefficients of x^10 + x^9 + x^8 + x^6 + x^5 + x^3 + 1 |
| Bch.CodeWordFits | src/utils/FEC.h:52 | a code word of at most 32 bits fits the uint32_t result of encode |
| Bch.RadioLibBCH.Encode | src/utils/FEC.h:46-52 | the code word is below 2^n; its top k bits are the data word's low k bits; its low n - k bits are the check bits, the remainder under the stored generator |
| Bch.RadioLibBCH.EncodeIsCodeWord | src/utils/FEC.h:46-52 | when the table entry for x^(n - k) is non-zero, every code word is a multiple of the polynomial read from the table's first n - k + 1 entries, and carries the data bits unchanged in its top k bits |
| Bch.RadioLibBCH.EncodeIsGeneratorMultiple | src/utils/FEC.h:46-52 | when the table holds the coefficients of a monic g of degree exactly n - k (as begin leaves them for a generator of that degree), every code word is a multiple of g and carries the data bits in its top k bits |
| Bch.RadioLibBCH.PagerEncode | src/utils/FEC.h:11-13 | after begin(31, 21, 0x25), the table entry for x^10 is non-zero, the table reads back as 0x769, and every code word is a multiple of 0x769 |
| Bch.RadioLibBCH.EncodeZeroIsZero | src/utils/FEC.h:46-52 | the data word 0 encodes to the code word 0 |
| Pager.PowerValues | src/utils/FEC.h:13 | the powers alpha^0 .. alpha^31 under 0x25 are the 32 values of the power table of GF(2^5) |
| Pager.PolyIsPrimitive | src/utils/FEC.h:13 | 0x25 is primitive in GF(2^5): alpha^31 = 1; alpha^0 .. alpha^30 are distinct, non-zero, and none after alpha^0 is 1 |
| Pager.MinPolyOfAlpha | src/utils/FEC.h:11-13 | the minimal polynomial of alpha under 0x25 is x^5 + x^2 + 1 |
| Pager.MinPolyOfAlpha3 | src/utils/FEC.h:11-13 | the minimal polynomial of alpha^3 under 0x25 is x^5 + x^4 + x^3 + x^2 + 1 |
| Pager.GeneratorIsProduct | src/utils/FEC.h:11-13 | (x^5 + x^2 + 1)(x^5 + x^4 + x^3 + x^2 + 1) = x^10 + x^9 + x^8 + x^6 + x^5 + x^3 + 1 |
| Pager.GeneratorIs | src/utils/FEC.h:11-13 | the generator of BCH(31, 21) over 0x25 is x^10 + x^9 + x^8 + x^6 + x^5 + x^3 + 1, with exactly n - k + 1 = 11 coefficients |
| Pager.GeneratorRoots | src/utils/FEC.h:11-13 | alpha, alpha^2, alpha^3 and alpha^4 are roots of the pager generator x^10 + x^9 + x^8 + x^6 + x^5 + x^3 + 1 |
| GaloisField.LogInvertsPowers | src/utils/FEC.h:62 | a log table built from pairwise distinct powers maps each power back to its exponent |
| GaloisField.MinPoly | src/utils/FEC.h:42 | a polynomial found for alpha^e is monic, of degree 1..m, and has alpha^e as a root |
| MinimalPolynomial.MinPolyLeast | src/utils/FEC.h:42 | no monic polynomial below MinPoly(e), in degree or in value within its degree, has alpha^e as a root; and the search finds none only when no monic polynomial of degree 1..m has alpha^e as a root |
| MinimalPolynomial.MinPolyIs | src/utils/FEC.h:42 | conversely, a monic root of alpha^e of degree 1..m with no smaller monic root is what MinPoly returns |
| GaloisField.Generator | src/utils/FEC.h:63 | the generator is monic and has at most 33 coefficients, the capacity of the generator table |
| Gf2Poly.CodeWordIsMultiple | src/utils/FEC.h:46-52 | a systematically encoded word leaves remainder 0 under the generator, and equals quotient times generator |
| Gf2Poly.CodeWordUnique | src/utils/FEC.h:46-52 | a word of check bits followed by data bits is divisible by g exactly when those check bits are the ones encode computes |
| Gf2Poly.DivisionIdentity | src/utils/FEC.h:46-52 | long division is exact: a = quotient * g + remainder |
| Gf2Poly.EncodeWord | src/utils/FEC.h:46-52 | the integer code word is below 2^(r + k); it holds the data word's low k bits above r check bits, where r = deg g |
| Gf2Poly.EncodeWordIsCodeWord | src/utils/FEC.h:46-52 | read back as bits, the integer code word is a multiple of g whose top k bits are the data bits |
| Gf2Poly.EncodeZero | src/utils/FEC.h:46-52 | the all-zero data word encodes to the all-zero code word |

## Left out

- The includes of `TypeDef.h`, `Module.h` and `ArduinoHal.h` (FEC.h:4-8) are not modelled. They are hardware-abstraction plumbing.
- The global instance `RadioLibBCHInstance` (FEC.h:72) is left out. The model uses an explicitly owned object.
- The dynamic-storage build (FEC.h:65-67) is left out, with the allocation it implies and the destructor (FEC.h:36). Only the fixed-capacity tables are modelled.
- `src/utils/FEC.cpp` is not part of this model. `Begin` and `Encode` follow the design model, and nothing is claimed about the original bodies' concrete tables or code words.
- The radio and paging code that calls the encoder is not modelled.
- Bch.RadioLibBCH.Encode: only the data word's low k bits enter the code word; higher bits are dropped. The header leaves bit positioning to the caller, and the original body may place or reject those bits differently.
- GaloisField.MinPoly: the search only looks at degrees up to m. Over a polynomial that is irreducible of degree m every element has a minimal polynomial within that bound. The search can come back empty only when `poly` is not irreducible of degree m, for example when its degree differs from the m derived from n; that exponent then adds no factor.
- GaloisField.Generator: its contract states only its shape. For general parameters the model states how the generator is built (a product of the minimal polynomials of alpha, alpha^2, ...), but not that those powers are its roots; for the pager code the roots alpha .. alpha^4 are proved (`Pager.GeneratorRoots`).
- GaloisField.Generator: growth stops once the degree reaches n - k, after alpha^n, or when the next factor would exceed the 33-entry table. So the degree can fall short of n - k, and it can also overshoot: for BCH(31, 22) over 0x25 the product of the first two minimal polynomials already has degree 10 > 9. Encode divides by the first n - k + 1 table entries only, so in that case no divisibility by the generator is promised. `Bch.RadioLibBCH.EncodeIsGeneratorMultiple` requires a generator of degree exactly n - k.
- Begin's field arithmetic keeps elements to the m low bits, where m is derived from n. The design-level model assumes that the field polynomial has degree m. The pager constants satisfy this (`Bch.PagerConstants`). `Begin` does not check it for other polynomials.
