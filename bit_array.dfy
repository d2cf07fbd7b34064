/** Bit addressing in a byte buffer: the four *_BIT_IN_ARRAY_MSB macros of FEC.h.
    Bit k of a buffer lives in byte k / 8 under the mask 1 << (k % 8), so within a byte
    the bits are numbered from the least-significant end, whatever the macro names say.
    The pure macros (TEST, GET) are functions of the buffer's contents; the updating ones
    (SET, CLEAR) are methods on an array, specified by functions of its old contents. */
module BitArray {

  /** Bit i (0 = least significant) of byte b, read by shifting the byte down: the
      reference meaning of "bit i" against which the macros' masks are checked. */
  function BitOf(b: bv8, i: nat): (r: int)
    requires i < 8
    ensures r == 0 || r == 1
  {
    if (b >> i) & 1 == 1 then 1 else 0
  }

  /** The mask 1 << (k % 8) that all four macros use: exactly bit k % 8 is set. */
  function Mask(k: nat): (r: bv8)
    ensures forall i :: 0 <= i < 8 ==> (BitOf(r, i) == 1 <==> i == k % 8)
  {
    1 << (k % 8)
  }

  /** Every macro indexes byte k / 8, so the buffer must hold at least k / 8 + 1 bytes. */
  predicate InRange(len: nat, k: nat)
  {
    k / 8 < len
  }

  /** TEST_BIT_IN_ARRAY_MSB(A, k): byte k / 8 masked with bit k's mask. */
  function Test(s: seq<bv8>, k: nat): (r: bv8)
    requires InRange(|s|, k)
    ensures r == 0 || r == Mask(k)
    ensures r != 0 <==> BitOf(s[k / 8], k % 8) == 1
  {
    s[k / 8] & Mask(k)
  }

  /** GET_BIT_IN_ARRAY_MSB(A, k): the same test, turned into 0 or 1. */
  function Get(s: seq<bv8>, k: nat): (r: int)
    requires InRange(|s|, k)
    ensures r == 0 || r == 1
    ensures r == 1 <==> Test(s, k) != 0
    ensures r == BitOf(s[k / 8], k % 8)
  {
    if s[k / 8] & Mask(k) != 0 then 1 else 0
  }

  /** The buffer after SET_BIT_IN_ARRAY_MSB(A, k); SetWritesBit says what it holds. */
  function WithSet(s: seq<bv8>, k: nat): (r: seq<bv8>)
    requires InRange(|s|, k)
    ensures |r| == |s|
  {
    s[k / 8 := s[k / 8] | Mask(k)]
  }

  /** The buffer after CLEAR_BIT_IN_ARRAY_MSB(A, k); ClearWritesBit says what it holds. */
  function WithClear(s: seq<bv8>, k: nat): (r: seq<bv8>)
    requires InRange(|s|, k)
    ensures |r| == |s|
  {
    s[k / 8 := s[k / 8] & !Mask(k)]
  }

  /** After SET, bit k reads 1, while every other bit of byte k / 8 and every other byte
      are as before. */
  lemma SetWritesBit(s: seq<bv8>, k: nat)
    requires InRange(|s|, k)
    ensures Get(WithSet(s, k), k) == 1
    ensures forall i :: 0 <= i < |s| && i != k / 8 ==> WithSet(s, k)[i] == s[i]
    ensures forall j :: 0 <= j < 8 && j != k % 8 ==> BitOf(WithSet(s, k)[k / 8], j) == BitOf(s[k / 8], j)
  {
    var b, mask := s[k / 8], Mask(k);
    assert WithSet(s, k)[k / 8] == b | mask;
    OrSetsBit(b, mask, k % 8);
    forall j | 0 <= j < 8 && j != k % 8
      ensures BitOf(b | mask, j) == BitOf(b, j)
    {
      OrKeepsBit(b, mask, j);
    }
  }

  /** After CLEAR, bit k reads 0, while every other bit of byte k / 8 and every other byte
      are as before. */
  lemma ClearWritesBit(s: seq<bv8>, k: nat)
    requires InRange(|s|, k)
    ensures Get(WithClear(s, k), k) == 0
    ensures forall i :: 0 <= i < |s| && i != k / 8 ==> WithClear(s, k)[i] == s[i]
    ensures forall j :: 0 <= j < 8 && j != k % 8 ==> BitOf(WithClear(s, k)[k / 8], j) == BitOf(s[k / 8], j)
  {
    var b, mask := s[k / 8], Mask(k);
    assert WithClear(s, k)[k / 8] == b & !mask;
    AndNotClearsBit(b, mask, k % 8);
    forall j | 0 <= j < 8 && j != k % 8
      ensures BitOf(b & !mask, j) == BitOf(b, j)
    {
      AndNotKeepsBit(b, mask, j);
    }
  }

  /** Bit j of b | m is bit j of b where m has a 0. */
  lemma OrKeepsBit(b: bv8, m: bv8, j: nat)
    requires j < 8 && BitOf(m, j) == 0
    ensures BitOf(b | m, j) == BitOf(b, j)
  {
  }

  /** Bit j of b | m is 1 where m has a 1. */
  lemma OrSetsBit(b: bv8, m: bv8, j: nat)
    requires j < 8 && BitOf(m, j) == 1
    ensures BitOf(b | m, j) == 1
  {
  }

  /** Bit j of b & ~m is bit j of b where m has a 0. */
  lemma AndNotKeepsBit(b: bv8, m: bv8, j: nat)
    requires j < 8 && BitOf(m, j) == 0
    ensures BitOf(b & !m, j) == BitOf(b, j)
  {
  }

  /** Bit j of b & ~m is 0 where m has a 1. */
  lemma AndNotClearsBit(b: bv8, m: bv8, j: nat)
    requires j < 8 && BitOf(m, j) == 1
    ensures BitOf(b & !m, j) == 0
  {
  }

  /** The eight bits of a byte, least significant first. */
  function ByteBits(b: bv8): (r: seq<int>)
    ensures |r| == 8
    ensures forall i :: 0 <= i < 8 ==> r[i] == BitOf(b, i)
  {
    [BitOf(b, 0), BitOf(b, 1), BitOf(b, 2), BitOf(b, 3),
     BitOf(b, 4), BitOf(b, 5), BitOf(b, 6), BitOf(b, 7)]
  }

  /** The whole buffer as the sequence of its bits in the order the macros number them:
      byte 0's bits 0..7, then byte 1's, and so on. */
  function Bits(s: seq<bv8>): (r: seq<int>)
    ensures |r| == 8 * |s|
  {
    if s == [] then [] else ByteBits(s[0]) + Bits(s[1..])
  }

  /** GET reads position k of the bit view. */
  lemma {:induction false} BitsAt(s: seq<bv8>, k: nat)
    requires InRange(|s|, k)
    ensures Bits(s)[k] == Get(s, k)
  {
    if k >= 8 {
      BitsAt(s[1..], k - 8);
    }
  }

  /** SET writes 1 at position k of the bit view and nothing else. */
  lemma SetIsBitUpdate(s: seq<bv8>, k: nat)
    requires InRange(|s|, k)
    ensures Bits(WithSet(s, k)) == Bits(s)[k := 1]
  {
    var r := WithSet(s, k);
    SetWritesBit(s, k);
    forall j | 0 <= j < 8 * |s|
      ensures Bits(r)[j] == Bits(s)[k := 1][j]
    {
      BitsAt(s, j);
      BitsAt(r, j);
    }
  }

  /** CLEAR writes 0 at position k of the bit view and nothing else. */
  lemma ClearIsBitUpdate(s: seq<bv8>, k: nat)
    requires InRange(|s|, k)
    ensures Bits(WithClear(s, k)) == Bits(s)[k := 0]
  {
    var r := WithClear(s, k);
    ClearWritesBit(s, k);
    forall j | 0 <= j < 8 * |s|
      ensures Bits(r)[j] == Bits(s)[k := 0][j]
    {
      BitsAt(s, j);
      BitsAt(r, j);
    }
  }

  /** GET after SET or CLEAR at k: position k reads the written bit, every other
      position reads what it read before. */
  lemma GetAfterUpdate(s: seq<bv8>, k: nat, j: nat)
    requires InRange(|s|, k) && InRange(|s|, j)
    ensures Get(WithSet(s, k), j) == if j == k then 1 else Get(s, j)
    ensures Get(WithClear(s, k), j) == if j == k then 0 else Get(s, j)
  {
    SetIsBitUpdate(s, k);
    ClearIsBitUpdate(s, k);
    BitsAt(s, j);
    BitsAt(WithSet(s, k), j);
    BitsAt(WithClear(s, k), j);
  }

  /** SET is idempotent. */
  lemma SetIdempotent(s: seq<bv8>, k: nat)
    requires InRange(|s|, k)
    ensures WithSet(WithSet(s, k), k) == WithSet(s, k)
  {
    OrTwice(s[k / 8], Mask(k));
  }

  /** CLEAR is idempotent. */
  lemma ClearIdempotent(s: seq<bv8>, k: nat)
    requires InRange(|s|, k)
    ensures WithClear(WithClear(s, k), k) == WithClear(s, k)
  {
    AndNotTwice(s[k / 8], Mask(k));
  }

  /** SET after CLEAR of the same bit is SET alone. */
  lemma SetAfterClear(s: seq<bv8>, k: nat)
    requires InRange(|s|, k)
    ensures WithSet(WithClear(s, k), k) == WithSet(s, k)
  {
    OrAfterAndNot(s[k / 8], Mask(k));
  }

  /** CLEAR after SET of the same bit is CLEAR alone. */
  lemma ClearAfterSet(s: seq<bv8>, k: nat)
    requires InRange(|s|, k)
    ensures WithClear(WithSet(s, k), k) == WithClear(s, k)
  {
    AndNotAfterOr(s[k / 8], Mask(k));
  }

  /** Byte-level facts behind the four lemmas above. */
  lemma OrTwice(b: bv8, m: bv8)
    ensures (b | m) | m == b | m
  {
  }

  lemma AndNotTwice(b: bv8, m: bv8)
    ensures (b & !m) & !m == b & !m
  {
  }

  lemma OrAfterAndNot(b: bv8, m: bv8)
    ensures (b & !m) | m == b | m
  {
  }

  lemma AndNotAfterOr(b: bv8, m: bv8)
    ensures (b | m) & !m == b & !m
  {
  }

  /** SET_BIT_IN_ARRAY_MSB(A, k) on an array in place: A[k / 8] |= 1 << (k % 8). */
  method SetBitInArray(a: array<bv8>, k: nat)
    requires InRange(a.Length, k)
    modifies a
    ensures a[..] == WithSet(old(a[..]), k)
    ensures Bits(a[..]) == Bits(old(a[..]))[k := 1]
  {
    a[k / 8] := a[k / 8] | Mask(k);
    SetIsBitUpdate(old(a[..]), k);
  }

  /** CLEAR_BIT_IN_ARRAY_MSB(A, k) on an array in place: A[k / 8] &= ~(1 << (k % 8)). */
  method ClearBitInArray(a: array<bv8>, k: nat)
    requires InRange(a.Length, k)
    modifies a
    ensures a[..] == WithClear(old(a[..]), k)
    ensures Bits(a[..]) == Bits(old(a[..]))[k := 0]
  {
    a[k / 8] := a[k / 8] & !Mask(k);
    ClearIsBitUpdate(old(a[..]), k);
  }
}
