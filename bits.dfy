/**
 * The three bit primitives of the codec. They are the only place where the
 * word width enters the arithmetic; `LowMask` shifts twice so that a mask of
 * all W bits never needs a shift by W, which C++ leaves undefined.
 */
module Bits {
  import opened Pow2Arith
  import opened BitSeq
  import opened PackWord

  /** set_bit(i): the word with bit i set and every other bit clear (undefined for i >= W). */
  function SetBit(i: nat): (r: Word)
    requires i < W
    ensures r == Pow2(i)
  {
    Pow2Le(1, W - i);
    ShlFits(1, i);
    Shl(1, i)
  }

  /** low_mask(num): the num low bits set, the rest clear (undefined outside (0, W]). */
  function LowMask(n: nat): (r: Word)
    requires 0 < n <= W
    ensures r == Pow2(n) - 1
  {
    ShlAllOnes(n - 1);
    ShlTopGap(n, Shl(PACK_WORD_MAX, n - 1));
    BitNot(Shl(Shl(PACK_WORD_MAX, n - 1), 1))
  }

  /** extract_low(v, num): the num low bits of v (undefined for num outside (0, W]). */
  function ExtractLow(v: Word, n: nat): (r: Word)
    requires 0 < n <= W
    ensures r == v % Pow2(n) && r < Pow2(n)
  {
    AndLowMask(v, n);
    BitAnd(v, LowMask(n))
  }

  /** All ones shifted up by m < W leaves the W - m high bits set. */
  lemma ShlAllOnes(m: nat)
    requires m < W
    ensures Shl(PACK_WORD_MAX, m) == WORD_LIMIT - Pow2(m)
  {
    Pow2W();
    Pow2Le(m, W - 1);
    Pow2Add(W - 1, 1);
    var p := Pow2(m);
    ShiftUpMul(PACK_WORD_MAX, m);
    assert PACK_WORD_MAX * p == (p - 1) * WORD_LIMIT + (WORD_LIMIT - p);
    DivModUnique(PACK_WORD_MAX * p, WORD_LIMIT, p - 1, WORD_LIMIT - p);
  }

  /** Shifting the high ones of the previous lemma up once more drops one bit off the top. */
  lemma ShlTopGap(n: nat, x: Word)
    requires 0 < n <= W && x == WORD_LIMIT - Pow2(n - 1)
    ensures Shl(x, 1) == WORD_LIMIT - Pow2(n)
  {
    Pow2W();
    Pow2Le(n, W);
    var p := Pow2(n);
    assert Pow2(1) == 2;
    ShiftUpMul(x, 1);
    assert (WORD_LIMIT - Pow2(n - 1)) * 2 == 1 * WORD_LIMIT + (WORD_LIMIT - p);
    DivModUnique((WORD_LIMIT - Pow2(n - 1)) * 2, WORD_LIMIT, 1, WORD_LIMIT - p);
  }

  /** set_bit(i) has exactly one set bit, at position i. */
  lemma SetBitOnlyBit(i: nat)
    requires i < W
    ensures BitsOf(SetBit(i), W) == Zeros(i) + [true] + Zeros(W - i - 1)
  {
    BitsOfPow2(i, W);
  }

  lemma {:induction false} BitsOfPow2(i: nat, n: nat)
    requires i < n
    ensures BitsOf(Pow2(i), n) == Zeros(i) + [true] + Zeros(n - i - 1)
  {
    if i == 0 {
      BitsOfZero(n - 1);
    } else {
      BitsOfPow2(i - 1, n - 1);
      assert Pow2(i) % 2 == 0 && Pow2(i) / 2 == Pow2(i - 1);
      assert Zeros(i) == [false] + Zeros(i - 1);
    }
  }

  /** A mask of all W bits is the all-ones word, so extracting W bits is the identity. */
  lemma ExtractLowAll(v: Word)
    ensures LowMask(W) == PACK_WORD_MAX
    ensures ExtractLow(v, W) == v
  {
    Pow2W();
    SmallMod(v, WORD_LIMIT);
  }

  lemma ExtractLowIdempotent(v: Word, n: nat)
    requires 0 < n <= W
    ensures ExtractLow(ExtractLow(v, n), n) == ExtractLow(v, n)
  {
    var r := ExtractLow(v, n);
    SmallMod(r, Pow2(n));
  }

  /** `acc | (e << i)`, where acc lies below bit i and e has n <= W - i bits, places e right above acc. */
  lemma OrShifted(acc: Word, i: nat, e: Word, n: nat)
    requires i < W && i + n <= W && acc < Pow2(i) && e < Pow2(n)
    ensures acc + e * Pow2(i) < WORD_LIMIT
    ensures BitOr(acc, Shl(e, i)) == acc + e * Pow2(i)
  {
    Pow2Le(n, W - i);
    ShlFits(e, i);
    OrDisjoint(acc, e, i);
  }

  /** `pack | (extract_low(b, n) << i)` appends the n low bits of b to the i bits of pack. */
  lemma PlaceBits(pack: Word, i: nat, b: Word, n: nat)
    requires i < W && 0 < n && i + n <= W && pack < Pow2(i)
    ensures var x := BitOr(pack, Shl(ExtractLow(b, n), i));
      x < Pow2(i + n) && BitsOf(x, i + n) == BitsOf(pack, i) + BitsOf(b, n)
  {
    var e := ExtractLow(b, n);
    OrShifted(pack, i, e, n);
    PlaceField(pack, i, b, n, pack + e * Pow2(i));
  }

  /** `acc | (extract_low(v, k) << j)`: the k low bits of v placed above the j bits of acc. */
  function OrField(acc: Word, j: nat, v: Word, k: nat): (r: Word)
    requires 0 < k && j + k <= W && acc < Pow2(j)
    ensures r < Pow2(j + k) && BitsOf(r, j + k) == BitsOf(acc, j) + BitsOf(v, k)
  {
    PlaceBits(acc, j, v, k);
    BitOr(acc, Shl(ExtractLow(v, k), j))
  }

  /** `(pack & (1 << i)) != 0` tests bit i of the pack word. */
  lemma TestBit(pack: Word, i: nat)
    requires i < W
    ensures (BitAnd(pack, SetBit(i)) != 0) == BitsOf(pack, W)[i]
  {
    Pow2W();
    AndBitsSingle(pack, i, W);
  }
}
