/**
 * The pack word: the 64-bit unsigned integer (`uintmax_t`) that all packing
 * works on, and the C++ operators the codec applies to it, with their
 * wrap-around written out. A sequence of pack words is read as one bit stream,
 * word after word, each word lowest bit first.
 */
module PackWord {
  import opened Pow2Arith
  import opened BitSeq

  /** PACK_WORD_BITS: bits in a pack word. */
  const W: nat := 64
  /** 2^W, the number of distinct pack words. */
  const WORD_LIMIT: nat := 0x1_0000_0000_0000_0000
  /** PACK_WORD_MAX: the pack word with every bit set. */
  const PACK_WORD_MAX: nat := 0xFFFF_FFFF_FFFF_FFFF

  type Word = x: nat | x < WORD_LIMIT

  lemma Pow2W()
    ensures Pow2(W) == WORD_LIMIT == PACK_WORD_MAX + 1
  {
    Pow2Of64();
  }

  // ----- C++ operators on uintmax_t -----

  /** `x << k`; C++ defines it for k < W only, and drops the bits pushed out at the top. */
  function Shl(x: Word, k: nat): Word
    requires k < W
  {
    ShiftUp(x, k) % WORD_LIMIT
  }

  /** `x >> k` for k < W. */
  function Shr(x: Word, k: nat): Word
    requires k < W
  {
    ShiftDown(x, k)
  }

  /** `~x`. */
  function BitNot(x: Word): Word
  {
    PACK_WORD_MAX - x
  }

  /** `a - b`, wrapping around modulo 2^W. */
  function WrapSub(a: Word, b: Word): Word
  {
    (a - b) % WORD_LIMIT
  }

  /** Bitwise OR of the k low bits of a and b. */
  function OrBits(a: nat, b: nat, k: nat): (r: nat)
    ensures r < Pow2(k)
  {
    if k == 0 then 0
    else 2 * OrBits(a / 2, b / 2, k - 1) + (if a % 2 == 1 || b % 2 == 1 then 1 else 0)
  }

  /** Bitwise AND of the k low bits of a and b. */
  function AndBits(a: nat, b: nat, k: nat): (r: nat)
    ensures r < Pow2(k)
  {
    if k == 0 then 0
    else 2 * AndBits(a / 2, b / 2, k - 1) + (if a % 2 == 1 && b % 2 == 1 then 1 else 0)
  }

  /** `a | b`. */
  function BitOr(a: Word, b: Word): Word
  {
    Pow2W();
    OrBits(a, b, W)
  }

  /** `a & b`. */
  function BitAnd(a: Word, b: Word): Word
  {
    Pow2W();
    AndBits(a, b, W)
  }

  // ----- what the operators compute -----

  lemma {:induction false} OrBitsZero(y: nat, n: nat)
    requires y < Pow2(n)
    ensures OrBits(0, y, n) == y
  {
    if n > 0 {
      OrBitsZero(y / 2, n - 1);
    }
  }

  /**
   * OR-ing a field into the bits above a value that fits below bit k is
   * addition: nothing collides.
   */
  lemma {:induction false} OrBitsDisjoint(x: nat, y: nat, k: nat, n: nat)
    requires k <= n && x < Pow2(k) && y < Pow2(n - k)
    ensures OrBits(x, y * Pow2(k), n) == x + y * Pow2(k)
  {
    if k == 0 {
      OrBitsZero(y, n);
    } else {
      var hi := y * Pow2(k - 1);
      assert y * Pow2(k) == 2 * hi;
      OrBitsDisjoint(x / 2, y, k - 1, n - 1);
    }
  }

  lemma {:induction false} AndBitsZero(v: nat, k: nat)
    ensures AndBits(v, 0, k) == 0
  {
    if k > 0 {
      AndBitsZero(v / 2, k - 1);
    }
  }

  /** AND with a mask of the n low bits keeps exactly those bits. */
  lemma {:induction false} AndBitsLowMask(v: nat, n: nat, k: nat)
    requires n <= k
    ensures AndBits(v, Pow2(n) - 1, k) == v % Pow2(n)
  {
    if n == 0 {
      AndBitsZero(v, k);
    } else {
      var m, mask := Pow2(n - 1), Pow2(n) - 1;
      assert mask == (m - 1) * 2 + 1;
      DivModUnique(mask, 2, m - 1, 1);
      AndBitsLowMask(v / 2, n - 1, k - 1);
      AndBitsOddMask(v, mask, k, (v / 2) % m);
      ModPow2Step(v, n);
    }
  }

  /** One step of AND with an odd mask: the low bit of v, then the AND of the rest with the mask's upper bits. */
  lemma AndBitsOddMask(v: nat, mask: nat, k: nat, rest: nat)
    requires k > 0 && mask % 2 == 1 && AndBits(v / 2, mask / 2, k - 1) == rest
    ensures AndBits(v, mask, k) == 2 * rest + v % 2
  {
  }

  /** AND with 2^i is nonzero exactly when bit i is set. */
  lemma {:induction false} AndBitsSingle(v: nat, i: nat, k: nat)
    requires i < k
    ensures (AndBits(v, Pow2(i), k) != 0) == BitsOf(v, k)[i]
  {
    if i == 0 {
      AndBitsZero(v / 2, k - 1);
    } else {
      assert Pow2(i) / 2 == Pow2(i - 1) && Pow2(i) % 2 == 0;
      AndBitsSingle(v / 2, i - 1, k - 1);
    }
  }

  /** `x << k` does not wrap when the field fits in the W - k bits above position k. */
  lemma ShlFits(x: Word, k: nat)
    requires k < W && x < Pow2(W - k)
    ensures Shl(x, k) == x * Pow2(k) && x * Pow2(k) < WORD_LIMIT
  {
    ShiftUpMul(x, k);
    Pow2W();
    Pow2Add(W - k, k);
    assert x * Pow2(k) < Pow2(W - k) * Pow2(k) by {
      MulStrict(x, Pow2(W - k), Pow2(k));
    }
    SmallMod(x * Pow2(k), WORD_LIMIT);
  }

  lemma MulStrict(a: nat, b: nat, m: nat)
    requires a < b && m > 0
    ensures a * m < b * m
  {
    assert b * m - a * m == (b - a) * m;
  }

  /** `a | b` when the set bits of a lie below position k and b is a field shifted up to k. */
  lemma OrDisjoint(x: Word, y: nat, k: nat)
    requires k <= W && x < Pow2(k) && y < Pow2(W - k)
    ensures y * Pow2(k) < WORD_LIMIT
    ensures BitOr(x, y * Pow2(k)) == x + y * Pow2(k)
  {
    Pow2W();
    Pow2Add(W - k, k);
    if y > 0 {
      MulStrict(y, Pow2(W - k), Pow2(k));
    }
    OrBitsDisjoint(x, y, k, W);
  }

  lemma AndLowMask(v: Word, n: nat)
    requires n <= W
    ensures Pow2(n) - 1 < WORD_LIMIT
    ensures BitAnd(v, Pow2(n) - 1) == v % Pow2(n)
  {
    Pow2W();
    Pow2Le(n, W);
    AndBitsLowMask(v, n, W);
  }

  // ----- a sequence of words as one bit stream -----

  /**
   * The bits of a word sequence, word after word, each word lowest bit first.
   * (Lengths are stated with the literal 64 = W, which keeps them linear.)
   */
  function Unpacked(ws: seq<Word>): (bs: seq<bool>)
    ensures |bs| == 64 * |ws|
  {
    if |ws| == 0 then [] else Unpacked(ws[..|ws| - 1]) + BitsOf(ws[|ws| - 1], W)
  }

  /** The words whose bits, in stream order, are `bs`; `bs` holds whole words. */
  function Chunks(bs: seq<bool>): (ws: seq<Word>)
    requires |bs| % W == 0
    ensures |ws| == |bs| / 64
  {
    if |bs| == 0 then []
    else
      var last := bs[|bs| - W..];
      ValueOfBound(last);
      Pow2W();
      Chunks(bs[..|bs| - W]) + [ValueOf(last)]
  }

  lemma {:induction false} ChunksUnpacked(ws: seq<Word>)
    ensures Chunks(Unpacked(ws)) == ws
  {
    if |ws| > 0 {
      var bs := Unpacked(ws);
      var init, w := ws[..|ws| - 1], ws[|ws| - 1];
      assert bs[..|bs| - W] == Unpacked(init);
      assert bs[|bs| - W..] == BitsOf(w, W);
      ChunksUnpacked(init);
      assert ValueOf(BitsOf(w, W)) == w by {
        ValueOfBitsOf(w, W);
        Pow2W();
        SmallMod(w, WORD_LIMIT);
      }
      assert Chunks(bs) == Chunks(bs[..|bs| - W]) + [ValueOf(bs[|bs| - W..])];
      assert ws == init + [w];
    }
  }

  lemma {:induction false} UnpackedChunks(bs: seq<bool>)
    requires |bs| % W == 0
    ensures Unpacked(Chunks(bs)) == bs
  {
    if |bs| > 0 {
      var init, last := bs[..|bs| - W], bs[|bs| - W..];
      var ws := Chunks(bs);
      assert ws[..|ws| - 1] == Chunks(init);
      UnpackedChunks(init);
      BitsOfValueOf(last);
      assert bs == init + last;
    }
  }

  lemma UnpackedAppend(ws: seq<Word>, w: Word)
    ensures Unpacked(ws + [w]) == Unpacked(ws) + BitsOf(w, W)
  {
    assert (ws + [w])[..|ws|] == ws;
  }

  /** Splitting a whole-word prefix off a stream splits its words the same way. */
  lemma {:induction false} ChunksAppend(a: seq<bool>, b: seq<bool>)
    requires |a| % W == 0 && |b| % W == 0
    ensures Chunks(a + b) == Chunks(a) + Chunks(b)
    decreases |b|
  {
    if |b| == 0 {
      assert a + b == a;
    } else {
      var ab, init := a + b, b[..|b| - W];
      assert ab[..|ab| - W] == a + init;
      assert ab[|ab| - W..] == b[|b| - W..];
      var v := ValueOf(b[|b| - W..]);
      assert Chunks(ab) == Chunks(a + init) + [v];
      assert Chunks(b) == Chunks(init) + [v];
      ChunksAppend(a, init);
      assert (Chunks(a) + Chunks(init)) + [v] == Chunks(a) + (Chunks(init) + [v]);
    }
  }

  /** Word c of a sequence occupies bits 64c .. 64c + 63 of its stream. */
  lemma {:induction false} UnpackedAt(ws: seq<Word>, c: nat)
    requires c < |ws|
    ensures 64 * c + 64 <= |Unpacked(ws)|
    ensures Unpacked(ws)[64 * c..64 * c + 64] == BitsOf(ws[c], W)
  {
    var init := ws[..|ws| - 1];
    if c < |ws| - 1 {
      UnpackedAt(init, c);
      assert init[c] == ws[c];
    }
  }
}
