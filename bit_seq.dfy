/**
 * Bit sequences, least significant bit first: the logical view of everything
 * the codec packs. `BitsOf(v, n)` lists the n low bits of v in the order the
 * packer lays them down; `ValueOf` reads such a list back as a number.
 */
module BitSeq {
  import opened Pow2Arith

  /** The number whose binary digits, lowest first, are `bs`. */
  function ValueOf(bs: seq<bool>): nat
  {
    if |bs| == 0 then 0 else (if bs[0] then 1 else 0) + 2 * ValueOf(bs[1..])
  }

  /** The `n` low bits of `v`, lowest first. */
  function BitsOf(v: nat, n: nat): (bs: seq<bool>)
    ensures |bs| == n
  {
    if n == 0 then [] else [v % 2 == 1] + BitsOf(v / 2, n - 1)
  }

  /** `n` clear bits. */
  function Zeros(n: nat): (bs: seq<bool>)
    ensures |bs| == n
  {
    seq(n, _ => false)
  }

  /** `n` set bits. */
  function Ones(n: nat): (bs: seq<bool>)
    ensures |bs| == n
  {
    seq(n, _ => true)
  }

  lemma {:induction false} ValueOfBound(bs: seq<bool>)
    ensures ValueOf(bs) < Pow2(|bs|)
  {
    if |bs| > 0 {
      ValueOfBound(bs[1..]);
    }
  }

  /** Reading a concatenation: the second part is shifted up by the length of the first. */
  lemma {:induction false} ValueOfAppend(a: seq<bool>, b: seq<bool>)
    ensures ValueOf(a + b) == ValueOf(a) + Pow2(|a|) * ValueOf(b)
  {
    if |a| > 0 {
      var p, vb, va := Pow2(|a| - 1), ValueOf(b), ValueOf(a[1..]);
      var bit := if a[0] then 1 else 0;
      assert ValueOf(a + b) == bit + 2 * (va + p * vb) by {
        assert (a + b)[1..] == a[1..] + b;
        ValueOfAppend(a[1..], b);
      }
      assert ValueOf(a) == bit + 2 * va;
      assert Pow2(|a|) == 2 * p;
      ShiftLeftOnce(bit, va, p, vb);
    } else {
      assert a + b == b;
    }
  }

  lemma ShiftLeftOnce(bit: int, va: int, p: int, vb: int)
    ensures bit + 2 * (va + p * vb) == (bit + 2 * va) + (2 * p) * vb
  {
  }

  /** Taking n low bits and reading them back gives v mod 2^n. */
  lemma {:induction false} ValueOfBitsOf(v: nat, n: nat)
    ensures ValueOf(BitsOf(v, n)) == v % Pow2(n)
  {
    if n > 0 {
      ValueOfBitsOf(v / 2, n - 1);
      ModPow2Step(v, n);
      assert BitsOf(v, n)[1..] == BitsOf(v / 2, n - 1);
    }
  }

  /** Reading a bit list and taking as many low bits gives the list back. */
  lemma {:induction false} BitsOfValueOf(bs: seq<bool>)
    ensures BitsOf(ValueOf(bs), |bs|) == bs
  {
    if |bs| > 0 {
      var v := ValueOf(bs);
      assert v % 2 == (if bs[0] then 1 else 0) && v / 2 == ValueOf(bs[1..]);
      BitsOfValueOf(bs[1..]);
    }
  }

  /** The low m + n bits are the low m bits followed by the n bits above them. */
  lemma {:induction false} BitsOfSplit(v: nat, m: nat, n: nat)
    ensures BitsOf(v, m + n) == BitsOf(v, m) + BitsOf(ShiftDown(v, m), n)
  {
    if m > 0 {
      BitsOfSplit(v / 2, m - 1, n);
      var x, lo, hi := [v % 2 == 1], BitsOf(v / 2, m - 1), BitsOf(ShiftDown(v, m), n);
      assert BitsOf(v, m + n) == x + (lo + hi);
      assert x + (lo + hi) == (x + lo) + hi;
    }
  }

  /** Bits of v at positions below m do not see a multiple of 2^m added to v. */
  lemma {:induction false} BitsOfAddHigh(a: nat, b: nat, m: nat, k: nat)
    requires k <= m
    ensures BitsOf(a + b * Pow2(m), k) == BitsOf(a, k)
  {
    if k > 0 {
      var x := a + b * Pow2(m);
      assert b * Pow2(m) == 2 * (b * Pow2(m - 1));
      assert x % 2 == a % 2 && x / 2 == a / 2 + b * Pow2(m - 1);
      BitsOfAddHigh(a / 2, b, m - 1, k - 1);
    }
  }

  lemma {:induction false} BitsOfZero(n: nat)
    ensures BitsOf(0, n) == Zeros(n)
  {
    if n > 0 {
      BitsOfZero(n - 1);
    }
  }

  lemma {:induction false} ValueOfOnes(n: nat)
    ensures ValueOf(Ones(n)) == Pow2(n) - 1
  {
    if n > 0 {
      assert Ones(n)[1..] == Ones(n - 1);
      ValueOfOnes(n - 1);
    }
  }

  /** Bit i of v, as listed by BitsOf, is the parity of v / 2^i. */
  lemma {:induction false} BitsOfAt(v: nat, n: nat, i: nat)
    requires i < n
    ensures BitsOf(v, n)[i] == ((v / Pow2(i)) % 2 == 1)
  {
    if i == 0 {
      assert Pow2(0) == 1;
    } else {
      assert BitsOf(v, n)[i] == BitsOf(v / 2, n - 1)[i - 1];
      BitsOfAt(v / 2, n - 1, i - 1);
      ModPow2Step(v, i);
    }
  }

  /** The low k bits of x, where x is v plus a multiple of 2^m and k <= m, are those of v. */
  lemma LowBitsUnderField(v: nat, b: nat, m: nat, k: nat, x: nat)
    requires k <= m && x == v + b * Pow2(m)
    ensures BitsOf(x, k) == BitsOf(v, k)
  {
    BitsOfAddHigh(v, b, m, k);
  }

  /** Only the n low bits of v take part in BitsOf(v, n). */
  lemma BitsOfMod(v: nat, n: nat)
    ensures BitsOf(v % Pow2(n), n) == BitsOf(v, n)
  {
    ValueOfBitsOf(v, n);
    BitsOfValueOf(BitsOf(v, n));
  }

  /**
   * Placing the n low bits of v above the i bits of acc (acc < 2^i) appends
   * them to acc's bit list, and the result stays below 2^(i+n).
   */
  lemma PlaceField(acc: nat, i: nat, v: nat, n: nat, x: nat)
    requires acc < Pow2(i) && x == acc + (v % Pow2(n)) * Pow2(i)
    ensures BitsOf(x, i + n) == BitsOf(acc, i) + BitsOf(v, n)
    ensures x < Pow2(i + n)
  {
    var f := v % Pow2(n);
    BitsOfSplit(x, i, n);
    LowBitsUnderField(acc, f, i, i, x);
    ModAddMultiple(acc, f, i);
    SmallMod(acc, Pow2(i));
    BitsOfMod(v, n);
    Pow2Add(n, i);
    assert x < Pow2(i) + (Pow2(n) - 1) * Pow2(i) by {
      MulLe(f, Pow2(n) - 1, Pow2(i));
    }
  }

  lemma MulLe(a: nat, b: nat, m: nat)
    requires a <= b
    ensures a * m <= b * m
  {
    assert b * m - a * m == (b - a) * m;
  }

  /** A value below 2^i, listed to n >= i bits, is its i bits followed by zeros. */
  lemma BitsOfPadded(v: nat, i: nat, n: nat)
    requires v < Pow2(i) && i <= n
    ensures BitsOf(v, n) == BitsOf(v, i) + Zeros(n - i)
  {
    BitsOfSplit(v, i, n - i);
    SmallMod(v, Pow2(i));
    BitsOfZero(n - i);
  }

  /** A single bit followed by zero padding is the value of that bit. */
  lemma BitThenZeros(bit: bool, pad: nat)
    ensures BitsOf(if bit then 1 else 0, pad + 1) == [bit] + Zeros(pad)
  {
    BitsOfZero(pad);
  }

  /** Bits i..i+k of an m-bit field are the k low bits of the value shifted down by i. */
  lemma BitsOfSlice(v: nat, m: nat, i: nat, k: nat)
    requires i + k <= m
    ensures BitsOf(v, m)[i..i + k] == BitsOf(ShiftDown(v, i), k)
  {
    var h := ShiftDown(v, i);
    BitsOfSplit(v, i, m - i);
    BitsOfSplit(h, k, m - i - k);
    assert BitsOf(v, m)[i..] == BitsOf(h, m - i);
  }

  lemma AppendAssoc(a: seq<bool>, b: seq<bool>, c: seq<bool>)
    ensures (a + b) + c == a + (b + c)
  {
  }

  /** A slice within the first part of a concatenation is a slice of that part. */
  lemma SliceInFront(a: seq<bool>, b: seq<bool>, lo: nat, hi: nat)
    requires lo <= hi <= |a|
    ensures (a + b)[lo..hi] == a[lo..hi]
  {
    assert forall q :: lo <= q < hi ==> (a + b)[q] == a[q];
  }

  /** A slice within the second part of a concatenation is a slice of that part. */
  lemma SliceInBack(a: seq<bool>, b: seq<bool>, lo: nat, hi: nat)
    requires |a| <= lo <= hi <= |a| + |b|
    ensures (a + b)[lo..hi] == b[lo - |a|..hi - |a|]
  {
    assert forall q :: lo <= q < hi ==> (a + b)[q] == b[q - |a|];
  }

  /** Slicing a slice: positions i..i+k of the n bits from lo are positions lo+i..lo+i+k. */
  lemma SliceOfSlice(a: seq<bool>, lo: nat, n: nat, i: nat, k: nat)
    requires lo + n <= |a| && i + k <= n
    ensures a[lo..lo + n][i..i + k] == a[lo + i..lo + i + k]
  {
    var s1, s2 := a[lo..lo + n][i..i + k], a[lo + i..lo + i + k];
    assert forall q | 0 <= q < k :: s1[q] == s2[q];
  }

  /** The number of set bits. */
  function CountOnes(bs: seq<bool>): (c: nat)
    ensures c <= |bs|
  {
    if |bs| == 0 then 0 else CountOnes(bs[..|bs| - 1]) + (if bs[|bs| - 1] then 1 else 0)
  }

  /** n set bits count n. */
  lemma {:induction false} CountOnesOfOnes(n: nat)
    ensures CountOnes(Ones(n)) == n
  {
    if n > 0 {
      assert Ones(n)[..n - 1] == Ones(n - 1);
      CountOnesOfOnes(n - 1);
    }
  }

  /** Counting one more bit of a list. */
  lemma CountOnesPrefix(bs: seq<bool>, k: nat)
    requires k < |bs|
    ensures CountOnes(bs[..k + 1]) == CountOnes(bs[..k]) + (if bs[k] then 1 else 0)
  {
    assert bs[..k + 1][..k] == bs[..k];
  }

  /** Two values below 2^n with the same n low bits are equal. */
  lemma BitsOfInjective(a: nat, b: nat, n: nat)
    requires a < Pow2(n) && b < Pow2(n) && BitsOf(a, n) == BitsOf(b, n)
    ensures a == b
  {
    ValueOfBitsOf(a, n);
    ValueOfBitsOf(b, n);
    SmallMod(a, Pow2(n));
    SmallMod(b, Pow2(n));
  }

  /** Bits gathered from the slice d[start..start + j], extended by the next k bits of d, are the slice d[start..start + j + k]. */
  lemma JoinSlices(d: seq<bool>, start: nat, j: nat, k: nat, gathered: seq<bool>, chunk: seq<bool>)
    requires start + j + k <= |d|
    requires gathered == d[start..start + j] && chunk == d[start + j..start + j + k]
    ensures gathered + chunk == d[start..start + j + k]
  {
  }

  /** A prefix one element longer. */
  lemma PrefixStep(bs: seq<bool>, k: nat)
    requires k < |bs|
    ensures bs[..k + 1] == bs[..k] + [bs[k]]
  {
  }
}
