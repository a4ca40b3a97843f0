/** Powers of two and the division facts about them that the word arithmetic rests on. */
module Pow2Arith {

  /** 2^n. */
  function Pow2(n: nat): (r: nat)
    ensures r >= 1
  {
    if n == 0 then 1 else 2 * Pow2(n - 1)
  }

  lemma {:induction false} Pow2Add(a: nat, b: nat)
    ensures Pow2(a + b) == Pow2(a) * Pow2(b)
  {
    if a > 0 {
      Pow2Add(a - 1, b);
    }
  }

  lemma {:induction false} Pow2Le(a: nat, b: nat)
    requires a <= b
    ensures Pow2(a) <= Pow2(b)
  {
    if a < b {
      Pow2Le(a, b - 1);
    }
  }

  /** Division and remainder are determined by any decomposition v = q*m + r with 0 <= r < m. */
  lemma DivModUnique(v: int, m: int, q: int, r: int)
    requires m > 0 && 0 <= r < m && v == q * m + r
    ensures v / m == q && v % m == r
  {
    var q', r' := v / m, v % m;
    assert v == q' * m + r';
    if q' > q {
      assert (q' - q) * m >= m by { MulMonotone(q' - q, 1, m); }
      assert false;
    } else if q' < q {
      assert (q - q') * m >= m by { MulMonotone(q - q', 1, m); }
      assert false;
    }
  }

  lemma MulMonotone(a: int, b: int, m: int)
    requires a >= b && m >= 0
    ensures a * m >= b * m
  {
    assert a * m - b * m == (a - b) * m;
  }

  /** Peeling off the lowest bit: v mod 2^n is twice the remainder of v/2, plus v's low bit. */
  lemma ModPow2Step(v: nat, n: nat)
    requires n > 0
    ensures v % Pow2(n) == 2 * ((v / 2) % Pow2(n - 1)) + v % 2
    ensures v / Pow2(n) == (v / 2) / Pow2(n - 1)
  {
    var h := Pow2(n - 1);
    var q, s := (v / 2) / h, (v / 2) % h;
    assert v / 2 == q * h + s;
    assert v == q * Pow2(n) + (2 * s + v % 2);
    DivModUnique(v, Pow2(n), q, 2 * s + v % 2);
  }

  /** v shifted left by m bits, by doubling m times; it is v * 2^m (ShiftUpMul). */
  function ShiftUp(v: nat, m: nat): nat
  {
    if m == 0 then v else 2 * ShiftUp(v, m - 1)
  }

  lemma {:induction false} ShiftUpMul(v: nat, m: nat)
    ensures ShiftUp(v, m) == v * Pow2(m)
  {
    if m > 0 {
      ShiftUpMul(v, m - 1);
    }
  }

  /** v shifted right by m bits, by halving m times; it is v / 2^m. */
  function ShiftDown(v: nat, m: nat): (r: nat)
    ensures r == v / Pow2(m) && r <= v
  {
    if m == 0 then v else (ModPow2Step(v, m); ShiftDown(v / 2, m - 1))
  }

  /** Adding a multiple of 2^n does not change the remainder modulo 2^n. */
  lemma ModAddMultiple(a: nat, b: nat, n: nat)
    ensures (a + b * Pow2(n)) % Pow2(n) == a % Pow2(n)
    ensures (a + b * Pow2(n)) / Pow2(n) == a / Pow2(n) + b
  {
    var p := Pow2(n);
    var q, r := a / p, a % p;
    assert a == q * p + r;
    assert (q + b) * p == q * p + b * p;
    DivModUnique(a + b * p, p, q + b, r);
  }

  lemma SmallMod(a: nat, m: nat)
    requires a < m
    ensures a % m == a && a / m == 0
  {
    DivModUnique(a, m, 0, a);
  }

  lemma Pow2Of8()
    ensures Pow2(8) == 0x100
  {
  }

  lemma Pow2Of16()
    ensures Pow2(16) == 0x1_0000
  {
    Pow2Add(8, 8);
    Pow2Of8();
  }

  lemma Pow2Of32()
    ensures Pow2(32) == 0x1_0000_0000
  {
    Pow2Add(16, 16);
    Pow2Of16();
  }

  lemma Pow2Of64()
    ensures Pow2(64) == 0x1_0000_0000_0000_0000
  {
    Pow2Add(32, 32);
    Pow2Of32();
  }
}
