/** Single-bit operations on unsigned words, stated on their numeric values:
    `x | 2^k`, `x & ~2^k` and the test `x & 2^k != 0`. */
module Bits {
  import opened Bytes

  function Pow2(k: nat): (r: nat)
    ensures r >= 1
  {
    if k == 0 then 1 else 2 * Pow2(k - 1)
  }

  /** Bit k of x is set: `x & 2^k != 0`. */
  predicate Bit(x: nat, k: nat)
  {
    (x / Pow2(k)) % 2 == 1
  }

  /** `x | 2^k`. */
  function SetBit(x: nat, k: nat): (r: nat)
  {
    if Bit(x, k) then x else x + Pow2(k)
  }

  /** `x & ~2^k`. */
  function ClearBit(x: nat, k: nat): (r: nat)
  {
    if Bit(x, k) then x - Pow2(k) else x
  }

  /** Setting a bit that was clear sets it, and clearing it again restores the word. */
  lemma SetThenClear(x: nat, k: nat)
    requires !Bit(x, k)
    ensures Bit(SetBit(x, k), k)
    ensures ClearBit(SetBit(x, k), k) == x
  {
    var p := Pow2(k);
    DivModUnique(x + p, p, x / p + 1, x % p);
  }

  lemma {:induction false} Pow2Add(a: nat, b: nat)
    ensures Pow2(a + b) == Pow2(a) * Pow2(b)
    decreases a
  {
    if a > 0 {
      Pow2Add(a - 1, b);
      assert Pow2(a + b) == 2 * Pow2(a - 1 + b);
    }
  }

  lemma Pow2Sum(a: nat, b: nat, n: nat)
    requires a + b == n
    ensures Pow2(n) == Pow2(a) * Pow2(b)
  {
    Pow2Add(a, b);
  }

  /** Adding a multiple of 2^(k+1) leaves bit k as it was. */
  lemma BitOfHighPlusLow(hi: nat, lo: nat, k: nat)
    ensures Bit(hi * Pow2(k + 1) + lo, k) == Bit(lo, k)
  {
    var p := Pow2(k);
    var x := hi * Pow2(k + 1) + lo;
    assert Pow2(k + 1) == 2 * p;
    assert x == (2 * hi + lo / p) * p + lo % p by {
      assert lo == (lo / p) * p + lo % p;
      assert hi * (2 * p) == (2 * hi) * p;
    }
    DivModUnique(x, p, 2 * hi + lo / p, lo % p);
    DivModUnique(2 * hi + lo / p, 2, hi + (lo / p) / 2, (lo / p) % 2);
  }

  lemma Pow2Values()
    ensures Pow2(16) == 0x1_0000 && Pow2(17) == 0x2_0000 && Pow2(18) == 0x4_0000
  {
    assert Pow2(4) == 16;
    Pow2Add(4, 4);
    Pow2Add(8, 8);
  }

  lemma {:induction false} Pow2Mono(a: nat, b: nat)
    requires a <= b
    ensures Pow2(a) <= Pow2(b)
    decreases b
  {
    if a < b {
      Pow2Mono(a, b - 1);
    }
  }
}
