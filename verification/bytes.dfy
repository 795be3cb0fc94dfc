/** Unbounded-integer view of fixed-width machine words and their byte layout.

    The trace writer stores every scalar in the host's native byte order; this
    model fixes that order to little-endian. A value written into a field of
    `n` bytes is first truncated modulo 256^n, as a C cast to the field's
    unsigned type does.
 */
module Bytes {

  /** One byte of the arena or of the trace file. */
  newtype byte = x: int | 0 <= x < 256

  const Two32: nat := 0x1_0000_0000
  const Two63: nat := 0x8000_0000_0000_0000
  const Two64: nat := 0x1_0000_0000_0000_0000

  /** 256^n: the number of distinct values an n-byte field can hold. */
  function Pow256(n: nat): (r: nat)
    ensures r >= 1
  {
    if n == 0 then 1 else 256 * Pow256(n - 1)
  }

  lemma Pow256Widths()
    ensures Pow256(1) == 0x100
    ensures Pow256(2) == 0x1_0000
    ensures Pow256(4) == Two32
    ensures Pow256(8) == Two64
  {
  }

  /** Little-endian layout of `v` in `n` bytes (bytes beyond `n` are dropped). */
  function LE(v: nat, n: nat): (r: seq<byte>)
    ensures |r| == n
  {
    if n == 0 then [] else [(v % 256) as byte] + LE(v / 256, n - 1)
  }

  /** The unsigned value of a little-endian byte sequence. */
  function FromLE(s: seq<byte>): (v: nat)
    ensures v < Pow256(|s|)
  {
    if |s| == 0 then 0 else s[0] as nat + 256 * FromLE(s[1..])
  }

  /** Reading back an in-range value recovers it. */
  lemma {:induction false} FromLEOfLE(v: nat, n: nat)
    requires v < Pow256(n)
    ensures FromLE(LE(v, n)) == v
    decreases n
  {
    if n > 0 {
      var q := v / 256;
      assert Pow256(n) == 256 * Pow256(n - 1);
      assert q < Pow256(n - 1);
      FromLEOfLE(q, n - 1);
      var s := LE(v, n);
      assert s[1..] == LE(q, n - 1);
    }
  }

  /** Laying out the value of a byte sequence reproduces the sequence. */
  lemma {:induction false} LEOfFromLE(s: seq<byte>)
    ensures LE(FromLE(s), |s|) == s
    decreases |s|
  {
    if |s| > 0 {
      var rest := FromLE(s[1..]);
      var v := FromLE(s);
      DivModUnique(v, 256, rest, s[0] as int);
      LEOfFromLE(s[1..]);
      assert [s[0]] + s[1..] == s;
    }
  }

  /** Truncating to the width first does not change the layout. */
  lemma {:induction false} TruncateLE(v: nat, n: nat)
    ensures LE(v % Pow256(n), n) == LE(v, n)
    decreases n
  {
    if n > 0 {
      var p := Pow256(n - 1);
      assert Pow256(n) == 256 * p;
      DivModPow(v, p);
      TruncateLE(v / 256, n - 1);
    }
  }

  lemma DivModPow(v: nat, p: nat)
    requires p >= 1
    ensures (v % (256 * p)) % 256 == v % 256
    ensures (v % (256 * p)) / 256 == (v / 256) % p
  {
    var q := v / 256;
    var m := v % (256 * p);
    var k := v / (256 * p);
    assert v == 256 * p * k + m;
    assert 256 * p * k == 256 * (p * k);
    assert v == 256 * (p * k) + m;
    assert m == 256 * (m / 256) + m % 256;
    assert v == 256 * (p * k + m / 256) + m % 256;
    DivModUnique(v, 256, p * k + m / 256, m % 256);
    assert q == p * k + m / 256;
    assert 256 * (m / 256) <= m < 256 * p;
    DivModUnique(q, p, k, m / 256);
  }

  /** Euclidean division is determined by quotient and remainder. */
  lemma DivModUnique(v: int, d: int, q: int, r: int)
    requires d > 0 && 0 <= r < d && v == q * d + r
    ensures v / d == q && v % d == r
  {
    var q0 := v / d;
    var r0 := v % d;
    assert v == q0 * d + r0;
    assert (q0 - q) * d == r - r0;
    MulSign(q0 - q, d);
  }

  /** Multiplying by a positive d keeps the sign and at least d in size. */
  lemma MulSign(a: int, d: int)
    requires d > 0
    ensures a >= 1 ==> a * d >= d
    ensures a <= -1 ==> a * d <= -d
  {
  }
}
