/** JavaScript's bitwise operators on the non-negative operands the encoder
    gives them (all below 2^31, so the 32-bit conversion changes nothing),
    defined bit by bit, with the arithmetic facts the encoder relies on:
    masking with 2^n - 1 keeps the low n bits, an `|` of disjoint bit ranges
    is a sum, and an exclusive-or of n-bit numbers has n bits. */
module Bitwise {
  import opened Common

  function And(a: nat, b: nat): nat
    decreases a
  {
    if a == 0 || b == 0 then 0
    else 2 * And(a / 2, b / 2) + (if a % 2 == 1 && b % 2 == 1 then 1 else 0)
  }

  function Or(a: nat, b: nat): nat
    decreases a + b
  {
    if a == 0 then b
    else if b == 0 then a
    else 2 * Or(a / 2, b / 2) + (if a % 2 == 1 || b % 2 == 1 then 1 else 0)
  }

  function Xor(a: nat, b: nat): nat
    decreases a + b
  {
    if a == 0 then b
    else if b == 0 then a
    else 2 * Xor(a / 2, b / 2) + (if a % 2 == b % 2 then 0 else 1)
  }

  /** `x << n` for the non-negative operands the encoder uses. */
  function Shl(x: nat, n: nat): nat
  {
    if n == 0 then x else 2 * Shl(x, n - 1)
  }

  lemma {:induction false} ShlIsMul(x: nat, n: nat)
    ensures Shl(x, n) == x * Pow2(n)
  {
    if n > 0 {
      ShlIsMul(x, n - 1);
    }
  }

  /** The masks table of the encoder: entry n is the mask of the n low bits. */
  const Masks: seq<nat> := [0x0000, 0x0001, 0x0003, 0x0007, 0x000F, 0x001F, 0x003F, 0x007F, 0x00FF,
                            0x01FF, 0x03FF, 0x07FF, 0x0FFF, 0x1FFF, 0x3FFF, 0x7FFF, 0xFFFF]

  lemma MasksAreLowBits(n: nat)
    requires n < |Masks|
    ensures Masks[n] == Pow2(n) - 1
  {
    assert Pow2(0) == 1;
    assert Pow2(1) == 2;
    assert Pow2(2) == 4;
    assert Pow2(3) == 8;
    assert Pow2(4) == 16;
    assert Pow2(5) == 32;
    assert Pow2(6) == 64;
    assert Pow2(7) == 128;
    assert Pow2(8) == 256;
    assert Pow2(9) == 512;
    assert Pow2(10) == 1024;
    assert Pow2(11) == 2048;
    assert Pow2(12) == 4096;
    assert Pow2(13) == 8192;
    assert Pow2(14) == 16384;
    assert Pow2(15) == 32768;
    assert Pow2(16) == 65536;
  }

  /** The powers of two the encoder uses as constants. */
  lemma Pow2Facts()
    ensures Pow2(4) == 16 && Pow2(8) == 256 && Pow2(11) == 2048 && Pow2(12) == 4096
  {
    MasksAreLowBits(12);
  }

  lemma {:induction false} Pow2Add(a: nat, b: nat)
    ensures Pow2(a + b) == Pow2(a) * Pow2(b)
    decreases a
  {
    if a > 0 {
      Pow2Add(a - 1, b);
    }
  }

  lemma {:induction false} Pow2Mono(a: nat, b: nat)
    requires a <= b
    ensures Pow2(a) <= Pow2(b)
    decreases b
  {
    if a < b {
      Pow2Mono(a, b - 1);
    }
  }

  lemma ModOfDecomposition(x: int, d: int, t: int, v: int)
    requires 0 < d && x == d * t + v && 0 <= v < d
    ensures x % d == v && x / d == t
  {
    var q, r := x / d, x % d;
    assert d * (t - q) == r - v;
    if t > q {
      MulAtLeast(d, t - q);
    } else if t < q {
      MulAtLeast(d, q - t);
    }
  }

  lemma MulMonotone(a: int, b: int, k: int)
    requires a <= b && 0 <= k
    ensures a * k <= b * k
  {
  }

  lemma MulAtLeast(d: int, k: int)
    requires 0 < d && 1 <= k
    ensures d * k >= d
  {
  }

  /** `x & (2^n - 1)` is `x` modulo 2^n. */
  lemma {:induction false} AndLowBits(x: nat, n: nat)
    ensures And(x, Pow2(n) - 1) == x % Pow2(n)
    decreases n
  {
    var p := Pow2(n);
    if n == 0 {
      ModOfDecomposition(x, p, x, 0);
    } else if x == 0 {
      ModOfDecomposition(x, p, 0, 0);
    } else {
      var m := Pow2(n - 1);
      AndMaskStep(x, n);
      AndLowBits(x / 2, n - 1);
      var t, u := (x / 2) / m, (x / 2) % m;
      HalfDecomposition(x, m, t, u);
      assert p == 2 * m;
      ModOfDecomposition(x, p, t, 2 * u + x % 2);
    }
  }

  /** `x & 0xff` is the low byte of `x`. */
  lemma LowByte(x: nat)
    ensures And(x, 0xff) == x % 256
  {
    AndLowBits(x, 8);
    Pow2Facts();
  }

  /** Masking a number of at most `n` bits with `Masks[n]` keeps it. */
  lemma MaskKeeps(x: nat, n: nat)
    requires n < |Masks| && x < Pow2(n)
    ensures And(x, Masks[n]) == x
  {
    MasksAreLowBits(n);
    AndLowBits(x, n);
    ModOfDecomposition(x, Pow2(n), 0, x);
  }

  lemma AndMaskStep(x: nat, n: nat)
    requires n > 0 && x > 0
    ensures And(x, Pow2(n) - 1) == 2 * And(x / 2, Pow2(n - 1) - 1) + x % 2
  {
    var m, b := Pow2(n - 1), Pow2(n) - 1;
    assert b / 2 == m - 1 && b % 2 == 1 && b > 0;
  }

  lemma HalfDecomposition(x: nat, m: nat, t: int, u: int)
    requires m > 0 && t == (x / 2) / m && u == (x / 2) % m
    ensures x == (2 * m) * t + (2 * u + x % 2)
  {
    var mt := m * t;
    assert x / 2 == mt + u;
    assert 2 * mt == (2 * m) * t;
  }

  lemma {:induction false} OrComm(a: nat, b: nat)
    ensures Or(a, b) == Or(b, a)
    decreases a + b
  {
    if a != 0 && b != 0 {
      OrComm(a / 2, b / 2);
    }
  }

  /** Or-ing a multiple of 2^n with a number below 2^n adds them. */
  lemma OrDisjointHigh(hi: nat, lo: nat, n: nat)
    requires lo < Pow2(n)
    ensures Or(hi * Pow2(n), lo) == hi * Pow2(n) + lo
  {
    OrDisjoint(lo, hi, n);
    OrComm(lo, hi * Pow2(n));
  }

  /** Or-ing a number below 2^n with a multiple of 2^n adds them. */
  lemma {:induction false} OrDisjoint(lo: nat, hi: nat, n: nat)
    requires lo < Pow2(n)
    ensures Or(lo, hi * Pow2(n)) == lo + hi * Pow2(n)
    decreases n
  {
    if n > 0 && lo != 0 && hi != 0 {
      var h := hi * Pow2(n);
      assert h == 2 * (hi * Pow2(n - 1));
      OrDisjoint(lo / 2, hi, n - 1);
    }
  }

  lemma {:induction false} XorBound(a: nat, b: nat, n: nat)
    requires a < Pow2(n) && b < Pow2(n)
    ensures Xor(a, b) < Pow2(n)
    decreases n
  {
    if a != 0 && b != 0 {
      XorBound(a / 2, b / 2, n - 1);
    }
  }
}
