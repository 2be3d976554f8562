/** Fixed-width machine integers as the C source uses them. A value of a
    `uint32_t`, `uint64_t` or `ptrdiff_t` is modelled by the natural number its
    bit pattern denotes (so a negative `ptrdiff_t` is its two's-complement
    pattern below 2^64). The bitwise operators `&` and `|` are defined bit by
    bit on naturals; the lemmas below state what they compute for the masks
    and disjoint fields the encoder uses. */
module Bits {

  datatype Option<T> = None | Some(value: T)

  /** Bit patterns of 32 and 64 bits. */
  type U32 = x: int | 0 <= x < 0x1_0000_0000
  type U64 = x: int | 0 <= x < 0x1_0000_0000_0000_0000

  function Pow2(k: nat): (p: nat)
    ensures p >= 1
  {
    if k == 0 then 1 else 2 * Pow2(k - 1)
  }

  lemma {:induction false} Pow2Add(a: nat, b: nat)
    ensures Pow2(a + b) == Pow2(a) * Pow2(b)
  {
    if a > 0 {
      Pow2Add(a - 1, b);
    }
  }

  /** The powers of two the encoder's fields and widths use. */
  lemma Pow2Values()
    ensures Pow2(7) == 0x80 && Pow2(12) == 0x1000 && Pow2(15) == 0x8000 && Pow2(20) == 0x10_0000
    ensures Pow2(64) == 0x1_0000_0000_0000_0000
  {
    assert Pow2(8) == 0x100;
    Pow2Add(8, 8);
    assert Pow2(16) == 0x1_0000;
    Pow2Add(16, 16);
    assert Pow2(32) == 0x1_0000_0000;
    Pow2Add(32, 32);
  }

  /** C's `a & b` on bit patterns: bit i of the result is set exactly when
      bit i is set in both operands. */
  function And(a: nat, b: nat): (r: nat)
    ensures r <= a && r <= b
  {
    if a == 0 || b == 0 then 0
    else 2 * And(a / 2, b / 2) + (if a % 2 == 1 && b % 2 == 1 then 1 else 0)
  }

  /** C's `a | b` on bit patterns: bit i of the result is set exactly when
      bit i is set in either operand. */
  function Or(a: nat, b: nat): (r: nat)
    ensures a <= r && b <= r && r <= a + b
    decreases a + b
  {
    if a == 0 then b
    else if b == 0 then a
    else 2 * Or(a / 2, b / 2) + (if a % 2 == 1 || b % 2 == 1 then 1 else 0)
  }

  /** C's `a << k` where no set bit is shifted out. */
  function Shl(a: nat, k: nat): nat
  {
    a * Pow2(k)
  }

  /** The conversion of a wider unsigned value to `uint32_t`: bits 31..0. */
  function Truncate32(x: nat): U32
  {
    x % 0x1_0000_0000
  }

  /** Arithmetic on 64-bit patterns: the result modulo 2^64. */
  function Wrap64(x: int): U64
  {
    x % 0x1_0000_0000_0000_0000
  }

  /** A value that fits is its own pattern. */
  lemma WrapInRange(x: int)
    requires 0 <= x < 0x1_0000_0000_0000_0000
    ensures Wrap64(x) == x
  {
  }

  /** The value a 64-bit pattern stands for as a `ptrdiff_t`. */
  function Signed64(x: U64): (v: int)
    ensures -0x8000_0000_0000_0000 <= v < 0x8000_0000_0000_0000
    ensures Wrap64(v) == x
  {
    if x < 0x8000_0000_0000_0000 then x else x - 0x1_0000_0000_0000_0000
  }

  /** The value a 32-bit pattern stands for as an `int32_t`. */
  function Signed32(x: U32): (v: int)
    ensures -0x8000_0000 <= v < 0x8000_0000
    ensures v % 0x1_0000_0000 == x
  {
    if x < 0x8000_0000 then x else x - 0x1_0000_0000
  }

  /** Division with remainder has one answer. */
  lemma DivMod(a: int, d: int, q: int, r: int)
    requires 0 <= r < d && a == d * q + r
    ensures a / d == q && a % d == r
  {
    var q0, r0 := a / d, a % d;
    assert a == d * q0 + r0;
    assert d * (q - q0) == r0 - r;
    MulSign(d, q - q0);
  }

  /** A multiple of a positive `d` other than 0 is at least `d` away from 0. */
  lemma MulSign(d: int, x: int)
    requires d > 0
    ensures x >= 1 ==> d * x >= d
    ensures x <= -1 ==> d * x <= -d
  {
    if x >= 1 {
      assert d * x == d * (x - 1) + d;
    } else if x <= -1 {
      assert d * x == d * (x + 1) - d;
    }
  }

  /** A nonzero multiple of `p` is at least `p`. */
  lemma MultipleAtLeast(q: nat, p: nat)
    ensures q == 0 || p <= q * p
  {
    if q >= 1 {
      assert q * p == (q - 1) * p + p;
    }
  }

  lemma Twice(q: nat, p: nat)
    ensures q * (2 * p) == 2 * (q * p)
  {
  }

  // One bit of `&` and `|`: the recursion of `And` and `Or` peeled once.

  lemma AndOdd(m: nat, a: nat)
    requires m % 2 == 1
    ensures And(m, a) == 2 * And(m / 2, a / 2) + a % 2
  {
  }

  lemma AndEven(m: nat, a: nat)
    requires m % 2 == 0
    ensures And(m, a) == 2 * And(m / 2, a / 2)
  {
  }

  lemma OrEven(a: nat, b: nat)
    requires a % 2 == 0
    ensures Or(a, b) == 2 * Or(a / 2, b / 2) + b % 2
  {
  }

  /** Halving `a == 2x + r`: the arithmetic the mask lemmas step through. */
  lemma Halve(a: nat, x: nat, r: nat)
    requires a == 2 * x + r
    ensures a / 2 == x + r / 2 && a % 2 == r % 2 && 2 * (r / 2) + r % 2 == r
  {
  }

  /** `(2^k - 1) & a` keeps bits k-1..0 of `a`: for `a == q * 2^k + r` with
      `r < 2^k`, it is `r`. */
  lemma {:induction false} AndLowMask(k: nat, m: nat, a: nat, q: nat, r: nat)
    requires m == Pow2(k) - 1
    requires a == q * Pow2(k) + r && r < Pow2(k)
    ensures And(m, a) == r
  {
    if a == 0 {
      MultipleAtLeast(q, Pow2(k));
    } else if k > 0 {
      var p := Pow2(k - 1);
      Twice(q, p);
      Halve(a, q * p, r);
      assert m % 2 == 1 && m / 2 == p - 1;
      AndLowMask(k - 1, m / 2, a / 2, q, r / 2);
      AndOdd(m, a);
    }
  }

  /** `(2^n - 2^k) & a`, for `a` below `2^n`, keeps bits n-1..k of `a` in
      place: for `a == q * 2^k + r` with `r < 2^k`, it is `q * 2^k`. */
  lemma {:induction false} AndHighMask(n: nat, k: nat, m: nat, a: nat, q: nat, r: nat)
    requires k <= n && m == Pow2(n) - Pow2(k) && a < Pow2(n)
    requires a == q * Pow2(k) + r && r < Pow2(k)
    ensures And(m, a) == q * Pow2(k)
  {
    if a == 0 {
      MultipleAtLeast(q, Pow2(k));
    } else if k == 0 {
      AndLowMask(n, m, a, 0, a);
    } else if n == k {
      MultipleAtLeast(q, Pow2(k));
    } else {
      var p := Pow2(k - 1);
      Twice(q, p);
      Halve(a, q * p, r);
      assert m % 2 == 0 && m / 2 == Pow2(n - 1) - p;
      AndHighMask(n - 1, k - 1, m / 2, a / 2, q, r / 2);
      AndEven(m, a);
    }
  }

  /** When `a` has no set bit below bit k and `b` none from bit k up, the two
      share no bit: `a & b` is zero ... */
  lemma {:induction false} AndDisjoint(k: nat, a: nat, q: nat, b: nat)
    requires a == q * Pow2(k) && b < Pow2(k)
    ensures And(a, b) == 0
  {
    if k > 0 && a != 0 && b != 0 {
      var p := Pow2(k - 1);
      Twice(q, p);
      Halve(a, q * p, 0);
      AndDisjoint(k - 1, a / 2, q, b / 2);
      AndEven(a, b);
    }
  }

  /** ... and `a | b` is their sum. */
  lemma {:induction false} OrDisjoint(k: nat, a: nat, q: nat, b: nat)
    requires a == q * Pow2(k) && b < Pow2(k)
    ensures Or(a, b) == a + b
  {
    if k > 0 && a != 0 && b != 0 {
      var p := Pow2(k - 1);
      Twice(q, p);
      Halve(a, q * p, 0);
      OrDisjoint(k - 1, a / 2, q, b / 2);
      OrEven(a, b);
    }
  }
}
