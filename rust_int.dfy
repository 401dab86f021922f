/**
 * Rust's fixed-width integers and the integer operations the container
 * relies on: the truncating remainder `%`, the narrowing cast `as i32`,
 * `u32::is_power_of_two` and the bitwise AND of two's-complement words.
 * Integers are unbounded here; each width is a subset type and every
 * operation that could overflow in the source carries a precondition or
 * is written out explicitly.
 */
module RustInt {

  const I32_MIN: int := -0x8000_0000
  const I32_MAX: int := 0x7FFF_FFFF
  const U32_MAX: int := 0xFFFF_FFFF
  /** 2^32, the modulus of 32-bit wrap-around. */
  const WORD: int := 0x1_0000_0000

  type i32 = x: int | -0x8000_0000 <= x <= 0x7FFF_FFFF
  type u32 = x: int | 0 <= x <= 0xFFFF_FFFF
  /** `isize` on a 64-bit target. */
  type isize = x: int | -0x8000_0000_0000_0000 <= x <= 0x7FFF_FFFF_FFFF_FFFF

  predicate IsI32(x: int)
  {
    I32_MIN <= x <= I32_MAX
  }

  predicate IsU32(x: int)
  {
    0 <= x <= U32_MAX
  }

  /** `[i32; 3]` and `[u32; 3]`. */
  type I32x3 = s: seq<int> | |s| == 3 && IsI32(s[0]) && IsI32(s[1]) && IsI32(s[2]) witness [0, 0, 0]
  type U32x3 = s: seq<int> | |s| == 3 && IsU32(s[0]) && IsU32(s[1]) && IsU32(s[2]) witness [0, 0, 0]

  function Abs(x: int): nat
  {
    if x < 0 then -x else x
  }

  /**
   * Rust's `%` on signed integers: the remainder of the division that
   * truncates toward zero, so it takes the sign of the dividend
   * (unlike Dafny's `%`, which is Euclidean).
   */
  function Rem(n: int, m: int): (r: int)
    requires m != 0
    ensures Abs(r) < Abs(m)
    ensures n >= 0 ==> r >= 0
    ensures n <= 0 ==> r <= 0
    ensures (n - r) % m == 0
  {
    if n >= 0 then
      TruncRemNonNegative(n, m);
      n % Abs(m)
    else
      TruncRemNonNegative(-n, m);
      NegateDivisible(n + (-n) % Abs(m), m);
      -((-n) % Abs(m))
  }

  /** The remainder of a non-negative dividend, with its congruence. */
  lemma TruncRemNonNegative(n: nat, m: int)
    requires m != 0
    ensures 0 <= n % Abs(m) < Abs(m)
    ensures (n - n % Abs(m)) % m == 0
    ensures n == 0 ==> n % Abs(m) == 0
  {
    var a := Abs(m);
    DivModOfMixed(0, 0, a);
    var q, r := n / a, n % a;
    assert n - r == a * q;
    MultipleMod(a, q);
    DivisibleByAbs(n - r, m);
  }

  lemma NegateDivisible(x: int, m: int)
    requires m != 0 && (-x) % m == 0
    ensures x % m == 0
  {
    var k := (-x) / m;
    assert -x == m * k;
    assert x == m * (-k);
    MultipleMod(m, -k);
  }

  /** `x as i32` from a wider integer: keep the low 32 bits, read them as two's complement. */
  function AsI32(x: int): (r: i32)
    ensures (x - r) % WORD == 0
    ensures I32_MIN <= x <= I32_MAX ==> r == x
  {
    var low := x % WORD;
    if low <= I32_MAX then low else low - WORD
  }

  /** The 32 bits of an `i32` read as an unsigned word. */
  function Bits(x: i32): (u: u32)
    ensures (x - u) % WORD == 0
    ensures x >= 0 ==> u == x
  {
    if x >= 0 then x else x + WORD
  }

  /** `u32::is_power_of_two`: exactly one bit set. */
  predicate IsPowerOfTwo(d: int)
    ensures IsPowerOfTwo(d) ==> d >= 1
    decreases if d < 0 then 0 else d
  {
    d == 1 || (d >= 2 && d % 2 == 0 && IsPowerOfTwo(d / 2))
  }

  /**
   * Bitwise AND of two non-negative integers, defined bit by bit from
   * the least significant bit: the meaning of `&` on unsigned words.
   */
  function BitAnd(a: nat, b: nat): (r: nat)
    ensures r <= a && r <= b
  {
    if a == 0 || b == 0 then 0
    else 2 * BitAnd(a / 2, b / 2) + (if a % 2 == 1 && b % 2 == 1 then 1 else 0)
  }

  // ---------------------------------------------------------------------------
  // Arithmetic facts used by the models

  /** Divisibility by `|m|` is divisibility by `m`. */
  lemma DivisibleByAbs(x: int, m: int)
    requires m != 0 && x % Abs(m) == 0
    ensures x % m == 0
  {
    var q := x / Abs(m);
    assert x == Abs(m) * q;
    if m < 0 {
      assert x == m * (-q);
      MultipleMod(m, -q);
    }
  }

  lemma MulAssoc(a: int, b: int, c: int)
    ensures a * (b * c) == (a * b) * c
  {
  }

  lemma MulAtLeast(m: int, t: int)
    requires m > 0 && t >= 1
    ensures m * t >= m
  {
    assert m * t == m + m * (t - 1);
  }

  /** The only multiple of `m` strictly between `-m` and `m` is zero. */
  lemma MultipleInRange(m: int, t: int)
    requires m > 0 && -m < m * t < m
    ensures t == 0
  {
    if t >= 1 {
      MulAtLeast(m, t);
    } else if t <= -1 {
      MulAtLeast(m, -t);
    }
  }

  /** Mixed-radix digits: `m * k + d` with `0 <= d < m` has quotient `k` and remainder `d`. */
  lemma DivModOfMixed(k: int, d: int, m: int)
    requires m > 0 && 0 <= d < m
    ensures (m * k + d) / m == k && (m * k + d) % m == d
  {
    var x := m * k + d;
    var q, r := x / m, x % m;
    assert m * q + r == m * k + d;
    assert m * (k - q) == r - d;
    MultipleInRange(m, k - q);
  }

  /** Every multiple of `m` is divisible by `m`, whatever the sign of `m`. */
  lemma MultipleMod(m: int, k: int)
    requires m != 0
    ensures (m * k) % m == 0
  {
    if m > 0 {
      DivModOfMixed(k, 0, m);
    } else {
      var x := m * k;
      var q, r := x / m, x % m;
      assert x == m * q + r;
      assert r == (-m) * (q - k);
      MultipleInRange(-m, q - k);
    }
  }

  /** A value in `[0, m)` congruent to `n` modulo `m` is `n`'s Euclidean remainder. */
  lemma EuclideanRemUnique(n: int, m: int, r: int)
    requires m > 0 && 0 <= r < m && (n - r) % m == 0
    ensures r == n % m
  {
    var k := (n - r) / m;
    assert n - r == m * k + (n - r) % m;
    assert n == m * k + r;
    DivModOfMixed(k, r, m);
  }

  /** Two values are congruent modulo `m` exactly when their Euclidean remainders agree. */
  lemma CongruentIff(a: int, b: int, m: int)
    requires m > 0
    ensures (a - b) % m == 0 <==> a % m == b % m
  {
    var qa, ra := a / m, a % m;
    var qb, rb := b / m, b % m;
    assert a == m * qa + ra && b == m * qb + rb;
    assert a - b == m * (qa - qb) + (ra - rb);
    if ra >= rb {
      DivModOfMixed(qa - qb, ra - rb, m);
    } else {
      assert a - b == m * (qa - qb - 1) + (m + ra - rb);
      DivModOfMixed(qa - qb - 1, m + ra - rb, m);
    }
  }

  /** Congruence modulo `m` is transitive. */
  lemma CongruentTrans(a: int, b: int, c: int, m: int)
    requires m != 0 && (a - b) % m == 0 && (b - c) % m == 0
    ensures (a - c) % m == 0
  {
    var k1, k2 := (a - b) / m, (b - c) / m;
    assert a - b == m * k1 + (a - b) % m;
    assert b - c == m * k2 + (b - c) % m;
    assert a - c == m * (k1 + k2);
    MultipleMod(m, k1 + k2);
  }

  // ---------------------------------------------------------------------------
  // Powers of two

  /** Of two powers of two, one below twice the other is at most the other. */
  lemma {:induction false} PowerOfTwoAtMost(p: int, q: int)
    requires IsPowerOfTwo(p) && IsPowerOfTwo(q) && p < 2 * q
    ensures p <= q
    decreases q
  {
    if q != 1 && p != 1 {
      PowerOfTwoAtMost(p / 2, q / 2);
    }
  }

  /** `2^k`. */
  function Pow2(k: nat): nat
  {
    if k == 0 then 1 else 2 * Pow2(k - 1)
  }

  lemma {:induction false} Pow2IsPowerOfTwo(k: nat)
    ensures IsPowerOfTwo(Pow2(k))
  {
    if k > 0 {
      Pow2IsPowerOfTwo(k - 1);
      assert Pow2(k) / 2 == Pow2(k - 1);
    }
  }

  /** Conversely, every power of two is `2^k` for some `k`. */
  lemma {:induction false} PowerOfTwoIsPow2(d: int)
    requires IsPowerOfTwo(d)
    ensures exists k: nat :: Pow2(k) == d
  {
    if d == 1 {
      assert Pow2(0) == 1;
    } else {
      PowerOfTwoIsPow2(d / 2);
      var k: nat :| Pow2(k) == d / 2;
      assert Pow2(k + 1) == d;
    }
  }

  lemma {:induction false} Pow2Add(a: nat, b: nat)
    ensures Pow2(a + b) == Pow2(a) * Pow2(b)
  {
    if a > 0 {
      Pow2Add(a - 1, b);
      var x, y := Pow2(a - 1), Pow2(b);
      assert Pow2(a - 1 + b) == x * y;
      assert Pow2(a + b) == 2 * Pow2(a - 1 + b);
      assert Pow2(a) == 2 * x;
      MulAssoc(2, x, y);
    }
  }

  lemma Pow2Of30And32()
    ensures Pow2(30) == 0x4000_0000 && Pow2(32) == WORD
  {
    assert Pow2(10) == 1024;
    Pow2Add(10, 10);
    Pow2Add(10, 20);
    Pow2Add(30, 2);
  }

  /** A power of two that fits in an `i32` is at most 2^30. */
  lemma PowerOfTwoFitsI32(p: int)
    requires IsPowerOfTwo(p) && p <= I32_MAX
    ensures p <= 0x4000_0000
  {
    Pow2Of30And32();
    Pow2IsPowerOfTwo(30);
    PowerOfTwoAtMost(p, 0x4000_0000);
  }

  /** A power of two divides every power of two that is not smaller. */
  lemma {:induction false} PowerOfTwoDivides(p: int, q: int)
    requires IsPowerOfTwo(p) && IsPowerOfTwo(q) && p <= q
    ensures q % p == 0
    decreases p
  {
    if p == 1 {
      MultipleMod(1, q);
    } else {
      PowerOfTwoDivides(p / 2, q / 2);
      var k := (q / 2) / (p / 2);
      assert q / 2 == (p / 2) * k + (q / 2) % (p / 2);
      assert q == p * k;
      MultipleMod(p, k);
    }
  }

  /** Every power of two up to 2^32 divides the word modulus. */
  lemma PowerOfTwoDividesWord(p: int)
    requires IsPowerOfTwo(p) && p <= WORD
    ensures WORD % p == 0
  {
    Pow2Of30And32();
    Pow2IsPowerOfTwo(32);
    PowerOfTwoDivides(p, WORD);
  }

  // ---------------------------------------------------------------------------
  // Bitwise AND with a low mask

  /** Masking with `p - 1` for a power of two `p` keeps the remainder modulo `p`. */
  lemma {:induction false} BitAndLowMask(a: nat, p: int)
    requires IsPowerOfTwo(p)
    ensures BitAnd(a, p - 1) == a % p
    decreases p
  {
    if p != 1 {
      var e := p / 2;
      BitAndLowMask(a / 2, e);
      assert (p - 1) / 2 == e - 1 && (p - 1) % 2 == 1;
      assert BitAnd(a, p - 1) == 2 * BitAnd(a / 2, e - 1) + a % 2;
      HalveMod(a, e);
    }
  }

  /** The remainder modulo `2 * e` from the remainder of the halved value modulo `e`. */
  lemma HalveMod(a: nat, e: int)
    requires e > 0
    ensures a % (2 * e) == 2 * ((a / 2) % e) + a % 2
  {
    var q, r := (a / 2) / e, (a / 2) % e;
    assert a / 2 == e * q + r;
    assert a == 2 * (a / 2) + a % 2;
    assert a == (2 * e) * q + (2 * r + a % 2);
    DivModOfMixed(q, 2 * r + a % 2, 2 * e);
  }
}
