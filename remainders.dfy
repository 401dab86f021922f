/**
 * The three interchangeable ways `src/main.rs` wraps a coordinate into
 * `[0, p)`: `old` (truncating remainder, shifted and reduced again),
 * `old_p2` (two's-complement AND with `p - 1`) and `new`
 * (`i32::rem_euclid`). Each precondition is the domain on which the
 * source does not panic with overflow checks on (division by zero,
 * `i32::MIN % -1`, overflow).
 */
module Remainders {
  import opened RustInt

  /** `old(n, p) = ((n % p) + p) % p`. */
  function Old(n: i32, p: i32): (r: i32)
    requires p != 0 && !(n == I32_MIN && p == -1)
    requires IsI32(Rem(n, p) + p)
    ensures Abs(r) < Abs(p)
    ensures (n - r) % p == 0
    ensures p > 0 ==> r >= 0
  {
    var a := Rem(n, p);
    var s := a + p;
    var r := Rem(s, p);
    assert a - s == p * -1;
    MultipleMod(p, -1);
    CongruentTrans(a, s, r, p);
    CongruentTrans(n, a, r, p);
    r
  }

  /** `old_p2(n, p) = n & (p - 1)` on the two's-complement words. */
  function OldP2(n: i32, p: i32): (r: i32)
    requires p != I32_MIN
    ensures p > 0 ==> 0 <= r < p
  {
    AsI32(BitAnd(Bits(n), Bits(p - 1)))
  }

  /**
   * `new(n, p) = n.rem_euclid(p)`, as the standard library computes it:
   * the truncating remainder, plus `|p|` when it is negative. (For
   * `p == i32::MIN` the library's wrapping add of `wrapping_abs(p)` gives
   * the same value.)
   */
  function New(n: i32, p: i32): (r: i32)
    requires p != 0 && !(n == I32_MIN && p == -1)
    ensures 0 <= r < Abs(p)
    ensures (n - r) % p == 0
  {
    var a := Rem(n, p);
    if a < 0 then
      var r := a + Abs(p);
      assert a - r == p * (if p < 0 then 1 else -1);
      MultipleMod(p, if p < 0 then 1 else -1);
      CongruentTrans(n, a, r, p);
      r
    else
      a
  }

  /** For a positive divisor, `new` is the Euclidean remainder. */
  lemma NewIsEuclidean(n: i32, p: i32)
    requires p > 0
    ensures New(n, p) == n % p
  {
    EuclideanRemUnique(n, p, New(n, p));
  }

  /** For `0 < p <= 2^30`, `old` cannot overflow and agrees with `new`. */
  lemma OldEqualsNew(n: i32, p: i32)
    requires 0 < p <= 0x4000_0000
    ensures IsI32(Rem(n, p) + p)
    ensures Old(n, p) == New(n, p)
  {
    EuclideanRemUnique(n, p, Old(n, p));
    NewIsEuclidean(n, p);
  }

  /** For a positive power of two `p`, `old_p2` agrees with `new`. */
  lemma OldP2EqualsNew(n: i32, p: i32)
    requires IsPowerOfTwo(p)
    ensures OldP2(n, p) == New(n, p)
  {
    var u := Bits(n);
    assert Bits(p - 1) == p - 1;
    BitAndLowMask(u, p);
    PowerOfTwoDividesWord(p);
    DivisibleThrough(n - u, WORD, p);
    CongruentIff(n, u, p);
    NewIsEuclidean(n, p);
  }

  /** A multiple of a multiple of `p` is a multiple of `p`. */
  lemma DivisibleThrough(x: int, w: int, p: int)
    requires p > 0 && w > 0 && x % w == 0 && w % p == 0
    ensures x % p == 0
  {
    var a, b := x / w, w / p;
    assert x == w * a && w == p * b;
    MulAssoc(p, b, a);
    MultipleMod(p, b * a);
  }

  /** Without a positive divisor `old` and `new` differ: `old(5, -4) == -3` but `new(5, -4) == 1`. */
  lemma OldDiffersForNegativeDivisor()
    ensures Old(5, -4) == -3 && New(5, -4) == 1
  {
  }

  /** Without a power of two `old_p2` and `new` differ: `old_p2(1, 3) == 0` but `new(1, 3) == 1`. */
  lemma OldP2DiffersForNonPowerOfTwo()
    ensures OldP2(1, 3) == 0 && New(1, 3) == 1
  {
  }

  /** Above 2^30 the intermediate `(n % p) + p` of `old` can overflow. */
  lemma OldOverflowsAbove2To30()
    ensures !IsI32(Rem(I32_MAX - 1, I32_MAX) + I32_MAX)
  {
  }
}
