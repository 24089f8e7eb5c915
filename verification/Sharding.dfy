/** How many shards there are, and which one a hash belongs to, in machine arithmetic. */
module Sharding {
  import opened Arithmetic

  predicate PowerOfTwo(x: bv64) {
    x != 0 && x & (x - 1) == 0
  }

  /** Spreads every one downwards, by five doublings. */
  function Smear(x: bv64): bv64 {
    var a := x | (x >> 1);
    var b := a | (a >> 2);
    var c := b | (b >> 4);
    var d := c | (c >> 8);
    d | (d >> 16)
  }

  /** `n` is a signed 64-bit integer. */
  function NextPowerOfTwo(n: bv64): bv64 {
    if n == 0 || n >= 0x8000_0000_0000_0000 then 1 else Smear(n - 1) + 1
  }

  /** Up to 2^32 the result is the least power of two that is not below `n`. */
  lemma RoundsUp(n: bv64)
    requires 0 < n <= 0x1_0000_0000
    ensures PowerOfTwo(NextPowerOfTwo(n)) && NextPowerOfTwo(n) >= n && (n > 1 ==> NextPowerOfTwo(n) >> 1 < n)
    ensures n == 1 ==> NextPowerOfTwo(n) == 1
  {
  }

  /** Below the highest one of `x`, no 32 bits in a row are all zero. */
  predicate Dense(x: bv64)
    decreases x
  {
    x == 0 || (x & 0xFFFF_FFFF != 0 && Dense(x >> 1))
  }

  predicate AllOnes(y: bv64) {
    y & (y + 1) == 0
  }

  lemma OnesStep(y: bv64)
    ensures AllOnes(y) <==> y == 0 || (y & 1 == 1 && AllOnes(y >> 1))
  {
    hide AllOnes;
    OnesDown(y);
    OnesUp(y);
  }

  lemma OnesDown(y: bv64)
    ensures AllOnes(y) && y != 0 ==> y & 1 == 1 && AllOnes(y >> 1)
  {
  }

  lemma OnesUp(y: bv64)
    ensures y == 0 || (y & 1 == 1 && AllOnes(y >> 1)) ==> AllOnes(y)
  {
  }

  lemma SmearStep(x: bv64)
    ensures Smear(x >> 1) == Smear(x) >> 1
    ensures Smear(x) & 1 == 1 <==> x & 0xFFFF_FFFF != 0
    ensures Smear(x) == 0 <==> x == 0
  {
    hide Smear;
    SmearShifts(x);
    SmearLowest(x);
    SmearZero(x);
  }

  lemma SmearShifts(x: bv64)
    ensures Smear(x >> 1) == Smear(x) >> 1
  {
  }

  lemma SmearLowest(x: bv64)
    ensures Smear(x) & 1 == 1 <==> x & 0xFFFF_FFFF != 0
  {
  }

  lemma SmearZero(x: bv64)
    ensures Smear(x) == 0 <==> x == 0
  {
  }

  lemma {:induction false} SmearExact(x: bv64)
    ensures AllOnes(Smear(x)) <==> Dense(x)
    decreases x
  {
    hide Smear;
    hide AllOnes;
    SmearStep(x);
    OnesStep(Smear(x));
    if x != 0 {
      SmearExact(x >> 1);
    }
  }

  /** The positive counts `x + 1` that rounding gets right: at most 2^62, which is the
      largest signed power of two, and with no long gap in `x`, since five doublings reach
      32 bits. */
  predicate RoundsTo(x: bv64) {
    x < 0x4000_0000_0000_0000 && Dense(x)
  }

  predicate SignedPower(p: bv64) {
    PowerOfTwo(p) && p < 0x8000_0000_0000_0000
  }

  /** `p` is the least signed power of two above `x`: half of it is not above. */
  predicate LeastAbove(p: bv64, x: bv64) {
    SignedPower(p) && p > x && p >> 1 <= x
  }

  /** For every positive count the result is the least power of two that is not below it
      exactly when the count is one of those, and otherwise no signed power of two at all:
      a gap stays open, or beyond 2^62 the increment overflows to -2^63. */
  lemma RoundedExactly(x: bv64)
    requires x < 0x7FFF_FFFF_FFFF_FFFF
    ensures LeastAbove(NextPowerOfTwo(x + 1), x) <==> RoundsTo(x)
    ensures SignedPower(NextPowerOfTwo(x + 1)) <==> RoundsTo(x)
  {
    hide NextPowerOfTwo;
    hide PowerOfTwo;
    hide Dense;
    RoundedDense(x);
    RoundedUp(x);
    NotTwice(x);
    RoundedSign(x);
  }

  lemma RoundedDense(x: bv64)
    requires x < 0x7FFF_FFFF_FFFF_FFFF
    ensures PowerOfTwo(NextPowerOfTwo(x + 1)) <==> Dense(x)
  {
    hide Smear;
    hide AllOnes;
    hide Dense;
    SmearExact(x);
    SmearSmall(x);
    OnesIsPower(Smear(x));
  }

  lemma SmearSmall(x: bv64)
    requires x < 0x8000_0000_0000_0000
    ensures Smear(x) < 0x8000_0000_0000_0000
  {
  }

  lemma RoundedUp(x: bv64)
    requires x < 0x7FFF_FFFF_FFFF_FFFF
    ensures NextPowerOfTwo(x + 1) > x
  {
  }

  lemma NotTwice(x: bv64)
    requires x < 0x7FFF_FFFF_FFFF_FFFF
    ensures NextPowerOfTwo(x + 1) >> 1 <= x
  {
  }

  /** Up to 2^62 the result is a positive number; beyond, the only power of two left is the
      word of 2^63, which is negative. */
  lemma RoundedSign(x: bv64)
    requires x < 0x7FFF_FFFF_FFFF_FFFF
    ensures x < 0x4000_0000_0000_0000 ==> NextPowerOfTwo(x + 1) < 0x8000_0000_0000_0000
    ensures x >= 0x4000_0000_0000_0000 && PowerOfTwo(NextPowerOfTwo(x + 1)) ==>
              NextPowerOfTwo(x + 1) == 0x8000_0000_0000_0000
  {
  }

  /** A count whose rounding overflows: the word is that of -2^63. */
  lemma BeyondTwoToTheSixtyTwo()
    ensures NextPowerOfTwo(0x7FFF_FFFF_FFFF_FFFF) == 0x8000_0000_0000_0000
    ensures Dense(0x7FFF_FFFF_FFFF_FFFE)
  {
    SmearExact(0x7FFF_FFFF_FFFF_FFFE);
  }

  lemma OnesIsPower(y: bv64)
    requires y < 0x8000_0000_0000_0000
    ensures AllOnes(y) <==> PowerOfTwo(y + 1)
  {
  }

  /** The first count that is not rounded to a power of two.  It is out of reach of any
      configuration, which may ask for 4096 shards at most. */
  lemma BeyondThirtyTwoBits()
    ensures NextPowerOfTwo(0x1_0000_0001) == 0x1_FFFF_FFFF && !PowerOfTwo(0x1_FFFF_FFFF)
  {
  }

  /** The number that a word stands for, bit by bit. */
  function Number(x: bv64): nat
    decreases x
  {
    if x == 0 then 0 else 2 * Number(x >> 1) + if x & 1 == 1 then 1 else 0
  }

  lemma MaskStep(h: bv64, count: bv64)
    requires PowerOfTwo(count) && count != 1
    ensures count & 1 == 0 && PowerOfTwo(count >> 1)
    ensures (h & (count - 1)) >> 1 == (h >> 1) & ((count >> 1) - 1)
    ensures (h & (count - 1)) & 1 == h & 1
  {
  }

  lemma DoubledRemainder(a: nat, d: nat, bit: nat)
    requires d > 0 && bit <= 1
    ensures (2 * a + bit) % (2 * d) == 2 * (a % d) + bit
  {
    var q := a / d;
    assert a == q * d + a % d;
    assert 2 * a + bit == q * (2 * d) + (2 * (a % d) + bit);
    assert (q + 1) * (2 * d) == q * (2 * d) + 2 * d;
    QuotientUnique(2 * a + bit, 2 * d, q);
  }

  lemma {:induction false} NumberPositive(x: bv64)
    ensures x != 0 ==> Number(x) > 0
    decreases x
  {
    if x != 0 && x & 1 == 0 {
      ShiftedOut(x);
      NumberPositive(x >> 1);
    }
  }

  lemma ShiftedOut(x: bv64)
    ensures x != 0 && x & 1 == 0 ==> x >> 1 != 0
  {
  }

  /** Masking a hash is taking its remainder, for every power of two. */
  lemma {:induction false} MaskIsRemainder(h: bv64, count: bv64)
    requires PowerOfTwo(count)
    ensures Number(count) > 0 && Number(h & (count - 1)) == Number(h) % Number(count)
    decreases count
  {
    NumberPositive(count);
    if count == 1 {
      assert h & (count - 1) == 0;
      assert Number(count >> 1) == 0;
    } else {
      MaskStep(h, count);
      MaskIsRemainder(h >> 1, count >> 1);
      DoubledRemainder(Number(h >> 1), Number(count >> 1), if h & 1 == 1 then 1 else 0);
      NumberStep(h);
      NumberStep(count);
      NumberStep(h & (count - 1));
    }
  }

  lemma NumberStep(x: bv64)
    ensures Number(x) == 2 * Number(x >> 1) + if x & 1 == 1 then 1 else 0
  {
  }

  /** A masked hash is always the index of a shard. */
  lemma MaskInRange(h: bv64, count: bv64)
    requires PowerOfTwo(count)
    ensures h & (count - 1) < count
  {
  }

  /** The number of shards of an engine configured for `n`, a signed 64-bit integer; nothing
      positive means 64. */
  function ShardCount(n: bv64): (count: nat)
    ensures count > 0
  {
    var asked := if n == 0 || n >= 0x8000_0000_0000_0000 then 64 else n;
    NeverZero(asked);
    NumberPositive(NextPowerOfTwo(asked));
    Number(NextPowerOfTwo(asked))
  }

  lemma NeverZero(n: bv64)
    ensures NextPowerOfTwo(n) != 0
  {
  }

  lemma {:induction false} PowerIsPower(p: bv64)
    requires PowerOfTwo(p)
    ensures exists k: nat :: Number(p) == Pow2(k)
    decreases p
  {
    NumberStep(p);
    if p == 1 {
      assert Number(1 >> 1) == 0;
      assert Pow2(0) == 1;
    } else {
      MaskStep(p, p);
      PowerHalves(p);
      PowerIsPower(p >> 1);
      var k: nat :| Number(p >> 1) == Pow2(k);
      assert Number(p) == Pow2(k + 1);
    }
  }

  lemma PowerHalves(p: bv64)
    requires PowerOfTwo(p) && p != 1
    ensures p >> 1 < p && p & 1 == 0
  {
  }

  /** A count that is not positive means 64 shards; up to 2^32 there are as many as the
      rounded request says, a power of two. */
  lemma ShardCountIs(n: bv64)
    ensures n == 0 || n >= 0x8000_0000_0000_0000 ==> ShardCount(n) == 64
    ensures 0 < n <= 0x1_0000_0000 ==>
              ShardCount(n) == Number(NextPowerOfTwo(n)) && exists k: nat :: ShardCount(n) == Pow2(k)
  {
    if n == 0 || n >= 0x8000_0000_0000_0000 {
      SixtyFour();
    } else if n <= 0x1_0000_0000 {
      hide NextPowerOfTwo;
      RoundsUp(n);
      PowerIsPower(NextPowerOfTwo(n));
    }
  }

  lemma SixtyFour()
    ensures NextPowerOfTwo(64) == 64 && Number(64) == 64
  {
    assert Number(1) == 1 && Number(2) == 2 && Number(4) == 4 && Number(8) == 8;
    assert Number(16) == 16 && Number(32) == 32;
  }

  /** A count that is not positive is rounded to one. */
  lemma NothingPositive(n: bv64)
    requires n == 0 || n >= 0x8000_0000_0000_0000
    ensures NextPowerOfTwo(n) == 1
  {
  }
}
