/**
 * The 32-bit masks the grouped tables scan: one bit per slot of a 16-slot group, as
 * Vector128.ExtractMostSignificantBits produces them, visited lowest bit first with
 * BitOperations.TrailingZeroCount and ResetLowestSetBit.  Bit positions are bv32
 * values below 32.
 */
module BitMasks {

  /** Bit `p` of `m` is set. */
  predicate Bit(m: bv32, p: bv32) {
    p < 32 && (m >> p) & 1 == 1
  }

  /** No bit of `m` below position `p` is set. */
  predicate ClearBelow(m: bv32, p: bv32) {
    p <= 32 && (p == 32 ==> m == 0) && (p < 32 ==> m & ((1 << p) - 1) == 0)
  }

  /** The mask with bit `p` set as well. */
  function WithBit(m: bv32, p: bv32): (r: bv32)
    requires p < 32
  {
    m | (1 << p)
  }

  lemma {:induction false} WithBitSets(m: bv32, p: bv32, q: bv32)
    requires p < 32 && q < 32
    ensures Bit(WithBit(m, p), q) <==> Bit(m, q) || q == p
  {
  }

  /** ResetLowestSetBit(value): value & value - 1. */
  function ResetLowestSetBit(value: bv32): bv32 {
    value & (value - 1)
  }

  /** BitOperations.TrailingZeroCount: the position of the lowest set bit, 32 for 0. */
  function TrailingZeroCount(m: bv32): (t: bv32)
    ensures t <= 32
    ensures t == 32 <==> m == 0
    ensures t < 32 ==> Bit(m, t)
    ensures ClearBelow(m, t)
  {
    LowestFromIsLowest(m, 0);
    LowestFrom(m, 0)
  }

  function LowestFrom(m: bv32, p: bv32): (r: bv32)
    requires p <= 32
    ensures p <= r <= 32
    decreases 32 - p
  {
    if p == 32 then 32 else if Bit(m, p) then p else LowestFrom(m, p + 1)
  }

  lemma {:induction false} LowestFromIsLowest(m: bv32, p: bv32)
    requires p <= 32 && ClearBelow(m, p)
    ensures var r := LowestFrom(m, p);
      (r == 32 <==> m == 0) && (r < 32 ==> Bit(m, r)) && ClearBelow(m, r)
    decreases 32 - p
  {
    if p < 32 && !Bit(m, p) {
      ClearStep(m, p);
      LowestFromIsLowest(m, p + 1);
    } else if p < 32 {
      assert m != 0;
    }
  }

  lemma {:induction false} ClearStep(m: bv32, p: bv32)
    requires p < 32 && ClearBelow(m, p) && !Bit(m, p)
    ensures ClearBelow(m, p + 1)
  {
  }

  /** A bit below a clear boundary is not set. */
  lemma {:induction false} ClearBit(m: bv32, p: bv32, q: bv32)
    requires ClearBelow(m, p) && q < p
    ensures !Bit(m, q)
  {
  }

  /** ResetLowestSetBit clears exactly the lowest set bit. */
  lemma {:induction false} ResetClearsLowest(m: bv32, q: bv32)
    requires m != 0 && q < 32
    ensures Bit(ResetLowestSetBit(m), q) <==> Bit(m, q) && q != TrailingZeroCount(m)
  {
    ResetBit(m, TrailingZeroCount(m), q);
  }

  lemma {:induction false} ResetBit(m: bv32, t: bv32, q: bv32)
    requires t < 32 && q < 32 && Bit(m, t) && ClearBelow(m, t)
    ensures Bit(m & (m - 1), q) <==> Bit(m, q) && q != t
  {
  }

  /** The bit position for a slot offset d. */
  function Position(d: nat): (q: bv32)
    requires d < 32
    ensures q < 32 && q as int == d
  {
    if d == 0 then 0 else PositionStep(Position(d - 1)); Position(d - 1) + 1
  }

  lemma {:induction false} PositionStep(x: bv32)
    requires x < 31
    ensures (x + 1) as int == x as int + 1
  {
  }

  /** Positions compare as their offsets do. */
  lemma {:induction false} PositionOrder(a: bv32, b: bv32)
    requires a <= 32 && b <= 32
    ensures a < b <==> a as int < b as int
  {
  }

  /** Every set bit lies at or above the lowest one. */
  lemma {:induction false} LowestIsFirst(m: bv32, q: bv32)
    requires Bit(m, q)
    ensures TrailingZeroCount(m) <= q
  {
  }

  /** Clearing the lowest set bit moves the lowest set bit up. */
  lemma {:induction false} ResetRaisesLowest(m: bv32)
    requires m != 0
    ensures TrailingZeroCount(ResetLowestSetBit(m)) > TrailingZeroCount(m)
  {
    var t := TrailingZeroCount(ResetLowestSetBit(m));
    if t < 32 {
      ResetClearsLowest(m, t);
      LowestIsFirst(m, t);
    }
  }
}
