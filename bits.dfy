/**
 * The integer helpers the Robin Hood tables share: NextPow2 (bit smearing on a 32-bit
 * unsigned value) and Log2 (the bit length, by a shifting loop).
 */
module Bits {

  /** 2^k. */
  function Pow2(k: nat): (r: nat)
    ensures r >= 1
  {
    if k == 0 then 1 else 2 * Pow2(k - 1)
  }

  /** The number of binary digits of v: 0 for 0, otherwise 1 + the bit length of v / 2. */
  function BitLength(v: nat): nat {
    if v == 0 then 0 else 1 + BitLength(v / 2)
  }

  const Two32: nat := 0x1_0000_0000

  /** The source's NextPow2 on a 32-bit unsigned value.  It decrements c (0 wraps to
      2^32 - 1), smears the highest set bit into every lower position, which yields
      2^BitLength(c - 1) - 1, and increments, wrapping 2^32 to 0.  That is the closed
      form computed here. */
  function NextPow2(c: nat): (r: nat)
    requires c < Two32
    ensures r < Two32
  {
    Pow2(BitLength((c - 1) % Two32)) % Two32
  }

  lemma {:induction false} Pow2Mono(a: nat, b: nat)
    requires a <= b
    ensures Pow2(a) <= Pow2(b)
    decreases b - a
  {
    if a < b {
      Pow2Mono(a, b - 1);
    }
  }

  lemma {:induction false} Pow2Split(a: nat, b: nat)
    ensures Pow2(a + b) == Pow2(a) * Pow2(b)
    decreases a
  {
    if a > 0 {
      Pow2Split(a - 1, b);
    }
  }

  lemma {:induction false} Pow2At4()
    ensures Pow2(4) == 16
  {
  }

  lemma {:induction false} Pow2At32()
    ensures Pow2(32) == Two32 && Pow2(31) == 0x8000_0000
  {
    assert Pow2(2) == 4;
    Pow2Split(2, 2);
    Pow2Split(4, 4);
    Pow2Split(8, 8);
    assert Pow2(16) == 0x1_0000;
    Pow2Split(16, 16);
    assert Pow2(32) == 2 * Pow2(31);
  }

  /** For 1 <= c <= 2^31 NextPow2 gives the least power of two that is at least c. */
  lemma {:induction false} NextPow2Least(c: nat)
    requires 1 <= c <= 0x8000_0000
    ensures exists k: nat :: k <= 31 && NextPow2(c) == Pow2(k)
    ensures c <= NextPow2(c) < 2 * c
  {
    Pow2At32();
    var v := c - 1;
    assert (c - 1) % Two32 == v;
    var b := BitLength(v);
    BitLengthBounds(v);
    BitLengthAtMost(v, 31);
    Pow2Mono(b, 31);
    assert NextPow2(c) == Pow2(b);
    if v > 0 {
      assert Pow2(b) == 2 * Pow2(b - 1);
    }
  }

  /** Outside 1..2^31 the 32-bit arithmetic wraps to 0. */
  lemma {:induction false} NextPow2Wraps(c: nat)
    requires c < Two32 && (c == 0 || c > 0x8000_0000)
    ensures NextPow2(c) == 0
  {
    Pow2At32();
    var v := (c - 1) % Two32;
    assert v >= 0x8000_0000;
    var b := BitLength(v);
    BitLengthBounds(v);
    BitLengthAtMost(v, 32);
    if b <= 31 {
      Pow2Mono(b, 31);
      assert false;
    }
    assert b == 32;
  }

  /** The bit length brackets v between two consecutive powers of two. */
  lemma {:induction false} BitLengthBounds(v: nat)
    ensures v == 0 <==> BitLength(v) == 0
    ensures v > 0 ==> Pow2(BitLength(v) - 1) <= v < Pow2(BitLength(v))
  {
    if v > 1 {
      BitLengthBounds(v / 2);
    }
  }

  /** The bit length of 2^k is k + 1, so Log2 of a power-of-two capacity is one more
      than its exponent. */
  lemma {:induction false} BitLengthOfPow2(k: nat)
    ensures BitLength(Pow2(k)) == k + 1
  {
    if k > 0 {
      BitLengthOfPow2(k - 1);
      assert Pow2(k) / 2 == Pow2(k - 1);
    }
  }

  /** A value below 2^k has at most k binary digits. */
  lemma {:induction false} BitLengthAtMost(v: nat, k: nat)
    requires v < Pow2(k)
    ensures BitLength(v) <= k
  {
    if v > 0 {
      assert k > 0;
      BitLengthAtMost(v / 2, k - 1);
    }
  }

  /** The source's Log2: counts how many times the value can be shifted right before it
      reaches zero. */
  method Log2(value: nat) returns (c: nat)
    ensures c == BitLength(value)
  {
    var v := value;
    c := 0;
    while v > 0
      invariant c + BitLength(v) == BitLength(value)
    {
      c := c + 1;
      v := v / 2;
    }
  }
}
