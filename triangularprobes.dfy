/**
 * The probe sequence of the grouped tables.  The table length L is 16 * n with n a power
 * of two; a probe starting at slot s < L jumps 16 slots further each step than the step
 * before (jumpDistance += 16; index += jumpDistance) and wraps with index & (L - 1).
 * Writing s = r + 16 * g0 with r < 16, the j-th probe is slot r + 16 * ((g0 + Tri(j)) % n):
 * every probe opens a window of 16 slots that is one of the n groups r + 16 * c .. r + 16 * c + 15,
 * and over n steps the groups reached are pairwise distinct, hence all of them.
 */
module TriangularProbes {
  import opened Bits

  /** The triangular numbers 0, 1, 3, 6, ... */
  function Tri(j: nat): nat {
    if j == 0 then 0 else Tri(j - 1) + j
  }

  /** The group the j-th probe from group g0 reaches. */
  function GroupAt(g0: nat, j: nat, n: nat): (c: nat)
    requires n > 0
    ensures c < n
  {
    (g0 + Tri(j)) % n
  }

  // ---------------------------------------------------------------------------------
  // Division facts, each from the uniqueness of quotient and remainder.

  lemma {:induction false} MulAtLeast(d: int, n: int)
    requires d >= 1 && n > 0
    ensures d * n >= n
    decreases d
  {
    if d > 1 {
      MulAtLeast(d - 1, n);
      assert d * n == (d - 1) * n + n;
    }
  }

  lemma {:induction false} ModUnique(x: int, n: int, q: int, r: int)
    requires n > 0 && 0 <= r < n && x == q * n + r
    ensures x % n == r && x / n == q
  {
    var q', r' := x / n, x % n;
    assert x == q' * n + r';
    var d := q - q';
    assert d * n == q * n - q' * n;
    assert d * n == r' - r;
    if q > q' {
      MulAtLeast(q - q', n);
    } else if q < q' {
      MulAtLeast(q' - q, n);
    }
  }

  lemma {:induction false} ModAddLeft(a: nat, b: nat, n: nat)
    requires n > 0
    ensures (a % n + b) % n == (a + b) % n
  {
    var q := a / n;
    var s := (a % n + b) / n;
    var t := (a % n + b) % n;
    assert a % n + b == s * n + t;
    assert a + b == (q + s) * n + t;
    ModUnique(a + b, n, q + s, t);
  }

  lemma {:induction false} SameMod(a: nat, b: nat, n: nat)
    requires n > 0 && a <= b && a % n == b % n
    ensures (b - a) % n == 0
  {
    assert a == (a / n) * n + a % n;
    assert b == (b / n) * n + b % n;
    assert b - a == (b / n - a / n) * n;
    ModUnique(b - a, n, b / n - a / n, 0);
  }

  // ---------------------------------------------------------------------------------
  // The slots a probe visits.

  /** One probe step in slot terms: from slot r + 16 * (group j) the jump of 16 * (j + 1)
      slots, wrapped at 16 * n, lands on slot r + 16 * (group j + 1). */
  lemma {:induction false} ProbeStep(r: nat, g0: nat, j: nat, n: nat)
    requires r < 16 && n > 0
    ensures (r + 16 * GroupAt(g0, j, n) + 16 * (j + 1)) % (16 * n) == r + 16 * GroupAt(g0, j + 1, n)
  {
    var g := GroupAt(g0, j, n);
    var g' := GroupAt(g0, j + 1, n);
    ModAddLeft(g0 + Tri(j), j + 1, n);
    assert g0 + Tri(j + 1) == g0 + Tri(j) + (j + 1);
    assert (g + (j + 1)) % n == g';
    SlotOfGroup(r, g + (j + 1), n);
  }

  /** Slot r + 16 * t wrapped at 16 * n is slot r + 16 * (t mod n). */
  lemma {:induction false} SlotOfGroup(r: nat, t: nat, n: nat)
    requires r < 16 && n > 0
    ensures (r + 16 * t) % (16 * n) == r + 16 * (t % n)
  {
    var q, u := t / n, t % n;
    assert t == q * n + u;
    assert r + 16 * t == q * (16 * n) + (r + 16 * u);
    ModUnique(r + 16 * t, 16 * n, q, r + 16 * u);
  }

  /** The first probe is the start slot itself. */
  lemma {:induction false} ProbeStart(s: nat, n: nat)
    requires n > 0 && s < 16 * n
    ensures s == s % 16 + 16 * GroupAt(s / 16, 0, n)
  {
    ModUnique(s / 16, n, 0, s / 16);
  }

  // ---------------------------------------------------------------------------------
  // Triangular numbers modulo a power of two.

  lemma {:induction false} TriDouble(j: nat)
    ensures 2 * Tri(j) == j * (j + 1)
  {
    if j > 0 {
      TriDouble(j - 1);
      assert (j - 1) * j + 2 * j == j * (j + 1);
    }
  }

  lemma {:induction false} TriMono(a: nat, b: nat)
    requires a <= b
    ensures Tri(a) <= Tri(b)
    decreases b - a
  {
    if a < b {
      TriMono(a, b - 1);
    }
  }

  /** Twice the gap between two triangular numbers factors as (b - a) * (a + b + 1). */
  lemma {:induction false} GapProduct(a: nat, b: nat)
    requires a <= b
    ensures (b - a) * (a + b + 1) == 2 * (Tri(b) - Tri(a))
  {
    TriDouble(a);
    TriDouble(b);
    assert (b - a) * (a + b + 1) == b * (b + 1) - a * (a + 1);
  }

  lemma {:induction false} OddTimesOdd(x: nat, y: nat)
    requires x % 2 == 1 && y % 2 == 1
    ensures (x * y) % 2 == 1
  {
    var a, b := x / 2, y / 2;
    assert x == 2 * a + 1 && y == 2 * b + 1;
    assert x * y == (2 * a * b + a + b) * 2 + 1;
    ModUnique(x * y, 2, 2 * a * b + a + b, 1);
  }

  /** An odd factor contributes no factor of two: if 2^k divides x * y with y odd, it
      divides x. */
  lemma {:induction false} OddFactor(k: nat, x: nat, y: nat)
    requires y % 2 == 1 && (x * y) % Pow2(k) == 0
    ensures x % Pow2(k) == 0
    decreases k
  {
    if k == 0 {
      ModUnique(x, 1, x, 0);
    } else {
      var p := Pow2(k - 1);
      var h := x / 2;
      HalveProduct(k, x, y);
      assert x == 2 * h;
      OddFactor(k - 1, h, y);
      DoubleMultiple(h, p);
    }
  }

  /** Halving an even x with 2^k dividing x * y, k > 0, leaves 2^(k - 1) dividing
      (x / 2) * y; x is even because an odd x would make x * y odd. */
  lemma {:induction false} HalveProduct(k: nat, x: nat, y: nat)
    requires k > 0 && y % 2 == 1 && (x * y) % Pow2(k) == 0
    ensures x % 2 == 0 && ((x / 2) * y) % Pow2(k - 1) == 0
  {
    var p := Pow2(k - 1);
    var m := (x * y) / Pow2(k);
    assert x * y == m * Pow2(k) + 0;
    assert x * y == (p * m) * 2;
    if x % 2 == 1 {
      OddTimesOdd(x, y);
      ModUnique(x * y, 2, p * m, 0);
    }
    var h := x / 2;
    assert x == 2 * h;
    assert 2 * (h * y) == 2 * (m * p);
    ModUnique(h * y, p, m, 0);
  }

  /** 2 * h is a multiple of 2p when h is a multiple of p. */
  lemma {:induction false} DoubleMultiple(h: nat, p: nat)
    requires p > 0 && h % p == 0
    ensures (2 * h) % (2 * p) == 0
  {
    var c := h / p;
    assert h == c * p + 0;
    assert 2 * h == c * (2 * p) + 0;
    ModUnique(2 * h, 2 * p, c, 0);
  }

  /** 2^k does not divide e * o for 0 < e < 2^k and o odd: it would have to divide e. */
  lemma {:induction false} OddMultipleBelow(k: nat, e: nat, o: nat)
    requires 0 < e < Pow2(k) && o % 2 == 1
    ensures (e * o) % Pow2(k) != 0
  {
    if (e * o) % Pow2(k) == 0 {
      OddFactor(k, e, o);
      ModUnique(e, Pow2(k), 0, e);
    }
  }

  /** Two positive numbers below 2^k of different parity: 2^k does not divide their
      product. */
  lemma {:induction false} ProductNotMultiple(k: nat, x: nat, y: nat)
    requires 0 < x < Pow2(k) && 0 < y < Pow2(k) && (x + y) % 2 == 1
    ensures (x * y) % Pow2(k) != 0
  {
    if y % 2 == 1 {
      OddMultipleBelow(k, x, y);
    } else {
      OddMultipleBelow(k, y, x);
      assert y * x == x * y;
    }
  }

  /** Half of a product of two numbers below 2^(k+1) of different parity is no multiple
      of 2^k. */
  lemma {:induction false} HalfProductNotMultiple(k: nat, x: nat, y: nat, d: nat)
    requires 0 < x < 2 * Pow2(k) && 0 < y < 2 * Pow2(k) && (x + y) % 2 == 1
    requires x * y == 2 * d
    ensures d % Pow2(k) != 0
  {
    if d % Pow2(k) == 0 {
      DoubleMultiple(d, Pow2(k));
      assert Pow2(k + 1) == 2 * Pow2(k);
      ProductNotMultiple(k + 1, x, y);
    }
  }

  /** 2^k does not divide Tri(b) - Tri(a) for a < b < 2^k. */
  lemma {:induction false} TriGap(k: nat, a: nat, b: nat)
    requires a < b < Pow2(k)
    ensures Tri(a) <= Tri(b) && (Tri(b) - Tri(a)) % Pow2(k) != 0
  {
    TriMono(a, b);
    GapProduct(a, b);
    assert (b - a + (a + b + 1)) % 2 == 1;
    HalfProductNotMultiple(k, b - a, a + b + 1, Tri(b) - Tri(a));
  }

  /** Distinct steps below n = 2^k reach distinct groups. */
  lemma {:induction false} GroupsDistinct(k: nat, g0: nat, a: nat, b: nat)
    requires a < b < Pow2(k)
    ensures GroupAt(g0, a, Pow2(k)) != GroupAt(g0, b, Pow2(k))
  {
    TriGap(k, a, b);
    if GroupAt(g0, a, Pow2(k)) == GroupAt(g0, b, Pow2(k)) {
      SameMod(g0 + Tri(a), g0 + Tri(b), Pow2(k));
    }
  }

  // ---------------------------------------------------------------------------------
  // Every group is reached.

  function Reached(g0: nat, n: nat, m: nat): set<nat>
    requires n > 0
  {
    set j | 0 <= j < m :: GroupAt(g0, j, n)
  }

  lemma {:induction false} ReachedCard(k: nat, g0: nat, m: nat)
    requires m <= Pow2(k)
    ensures |Reached(g0, Pow2(k), m)| == m
  {
    var n := Pow2(k);
    if m == 0 {
      assert Reached(g0, n, 0) == {};
    } else {
      ReachedCard(k, g0, m - 1);
      var before := Reached(g0, n, m - 1);
      var x := GroupAt(g0, m - 1, n);
      assert Reached(g0, n, m) == before + {x};
      if x in before {
        var a :| 0 <= a < m - 1 && GroupAt(g0, a, n) == x;
        GroupsDistinct(k, g0, a, m - 1);
      }
      assert before * {x} == {};
    }
  }

  /** The values below n. */
  function Below(n: nat): (s: set<nat>)
    ensures |s| == n
    ensures forall c: nat :: c in s <==> c < n
  {
    if n == 0 then {}
    else
      var s := Below(n - 1);
      assert n - 1 !in s;
      s + {n - 1}
  }

  lemma {:induction false} SubsetCard(a: set<nat>, b: set<nat>)
    requires a <= b
    ensures |a| <= |b|
  {
    assert b == a + (b - a);
  }

  /** Over n = 2^k steps the probe reaches every one of the n groups. */
  lemma {:induction false} GroupsCovered(k: nat, g0: nat, c: nat) returns (j: nat)
    requires c < Pow2(k)
    ensures j < Pow2(k) && GroupAt(g0, j, Pow2(k)) == c
  {
    var n := Pow2(k);
    var s := Reached(g0, n, n);
    ReachedCard(k, g0, n);
    if c !in s {
      assert s <= Below(n) - {c};
      assert |Below(n) - {c}| == n - 1;
      SubsetCard(s, Below(n) - {c});
    }
    j :| 0 <= j < n && GroupAt(g0, j, n) == c;
  }
}
