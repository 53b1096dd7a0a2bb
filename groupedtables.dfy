/**
 * The grouped tables: RegistrationFactory and the delegate table inside
 * ExpressionFactory.  Two parallel arrays of length L + 16 hold the slots: `metadata`
 * keeps each slot's fragment (the low 7 bits of the key's hashcode, or -127 for an
 * empty slot) and `entries` its key and value.  A key's probe starts at its Fibonacci
 * hash (hashcode * 0x9E3779B9 mod 2^32) >> shift, which lies below L, and visits the
 * 16-slot windows that TriangularProbes describes; each window is scanned with
 * fragment masks.  An entry sits in the first window of its probe that had a free slot
 * when it was added, and slots are never emptied again, so every window before it is
 * full.  That is the invariant all lookups rest on.
 */
module GroupedTables {
  import opened Wrappers
  import opened Bits
  import opened BitMasks
  import opened TriangularProbes
  import opened MultiMaps

  /** The metadata of an empty slot. */
  const Empty: int := -127
  /** The metadata of a removed slot; neither table ever writes it. */
  const Tombstone: int := -126
  const GoldenRatio: nat := 0x9E37_79B9
  /** The largest length a table can have: doubling it makes the array size
      (int)length + 16 negative. */
  const MaxLength: nat := 0x4000_0000

  /** (uint)key.GetHashCode(): the two's complement reading of the 32-bit hash. */
  function HashCode<K>(hash: K -> int, key: K): (h: nat)
    ensures h < Two32
  {
    hash(key) % Two32
  }

  /** H2(hashcode): hashcode & 0b01111111, the fragment kept in the metadata. */
  function H2(hashcode: nat): (h: int)
    ensures 0 <= h < 128
  {
    hashcode % 128
  }

  /** hashcode * GoldenRatio >> shift, on 32-bit unsigned values. */
  function Home(hashcode: nat, shift: nat): int {
    ((hashcode * GoldenRatio) % Two32) / Pow2(shift)
  }

  /** The length of a table with 2^gl groups, and its shift 32 - Log2(length). */
  function LengthOf(gl: nat): nat {
    16 * Pow2(gl)
  }

  function ShiftOf(gl: nat): nat
    requires gl <= 28
  {
    28 - gl
  }

  lemma {:induction false} ShiftSpansHash(gl: nat)
    requires gl <= 28
    ensures Pow2(ShiftOf(gl)) * LengthOf(gl) == Two32
  {
    var a, b := Pow2(ShiftOf(gl)), Pow2(gl);
    Pow2Split(gl, 4);
    assert Pow2(4) == 16;
    assert Pow2(gl + 4) == LengthOf(gl);
    Pow2Split(ShiftOf(gl), gl + 4);
    assert ShiftOf(gl) + (gl + 4) == 32;
    Pow2At32();
  }

  /** The start index of a probe lies below the length. */
  lemma {:induction false} HomeBelow(hashcode: nat, gl: nat)
    requires gl <= 28
    ensures 0 <= Home(hashcode, ShiftOf(gl)) < LengthOf(gl)
  {
    var x := (hashcode * GoldenRatio) % Two32;
    ShiftSpansHash(gl);
    QuotientBelow(x, Pow2(ShiftOf(gl)), LengthOf(gl));
  }

  lemma {:induction false} QuotientBelow(x: nat, p: nat, l: nat)
    requires p > 0 && x < p * l
    ensures 0 <= x / p < l
  {
    var q := x / p;
    assert x == q * p + x % p;
    if q >= l {
      MulAtLeastBy(q, l, p);
    }
  }

  lemma {:induction false} MulAtLeastBy(a: nat, b: nat, p: nat)
    requires a >= b
    ensures a * p >= b * p
  {
    assert a * p == b * p + (a - b) * p;
  }

  /** Where the probe for `hashcode` starts in a table with 2^gl groups. */
  function StartOf(hashcode: nat, gl: nat): (s: nat)
    requires gl <= 28
    ensures s < LengthOf(gl)
  {
    HomeBelow(hashcode, gl);
    Home(hashcode, ShiftOf(gl))
  }

  /** The window the j-th step of a probe from `start` scans, in a table with 2^gl
      groups. */
  function WindowAt(start: nat, gl: nat, j: nat): (p: nat)
    ensures p < LengthOf(gl) && p % 16 == start % 16
  {
    start % 16 + 16 * GroupAt(start / 16, j, Pow2(gl))
  }

  // ---------------------------------------------------------------------------------
  // Windows and group masks.

  /** No slot of the window at p is free. */
  ghost predicate Filled(ms: seq<int>, p: int) {
    0 <= p && p + 16 <= |ms| && forall i :: p <= i < p + 16 ==> ms[i] >= 0
  }

  /** The first j windows of the probe from `start` are all filled. */
  ghost predicate FilledBefore(ms: seq<int>, start: nat, gl: nat, j: nat) {
    forall j' :: 0 <= j' < j ==> Filled(ms, WindowAt(start, gl, j'))
  }

  /** A mask keeps no bit at position 16 or above. */
  predicate Narrow(m: bv32) {
    m & 0xFFFF_0000 == 0
  }

  /** Vector128.Equals(...).ExtractMostSignificantBits() over the 16 slots from
      `index`: bit q is set when slot index + q passes `test`. */
  function GroupMask(ms: seq<int>, index: nat, test: int -> bool): bv32
    requires index + 16 <= |ms|
  {
    MaskBelow(ms, index, test, 16)
  }

  function MaskBelow(ms: seq<int>, index: nat, test: int -> bool, p: bv32): bv32
    requires p <= 16 && index + 16 <= |ms|
    decreases p
  {
    if p == 0 then 0
    else
      var m := MaskBelow(ms, index, test, p - 1);
      if test(ms[index + (p - 1) as int]) then WithBit(m, p - 1) else m
  }

  lemma {:induction false} MaskBelowBit(ms: seq<int>, index: nat, test: int -> bool, p: bv32, q: bv32)
    requires p <= 16 && index + 16 <= |ms| && q < 32
    ensures Narrow(MaskBelow(ms, index, test, p))
    ensures Bit(MaskBelow(ms, index, test, p), q) <==> q < p && test(ms[index + q as int])
    decreases p
  {
    if p > 0 {
      var m := MaskBelow(ms, index, test, p - 1);
      MaskBelowBit(ms, index, test, p - 1, q);
      if test(ms[index + (p - 1) as int]) {
        WithBitSets(m, p - 1, q);
        WithBitNarrow(m, p - 1);
      }
    }
  }

  lemma {:induction false} WithBitNarrow(m: bv32, p: bv32)
    requires Narrow(m) && p < 16
    ensures Narrow(WithBit(m, p))
  {
  }

  /** The mask of a group, bit by bit. */
  lemma {:induction false} GroupMaskBit(ms: seq<int>, index: nat, test: int -> bool, q: bv32)
    requires index + 16 <= |ms| && q < 32
    ensures Narrow(GroupMask(ms, index, test))
    ensures Bit(GroupMask(ms, index, test), q) <==> q < 16 && test(ms[index + q as int])
  {
    MaskBelowBit(ms, index, test, 16, q);
  }

  /** The lowest set bit of a narrow mask is one of the 16 slot positions, and clearing
      it keeps the mask narrow and makes it smaller. */
  lemma {:induction false} NarrowLowest(m: bv32)
    requires Narrow(m) && m != 0
    ensures TrailingZeroCount(m) < 16
    ensures Narrow(ResetLowestSetBit(m)) && ResetLowestSetBit(m) < m
  {
    var t := TrailingZeroCount(m);
    NarrowBit(m, t);
  }

  lemma {:induction false} NarrowBit(m: bv32, t: bv32)
    requires Narrow(m) && Bit(m, t)
    ensures t < 16
  {
  }

  // ---------------------------------------------------------------------------------
  // The layout invariant.

  /** The probe start of a key in a table with 2^gl groups. */
  function KeyStart<K>(hash: K -> int, key: K, gl: nat): nat
    requires gl <= 28
  {
    StartOf(HashCode(hash, key), gl)
  }

  /** Slot arrays of a table with 2^gl groups: L + 16 slots each. */
  ghost predicate Sized<K, V>(ms: seq<int>, es: seq<Entry<K, V>>, ranks: seq<nat>, gl: nat) {
    gl <= 26 && |ms| == LengthOf(gl) + 16 && |es| == |ms| && |ranks| == |ms|
  }

  /** Slot i lies in the j-th window of the probe from `start`, and every window before
      that one is filled. */
  ghost predicate Settled(ms: seq<int>, start: nat, gl: nat, j: nat, i: int) {
    j < Pow2(gl) && WindowAt(start, gl, j) <= i < WindowAt(start, gl, j) + 16 &&
    FilledBefore(ms, start, gl, j)
  }

  /** An empty slot reads -127; an occupied one holds its key's fragment and is settled
      at step ranks[i] of its key's probe. */
  ghost predicate SlotOk<K, V>(ms: seq<int>, es: seq<Entry<K, V>>, ranks: seq<nat>, hash: K -> int, gl: nat, i: int)
    requires Sized(ms, es, ranks, gl) && 0 <= i < |ms|
  {
    match es[i]
    case Vacant => ms[i] == Empty
    case Entry(k, _) => ms[i] == H2(HashCode(hash, k)) && Settled(ms, KeyStart(hash, k, gl), gl, ranks[i], i)
  }

  ghost predicate Layout<K, V>(ms: seq<int>, es: seq<Entry<K, V>>, ranks: seq<nat>, hash: K -> int, gl: nat) {
    Sized(ms, es, ranks, gl) && forall i :: 0 <= i < |ms| ==> SlotOk(ms, es, ranks, hash, gl, i)
  }

  /** Freshly filled arrays: every slot empty. */
  lemma {:induction false} FreshLayout<K, V>(ms: seq<int>, es: seq<Entry<K, V>>, ranks: seq<nat>, hash: K -> int, gl: nat)
    requires Sized(ms, es, ranks, gl)
    requires forall i :: 0 <= i < |ms| ==> ms[i] == Empty && es[i] == Vacant
    ensures Layout(ms, es, ranks, hash, gl) && Stored(es) == multiset{}
  {
    StoredVacant(es);
  }

  /** Writing a non-negative value never unfills a window. */
  lemma {:induction false} FilledGrows(ms: seq<int>, ms': seq<int>, start: nat, gl: nat, j: nat)
    requires |ms'| == |ms| && forall i :: 0 <= i < |ms| && ms[i] >= 0 ==> ms'[i] >= 0
    requires FilledBefore(ms, start, gl, j)
    ensures FilledBefore(ms', start, gl, j)
  {
    forall j' | 0 <= j' < j
      ensures Filled(ms', WindowAt(start, gl, j'))
    {
      assert Filled(ms, WindowAt(start, gl, j'));
    }
  }

  /** Storing an entry in an empty slot where it is settled keeps the layout. */
  lemma {:induction false} WriteKeepsLayout<K, V>(ms: seq<int>, es: seq<Entry<K, V>>, ranks: seq<nat>, hash: K -> int, gl: nat,
                                                  slot: int, e: Entry<K, V>, rank: nat)
    requires Layout(ms, es, ranks, hash, gl) && 0 <= slot < |ms| && es[slot].Vacant? && e.Entry?
    requires Settled(ms, KeyStart(hash, e.key, gl), gl, rank, slot)
    ensures Layout(ms[slot := H2(HashCode(hash, e.key))], es[slot := e], ranks[slot := rank], hash, gl)
  {
    var ms', es', ranks' := ms[slot := H2(HashCode(hash, e.key))], es[slot := e], ranks[slot := rank];
    assert Sized(ms', es', ranks', gl);
    forall i | 0 <= i < |ms'|
      ensures SlotOk(ms', es', ranks', hash, gl, i)
    {
      assert SlotOk(ms, es, ranks, hash, gl, i);
      var (start, j) := if i == slot then (KeyStart(hash, e.key, gl), rank)
                        else if es[i].Entry? then (KeyStart(hash, es[i].key, gl), ranks[i]) else (0, 0);
      if i == slot || es[i].Entry? {
        FilledGrows(ms, ms', start, gl, j);
      }
    }
  }

  /** Concatenation adds what the parts store. */
  lemma {:induction false} StoredConcat<K, V>(a: seq<Entry<K, V>>, b: seq<Entry<K, V>>)
    ensures Stored(a + b) == Stored(a) + Stored(b)
  {
    assert multiset(a + b) == multiset(a) + multiset(b);
  }

  /** A run of `len` occupied slots stores at least `len` entries. */
  lemma {:induction false} StoredCovers<K, V>(es: seq<Entry<K, V>>, lo: nat, len: nat)
    requires lo + len <= |es| && forall i :: lo <= i < lo + len ==> es[i].Entry?
    ensures |Stored(es)| >= len
  {
    var a, b, c := es[..lo], es[lo..lo + len], es[lo + len..];
    assert es == a + b + c;
    StoredConcat(a + b, c);
    StoredConcat(a, b);
    assert Vacant !in b;
    assert Stored(b) == multiset(b);
  }

  /** With fewer entries than the length, some window of every probe has a free slot:
      the n windows cover the L slots from the start's offset onwards. */
  lemma {:induction false} NotAllFilled<K, V>(ms: seq<int>, es: seq<Entry<K, V>>, ranks: seq<nat>, hash: K -> int, gl: nat, start: nat)
    requires Layout(ms, es, ranks, hash, gl) && start < LengthOf(gl) && |Stored(es)| < LengthOf(gl)
    ensures !FilledBefore(ms, start, gl, Pow2(gl))
  {
    var r := start % 16;
    if FilledBefore(ms, start, gl, Pow2(gl)) {
      forall i | r <= i < r + LengthOf(gl)
        ensures es[i].Entry?
      {
        var c, o := (i - r) / 16, (i - r) % 16;
        assert i == r + 16 * c + o;
        var j := GroupsCovered(gl, start / 16, c);
        assert WindowAt(start, gl, j) == r + 16 * c;
        assert Filled(ms, WindowAt(start, gl, j));
        assert ms[i] >= 0;
        assert SlotOk(ms, es, ranks, hash, gl, i);
      }
      StoredCovers(es, r, LengthOf(gl));
    }
  }

  /** What a probe that stops at step j may conclude: if window j has a free slot and no
      slot of windows 0..j is marked, where only entries of `key` can be marked, no slot
      is marked at all. */
  lemma {:induction false} AbsentBeyond<K, V>(ms: seq<int>, es: seq<Entry<K, V>>, ranks: seq<nat>, hash: K -> int, gl: nat,
                                              key: K, j: nat, marked: int -> bool)
    requires Layout(ms, es, ranks, hash, gl)
    requires !Filled(ms, WindowAt(KeyStart(hash, key, gl), gl, j))
    requires forall i :: 0 <= i < |es| && marked(i) ==> es[i].Entry? && es[i].key == key
    requires forall j', i :: 0 <= j' <= j && WindowAt(KeyStart(hash, key, gl), gl, j') <= i < WindowAt(KeyStart(hash, key, gl), gl, j') + 16 ==> !marked(i)
    ensures forall i :: 0 <= i < |es| ==> !marked(i)
  {
    forall i | 0 <= i < |es|
      ensures !marked(i)
    {
      assert SlotOk(ms, es, ranks, hash, gl, i);
    }
  }

  /** The windows of different steps of one probe share no slot. */
  lemma {:induction false} WindowsDisjoint(start: nat, gl: nat, a: nat, b: nat, i: int)
    requires a < b < Pow2(gl)
    requires WindowAt(start, gl, a) <= i < WindowAt(start, gl, a) + 16
    ensures !(WindowAt(start, gl, b) <= i < WindowAt(start, gl, b) + 16)
  {
    GroupsDistinct(gl, start / 16, a, b);
  }

  /** One slot of a group, as a bit position of its mask. */
  lemma {:induction false} SlotPosition(index: int, i: int) returns (q: bv32)
    requires index <= i < index + 16
    ensures q < 16 && index + q as int == i
  {
    q := Position(i - index);
    PositionOrder(q, 16);
  }

  /** A group mask of 0: no slot of the group passes the test. */
  lemma {:induction false} MaskNone(ms: seq<int>, index: nat, test: int -> bool)
    requires index + 16 <= |ms| && GroupMask(ms, index, test) == 0
    ensures forall i :: index <= i < index + 16 ==> !test(ms[i])
  {
    forall i | index <= i < index + 16
      ensures !test(ms[i])
    {
      var q := SlotPosition(index, i);
      GroupMaskBit(ms, index, test, q);
    }
  }

  /** A nonzero group mask: its lowest set bit marks the first slot of the group that
      passes the test. */
  lemma {:induction false} MaskLowest(ms: seq<int>, index: nat, test: int -> bool)
    requires index + 16 <= |ms| && GroupMask(ms, index, test) != 0
    ensures TrailingZeroCount(GroupMask(ms, index, test)) < 16
    ensures test(ms[index + TrailingZeroCount(GroupMask(ms, index, test)) as int])
    ensures forall i :: index <= i < index + TrailingZeroCount(GroupMask(ms, index, test)) as int ==> !test(ms[i])
  {
    var m := GroupMask(ms, index, test);
    var t := TrailingZeroCount(m);
    GroupMaskBit(ms, index, test, 0);
    NarrowLowest(m);
    GroupMaskBit(ms, index, test, t);
    forall i | index <= i < index + t as int
      ensures !test(ms[i])
    {
      var q := SlotPosition(index, i);
      PositionOrder(q, t);
      ClearBit(m, t, q);
      GroupMaskBit(ms, index, test, q);
    }
  }

  /** index + TrailingZeroCount(mask) for a nonzero group mask: the first slot of the
      group that passes the test. */
  function LowestSlot(ms: seq<int>, index: nat, test: int -> bool): (slot: nat)
    requires index + 16 <= |ms| && GroupMask(ms, index, test) != 0
    ensures index <= slot < index + 16 && test(ms[slot])
    ensures forall i :: index <= i < slot ==> !test(ms[i])
  {
    MaskLowest(ms, index, test);
    index + TrailingZeroCount(GroupMask(ms, index, test)) as int
  }

  // ---------------------------------------------------------------------------------
  // Construction: the normalised length and the resize thresholds.

  /** BitOperations.IsPow2 */
  predicate IsPow2(x: nat)
    decreases x
  {
    if x <= 1 then x == 1 else x % 2 == 0 && IsPow2(x / 2)
  }

  lemma {:induction false} IsPow2Exponent(x: nat) returns (k: nat)
    requires IsPow2(x)
    ensures x == Pow2(k)
    decreases x
  {
    if x <= 1 {
      k := 0;
    } else {
      var k' := IsPow2Exponent(x / 2);
      k := k' + 1;
    }
  }

  lemma {:induction false} Pow2IsPow2(k: nat)
    ensures IsPow2(Pow2(k))
  {
    if k > 0 {
      Pow2IsPow2(k - 1);
      assert Pow2(k) / 2 == Pow2(k - 1);
    }
  }

  /** IsPow2 holds exactly of the powers of two. */
  lemma {:induction false} IsPow2Exactly(x: nat)
    ensures IsPow2(x) <==> exists k: nat :: x == Pow2(k)
  {
    if IsPow2(x) {
      var k := IsPow2Exponent(x);
    }
    if exists k: nat :: x == Pow2(k) {
      var k: nat :| x == Pow2(k);
      Pow2IsPow2(k);
    }
  }

  /** The constructor's length: below 16 it is 16, a power of two is kept, anything else
      is rounded up to the next power of two. */
  function NormalLength(length: nat): nat
    requires length < Two32
  {
    if length < 16 then 16 else if IsPow2(length) then length else NextPow2(length)
  }

  /** The normalised length is the least power of two that is at least 16 and at least
      the requested length; a table of it has 2^(k - 4) groups. */
  lemma {:induction false} NormalLengthShape(length: nat) returns (k: nat)
    requires length <= MaxLength
    ensures 4 <= k <= 30 && NormalLength(length) == Pow2(k)
    ensures NormalLength(length) >= 16 && NormalLength(length) >= length
    ensures length >= 16 ==> NormalLength(length) < 2 * length
  {
    Pow2At32();
    assert Pow2(4) == 16;
    if length < 16 {
      k := 4;
    } else if IsPow2(length) {
      k := IsPow2Exponent(length);
    } else {
      NextPow2Least(length);
      k :| k <= 31 && NextPow2(length) == Pow2(k);
    }
    if k < 4 {
      Pow2Mono(k, 3);
    }
    if k > 30 {
      Pow2Mono(31, k);
    }
  }

  /** The table the constructor builds for a requested length: L = NormalLength(length)
      has 2^gl groups, and 32 - Log2(L) is its shift. */
  lemma {:induction false} ConstructedShape(length: nat) returns (gl: nat)
    requires length <= MaxLength
    ensures gl <= 26 && NormalLength(length) == LengthOf(gl)
    ensures 32 - (BitLength(NormalLength(length)) - 1) == ShiftOf(gl)
  {
    var k := NormalLengthShape(length);
    gl := GroupsOfLength(NormalLength(length), k);
  }

  lemma {:induction false} GroupsOfLength(n: nat, k: nat) returns (gl: nat)
    requires 4 <= k <= 30 && n == Pow2(k)
    ensures gl <= 26 && n == LengthOf(gl) && 32 - (BitLength(n) - 1) == ShiftOf(gl)
  {
    BitLengthOfPow2(k);
    gl := k - 4;
    Pow2Split(gl, 4);
    Pow2At4();
  }

  /** Resize doubles the length and takes one from the shift. */
  lemma {:induction false} GroupsDouble(gl: nat)
    requires gl < 28
    ensures LengthOf(gl + 1) == 2 * LengthOf(gl) && ShiftOf(gl + 1) == ShiftOf(gl) - 1
  {
  }

  /** The load factor, as the fraction num / den, capped at 0.9. */
  function CappedLoad(num: int, den: nat): (r: (int, nat))
    requires den > 0
    ensures r.1 > 0 && 10 * r.0 <= 9 * r.1
  {
    if 10 * num > 9 * den then (9, 10) else (num, den)
  }

  /** (uint)(length * loadFactor), which truncates, saturating at 0 for a negative
      product. */
  function FloorThreshold(length: nat, num: int, den: nat): int
    requires den > 0
  {
    if length * num < 0 then 0 else (length * num) / den
  }

  /** length * loadFactor as Resize keeps it, a double: an integer count reaches it
      exactly when it reaches this ceiling. */
  function CeilThreshold(length: nat, num: int, den: nat): int
    requires den > 0
  {
    (length * num + den - 1) / den
  }

  /** FloorThreshold truncates the product. */
  lemma {:induction false} FloorThresholdTruncates(length: nat, num: int, den: nat)
    requires den > 0 && length * num >= 0
    ensures FloorThreshold(length, num, den) * den <= length * num < (FloorThreshold(length, num, den) + 1) * den
  {
    var a := length * num;
    assert a == (a / den) * den + a % den;
  }

  /** Comparing a count with CeilThreshold is comparing it with length * num / den. */
  lemma {:induction false} CeilThresholdExact(length: nat, num: int, den: nat, count: int)
    requires den > 0
    ensures count >= CeilThreshold(length, num, den) <==> count * den >= length * num
  {
    var a := length * num + den - 1;
    var q := a / den;
    assert a == q * den + a % den;
    if count >= q {
      MulAtLeastInt(count, q, den);
    } else {
      MulAtLeastInt(q - 1, count, den);
    }
  }

  lemma {:induction false} MulAtLeastInt(a: int, b: int, p: nat)
    requires a >= b
    ensures a * p >= b * p
  {
    assert a * p == b * p + (a - b) * p;
  }

  /** With a load factor of at most 0.9 and at least 16 slots, both thresholds stay below
      the length, so the table always keeps a free slot. */
  lemma {:induction false} ThresholdBelow(length: nat, num: int, den: nat)
    requires length >= 16 && den > 0 && 10 * num <= 9 * den
    ensures FloorThreshold(length, num, den) <= length - 1
    ensures CeilThreshold(length, num, den) <= length - 1
  {
    var a := length * num;
    var d := 9 * den - 10 * num;
    MulAtLeastInt(d, 0, length);
    assert 10 * a + length * d == 9 * (length * den);
    MulAtLeastInt(length, 10, den);
    QuotientAtMost(a + den - 1, den, length - 1);
    if a >= 0 {
      QuotientAtMost(a, den, length - 1);
    }
  }

  lemma {:induction false} QuotientAtMost(a: int, d: nat, b: int)
    requires d > 0 && a < (b + 1) * d
    ensures a / d <= b
  {
    var q := a / d;
    assert a == q * d + a % d;
    if q > b {
      MulAtLeastInt(q, b + 1, d);
    }
  }

  /** The largest table has 2^26 groups. */
  /** No table is longer than MaxLength, which only a table of 2^26 groups reaches. */
  lemma {:induction false} LengthAtMost(gl: nat)
    requires gl <= 26
    ensures LengthOf(gl) <= MaxLength && (LengthOf(gl) == MaxLength <==> gl == 26)
  {
    MaxLengthGroups();
    if gl < 26 {
      Pow2Mono(gl, 25);
      assert Pow2(26) == 2 * Pow2(25);
    }
  }

  lemma {:induction false} MaxLengthGroups()
    ensures LengthOf(26) == MaxLength
  {
    Pow2At32();
    assert Pow2(31) == 2 * Pow2(30);
    Pow2Split(26, 4);
    assert Pow2(4) == 16;
  }

  // ---------------------------------------------------------------------------------
  // What the lookups report.

  /** An entry of `key` whose value the table's comparer takes for `value`. */
  ghost predicate Duplicate<K, V>(c: multiset<Entry<K, V>>, key: K, value: V, sameValue: (V, V) -> bool) {
    exists e :: e in c && e.Entry? && e.key == key && sameValue(e.value, value)
  }

  /** Slot `slot`, in window `step` of the probe from `start`, is the first slot of the
      probe that holds an entry of `key`. */
  ghost predicate FirstOfKey<K, V>(es: seq<Entry<K, V>>, start: nat, gl: nat, key: K, step: nat, slot: nat) {
    step < Pow2(gl) && WindowAt(start, gl, step) <= slot < WindowAt(start, gl, step) + 16 && slot < |es| &&
    (forall j', i :: 0 <= j' < step && WindowAt(start, gl, j') <= i < WindowAt(start, gl, j') + 16 && i < |es| ==>
       !(es[i].Entry? && es[i].key == key)) &&
    (forall i :: WindowAt(start, gl, step) <= i < slot ==> !(es[i].Entry? && es[i].key == key))
  }

  /** The values of the occupied slots, in index order. */
  function EntryValues<K, V>(es: seq<Entry<K, V>>): seq<V> {
    if |es| == 0 then []
    else EntryValues(es[..|es| - 1]) + (if es[|es| - 1].Entry? then [es[|es| - 1].value] else [])
  }

  /** Some entry of `c` holds the value `v`. */
  ghost predicate HoldsValue<K(!new), V>(c: multiset<Entry<K, V>>, v: V) {
    exists k :: Entry(k, v) in c
  }

  /** Values lists one value per stored entry, and exactly the values stored. */
  lemma {:induction false} EntryValuesStored<K(!new), V>(es: seq<Entry<K, V>>)
    ensures |EntryValues(es)| == |Stored(es)|
    ensures forall v :: v in EntryValues(es) <==> HoldsValue(Stored(es), v)
    decreases |es|
  {
    if |es| > 0 {
      var front, x := es[..|es| - 1], es[|es| - 1];
      assert es == front + [x];
      EntryValuesStored(front);
      StoredAppend(front, x);
      forall v | v in EntryValues(es)
        ensures HoldsValue(Stored(es), v)
      {
        if v in EntryValues(front) {
          assert HoldsValue(Stored(front), v);
          var k :| Entry(k, v) in Stored(front);
          assert Entry(k, v) in Stored(es);
        } else {
          assert Entry(x.key, v) in Stored(es);
        }
      }
      forall v | HoldsValue(Stored(es), v)
        ensures v in EntryValues(es)
      {
        var k :| Entry(k, v) in Stored(es);
        if Entry(k, v) !in Stored(front) {
          assert Entry(k, v) == x;
        } else {
          assert HoldsValue(Stored(front), v);
        }
      }
    }
  }

  /** Two slots holding the same entry store it twice. */
  lemma {:induction false} TwiceStored<K, V>(es: seq<Entry<K, V>>, a: int, b: int)
    requires 0 <= a < b < |es| && es[a] == es[b] && es[a].Entry?
    ensures Stored(es)[es[a]] >= 2
  {
    var x := es[a];
    var p, q, t := es[..a], es[a + 1..b], es[b + 1..];
    assert es == p + [x] + q + [x] + t;
    assert multiset(es) == multiset(p) + multiset{x} + multiset(q) + multiset{x} + multiset(t);
  }

  /** A prefix stores no more than the whole. */
  lemma {:induction false} StoredPrefixAtMost<K, V>(es: seq<Entry<K, V>>, i: nat)
    requires i <= |es|
    ensures |Stored(es[..i])| <= |Stored(es)|
  {
    assert es == es[..i] + es[i..];
    StoredConcat(es[..i], es[i..]);
  }

  /** What GetAll concludes from the slots it collected: every slot of `key`, each once. */
  lemma {:induction false} CollectedAll<K, V>(es: seq<Entry<K, V>>, key: K, slots: seq<nat>, r: seq<V>)
    requires |slots| == |r|
    requires forall a :: 0 <= a < |slots| ==> slots[a] < |es| && es[slots[a]] == Entry(key, r[a])
    requires forall a, b :: 0 <= a < b < |slots| ==> slots[a] != slots[b]
    requires forall i :: 0 <= i < |es| && es[i].Entry? && es[i].key == key ==> i in slots
    requires forall e :: Stored(es)[e] <= 1
    ensures forall v :: v in r <==> Entry(key, v) in Stored(es)
    ensures forall a, b :: 0 <= a < b < |r| ==> r[a] != r[b]
  {
    forall v | v in r
      ensures Entry(key, v) in Stored(es)
    {
      var a :| 0 <= a < |r| && r[a] == v;
      StoredHas(es, slots[a]);
    }
    forall v | Entry(key, v) in Stored(es)
      ensures v in r
    {
      var i := StoredWitness(es, Entry(key, v));
      var a :| 0 <= a < |slots| && slots[a] == i;
      assert r[a] == v;
    }
    forall a, b | 0 <= a < b < |r|
      ensures r[a] != r[b]
    {
      if r[a] == r[b] {
        var (x, y) := if slots[a] < slots[b] then (slots[a], slots[b]) else (slots[b], slots[a]);
        TwiceStored(es, x, y);
      }
    }
  }

  // ---------------------------------------------------------------------------------
  // Walking a probe over the layout.

  /** The first window of a probe starts at the probe's start. */
  lemma {:induction false} ProbeBegins(start: nat, gl: nat)
    requires start < LengthOf(gl)
    ensures WindowAt(start, gl, 0) == start
  {
    ProbeStart(start, Pow2(gl));
  }

  /** jumpDistance += 16; index += jumpDistance; index &= length - 1 moves from window j
      to window j + 1. */
  lemma {:induction false} ProbeAdvances(start: nat, gl: nat, j: nat, index: nat, jump: nat, length: nat)
    requires index == WindowAt(start, gl, j) && jump == 16 * (j + 1) && length == LengthOf(gl)
    ensures (index + jump) % length == WindowAt(start, gl, j + 1)
  {
    ProbeStep(start % 16, start / 16, j, Pow2(gl));
  }

  /** A filled window j extends the filled prefix of the probe. */
  lemma {:induction false} FilledStep(ms: seq<int>, start: nat, gl: nat, j: nat)
    requires FilledBefore(ms, start, gl, j)
    requires WindowAt(start, gl, j) + 16 <= |ms| && forall i :: WindowAt(start, gl, j) <= i < WindowAt(start, gl, j) + 16 ==> ms[i] >= 0
    ensures FilledBefore(ms, start, gl, j + 1)
  {
    assert Filled(ms, WindowAt(start, gl, j));
  }

  /** The probe stands at window j, at `index`, reached with jump `jump`, and every
      window before it is filled. */
  ghost predicate Probing(ms: seq<int>, start: nat, gl: nat, j: nat, index: nat, jump: nat) {
    j < Pow2(gl) && index == WindowAt(start, gl, j) && jump == 16 * j && FilledBefore(ms, start, gl, j)
  }

  /** The entries Emplace's duplicate test takes for (key, value). */
  function SameEntry<K(==), V>(key: K, value: V, sameValue: (V, V) -> bool): Entry<K, V> -> bool {
    (e: Entry<K, V>) => e.Entry? && e.key == key && sameValue(e.value, value)
  }

  /** The entries of `key`, which Get and GetAll look for. */
  function KeyEntry<K(==), V>(key: K): Entry<K, V> -> bool {
    (e: Entry<K, V>) => e.Entry? && e.key == key
  }

  /** No slot of windows 0..j-1 of the probe from `start` holds an entry that passes
      `wanted`. */
  ghost predicate Unwanted<K, V>(es: seq<Entry<K, V>>, start: nat, gl: nat, j: nat, wanted: Entry<K, V> -> bool) {
    forall j', i :: 0 <= j' < j && WindowAt(start, gl, j') <= i < WindowAt(start, gl, j') + 16 && i < |es| ==> !wanted(es[i])
  }

  lemma {:induction false} UnwantedStep<K, V>(es: seq<Entry<K, V>>, start: nat, gl: nat, j: nat, wanted: Entry<K, V> -> bool)
    requires Unwanted(es, start, gl, j, wanted)
    requires forall i :: WindowAt(start, gl, j) <= i < WindowAt(start, gl, j) + 16 && i < |es| ==> !wanted(es[i])
    ensures Unwanted(es, start, gl, j + 1, wanted)
  {
  }

  /** `wanted` only takes entries of `key`. */
  ghost predicate OfKey<K(!new), V(!new)>(key: K, wanted: Entry<K, V> -> bool) {
    forall e :: wanted(e) ==> e.Entry? && e.key == key
  }

  /** A slot whose fragment differs from the key's holds no entry of the key, so the
      fragment scan of a window sees every slot `wanted` could take. */
  lemma {:induction false} FragmentsSuffice<K(!new), V(!new)>(ms: seq<int>, es: seq<Entry<K, V>>, ranks: seq<nat>, hash: K -> int, gl: nat,
                                                   key: K, wanted: Entry<K, V> -> bool, lo: int, hi: int)
    requires Layout(ms, es, ranks, hash, gl) && 0 <= lo <= hi <= |ms| && OfKey(key, wanted)
    requires forall i :: lo <= i < hi && ms[i] == H2(HashCode(hash, key)) ==> !wanted(es[i])
    ensures forall i :: lo <= i < hi ==> !wanted(es[i])
  {
    forall i | lo <= i < hi
      ensures !wanted(es[i])
    {
      assert SlotOk(ms, es, ranks, hash, gl, i);
    }
  }

  /** A probe that found no wanted entry in windows 0..j, and a free slot in window j,
      proves that no stored entry is wanted. */
  lemma {:induction false} NoneWanted<K(!new), V(!new)>(ms: seq<int>, es: seq<Entry<K, V>>, ranks: seq<nat>, hash: K -> int, gl: nat,
                                             key: K, wanted: Entry<K, V> -> bool, j: nat)
    requires Layout(ms, es, ranks, hash, gl) && OfKey(key, wanted)
    requires Unwanted(es, KeyStart(hash, key, gl), gl, j + 1, wanted)
    requires !Filled(ms, WindowAt(KeyStart(hash, key, gl), gl, j))
    ensures forall e :: e in Stored(es) ==> !wanted(e)
  {
    var marked := i => 0 <= i < |es| && wanted(es[i]);
    AbsentBeyond(ms, es, ranks, hash, gl, key, j, marked);
    forall e | e in Stored(es)
      ensures !wanted(e)
    {
      var i := StoredWitness(es, e);
      assert !marked(i);
    }
  }

  /** A window none of whose slots reads -127 is filled: every other slot holds a
      fragment. */
  lemma {:induction false} NoEmptyFilled<K, V>(ms: seq<int>, es: seq<Entry<K, V>>, ranks: seq<nat>, hash: K -> int, gl: nat, index: nat)
    requires Layout(ms, es, ranks, hash, gl) && index + 16 <= |ms|
    requires forall i :: index <= i < index + 16 ==> ms[i] != Empty
    ensures Filled(ms, index)
  {
    forall i | index <= i < index + 16
      ensures ms[i] >= 0
    {
      assert SlotOk(ms, es, ranks, hash, gl, i);
    }
  }

  /** A slot with negative metadata is empty. */
  lemma {:induction false} NegativeIsVacant<K, V>(ms: seq<int>, es: seq<Entry<K, V>>, ranks: seq<nat>, hash: K -> int, gl: nat, i: int)
    requires Layout(ms, es, ranks, hash, gl) && 0 <= i < |ms| && ms[i] < 0
    ensures es[i].Vacant? && ms[i] == Empty
  {
    assert SlotOk(ms, es, ranks, hash, gl, i);
  }

  /** The mask of the free slots of the group at `index`: those whose metadata has its
      sign bit set. */
  /** The metadata of a free slot: its sign bit is set. */
  predicate IsFreeSlot(x: int) {
    x < 0
  }

  function FreeMask(ms: seq<int>, index: nat): bv32
    requires index + 16 <= |ms|
  {
    GroupMask(ms, index, IsFreeSlot)
  }

  /** A window without a free slot extends the filled prefix of the probe. */
  lemma {:induction false} NoFreeSlot(ms: seq<int>, start: nat, gl: nat, j: nat)
    requires FilledBefore(ms, start, gl, j) && WindowAt(start, gl, j) + 16 <= |ms|
    requires FreeMask(ms, WindowAt(start, gl, j)) == 0
    ensures FilledBefore(ms, start, gl, j + 1)
  {
    MaskNone(ms, WindowAt(start, gl, j), IsFreeSlot);
    FilledStep(ms, start, gl, j);
  }

  /** Slot `slot` is empty, and an entry written there is settled at step `rank` of the
      probe from `start`. */
  ghost predicate FreeAt<K, V>(ms: seq<int>, es: seq<Entry<K, V>>, start: nat, gl: nat, rank: nat, slot: nat) {
    slot < |ms| == |es| && es[slot].Vacant? && ms[slot] == Empty && Settled(ms, start, gl, rank, slot)
  }

  /** The first free slot of window j, which has one, is free for the key. */
  lemma {:induction false} FirstFreeSlot<K, V>(ms: seq<int>, es: seq<Entry<K, V>>, ranks: seq<nat>, hash: K -> int, gl: nat,
                                               key: K, j: nat)
    requires Layout(ms, es, ranks, hash, gl) && j < Pow2(gl)
    requires FilledBefore(ms, KeyStart(hash, key, gl), gl, j)
    requires FreeMask(ms, WindowAt(KeyStart(hash, key, gl), gl, j)) != 0
    ensures var index := WindowAt(KeyStart(hash, key, gl), gl, j);
      FreeAt(ms, es, KeyStart(hash, key, gl), gl, j, LowestSlot(ms, index, IsFreeSlot)) && !Filled(ms, index)
  {
    var index := WindowAt(KeyStart(hash, key, gl), gl, j);
    var slot := LowestSlot(ms, index, IsFreeSlot);
    NegativeIsVacant(ms, es, ranks, hash, gl, slot);
  }

  // ---------------------------------------------------------------------------------
  // The scan of one group for a fragment.

  /** The mask of the slots of the group at `index` whose fragment is h2. */
  function FragmentMask(ms: seq<int>, index: nat, h2: int): bv32
    requires index + 16 <= |ms|
  {
    GroupMask(ms, index, m => m == h2)
  }

  /** index + TrailingZeroCount(mask): the slot of the mask's lowest set bit, or
      index + 32 for an empty mask. */
  function BitSlot(index: nat, mask: bv32): nat {
    index + TrailingZeroCount(mask) as int
  }

  /** The scan's loop invariant: the bits still set are matching slots, and every
      matching slot whose bit is already cleared failed `wanted`. */
  ghost predicate Scanning<K, V>(ms: seq<int>, es: seq<Entry<K, V>>, index: nat, h2: int, wanted: Entry<K, V> -> bool, mask: bv32) {
    index + 16 <= |ms| && |es| == |ms| && Narrow(mask) &&
    (forall q: bv32 :: q < 32 && Bit(mask, q) ==> q < 16 && ms[index + q as int] == h2) &&
    (forall q: bv32 :: q < 16 && !Bit(mask, q) && ms[index + q as int] == h2 ==> !wanted(es[index + q as int]))
  }

  lemma {:induction false} ScanBegins<K, V>(ms: seq<int>, es: seq<Entry<K, V>>, index: nat, h2: int, wanted: Entry<K, V> -> bool)
    requires index + 16 <= |ms| && |es| == |ms|
    ensures Scanning(ms, es, index, h2, wanted, FragmentMask(ms, index, h2))
  {
    var mask := FragmentMask(ms, index, h2);
    forall q: bv32 | q < 32
      ensures Bit(mask, q) <==> q < 16 && ms[index + q as int] == h2
    {
      GroupMaskBit(ms, index, m => m == h2, q);
    }
    GroupMaskBit(ms, index, m => m == h2, 0);
  }

  /** The lowest set bit is a matching slot, and every matching slot before it failed. */
  lemma {:induction false} ScanFound<K, V>(ms: seq<int>, es: seq<Entry<K, V>>, index: nat, h2: int, wanted: Entry<K, V> -> bool, mask: bv32)
    requires Scanning(ms, es, index, h2, wanted, mask) && mask != 0
    ensures TrailingZeroCount(mask) < 16 && index <= BitSlot(index, mask) < index + 16 && ms[BitSlot(index, mask)] == h2
    ensures forall i :: index <= i < BitSlot(index, mask) && ms[i] == h2 ==> !wanted(es[i])
  {
    var bitPos := TrailingZeroCount(mask);
    NarrowLowest(mask);
    forall i | index <= i < index + bitPos as int && ms[i] == h2
      ensures !wanted(es[i])
    {
      var q := SlotPosition(index, i);
      PositionOrder(q, bitPos);
      ClearBit(mask, bitPos, q);
    }
  }

  /** Clearing the lowest bit after its slot failed keeps the invariant. */
  lemma {:induction false} ScanSteps<K, V>(ms: seq<int>, es: seq<Entry<K, V>>, index: nat, h2: int, wanted: Entry<K, V> -> bool, mask: bv32)
    requires Scanning(ms, es, index, h2, wanted, mask) && mask != 0
    requires TrailingZeroCount(mask) < 16 && !wanted(es[BitSlot(index, mask)])
    ensures Scanning(ms, es, index, h2, wanted, ResetLowestSetBit(mask)) && ResetLowestSetBit(mask) < mask
  {
    NarrowLowest(mask);
    forall q: bv32 | q < 32
      ensures Bit(ResetLowestSetBit(mask), q) <==> Bit(mask, q) && q != TrailingZeroCount(mask)
    {
      ResetClearsLowest(mask, q);
    }
    forall q: bv32 | q < 16 && !Bit(ResetLowestSetBit(mask), q) && ms[index + q as int] == h2
      ensures !wanted(es[index + q as int])
    {
      ResetClearsLowest(mask, q);
      if q != TrailingZeroCount(mask) {
        ScanCleared(ms, es, index, h2, wanted, mask, q);
      }
    }
  }

  /** A matching slot whose bit is clear failed `wanted`. */
  lemma {:induction false} ScanCleared<K, V>(ms: seq<int>, es: seq<Entry<K, V>>, index: nat, h2: int, wanted: Entry<K, V> -> bool, mask: bv32, q: bv32)
    requires Scanning(ms, es, index, h2, wanted, mask)
    requires q < 16 && !Bit(mask, q) && ms[index + q as int] == h2
    ensures !wanted(es[index + q as int])
  {
  }

  /** Once the mask is empty, no matching slot of the group passes. */
  lemma {:induction false} ScanEnds<K, V>(ms: seq<int>, es: seq<Entry<K, V>>, index: nat, h2: int, wanted: Entry<K, V> -> bool)
    requires Scanning(ms, es, index, h2, wanted, 0)
    ensures forall i :: index <= i < index + 16 && ms[i] == h2 ==> !wanted(es[i])
  {
    forall i | index <= i < index + 16 && ms[i] == h2
      ensures !wanted(es[i])
    {
      var q := SlotPosition(index, i);
      assert !Bit(0, q);
    }
  }

  // ---------------------------------------------------------------------------------
  // The scan of one group collecting every entry of a key.

  /** The bits of `mask` are matching slots of the group at `index`. */
  ghost predicate MaskMatches(ms: seq<int>, index: nat, h2: int, mask: bv32) {
    index + 16 <= |ms| && Narrow(mask) &&
    forall q: bv32 :: q < 32 && Bit(mask, q) ==> q < 16 && ms[index + q as int] == h2
  }

  /** Every matching slot of `key` whose bit is cleared is among `slots`. */
  ghost predicate ClearedCollected<K, V>(ms: seq<int>, es: seq<Entry<K, V>>, index: nat, h2: int, key: K, mask: bv32, slots: seq<nat>) {
    index + 16 <= |ms| && |es| == |ms| &&
    forall q: bv32 ::
      (q < 16 && !Bit(mask, q) && ms[index + q as int] == h2 && es[index + q as int].Entry? && es[index + q as int].key == key) ==>
      index + q as int in slots
  }

  /** The collected slots lie in the group below `bound`, in increasing order, and hold
      `key` with the collected values. */
  ghost predicate Collected<K, V>(es: seq<Entry<K, V>>, index: nat, key: K, slots: seq<nat>, vs: seq<V>, bound: int) {
    |vs| == |slots| &&
    (forall a :: 0 <= a < |slots| ==> index <= slots[a] < index + 16 && slots[a] < bound && slots[a] < |es|) &&
    (forall a :: 0 <= a < |slots| ==> es[slots[a]] == Entry(key, vs[a])) &&
    (forall a, b :: 0 <= a < b < |slots| ==> slots[a] < slots[b])
  }

  /** GetAll's inner loop invariant. */
  ghost predicate Collecting<K, V>(ms: seq<int>, es: seq<Entry<K, V>>, index: nat, h2: int, key: K, mask: bv32,
                                   slots: seq<nat>, vs: seq<V>) {
    MaskMatches(ms, index, h2, mask) && ClearedCollected(ms, es, index, h2, key, mask, slots) &&
    Collected(es, index, key, slots, vs, BitSlot(index, mask))
  }

  lemma {:induction false} CollectBegins<K, V>(ms: seq<int>, es: seq<Entry<K, V>>, index: nat, h2: int, key: K)
    requires index + 16 <= |ms| && |es| == |ms|
    ensures Collecting(ms, es, index, h2, key, FragmentMask(ms, index, h2), [], [])
  {
    var mask := FragmentMask(ms, index, h2);
    forall q: bv32 | q < 32
      ensures Bit(mask, q) <==> q < 16 && ms[index + q as int] == h2
    {
      GroupMaskBit(ms, index, m => m == h2, q);
    }
    GroupMaskBit(ms, index, m => m == h2, 0);
  }

  /** The lowest set bit is a matching slot; without it the mask still matches, and its
      lowest bit lies higher. */
  lemma {:induction false} MaskStep(ms: seq<int>, index: nat, h2: int, mask: bv32)
    requires MaskMatches(ms, index, h2, mask) && mask != 0
    ensures TrailingZeroCount(mask) < 16 && index <= BitSlot(index, mask) < index + 16 && ms[BitSlot(index, mask)] == h2
    ensures MaskMatches(ms, index, h2, ResetLowestSetBit(mask)) && ResetLowestSetBit(mask) < mask
    ensures BitSlot(index, mask) < BitSlot(index, ResetLowestSetBit(mask))
  {
    NarrowLowest(mask);
    MaskLowestMatches(ms, index, h2, mask);
    MaskResetMatches(ms, index, h2, mask);
    BitSlotRises(index, mask);
  }

  lemma {:induction false} MaskLowestMatches(ms: seq<int>, index: nat, h2: int, mask: bv32)
    requires MaskMatches(ms, index, h2, mask) && mask != 0
    ensures TrailingZeroCount(mask) < 16 && index <= BitSlot(index, mask) < index + 16 && ms[BitSlot(index, mask)] == h2
  {
    NarrowLowest(mask);
  }

  lemma {:induction false} MaskResetMatches(ms: seq<int>, index: nat, h2: int, mask: bv32)
    requires MaskMatches(ms, index, h2, mask) && mask != 0
    ensures MaskMatches(ms, index, h2, ResetLowestSetBit(mask))
  {
    NarrowLowest(mask);
    forall q: bv32 | q < 32 && Bit(ResetLowestSetBit(mask), q)
      ensures Bit(mask, q)
    {
      ResetClearsLowest(mask, q);
    }
  }

  lemma {:induction false} BitSlotRises(index: nat, mask: bv32)
    requires mask != 0
    ensures BitSlot(index, mask) < BitSlot(index, ResetLowestSetBit(mask))
  {
    ResetRaisesLowest(mask);
    SlotOrder(index, TrailingZeroCount(mask), TrailingZeroCount(ResetLowestSetBit(mask)));
  }

  /** A mask's first slot lies at most a group width past the group's start. */
  lemma {:induction false} SlotBound(index: nat, mask: bv32)
    ensures BitSlot(index, mask) <= index + 32
  {
    PositionOrder(TrailingZeroCount(mask), 32);
  }

  lemma {:induction false} SlotOrder(index: nat, a: bv32, b: bv32)
    requires a < b <= 32
    ensures index + a as int < index + b as int
  {
    PositionOrder(a, b);
  }

  lemma {:induction false} ClearedStep<K, V>(ms: seq<int>, es: seq<Entry<K, V>>, index: nat, h2: int, key: K, mask: bv32,
                                             slots: seq<nat>, slots': seq<nat>)
    requires ClearedCollected(ms, es, index, h2, key, mask, slots) && mask != 0 && TrailingZeroCount(mask) < 16
    requires forall i :: i in slots ==> i in slots'
    requires var s := BitSlot(index, mask); es[s].Entry? && es[s].key == key ==> s in slots'
    ensures ClearedCollected(ms, es, index, h2, key, ResetLowestSetBit(mask), slots')
  {
    forall q: bv32 | q < 16 && !Bit(ResetLowestSetBit(mask), q) && ms[index + q as int] == h2 &&
      es[index + q as int].Entry? && es[index + q as int].key == key
      ensures index + q as int in slots'
    {
      ResetClearsLowest(mask, q);
      if q != TrailingZeroCount(mask) {
        CollectCleared(ms, es, index, h2, key, mask, slots, q);
      }
    }
  }

  lemma {:induction false} CollectCleared<K, V>(ms: seq<int>, es: seq<Entry<K, V>>, index: nat, h2: int, key: K, mask: bv32,
                                                slots: seq<nat>, q: bv32)
    requires ClearedCollected(ms, es, index, h2, key, mask, slots)
    requires q < 16 && !Bit(mask, q) && ms[index + q as int] == h2
    requires es[index + q as int].Entry? && es[index + q as int].key == key
    ensures index + q as int in slots
  {
  }

  lemma {:induction false} CollectedStep<K, V>(es: seq<Entry<K, V>>, index: nat, key: K, slots: seq<nat>, vs: seq<V>,
                                               s: int, bound: int, slots': seq<nat>, vs': seq<V>)
    requires Collected(es, index, key, slots, vs, s) && index <= s < index + 16 && s < |es| && s < bound
    requires (slots', vs') == if es[s].Entry? && es[s].key == key then (slots + [s], vs + [es[s].value]) else (slots, vs)
    ensures Collected(es, index, key, slots', vs', bound)
    ensures forall i :: i in slots ==> i in slots'
    ensures es[s].Entry? && es[s].key == key ==> s in slots'
  {
  }

  /** Clearing the lowest bit, after collecting its slot when it holds the key, keeps the
      invariant. */
  lemma {:induction false} CollectSteps<K, V>(ms: seq<int>, es: seq<Entry<K, V>>, index: nat, h2: int, key: K, mask: bv32,
                                              slots: seq<nat>, vs: seq<V>, s: nat, e: Entry<K, V>, slots': seq<nat>, vs': seq<V>)
    requires Collecting(ms, es, index, h2, key, mask, slots, vs) && mask != 0
    requires s == BitSlot(index, mask) && s < |es| && e == es[s]
    requires slots' == (if e.Entry? && e.key == key then slots + [s] else slots)
    requires vs' == (if e.Entry? && e.key == key then vs + [e.value] else vs)
    ensures Collecting(ms, es, index, h2, key, ResetLowestSetBit(mask), slots', vs')
    ensures BitSlot(index, mask) < BitSlot(index, ResetLowestSetBit(mask)) <= index + 32
  {
    MaskStep(ms, index, h2, mask);
    SlotBound(index, ResetLowestSetBit(mask));
    CollectedStep(es, index, key, slots, vs, s, BitSlot(index, ResetLowestSetBit(mask)), slots', vs');
    ClearedStep(ms, es, index, h2, key, mask, slots, slots');
  }

  /** Every slot of the group at `index` whose fragment is h2 and whose key is `key` is
      among `slots`. */
  ghost predicate GroupCollected<K, V>(ms: seq<int>, es: seq<Entry<K, V>>, index: nat, h2: int, key: K, slots: seq<nat>) {
    forall i :: index <= i < index + 16 && i < |ms| && i < |es| && ms[i] == h2 && es[i].Entry? && es[i].key == key ==> i in slots
  }

  /** Once the mask is empty, every matching slot of the key was collected. */
  lemma {:induction false} CollectEnds<K, V>(ms: seq<int>, es: seq<Entry<K, V>>, index: nat, h2: int, key: K,
                                             slots: seq<nat>, vs: seq<V>)
    requires Collecting(ms, es, index, h2, key, 0, slots, vs)
    ensures Collected(es, index, key, slots, vs, index + 16) && GroupCollected(ms, es, index, h2, key, slots)
  {
    forall i | index <= i < index + 16 && ms[i] == h2 && es[i].Entry? && es[i].key == key
      ensures i in slots
    {
      var q := SlotPosition(index, i);
      assert !Bit(0, q);
      CollectCleared(ms, es, index, h2, key, 0, slots, q);
    }
  }

  // ---------------------------------------------------------------------------------
  // Get's stop test and GetAll's accumulated result.

  /** The mask of the slots of the group at `index` that read -127. */
  /** The metadata of an empty slot. */
  predicate IsEmptySlot(x: int) {
    x == Empty
  }

  function EmptyMask(ms: seq<int>, index: nat): bv32
    requires index + 16 <= |ms|
  {
    GroupMask(ms, index, IsEmptySlot)
  }

  /** A window with an empty slot is not filled. */
  lemma {:induction false} EmptyInWindow(ms: seq<int>, index: nat)
    requires index + 16 <= |ms| && EmptyMask(ms, index) != 0
    ensures !Filled(ms, index)
  {
    var slot := LowestSlot(ms, index, IsEmptySlot);
    assert ms[slot] < 0;
  }

  /** A window without an empty slot extends the filled prefix of the probe. */
  lemma {:induction false} NoEmptySlot<K, V>(ms: seq<int>, es: seq<Entry<K, V>>, ranks: seq<nat>, hash: K -> int, gl: nat,
                                             start: nat, j: nat)
    requires Layout(ms, es, ranks, hash, gl) && FilledBefore(ms, start, gl, j)
    requires WindowAt(start, gl, j) + 16 <= |ms| && EmptyMask(ms, WindowAt(start, gl, j)) == 0
    ensures FilledBefore(ms, start, gl, j + 1)
  {
    var index := WindowAt(start, gl, j);
    MaskNone(ms, index, IsEmptySlot);
    NoEmptyFilled(ms, es, ranks, hash, gl, index);
    FilledStep(ms, start, gl, j);
  }

  /** GetAll's outer loop invariant after j windows of the probe from `start`: r holds the
      values of `slots`, each slot of `key` lying in the window steps[a] < j, no slot
      twice, and every slot of `key` in those windows among them. */
  ghost predicate Gathered<K, V>(es: seq<Entry<K, V>>, start: nat, gl: nat, key: K, j: nat,
                                 slots: seq<nat>, steps: seq<nat>, r: seq<V>) {
    j <= Pow2(gl) && |slots| == |r| && |steps| == |r| &&
    (forall a :: 0 <= a < |slots| ==> steps[a] < j && WindowAt(start, gl, steps[a]) <= slots[a] < WindowAt(start, gl, steps[a]) + 16) &&
    (forall a :: 0 <= a < |slots| ==> slots[a] < |es| && es[slots[a]] == Entry(key, r[a])) &&
    (forall a, b :: 0 <= a < b < |slots| ==> slots[a] != slots[b]) &&
    (forall j', i ::
       (0 <= j' < j && WindowAt(start, gl, j') <= i < WindowAt(start, gl, j') + 16 && i < |es| && es[i].Entry? && es[i].key == key) ==>
       i in slots)
  }

  /** GetAll's outer loop invariant at window j of the probe, which sits at `index` and
      was reached with jump `jump`. */
  ghost predicate Gathering<K, V>(ms: seq<int>, es: seq<Entry<K, V>>, start: nat, gl: nat, key: K, j: nat, index: nat, jump: nat,
                                  slots: seq<nat>, steps: seq<nat>, r: seq<V>) {
    Probing(ms, start, gl, j, index, jump) && Gathered(es, start, gl, key, j, slots, steps, r)
  }

  lemma {:induction false} GatherBegins<K, V>(es: seq<Entry<K, V>>, start: nat, gl: nat, key: K)
    ensures Gathered(es, start, gl, key, 0, [], [], [])
  {
  }

  /** Appending the slots collected in window j keeps the slots in their windows. */
  lemma {:induction false} GatherPlaces<K, V>(es: seq<Entry<K, V>>, start: nat, gl: nat, key: K, j: nat,
                                              slots: seq<nat>, steps: seq<nat>, r: seq<V>, group: seq<nat>, vs: seq<V>)
    requires Gathered(es, start, gl, key, j, slots, steps, r) && j < Pow2(gl)
    requires Collected(es, WindowAt(start, gl, j), key, group, vs, WindowAt(start, gl, j) + 16)
    ensures var slots', steps', r' := slots + group, steps + seq(|group|, _ => j), r + vs;
      |slots'| == |r'| && |steps'| == |r'| &&
      (forall a :: 0 <= a < |slots'| ==> steps'[a] < j + 1 && WindowAt(start, gl, steps'[a]) <= slots'[a] < WindowAt(start, gl, steps'[a]) + 16) &&
      (forall a :: 0 <= a < |slots'| ==> slots'[a] < |es| && es[slots'[a]] == Entry(key, r'[a]))
  {
    var slots', steps', r' := slots + group, steps + seq(|group|, _ => j), r + vs;
    forall a | 0 <= a < |slots'|
      ensures steps'[a] < j + 1 && WindowAt(start, gl, steps'[a]) <= slots'[a] < WindowAt(start, gl, steps'[a]) + 16
      ensures slots'[a] < |es| && es[slots'[a]] == Entry(key, r'[a])
    {
      if a >= |slots| {
        assert steps'[a] == j && slots'[a] == group[a - |slots|] && r'[a] == vs[a - |slots|];
      } else {
        assert steps'[a] == steps[a] && slots'[a] == slots[a] && r'[a] == r[a];
      }
    }
  }

  /** Slots of window j are new: the earlier windows of the probe do not share them. */
  lemma {:induction false} GatherDistinct<K, V>(es: seq<Entry<K, V>>, start: nat, gl: nat, key: K, j: nat,
                                                slots: seq<nat>, steps: seq<nat>, r: seq<V>, group: seq<nat>, vs: seq<V>)
    requires Gathered(es, start, gl, key, j, slots, steps, r) && j < Pow2(gl)
    requires Collected(es, WindowAt(start, gl, j), key, group, vs, WindowAt(start, gl, j) + 16)
    ensures forall a, b :: 0 <= a < b < |slots + group| ==> (slots + group)[a] != (slots + group)[b]
  {
    var slots' := slots + group;
    forall a, b | 0 <= a < b < |slots'|
      ensures slots'[a] != slots'[b]
    {
      if b >= |slots| && a < |slots| {
        assert slots'[b] == group[b - |slots|] && slots'[a] == slots[a];
        WindowsDisjoint(start, gl, steps[a], j, slots[a]);
      } else if a >= |slots| {
        assert slots'[a] == group[a - |slots|] && slots'[b] == group[b - |slots|];
      }
    }
  }

  /** Every slot of `key` in window j is collected: its fragment is the key's. */
  lemma {:induction false} GatherComplete<K, V>(ms: seq<int>, es: seq<Entry<K, V>>, ranks: seq<nat>, hash: K -> int, gl: nat,
                                                key: K, j: nat, slots: seq<nat>, steps: seq<nat>, r: seq<V>, group: seq<nat>)
    requires Layout(ms, es, ranks, hash, gl) && Gathered(es, KeyStart(hash, key, gl), gl, key, j, slots, steps, r)
    requires GroupCollected(ms, es, WindowAt(KeyStart(hash, key, gl), gl, j), H2(HashCode(hash, key)), key, group)
    ensures var start := KeyStart(hash, key, gl);
      forall j', i ::
        (0 <= j' < j + 1 && WindowAt(start, gl, j') <= i < WindowAt(start, gl, j') + 16 && i < |es| && es[i].Entry? && es[i].key == key) ==>
        i in slots + group
  {
    var start := KeyStart(hash, key, gl);
    forall j', i | 0 <= j' < j + 1 && WindowAt(start, gl, j') <= i < WindowAt(start, gl, j') + 16 && i < |es| &&
        es[i].Entry? && es[i].key == key
      ensures i in slots + group
    {
      if j' == j {
        assert SlotOk(ms, es, ranks, hash, gl, i);
      }
    }
  }

  /** Window j's collected slots and values extend the gathered result. */
  lemma {:induction false} GatherSteps<K, V>(ms: seq<int>, es: seq<Entry<K, V>>, ranks: seq<nat>, hash: K -> int, gl: nat,
                                             key: K, j: nat, slots: seq<nat>, steps: seq<nat>, r: seq<V>, group: seq<nat>, vs: seq<V>)
    requires Layout(ms, es, ranks, hash, gl) && j < Pow2(gl)
    requires Gathered(es, KeyStart(hash, key, gl), gl, key, j, slots, steps, r)
    requires Collected(es, WindowAt(KeyStart(hash, key, gl), gl, j), key, group, vs, WindowAt(KeyStart(hash, key, gl), gl, j) + 16)
    requires GroupCollected(ms, es, WindowAt(KeyStart(hash, key, gl), gl, j), H2(HashCode(hash, key)), key, group)
    ensures Gathered(es, KeyStart(hash, key, gl), gl, key, j + 1, slots + group, steps + seq(|group|, _ => j), r + vs)
  {
    var start := KeyStart(hash, key, gl);
    GatherPlaces(es, start, gl, key, j, slots, steps, r, group, vs);
    GatherDistinct(es, start, gl, key, j, slots, steps, r, group, vs);
    GatherComplete(ms, es, ranks, hash, gl, key, j, slots, steps, r, group);
  }

  /** A window with an empty slot ends the probe: the gathered values are those of every
      stored entry of `key`, each once when no entry is stored twice. */
  lemma {:induction false} GatherEnds<K, V>(ms: seq<int>, es: seq<Entry<K, V>>, ranks: seq<nat>, hash: K -> int, gl: nat,
                                            key: K, j: nat, slots: seq<nat>, steps: seq<nat>, r: seq<V>)
    requires Layout(ms, es, ranks, hash, gl) && forall e :: Stored(es)[e] <= 1
    requires Gathered(es, KeyStart(hash, key, gl), gl, key, j + 1, slots, steps, r)
    requires !Filled(ms, WindowAt(KeyStart(hash, key, gl), gl, j))
    ensures forall v :: v in r <==> Entry(key, v) in Stored(es)
    ensures forall a, b :: 0 <= a < b < |r| ==> r[a] != r[b]
  {
    var marked := i => 0 <= i < |es| && es[i].Entry? && es[i].key == key && i !in slots;
    AbsentBeyond(ms, es, ranks, hash, gl, key, j, marked);
    forall i | 0 <= i < |es| && es[i].Entry? && es[i].key == key
      ensures i in slots
    {
      assert !marked(i);
    }
    CollectedAll(es, key, slots, r);
  }

  // ---------------------------------------------------------------------------------

  /** RegistrationFactory, and the table half of ExpressionFactory. */
  class GroupedTable<K(==,!new), V(==,!new)> {
    /** key.GetHashCode() */
    const hash: K -> int
    /** The second half of Emplace's duplicate test: RegistrationEqualityComparer.Equals
        on the values for RegistrationFactory, always true for ExpressionFactory, which
        compares keys only. */
    const sameValue: (V, V) -> bool
    /** _loadFactor, as the fraction loadNum / loadDen. */
    const loadNum: int
    const loadDen: nat
    var length: nat
    var shift: nat
    /** _maxLookupsBeforeResize, as the least integer Count must reach for Emplace to
        resize first. */
    var threshold: int
    var count: nat
    var metadata: array<int>
    var entries: array<Entry<K, V>>
    /** The table has 2^groupsLog groups of 16 slots. */
    ghost var groupsLog: nat
    /** The step of its key's probe at which each entry was stored. */
    ghost var ranks: seq<nat>

    ghost predicate Shape()
      reads this
    {
      loadDen > 0 && 10 * loadNum <= 9 * loadDen && groupsLog <= 26 &&
      length == LengthOf(groupsLog) && shift == ShiftOf(groupsLog) &&
      (forall v :: sameValue(v, v))
    }

    /** The layout invariant; Count is the number of entries, which stays below the
        length, as does the threshold; and no entry is stored twice. */
    ghost predicate Valid()
      reads this, metadata, entries
    {
      Shape() && Layout(metadata[..], entries[..], ranks, hash, groupsLog) &&
      count == |Contents()| && count < length && threshold <= length - 1 &&
      forall e :: Contents()[e] <= 1
    }

    ghost function Contents(): multiset<Entry<K, V>>
      reads this, entries
    {
      Stored(entries[..])
    }

    /** Where the probe for `key` starts. */
    ghost function Start(key: K): nat
      reads this
      requires groupsLog <= 28
    {
      KeyStart(hash, key, groupsLog)
    }

    constructor (length: nat, loadNum: int, loadDen: nat, hash: K -> int, sameValue: (V, V) -> bool)
      requires length <= MaxLength && loadDen > 0
      requires forall v :: sameValue(v, v)
      ensures Valid() && fresh(metadata) && fresh(entries)
      ensures this.hash == hash && this.sameValue == sameValue
      ensures (this.loadNum, this.loadDen) == CappedLoad(loadNum, loadDen)
      ensures this.length == NormalLength(length) && Pow2(shift) * this.length == Two32
      ensures threshold == FloorThreshold(this.length, this.loadNum, this.loadDen)
      ensures count == 0 && Contents() == multiset{}
      ensures metadata.Length == this.length + 16 && forall i :: 0 <= i < metadata.Length ==> metadata[i] == Empty
    {
      this.hash := hash;
      this.sameValue := sameValue;
      var load := CappedLoad(loadNum, loadDen);
      this.loadNum, this.loadDen := load.0, load.1;
      ghost var gl := ConstructedShape(length);
      var size := NormalLength(length);
      this.length := size;
      threshold := FloorThreshold(size, load.0, load.1);
      // BitOperations.Log2 is one less than the bit length.
      shift := 32 - (BitLength(size) - 1);
      groupsLog := gl;
      count := 0;
      metadata := new int[size + 16](_ => Empty);
      entries := new Entry<K, V>[size + 16](_ => Vacant);
      ranks := seq(size + 16, _ => 0);
      new;
      FreshLayout(metadata[..], entries[..], ranks, hash, groupsLog);
      ThresholdBelow(size, load.0, load.1);
      ShiftSpansHash(groupsLog);
    }

    /** The inner loop over the slots of the group at `index` whose fragment is h2,
        lowest position first: the first of them whose entry passes `wanted`. */
    method MatchInGroup(index: nat, h2: int, wanted: Entry<K, V> -> bool) returns (r: Option<nat>)
      requires index + 16 <= metadata.Length == entries.Length
      ensures r.Some? ==> index <= r.value < index + 16 && metadata[r.value] == h2 && wanted(entries[r.value])
      ensures r.Some? ==> forall i :: index <= i < r.value && metadata[i] == h2 ==> !wanted(entries[i])
      ensures r.None? ==> forall i :: index <= i < index + 16 && metadata[i] == h2 ==> !wanted(entries[i])
    {
      ghost var ms, es := metadata[..], entries[..];
      var mask := FragmentMask(metadata[..], index, h2);
      ScanBegins(ms, es, index, h2, wanted);
      while mask != 0
        invariant Scanning(ms, es, index, h2, wanted, mask)
        decreases mask
      {
        ScanFound(ms, es, index, h2, wanted, mask);
        var slot := BitSlot(index, mask);
        if wanted(entries[slot]) {
          return Some(slot);
        }
        ScanSteps(ms, es, index, h2, wanted, mask);
        mask := ResetLowestSetBit(mask);
      }
      ScanEnds(ms, es, index, h2, wanted);
      return None;
    }

    /** jumpDistance += 16; index += jumpDistance; index &= length - 1: the move from
        window j of the probe from `start` to window j + 1. */
    method NextWindow(index: nat, jumpDistance: nat, ghost start: nat, ghost j: nat) returns (index': nat, jumpDistance': nat)
      requires Shape() && index == WindowAt(start, groupsLog, j) && jumpDistance == 16 * j
      ensures index' == WindowAt(start, groupsLog, j + 1) && jumpDistance' == 16 * (j + 1)
    {
      jumpDistance' := jumpDistance + 16;
      ProbeAdvances(start, groupsLog, j, index, jumpDistance', length);
      index' := (index + jumpDistance') % length;
    }

    /** Emplace's probe: the duplicate test on each window, then the first free slot of
        the first window that has one. */
    method Search(key: K, value: V) returns (found: bool, slot: nat, ghost rank: nat)
      requires Shape() && Layout(metadata[..], entries[..], ranks, hash, groupsLog) && |Contents()| < length
      ensures found <==> Duplicate(Contents(), key, value, sameValue)
      ensures !found ==> FreeAt(metadata[..], entries[..], Start(key), groupsLog, rank, slot)
    {
      ghost var ms, es, gl, start := metadata[..], entries[..], groupsLog, Start(key);
      var hashcode := HashCode(hash, key);
      var h2 := H2(hashcode);
      var index: nat := Home(hashcode, shift);
      var jumpDistance: nat := 0;
      ghost var j: nat := 0;
      ProbeBegins(start, gl);
      NotAllFilled(ms, es, ranks, hash, gl, start);
      while true
        invariant Probing(ms, start, gl, j, index, jumpDistance) && Unwanted(es, start, gl, j, SameEntry(key, value, sameValue))
        decreases Pow2(gl) - j
      {
        var stop;
        stop, found, slot, index, jumpDistance := SearchWindow(key, value, h2, index, jumpDistance, j);
        if stop {
          return found, slot, j;
        }
        j := j + 1;
      }
    }

    /** One turn of Search's loop, on window j: a duplicate, or the first free slot, ends
        the probe; otherwise it moves to window j + 1. */
    method SearchWindow(key: K, value: V, h2: int, index: nat, jumpDistance: nat, ghost j: nat)
        returns (stop: bool, found: bool, slot: nat, index': nat, jumpDistance': nat)
      requires Shape() && Layout(metadata[..], entries[..], ranks, hash, groupsLog)
      requires !FilledBefore(metadata[..], Start(key), groupsLog, Pow2(groupsLog)) && h2 == H2(HashCode(hash, key))
      requires Probing(metadata[..], Start(key), groupsLog, j, index, jumpDistance)
      requires Unwanted(entries[..], Start(key), groupsLog, j, SameEntry(key, value, sameValue))
      ensures stop ==> (found <==> Duplicate(Contents(), key, value, sameValue))
      ensures stop && !found ==> FreeAt(metadata[..], entries[..], Start(key), groupsLog, j, slot)
      ensures !stop ==> Probing(metadata[..], Start(key), groupsLog, j + 1, index', jumpDistance')
      ensures !stop ==> Unwanted(entries[..], Start(key), groupsLog, j + 1, SameEntry(key, value, sameValue))
    {
      ghost var ms, es, gl, start := metadata[..], entries[..], groupsLog, Start(key);
      var wanted := SameEntry(key, value, sameValue);
      var m := MatchInGroup(index, h2, wanted);
      if m.Some? {
        StoredHas(es, m.value);
        return true, true, 0, index, jumpDistance;
      }
      FragmentsSuffice(ms, es, ranks, hash, gl, key, wanted, index, index + 16);
      UnwantedStep(es, start, gl, j, wanted);
      var free := FreeMask(metadata[..], index);
      if free != 0 {
        FirstFreeSlot(ms, es, ranks, hash, gl, key, j);
        NoneWanted(ms, es, ranks, hash, gl, key, wanted, j);
        return true, false, LowestSlot(metadata[..], index, IsFreeSlot), index, jumpDistance;
      }
      NoFreeSlot(ms, start, gl, j);
      stop, found, slot := false, false, 0;
      index', jumpDistance' := NextWindow(index, jumpDistance, start, j);
    }

    /** Resize's probe for an entry being moved: the first free slot of the first window
        of `key`'s probe that has one. */
    method FreeSlot(key: K) returns (slot: nat, ghost rank: nat)
      requires Shape() && Layout(metadata[..], entries[..], ranks, hash, groupsLog) && |Contents()| < length
      ensures FreeAt(metadata[..], entries[..], Start(key), groupsLog, rank, slot)
    {
      ghost var ms, es, gl, start := metadata[..], entries[..], groupsLog, Start(key);
      var hashcode := HashCode(hash, key);
      var index: nat := Home(hashcode, shift);
      var jumpDistance: nat := 0;
      ghost var j: nat := 0;
      ProbeBegins(start, gl);
      NotAllFilled(ms, es, ranks, hash, gl, start);
      while true
        invariant Probing(ms, start, gl, j, index, jumpDistance)
        decreases Pow2(gl) - j
      {
        var stop;
        stop, slot, index, jumpDistance := FreeWindow(key, index, jumpDistance, j);
        if stop {
          return slot, j;
        }
        j := j + 1;
      }
    }

    /** One turn of FreeSlot's loop, on window j: its first free slot, if it has one. */
    method FreeWindow(key: K, index: nat, jumpDistance: nat, ghost j: nat)
        returns (stop: bool, slot: nat, index': nat, jumpDistance': nat)
      requires Shape() && Layout(metadata[..], entries[..], ranks, hash, groupsLog)
      requires !FilledBefore(metadata[..], Start(key), groupsLog, Pow2(groupsLog))
      requires Probing(metadata[..], Start(key), groupsLog, j, index, jumpDistance)
      ensures stop ==> FreeAt(metadata[..], entries[..], Start(key), groupsLog, j, slot)
      ensures !stop ==> Probing(metadata[..], Start(key), groupsLog, j + 1, index', jumpDistance')
    {
      ghost var ms, es, gl, start := metadata[..], entries[..], groupsLog, Start(key);
      var free := FreeMask(metadata[..], index);
      if free != 0 {
        FirstFreeSlot(ms, es, ranks, hash, gl, key, j);
        return true, LowestSlot(metadata[..], index, IsFreeSlot), index, jumpDistance;
      }
      NoFreeSlot(ms, start, gl, j);
      stop, slot := false, 0;
      index', jumpDistance' := NextWindow(index, jumpDistance, start, j);
    }

    /** Writes an entry and its fragment into a free slot where the entry is settled. */
    method Place(slot: nat, e: Entry<K, V>, h2: int, ghost rank: nat)
      requires Shape() && Layout(metadata[..], entries[..], ranks, hash, groupsLog)
      requires e.Entry? && FreeAt(metadata[..], entries[..], Start(e.key), groupsLog, rank, slot)
      requires h2 == H2(HashCode(hash, e.key))
      modifies metadata, entries, this`ranks
      ensures Shape() && Layout(metadata[..], entries[..], ranks, hash, groupsLog)
      ensures metadata[..] == old(metadata[..])[slot := H2(HashCode(hash, e.key))]
      ensures entries[..] == old(entries[..])[slot := e]
      ensures Contents() == old(Contents()) + multiset{e}
    {
      ghost var ms, es := metadata[..], entries[..];
      WriteKeepsLayout(ms, es, ranks, hash, groupsLog, slot, e, rank);
      StoredUpdate(es, slot, e);
      metadata[slot] := h2;
      entries[slot] := e;
      ranks := ranks[slot := rank];
      assert metadata[..] == ms[slot := H2(HashCode(hash, e.key))];
      assert entries[..] == es[slot := e];
    }

    /** Emplace after the resize test: false when an entry of `key` whose value the
        comparer takes for `value` is stored already, otherwise the entry is stored and
        Count grows by one. */
    method Insert(key: K, value: V) returns (stored: bool)
      requires Valid() && count + 1 < length
      modifies this`count, this`ranks, metadata, entries
      ensures Valid()
      ensures stored <==> !Duplicate(old(Contents()), key, value, sameValue)
      ensures stored ==> Contents() == old(Contents()) + multiset{Entry(key, value)} && count == old(count) + 1
      ensures !stored ==> Contents() == old(Contents()) && count == old(count)
    {
      var found, slot, rank := Search(key, value);
      if found {
        return false;
      }
      var h2 := H2(HashCode(hash, key));
      ghost var c := Contents();
      assert Entry(key, value) !in c by {
        assert sameValue(value, value);
      }
      Place(slot, Entry(key, value), h2, rank);
      count := count + 1;
      assert Contents()[Entry(key, value)] == 1;
      return true;
    }

    /** The body of Resize's loop for one occupied old slot: the entry goes to the first
        free slot of its probe, with the fragment the old slot held. */
    method Move(entry: Entry<K, V>, h2: int)
      requires Shape() && Layout(metadata[..], entries[..], ranks, hash, groupsLog) && |Contents()| < length
      requires entry.Entry? && h2 == H2(HashCode(hash, entry.key))
      modifies metadata, entries, this`ranks
      ensures Shape() && Layout(metadata[..], entries[..], ranks, hash, groupsLog)
      ensures Contents() == old(Contents()) + multiset{entry}
    {
      var slot, rank := FreeSlot(entry.key);
      Place(slot, entry, h2, rank);
    }

    /** Resize's loop: every occupied slot of the old arrays, in index order, moves to
        the first free slot of its key's probe in the new ones. */
    method Reinsert(oldMetadata: array<int>, oldEntries: array<Entry<K, V>>, ghost oldRanks: seq<nat>, ghost oldGl: nat)
      requires Shape() && Layout(metadata[..], entries[..], ranks, hash, groupsLog) && Contents() == multiset{}
      requires oldMetadata != metadata && oldEntries != entries
      requires Layout(oldMetadata[..], oldEntries[..], oldRanks, hash, oldGl)
      requires |Stored(oldEntries[..])| < length
      modifies metadata, entries, this`ranks
      ensures Shape() && Layout(metadata[..], entries[..], ranks, hash, groupsLog)
      ensures Contents() == Stored(oldEntries[..])
    {
      ghost var oldMs, oldEs := oldMetadata[..], oldEntries[..];
      var i := 0;
      while i < oldEntries.Length
        invariant i <= oldEntries.Length && oldMetadata[..] == oldMs && oldEntries[..] == oldEs
        invariant Shape() && Layout(metadata[..], entries[..], ranks, hash, groupsLog)
        invariant Contents() == Stored(oldEs[..i])
      {
        MoveSlot(oldMetadata, oldEntries, oldRanks, oldGl, i);
        i := i + 1;
      }
      assert oldEs[..i] == oldEs;
    }

    /** One turn of Reinsert's loop: slot i of the old arrays moves over when its
        metadata is non-negative. */
    method MoveSlot(oldMetadata: array<int>, oldEntries: array<Entry<K, V>>, ghost oldRanks: seq<nat>, ghost oldGl: nat, i: nat)
      requires Shape() && Layout(metadata[..], entries[..], ranks, hash, groupsLog)
      requires oldMetadata != metadata && oldEntries != entries && i < oldEntries.Length
      requires Layout(oldMetadata[..], oldEntries[..], oldRanks, hash, oldGl)
      requires |Stored(oldEntries[..])| < length && Contents() == Stored(oldEntries[..i])
      modifies metadata, entries, this`ranks
      ensures Shape() && Layout(metadata[..], entries[..], ranks, hash, groupsLog)
      ensures Contents() == Stored(oldEntries[..i + 1])
    {
      ghost var oldMs, oldEs := oldMetadata[..], oldEntries[..];
      ghost var before := Contents();
      var h2 := oldMetadata[i];
      if h2 >= 0 {
        var entry := oldEntries[i];
        assert SlotOk(oldMs, oldEs, oldRanks, hash, oldGl, i);
        StoredPrefixAtMost(oldEs, i);
        Move(entry, h2);
      } else {
        NegativeIsVacant(oldMs, oldEs, oldRanks, hash, oldGl, i);
      }
      StoredPrefixStep(oldEs, i, before, Contents());
    }

    /** The first half of Resize: one less shift, twice the length, the threshold
        length * loadFactor, and new arrays with every slot empty. */
    method Grow()
      requires Shape() && groupsLog < 26
      modifies this
      ensures Shape() && Layout(metadata[..], entries[..], ranks, hash, groupsLog) && Contents() == multiset{}
      ensures fresh(metadata) && fresh(entries)
      ensures groupsLog == old(groupsLog) + 1 && length == 2 * old(length) && shift == old(shift) - 1
      ensures threshold == CeilThreshold(length, loadNum, loadDen) && threshold <= length - 1
      ensures count == old(count)
    {
      GroupsDouble(groupsLog);
      shift := shift - 1;
      length := length * 2;
      threshold := CeilThreshold(length, loadNum, loadDen);
      groupsLog := groupsLog + 1;
      metadata := new int[length + 16](_ => Empty);
      entries := new Entry<K, V>[length + 16](_ => Vacant);
      ranks := seq(length + 16, _ => 0);
      FreshLayout(metadata[..], entries[..], ranks, hash, groupsLog);
      ThresholdBelow(length, loadNum, loadDen);
    }

    /** Resize: new arrays of twice the length, and every entry moved over.  A table of
        the largest length cannot grow: the new array size overflows. */
    method Resize() returns (r: Result<()>)
      requires Valid()
      modifies this
      ensures r.Err? <==> old(length) == MaxLength
      ensures r.Err? ==> r.fault == Overflow && unchanged(this)
      ensures r.Ok? ==> Valid() && fresh(metadata) && fresh(entries)
      ensures r.Ok? ==> length == 2 * old(length) && shift == old(shift) - 1
      ensures r.Ok? ==> threshold == CeilThreshold(length, loadNum, loadDen)
      ensures r.Ok? ==> count == old(count) && Contents() == old(Contents())
    {
      LengthAtMost(groupsLog);
      if length >= MaxLength {
        return Err(Overflow);
      }
      ghost var oldRanks, oldGl, oldContents := ranks, groupsLog, Contents();
      var oldMetadata, oldEntries := metadata, entries;
      Grow();
      Reinsert(oldMetadata, oldEntries, oldRanks, oldGl);
      assert Contents() == oldContents;
      return Ok(());
    }

    /** Emplace(key, value): resizes first once Count reaches the threshold, then stores
        the entry unless a duplicate is stored already. */
    method Emplace(key: K, value: V) returns (r: Result<bool>)
      requires Valid()
      modifies this, metadata, entries
      ensures Valid()
      ensures r.Err? <==> old(count) >= old(threshold) && old(length) == MaxLength
      ensures r.Err? ==> r.fault == Overflow && Contents() == old(Contents()) && count == old(count) && length == old(length)
      ensures r.Ok? ==> (r.value <==> !Duplicate(old(Contents()), key, value, sameValue))
      ensures r.Ok? && r.value ==> Contents() == old(Contents()) + multiset{Entry(key, value)} && count == old(count) + 1
      ensures r.Ok? && !r.value ==> Contents() == old(Contents()) && count == old(count)
      ensures r.Ok? ==> length == if old(count) >= old(threshold) then 2 * old(length) else old(length)
      ensures (metadata == old(metadata) && entries == old(entries)) || (fresh(metadata) && fresh(entries))
    {
      if count >= threshold {
        var resized := Resize();
        if resized.Err? {
          return Err(resized.fault);
        }
      }
      var stored := Insert(key, value);
      return Ok(stored);
    }

    /** GetAll's inner loop over the group at `index`: the values of the slots whose
        fragment is h2 and whose key is `key`, lowest position first. */
    method CollectInGroup(index: nat, h2: int, key: K) returns (vs: seq<V>, ghost slots: seq<nat>)
      requires index + 16 <= metadata.Length == entries.Length
      ensures Collected(entries[..], index, key, slots, vs, index + 16)
      ensures GroupCollected(metadata[..], entries[..], index, h2, key, slots)
    {
      ghost var ms, es := metadata[..], entries[..];
      var mask := FragmentMask(metadata[..], index, h2);
      vs, slots := [], [];
      CollectBegins(ms, es, index, h2, key);
      while mask != 0
        invariant Collecting(ms, es, index, h2, key, mask, slots, vs)
        decreases index + 32 - BitSlot(index, mask)
      {
        mask, vs, slots := CollectNext(index, h2, key, mask, vs, slots);
      }
      CollectEnds(ms, es, index, h2, key, slots, vs);
    }

    /** One turn of CollectInGroup's loop: the slot of the lowest set bit is appended when
        it holds the key, and the bit is cleared. */
    method CollectNext(index: nat, h2: int, key: K, mask: bv32, vs: seq<V>, ghost slots: seq<nat>)
        returns (mask': bv32, vs': seq<V>, ghost slots': seq<nat>)
      requires index + 16 <= metadata.Length == entries.Length && mask != 0
      requires Collecting(metadata[..], entries[..], index, h2, key, mask, slots, vs)
      ensures Collecting(metadata[..], entries[..], index, h2, key, mask', slots', vs')
      ensures BitSlot(index, mask) < BitSlot(index, mask') <= index + 32
    {
      ghost var ms, es := metadata[..], entries[..];
      MaskLowestMatches(ms, index, h2, mask);
      var slot := BitSlot(index, mask);
      var entry := entries[slot];
      vs' := if entry.Entry? && entry.key == key then vs + [entry.value] else vs;
      slots' := if entry.Entry? && entry.key == key then slots + [slot] else slots;
      CollectSteps(ms, es, index, h2, key, mask, slots, vs, slot, entry, slots', vs');
      mask' := ResetLowestSetBit(mask);
    }

    /** Get: the value of the first entry of `key` along its probe, or None, the
        source's default, once a window with an empty slot ends the probe. */
    method Get(key: K) returns (r: Option<V>, ghost slot: nat, ghost step: nat)
      requires Shape() && Layout(metadata[..], entries[..], ranks, hash, groupsLog) && |Contents()| < length
      ensures r.None? <==> forall v :: Entry(key, v) !in Contents()
      ensures r.Some? ==> FirstOfKey(entries[..], Start(key), groupsLog, key, step, slot) && entries[slot] == Entry(key, r.value)
    {
      ghost var ms, es, gl, start := metadata[..], entries[..], groupsLog, Start(key);
      var hashcode := HashCode(hash, key);
      var h2 := H2(hashcode);
      var index: nat := Home(hashcode, shift);
      var jumpDistance: nat := 0;
      ghost var j: nat := 0;
      ProbeBegins(start, gl);
      NotAllFilled(ms, es, ranks, hash, gl, start);
      while true
        invariant Probing(ms, start, gl, j, index, jumpDistance) && Unwanted(es, start, gl, j, KeyEntry(key))
        decreases Pow2(gl) - j
      {
        var stop;
        stop, r, slot, index, jumpDistance := GetWindow(key, h2, index, jumpDistance, j);
        if stop {
          return r, slot, j;
        }
        j := j + 1;
      }
    }

    /** One turn of Get's loop, on window j: the first entry of `key` in it, or the end
        of the probe when it has an empty slot, or the move to window j + 1. */
    method GetWindow(key: K, h2: int, index: nat, jumpDistance: nat, ghost j: nat)
        returns (stop: bool, r: Option<V>, ghost slot: nat, index': nat, jumpDistance': nat)
      requires Shape() && Layout(metadata[..], entries[..], ranks, hash, groupsLog)
      requires !FilledBefore(metadata[..], Start(key), groupsLog, Pow2(groupsLog)) && h2 == H2(HashCode(hash, key))
      requires Probing(metadata[..], Start(key), groupsLog, j, index, jumpDistance)
      requires Unwanted(entries[..], Start(key), groupsLog, j, KeyEntry(key))
      ensures stop ==> (r.None? <==> forall v :: Entry(key, v) !in Contents())
      ensures stop && r.Some? ==> FirstOfKey(entries[..], Start(key), groupsLog, key, j, slot) && entries[slot] == Entry(key, r.value)
      ensures !stop ==> Probing(metadata[..], Start(key), groupsLog, j + 1, index', jumpDistance')
      ensures !stop ==> Unwanted(entries[..], Start(key), groupsLog, j + 1, KeyEntry(key))
    {
      ghost var ms, es, gl, start := metadata[..], entries[..], groupsLog, Start(key);
      var wanted := KeyEntry(key);
      var m := MatchInGroup(index, h2, wanted);
      if m.Some? {
        FragmentsSuffice(ms, es, ranks, hash, gl, key, wanted, index, m.value);
        StoredHas(es, m.value);
        return true, Some(entries[m.value].value), m.value, index, jumpDistance;
      }
      FragmentsSuffice(ms, es, ranks, hash, gl, key, wanted, index, index + 16);
      UnwantedStep(es, start, gl, j, wanted);
      var empty := EmptyMask(metadata[..], index);
      if empty != 0 {
        EmptyInWindow(ms, index);
        NoneWanted(ms, es, ranks, hash, gl, key, wanted, j);
        return true, None, 0, index, jumpDistance;
      }
      NoEmptySlot(ms, es, ranks, hash, gl, start, j);
      stop, r, slot := false, None, 0;
      index', jumpDistance' := NextWindow(index, jumpDistance, start, j);
    }

    /** GetAll: the values of every entry of `key`, window by window along its probe
        until a window with an empty slot; no entry is stored twice, so no value repeats. */
    method GetAll(key: K) returns (r: seq<V>)
      requires Shape() && Layout(metadata[..], entries[..], ranks, hash, groupsLog) && |Contents()| < length
      requires forall e :: Contents()[e] <= 1
      ensures forall v :: v in r <==> Entry(key, v) in Contents()
      ensures forall a, b :: 0 <= a < b < |r| ==> r[a] != r[b]
    {
      ghost var ms, es, gl, start := metadata[..], entries[..], groupsLog, Start(key);
      var hashcode := HashCode(hash, key);
      var h2 := H2(hashcode);
      var index: nat := Home(hashcode, shift);
      var jumpDistance: nat := 0;
      ghost var j: nat := 0;
      ghost var slots: seq<nat>, steps: seq<nat> := [], [];
      r := [];
      ProbeBegins(start, gl);
      NotAllFilled(ms, es, ranks, hash, gl, start);
      GatherBegins(es, start, gl, key);
      while true
        invariant Gathering(ms, es, start, gl, key, j, index, jumpDistance, slots, steps, r)
        decreases Pow2(gl) - j
      {
        var done;
        done, index, jumpDistance, r, slots, steps := GatherWindow(key, h2, index, jumpDistance, j, r, slots, steps);
        if done {
          GatherEnds(ms, es, ranks, hash, gl, key, j, slots, steps, r);
          return;
        }
        j := j + 1;
      }
    }

    /** One turn of GetAll's outer loop: the values of the entries of `key` in window j
        are appended, and the probe ends here when the window has an empty slot or moves
        on to window j + 1. */
    method GatherWindow(key: K, h2: int, index: nat, jumpDistance: nat, ghost j: nat,
                        r: seq<V>, ghost slots: seq<nat>, ghost steps: seq<nat>)
        returns (done: bool, index': nat, jumpDistance': nat, r': seq<V>, ghost slots': seq<nat>, ghost steps': seq<nat>)
      requires Shape() && Layout(metadata[..], entries[..], ranks, hash, groupsLog)
      requires !FilledBefore(metadata[..], Start(key), groupsLog, Pow2(groupsLog)) && h2 == H2(HashCode(hash, key))
      requires Gathering(metadata[..], entries[..], Start(key), groupsLog, key, j, index, jumpDistance, slots, steps, r)
      ensures done ==> Gathered(entries[..], Start(key), groupsLog, key, j + 1, slots', steps', r')
      ensures done ==> !Filled(metadata[..], WindowAt(Start(key), groupsLog, j))
      ensures !done ==> Gathering(metadata[..], entries[..], Start(key), groupsLog, key, j + 1, index', jumpDistance', slots', steps', r')
    {
      ghost var ms, es, gl, start := metadata[..], entries[..], groupsLog, Start(key);
      var vs, group := CollectInGroup(index, h2, key);
      GatherSteps(ms, es, ranks, hash, gl, key, j, slots, steps, r, group, vs);
      r', slots', steps' := r + vs, slots + group, steps + seq(|group|, _ => j);
      var empty := EmptyMask(metadata[..], index);
      if empty != 0 {
        EmptyInWindow(ms, index);
        return true, index, jumpDistance, r', slots', steps';
      }
      NoEmptySlot(ms, es, ranks, hash, gl, start, j);
      done := false;
      index', jumpDistance' := NextWindow(index, jumpDistance, start, j);
    }

    /** Values: the value of every slot whose metadata is non-negative, in slot order;
        one value per stored entry. */
    method Values() returns (r: seq<V>)
      requires Shape() && Layout(metadata[..], entries[..], ranks, hash, groupsLog)
      ensures r == EntryValues(entries[..])
      ensures |r| == |Contents()| && forall v :: v in r <==> HoldsValue(Contents(), v)
    {
      ghost var ms, es := metadata[..], entries[..];
      r := [];
      for i := 0 to entries.Length
        invariant r == EntryValues(es[..i])
      {
        assert SlotOk(ms, es, ranks, hash, groupsLog, i);
        assert es[..i + 1][..i] == es[..i];
        if metadata[i] >= 0 {
          r := r + [entries[i].value];
        }
      }
      assert es[..entries.Length] == es;
      EntryValuesStored(es);
    }
  }
}
