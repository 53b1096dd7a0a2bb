/**
 * HashMap: the Robin Hood table of compiled delegates, at most one per key.  Two
 * parallel arrays hold the slots: `info` keeps each slot's occupied bit and probe
 * sequence length (PSL), `entries` its key and delegate.  Unlike MultiMap it keeps no
 * hashcode per slot, and Get scans the run of occupied slots after the home slot
 * instead of a PSL window.
 *
 * The InfoByte of the slots comes from a library that is not part of this model; it is
 * taken to have MetaByte's layout (occupied bit and seven-bit PSL), and the MetaByte's
 * hashcode stays 0.
 */
module HashMaps {
  import opened Wrappers
  import opened MetaBytes
  import opened MultiMaps
  import Bits

  /** The largest table HashMap can grow to: beyond 2^30 slots NextPow2 on a signed int
      yields a negative size. */
  const MaxLength: nat := 0x4000_0000

  /** The PslLimit switch: the PSL limit for a load factor above one half. */
  function PslLimit(size: int): (r: nat)
    ensures 4 <= r <= 105
  {
    match size
    case 16 => 4
    case 32 => 5
    case 64 => 6
    case 128 => 7
    case 256 => 8
    case 512 => 9
    case 1024 => 12
    case 2048 => 15
    case 4096 => 20
    case 8192 => 25
    case 16384 => 30
    case 32768 => 35
    case 65536 => 40
    case 131072 => 45
    case 262144 => 50
    case 524288 => 55
    case 1048576 => 60
    case 2097152 => 65
    case 4194304 => 70
    case 8388608 => 75
    case 16777216 => 80
    case 33554432 => 85
    case 67108864 => 90
    case 134217728 => 95
    case 268435456 => 100
    case 536870912 => 105
    case _ => 10
  }

  /** The PSL limit of a table of `length` slots: Log2(length) for a load factor of at
      most one half, PslLimit(length) above. */
  function MaxPslFor(length: nat, lfNum: nat, lfDen: nat): nat {
    if 2 * lfNum <= lfDen then Bits.BitLength(length) else PslLimit(length)
  }

  /** The resize threshold `(int)(size * loadFactor)`. */
  function Threshold(size: nat, lfNum: nat, lfDen: nat): nat
    requires lfDen > 0
  {
    size * lfNum / lfDen
  }

  // ---------------------------------------------------------------------------------
  // The scans.

  /** Get's scan: slot lo, then each following slot while the one before held a key,
      so the scan ends at the key or just after the first slot without one. */
  function RunFind<K(==), V>(s: seq<Entry<K, V>>, lo: int, key: K): (r: Result<Option<V>>)
    decreases |s| - lo
    ensures r.Err? ==> r.fault == IndexOutOfRange
  {
    if lo < 0 || lo >= |s| then Err(IndexOutOfRange)
    else if s[lo].Entry? && s[lo].key == key then Ok(Some(s[lo].value))
    else if s[lo].Vacant? then Ok(None)
    else RunFind(s, lo + 1, key)
  }

  /** Contains as written: a do-while over slot lo, lo + 1, ... that goes on only while
      the next index is below hi, so slot hi itself is never looked at. */
  function HasKeyBelow<K(==), V>(s: seq<Entry<K, V>>, lo: int, hi: int, key: K): (r: Result<bool>)
    decreases hi - lo
    ensures r.Err? ==> r.fault == IndexOutOfRange
  {
    if lo < 0 || lo >= |s| then Err(IndexOutOfRange)
    else if s[lo].Entry? && s[lo].key == key then Ok(true)
    else if lo + 1 < hi then HasKeyBelow(s, lo + 1, hi, key)
    else Ok(false)
  }

  // ---------------------------------------------------------------------------------
  // Slot invariants, stated on the array contents.

  /** Slots lo .. hi - 1 all hold a key. */
  ghost predicate Filled<K, V>(es: seq<Entry<K, V>>, lo: int, hi: int) {
    forall j :: lo <= j < hi && 0 <= j < |es| ==> es[j].Entry?
  }

  /** An entry standing (or carried) at slot i can be found from its home slot: the home
      slot is at or before i and every slot in between holds a key. */
  ghost predicate Reaches<K, V>(es: seq<Entry<K, V>>, hash: K -> int, mask: int, e: Entry<K, V>, i: int) {
    e.Entry? ==> 0 <= HomeIndex(hash(e.key), mask) <= i && Filled(es, HomeIndex(hash(e.key), mask), i)
  }

  /** Slot i: the occupied bit matches the entry, and the entry can be found from its
      home slot.  The quantifier of SlotsOk fires only on this term. */
  ghost predicate SlotOkAt<K, V>(ms: seq<MetaByte>, es: seq<Entry<K, V>>, hash: K -> int, mask: int, i: int) {
    0 <= i < |ms| && i < |es| && (ms[i].IsEmpty() <==> es[i].Vacant?) && Reaches(es, hash, mask, es[i], i)
  }

  ghost predicate SlotsOk<K, V>(ms: seq<MetaByte>, es: seq<Entry<K, V>>, hash: K -> int, mask: int) {
    |ms| == |es| && forall i {:trigger SlotOkAt(ms, es, hash, mask, i)} :: 0 <= i < |ms| ==> SlotOkAt(ms, es, hash, mask, i)
  }

  /** An occupied slot i records its PSL, its distance from its key's home slot, and the
      PSL is within the current PSL, so the window home .. home + cur covers it. */
  ghost predicate TrackedSlot<K, V>(m: MetaByte, e: Entry<K, V>, i: int, hash: K -> int, mask: int, cur: nat) {
    e.Entry? ==> 0 <= HomeIndex(hash(e.key), mask) && m.Psl() == i - HomeIndex(hash(e.key), mask) && m.Psl() <= cur
  }

  ghost predicate TrackedAt<K, V>(ms: seq<MetaByte>, es: seq<Entry<K, V>>, hash: K -> int, mask: int, cur: nat, i: int) {
    0 <= i < |ms| && i < |es| && TrackedSlot(ms[i], es[i], i, hash, mask, cur)
  }

  ghost predicate TrackedAll<K, V>(ms: seq<MetaByte>, es: seq<Entry<K, V>>, hash: K -> int, mask: int, cur: nat) {
    |ms| == |es| && forall i {:trigger TrackedAt(ms, es, hash, mask, cur, i)} :: 0 <= i < |ms| ==> TrackedAt(ms, es, hash, mask, cur, i)
  }

  /** No two stored entries share a key, and none is stored twice. */
  ghost predicate UniqueKeys<K, V>(c: multiset<Entry<K, V>>) {
    forall x, y :: x in c && y in c && x.Entry? && y.Entry? && x.key == y.key ==> x == y && c[x] == 1
  }

  lemma {:induction false} SlotAt<K, V>(ms: seq<MetaByte>, es: seq<Entry<K, V>>, hash: K -> int, mask: int, i: int)
    requires SlotsOk(ms, es, hash, mask) && 0 <= i < |ms|
    ensures (ms[i].IsEmpty() <==> es[i].Vacant?) && Reaches(es, hash, mask, es[i], i)
  {
    assert SlotOkAt(ms, es, hash, mask, i);
  }

  lemma {:induction false} TrackedAtIdx<K, V>(ms: seq<MetaByte>, es: seq<Entry<K, V>>, hash: K -> int, mask: int, cur: nat, i: int)
    requires TrackedAll(ms, es, hash, mask, cur) && 0 <= i < |ms|
    ensures TrackedSlot(ms[i], es[i], i, hash, mask, cur)
  {
    assert TrackedAt(ms, es, hash, mask, cur, i);
  }

  /** A carried entry that can be found at slot i can be found at slot i + 1 when slot i
      holds a key. */
  lemma {:induction false} ReachesNext<K, V>(es: seq<Entry<K, V>>, hash: K -> int, mask: int, e: Entry<K, V>, i: int)
    requires Reaches(es, hash, mask, e, i) && 0 <= i < |es| && es[i].Entry?
    ensures Reaches(es, hash, mask, e, i + 1)
  {
  }

  /** A table of default slots is consistent, tracked and stores nothing. */
  lemma {:induction false} EmptySlots<K, V>(ms: seq<MetaByte>, es: seq<Entry<K, V>>, hash: K -> int, mask: int, cur: nat)
    requires |ms| == |es|
    requires forall i :: 0 <= i < |ms| ==> ms[i] == Default && es[i] == Vacant
    ensures SlotsOk(ms, es, hash, mask) && TrackedAll(ms, es, hash, mask, cur) && Stored(es) == multiset{}
  {
    DefaultIsEmpty();
    StoredVacant(es);
    forall i | 0 <= i < |ms| ensures SlotOkAt(ms, es, hash, mask, i) && TrackedAt(ms, es, hash, mask, cur, i) {
      assert ms[i] == Default && es[i] == Vacant;
    }
  }

  /** Writing an entry that can be found from its home slot keeps every slot consistent;
      the entry it replaces can still be found at that slot. */
  lemma {:induction false} WriteSlot<K, V>(ms: seq<MetaByte>, es: seq<Entry<K, V>>, hash: K -> int, mask: int, i: int, m: MetaByte, e: Entry<K, V>)
    requires SlotsOk(ms, es, hash, mask) && 0 <= i < |ms|
    requires e.Entry? && !m.IsEmpty() && Reaches(es, hash, mask, e, i)
    ensures SlotsOk(ms[i := m], es[i := e], hash, mask)
    ensures Reaches(es[i := e], hash, mask, e, i) && Reaches(es[i := e], hash, mask, es[i], i)
  {
    var ms', es' := ms[i := m], es[i := e];
    SlotAt(ms, es, hash, mask, i);
    forall j | 0 <= j < |ms| ensures SlotOkAt(ms', es', hash, mask, j) {
      if j != i {
        SlotAt(ms, es, hash, mask, j);
        assert es'[j] == es[j];
      }
    }
  }

  lemma {:induction false} WriteTracked<K, V>(ms: seq<MetaByte>, es: seq<Entry<K, V>>, hash: K -> int, mask: int, cur: nat, i: int, m: MetaByte, e: Entry<K, V>)
    requires TrackedAll(ms, es, hash, mask, cur) && 0 <= i < |ms| && TrackedSlot(m, e, i, hash, mask, cur)
    ensures TrackedAll(ms[i := m], es[i := e], hash, mask, cur)
  {
    var ms', es' := ms[i := m], es[i := e];
    forall j | 0 <= j < |ms| ensures TrackedAt(ms', es', hash, mask, cur, j) {
      if j != i {
        assert TrackedAt(ms, es, hash, mask, cur, j);
      }
    }
  }

  lemma {:induction false} TrackedGrow<K, V>(ms: seq<MetaByte>, es: seq<Entry<K, V>>, hash: K -> int, mask: int, cur: nat, cur': nat)
    requires TrackedAll(ms, es, hash, mask, cur) && cur <= cur'
    ensures TrackedAll(ms, es, hash, mask, cur')
  {
    forall i | 0 <= i < |ms| ensures TrackedAt(ms, es, hash, mask, cur', i) {
      assert TrackedAt(ms, es, hash, mask, cur, i);
    }
  }

  // ---------------------------------------------------------------------------------
  // What the scans answer.

  lemma {:induction false} RunFindSound<K, V>(s: seq<Entry<K, V>>, lo: int, key: K, v: V)
    requires RunFind(s, lo, key) == Ok(Some(v))
    ensures Entry(key, v) in Stored(s)
    decreases |s| - lo
  {
    if s[lo].Entry? && s[lo].key == key {
      StoredHas(s, lo);
    } else {
      RunFindSound(s, lo + 1, key, v);
    }
  }

  /** A scan from a slot at or after the home slot, with every slot up to j occupied,
      reaches slot j. */
  lemma {:induction false} RunFindFinds<K, V>(s: seq<Entry<K, V>>, lo: int, j: int, key: K)
    requires 0 <= lo <= j < |s| && s[j].Entry? && s[j].key == key && Filled(s, lo, j)
    ensures RunFind(s, lo, key).Ok? && RunFind(s, lo, key).value.Some?
    decreases j - lo
  {
    if !(s[lo].Entry? && s[lo].key == key) {
      assert s[lo].Entry?;
      RunFindFinds(s, lo + 1, j, key);
    }
  }

  /** On a consistent table Get finds a value exactly when the key is stored, and the
      value it finds is stored under the key. */
  lemma {:induction false} GetExact<K, V>(ms: seq<MetaByte>, es: seq<Entry<K, V>>, hash: K -> int, mask: int, key: K)
    requires SlotsOk(ms, es, hash, mask)
    ensures var r := RunFind(es, HomeIndex(hash(key), mask), key);
      (r.Ok? && r.value.Some?) <==> exists v :: Entry(key, v) in Stored(es)
    ensures var r := RunFind(es, HomeIndex(hash(key), mask), key);
      r.Ok? && r.value.Some? ==> Entry(key, r.value.value) in Stored(es)
  {
    var h := HomeIndex(hash(key), mask);
    var r := RunFind(es, h, key);
    if r.Ok? && r.value.Some? {
      RunFindSound(es, h, key, r.value.value);
    }
    if v :| Entry(key, v) in Stored(es) {
      var j := StoredWitness(es, Entry(key, v));
      SlotAt(ms, es, hash, mask, j);
      RunFindFinds(es, h, j, key);
    }
  }

  /** On a tracked table the window scan home .. home + cur answers true exactly when
      the key is stored: the property Contains is meant to have. */
  lemma {:induction false} ContainsExact<K, V>(ms: seq<MetaByte>, es: seq<Entry<K, V>>, hash: K -> int, mask: int, cur: nat, key: K)
    requires TrackedAll(ms, es, hash, mask, cur)
    ensures var h := HomeIndex(hash(key), mask);
      HasKeyIn(es, h, h + cur, key) == Ok(true) <==> exists v :: Entry(key, v) in Stored(es)
  {
    var h := HomeIndex(hash(key), mask);
    if HasKeyIn(es, h, h + cur, key) == Ok(true) {
      HasKeyInSound(es, h, h + cur, key);
    }
    if v :| Entry(key, v) in Stored(es) {
      var j := StoredWitness(es, Entry(key, v));
      TrackedAtIdx(ms, es, hash, mask, cur, j);
      HasKeyInFinds(es, h, h + cur, j, key);
    }
  }

  /** A key the as-written scan finds is stored. */
  lemma {:induction false} HasKeyBelowSound<K, V>(s: seq<Entry<K, V>>, lo: int, hi: int, key: K)
    requires HasKeyBelow(s, lo, hi, key) == Ok(true)
    ensures exists v :: Entry(key, v) in Stored(s)
    decreases hi - lo
  {
    if s[lo].Entry? && s[lo].key == key {
      StoredHas(s, lo);
    } else {
      HasKeyBelowSound(s, lo + 1, hi, key);
    }
  }

  /** Contains as written misses a key stored in the last slot of its window: two keys
      share home slot 0, the second sits at PSL 1 and the current PSL is 1 (what two
      Emplace calls on an empty table leave), yet the scan answers false, so Emplace
      would store the second key again. */
  lemma {:induction false} ContainsMissesLastSlot()
    ensures var es: seq<Entry<int, int>> := [Entry(1, 10), Entry(2, 20), Vacant, Vacant, Vacant];
      var ms := [Default.SetPsl(0), Default.SetPsl(1), Default, Default, Default];
      var hash := (k: int) => 0;
      && SlotsOk(ms, es, hash, 1) && TrackedAll(ms, es, hash, 1, 1)
      && Entry(2, 20) in Stored(es)
      && HasKeyBelow(es, 0, 0 + 1, 2) == Ok(false)
      && HasKeyIn(es, 0, 0 + 1, 2) == Ok(true)
  {
    var es: seq<Entry<int, int>> := [Entry(1, 10), Entry(2, 20), Vacant, Vacant, Vacant];
    var ms := [Default.SetPsl(0), Default.SetPsl(1), Default, Default, Default];
    var hash := (k: int) => 0;
    DefaultIsEmpty();
    SetPslSmall(Default, 0);
    SetPslSmall(Default, 1);
    forall i | 0 <= i < 5 ensures SlotOkAt(ms, es, hash, 1, i) && TrackedAt(ms, es, hash, 1, 1, i) {
    }
    StoredHas(es, 1);
  }

  /** Inserting an entry under a key that is not stored keeps the keys unique. */
  lemma {:induction false} InsertKeepsUnique<K, V>(c: multiset<Entry<K, V>>, key: K, value: V)
    requires UniqueKeys(c) && forall v :: Entry(key, v) !in c
    ensures UniqueKeys(c + multiset{Entry(key, value)})
  {
    var c' := c + multiset{Entry(key, value)};
    forall x, y | x in c' && y in c' && x.Entry? && y.Entry? && x.key == y.key ensures x == y && c'[x] == 1 {
      if x !in c || y !in c {
        assert x.key == key && y.key == key;
        assert Entry(key, x.value) !in c && Entry(key, y.value) !in c;
      }
    }
  }

  /** Table sizes from 2^4 to 2^29 get a limit of at least their exponent, and the limit
      grows with the size. */
  lemma {:induction false} PslLimitGrows(k: nat)
    requires 4 <= k < 29
    ensures k <= PslLimit(Bits.Pow2(k)) < PslLimit(Bits.Pow2(k + 1))
  {
    Pow2Table();
  }

  lemma {:induction false} Pow2Table()
    ensures Bits.Pow2(4) == 16 && Bits.Pow2(5) == 32 && Bits.Pow2(6) == 64 && Bits.Pow2(7) == 128
    ensures Bits.Pow2(8) == 256 && Bits.Pow2(9) == 512 && Bits.Pow2(10) == 1024 && Bits.Pow2(11) == 2048
    ensures Bits.Pow2(12) == 4096 && Bits.Pow2(13) == 8192 && Bits.Pow2(14) == 16384 && Bits.Pow2(15) == 32768
    ensures Bits.Pow2(16) == 65536 && Bits.Pow2(17) == 131072 && Bits.Pow2(18) == 262144 && Bits.Pow2(19) == 524288
    ensures Bits.Pow2(20) == 1048576 && Bits.Pow2(21) == 2097152 && Bits.Pow2(22) == 4194304
    ensures Bits.Pow2(23) == 8388608 && Bits.Pow2(24) == 16777216 && Bits.Pow2(25) == 33554432
    ensures Bits.Pow2(26) == 67108864 && Bits.Pow2(27) == 134217728 && Bits.Pow2(28) == 268435456
    ensures Bits.Pow2(29) == 536870912
  {
    assert Bits.Pow2(4) == 16;
    Bits.Pow2Split(4, 4);
    Bits.Pow2Split(8, 8);
    Bits.Pow2Split(16, 4);
    Bits.Pow2Split(16, 8);
    Bits.Pow2Split(16, 12);
    assert Bits.Pow2(29) == 536870912;
  }

  /** For 1 <= len <= 2^30 the table size NextPow2(len) is at least len and at most 2^30,
      and its bit length, the initial Log2, is at most 31. */
  lemma {:induction false} SizeBounds(len: nat)
    requires 1 <= len <= MaxLength
    ensures len <= Bits.NextPow2(len) <= MaxLength && Bits.BitLength(len) <= 31
  {
    Bits.NextPow2Least(len);
    var k: nat :| k <= 31 && Bits.NextPow2(len) == Bits.Pow2(k);
    Bits.Pow2At32();
    assert Bits.Pow2(31) == 2 * Bits.Pow2(30);
    if k == 31 {
      assert false;
    }
    Bits.Pow2Mono(k, 30);
    Bits.BitLengthAtMost(len, 31);
  }

  // ---------------------------------------------------------------------------------

  class HashMap<K(==,!new), V(==,!new)> {
    /** RuntimeHelpers.GetHashCode (Type.GetHashCode in EmplaceInternal is taken to be
        the same function). */
    const hash: K -> int
    /** The load factor, lfNum / lfDen. */
    const lfNum: nat
    const lfDen: nat
    /** _length */
    var length: nat
    /** _maxEntriesMinusOne */
    var mask: int
    var shift: int
    var maxPsl: nat
    var currentPsl: nat
    /** _maxlengthBeforeResize */
    var threshold: nat
    var count: nat
    var info: array<MetaByte>
    var entries: array<Entry<K, V>>

    ghost predicate Shape()
      reads this, info, entries
    {
      && lfDen > 0 && 1 <= length <= MaxLength
      && 0 <= mask < MaxLength && maxPsl <= 105 && currentPsl <= 127
      && info.Length == entries.Length == mask + maxPsl + 2
      && SlotsOk(info[..], entries[..], hash, mask)
    }

    /** The shape invariant, and Count is the number of occupied slots. */
    ghost predicate Valid()
      reads this, info, entries
    {
      Shape() && count == |Stored(entries[..])|
    }

    ghost function Contents(): multiset<Entry<K, V>>
      reads this, entries
    {
      Stored(entries[..])
    }

    /** Every entry lies in the window home .. home + currentPsl of its key. */
    ghost predicate Windowed()
      reads this, info, entries
    {
      TrackedAll(info[..], entries[..], hash, mask, currentPsl)
    }

    /** The home slot `hashcode & _maxEntriesMinusOne`. */
    function Home(key: K): int
      reads this
    {
      HomeIndex(hash(key), mask)
    }

    constructor (length: nat, lfNum: nat, lfDen: nat, hash: K -> int)
      requires lfDen > 0 && length <= MaxLength
      ensures Valid() && Windowed() && Contents() == multiset{} && count == 0 && currentPsl == 0
      ensures this.hash == hash && this.lfNum == lfNum && this.lfDen == lfDen
      ensures this.length == (if length == 0 then 8 else length)
      ensures mask == Bits.NextPow2(this.length) - 1
      ensures maxPsl == MaxPslFor(this.length, lfNum, lfDen)
      ensures threshold == Threshold(Bits.NextPow2(this.length), lfNum, lfDen)
      ensures shift == 32 - Bits.BitLength(this.length) + 1
      ensures info.Length == entries.Length == Bits.NextPow2(this.length) + maxPsl + 1
    {
      var len := if length == 0 then 8 else length;
      this.hash := hash;
      this.lfNum := lfNum;
      this.lfDen := lfDen;
      this.length := len;
      SizeBounds(len);
      var size := Bits.NextPow2(len);
      var log := Bits.Log2(len);
      var psl := if 2 * lfNum <= lfDen then log else PslLimit(len);
      maxPsl := psl;
      mask := size - 1;
      threshold := Threshold(size, lfNum, lfDen);
      shift := 32 - log + 1;
      currentPsl := 0;
      count := 0;
      entries := new Entry<K, V>[size + psl + 1](_ => Vacant);
      info := new MetaByte[size + psl + 1](_ => Default);
      new;
      EmptySlots(info[..], entries[..], hash, mask, 0);
    }

    // ------------------------------------------------------------------------------
    // Lookups.

    /** Get: the value of the first slot holding the key in the run of occupied slots
        from the home slot; None where the source falls back to compiling the type. */
    method Get(key: K) returns (r: Result<Option<V>>)
      ensures r == RunFind(entries[..], Home(key), key)
    {
      var index := Home(key);
      if index < 0 || index >= entries.Length {
        return Err(IndexOutOfRange);
      }
      var entry := entries[index];
      if entry.Entry? && entry.key == key {
        return Ok(Some(entry.value));
      }
      index := index + 1;
      while entry.Entry?
        invariant Home(key) < index <= entries.Length && entry == entries[index - 1]
        invariant entry.Entry? ==> RunFind(entries[..], index, key) == RunFind(entries[..], Home(key), key)
        invariant entry.Vacant? ==> RunFind(entries[..], Home(key), key) == Ok(None)
        decreases entries.Length - index
      {
        if index >= entries.Length {
          return Err(IndexOutOfRange);
        }
        entry := entries[index];
        if entry.Entry? && entry.key == key {
          return Ok(Some(entry.value));
        }
        index := index + 1;
      }
      return Ok(None);
    }

    /** Contains as written: slots home .. home + currentPsl - 1, and at least the home
        slot.  See ContainsMissesLastSlot; Emplace uses ContainsKey instead. */
    method Contains(key: K) returns (r: Result<bool>)
      ensures r == HasKeyBelow(entries[..], Home(key), Home(key) + currentPsl, key)
    {
      var index := Home(key);
      var maxDistance := index + currentPsl;
      while true
        invariant HasKeyBelow(entries[..], index, maxDistance, key)
               == HasKeyBelow(entries[..], Home(key), maxDistance, key)
        decreases maxDistance - index
      {
        if index < 0 || index >= entries.Length {
          return Err(IndexOutOfRange);
        }
        var entry := entries[index];
        if entry.Entry? && entry.key == key {
          return Ok(true);
        }
        index := index + 1;
        if index >= maxDistance {
          return Ok(false);
        }
      }
    }

    /** Contains with the window the current PSL promises: slots home .. home +
        currentPsl, inclusive. */
    method ContainsKey(key: K) returns (r: Result<bool>)
      ensures r == HasKeyIn(entries[..], Home(key), Home(key) + currentPsl, key)
    {
      var index := Home(key);
      var maxDistance := index + currentPsl;
      while index <= maxDistance
        invariant HasKeyIn(entries[..], index, maxDistance, key)
               == HasKeyIn(entries[..], Home(key), maxDistance, key)
        decreases maxDistance - index
      {
        if index < 0 || index >= entries.Length {
          return Err(IndexOutOfRange);
        }
        var entry := entries[index];
        if entry.Entry? && entry.key == key {
          return Ok(true);
        }
        index := index + 1;
      }
      return Ok(false);
    }

    // ------------------------------------------------------------------------------
    // Insertion.

    /**
     * Emplace: a key already in its window is not stored again (false); otherwise the
     * pair is stored (true).  A load-factor resize comes first when Count has reached
     * the threshold.  When every entry lay in its window and no reinsertion left one
     * outside, that stays so and the answer is exactly whether the key was new.
     */
    method Emplace(key: K, del: V) returns (r: Result<bool>, ghost untracked: bool)
      requires Valid()
      modifies this, info, entries
      ensures (info == old(info) && entries == old(entries)) || (fresh(info) && fresh(entries))
      ensures r == Ok(false) ==> Valid() && Contents() == old(Contents()) && exists v :: Entry(key, v) in Contents()
      ensures r == Ok(true) ==>
        Valid() && Contents() == old(Contents()) + multiset{Entry(key, del)} && count == old(count) + 1
      ensures r.Ok? && old(Windowed()) && !untracked ==>
        Windowed() && (r.value <==> forall v :: Entry(key, v) !in old(Contents()))
      ensures r.Ok? && old(count) >= old(threshold) ==> length > old(length)
    {
      untracked := false;
      if count >= threshold {
        var grown;
        grown, untracked := Resize();
        if grown.Err? {
          return Err(grown.fault), untracked;
        }
      }
      ghost var w;
      r, w := AddIfAbsent(key, del);
      untracked := untracked || w;
    }

    /** Emplace past the load-factor check: the key's window is searched, and only a key
        not found there is inserted. */
    method AddIfAbsent(key: K, del: V) returns (r: Result<bool>, ghost untracked: bool)
      requires Valid()
      modifies this, info, entries
      ensures (info == old(info) && entries == old(entries)) || (fresh(info) && fresh(entries))
      ensures r == Ok(false) ==> Valid() && Contents() == old(Contents()) && exists v :: Entry(key, v) in Contents()
      ensures r == Ok(true) ==>
        Valid() && Contents() == old(Contents()) + multiset{Entry(key, del)} && count == old(count) + 1
      ensures r.Ok? && old(Windowed()) && !untracked ==>
        Windowed() && (r.value <==> forall v :: Entry(key, v) !in old(Contents()))
      ensures r.Ok? ==> length >= old(length)
    {
      untracked := false;
      var present := ContainsKey(key);
      if present.Err? {
        return Err(present.fault), untracked;
      }
      if present.value {
        HasKeyInSound(entries[..], Home(key), Home(key) + currentPsl, key);
        return Ok(false), untracked;
      }
      if Windowed() {
        ContainsExact(info[..], entries[..], hash, mask, currentPsl, key);
      }
      var placed;
      placed, untracked := Insert(Entry(key, del));
      if placed.Err? {
        return Err(placed.fault), untracked;
      }
      return Ok(true), untracked;
    }

    /**
     * Emplace as the code is written, deciding uniqueness with the as-written Contains.
     * A false answer still means the key is stored, but a key in the last slot of its
     * window is not seen: the scan's false lets the pair be stored a second time.
     */
    method EmplaceWithContains(key: K, del: V) returns (r: Result<bool>, ghost untracked: bool)
      requires Valid()
      modifies this, info, entries
      ensures (info == old(info) && entries == old(entries)) || (fresh(info) && fresh(entries))
      ensures r == Ok(false) ==> Valid() && Contents() == old(Contents()) && exists v :: Entry(key, v) in Contents()
      ensures r == Ok(true) ==>
        Valid() && Contents() == old(Contents()) + multiset{Entry(key, del)} && count == old(count) + 1
      ensures r.Ok? && old(count) >= old(threshold) ==> length > old(length)
    {
      untracked := false;
      if count >= threshold {
        var grown;
        grown, untracked := Resize();
        if grown.Err? {
          return Err(grown.fault), untracked;
        }
      }
      ghost var w;
      r, w := AddUnlessContained(key, del);
      untracked := untracked || w;
    }

    /** The as-written Contains check, then the probe loop: whenever the scan answers
        false the pair is stored, whether or not its key is already present. */
    method AddUnlessContained(key: K, del: V) returns (r: Result<bool>, ghost untracked: bool)
      requires Valid()
      modifies this, info, entries
      ensures (info == old(info) && entries == old(entries)) || (fresh(info) && fresh(entries))
      ensures r == Ok(false) ==> Valid() && Contents() == old(Contents()) && exists v :: Entry(key, v) in Contents()
      ensures r == Ok(true) ==>
        Valid() && Contents() == old(Contents()) + multiset{Entry(key, del)} && count == old(count) + 1
      ensures old(HasKeyBelow(entries[..], Home(key), Home(key) + currentPsl, key)) == Ok(false) ==> r != Ok(false)
      ensures r.Ok? ==> length >= old(length)
    {
      untracked := false;
      var present := Contains(key);
      if present.Err? {
        return Err(present.fault), untracked;
      }
      if present.value {
        HasKeyBelowSound(entries[..], Home(key), Home(key) + currentPsl, key);
        return Ok(false), untracked;
      }
      var placed;
      placed, untracked := Insert(Entry(key, del));
      if placed.Err? {
        return Err(placed.fault), untracked;
      }
      return Ok(true), untracked;
    }

    /** The check at the head of each probe step: the current PSL grows to `p` when `p`
        is larger. */
    method TrackPsl(p: nat)
      requires Shape() && p <= 127
      modifies this`currentPsl
      ensures currentPsl == if old(currentPsl) < p then p else old(currentPsl)
      ensures Shape() && (old(Windowed()) ==> Windowed())
    {
      if currentPsl < p {
        ghost var before := currentPsl;
        currentPsl := p;
        if TrackedAll(info[..], entries[..], hash, mask, before) {
          TrackedGrow(info[..], entries[..], hash, mask, before, p);
        }
      }
    }

    /** The two Swap calls on slot `index`: the slot takes `(e, m)` and its former
        contents are handed back. */
    method Exchange(index: int, e: Entry<K, V>, m: MetaByte) returns (pe: Entry<K, V>, pm: MetaByte)
      requires Shape() && 0 <= index < info.Length && e.Entry? && !m.IsEmpty()
      requires Reaches(entries[..], hash, mask, e, index)
      modifies info, entries
      ensures pe == old(entries[index]) && pm == old(info[index])
      ensures entries[..] == old(entries[..])[index := e] && info[..] == old(info[..])[index := m]
      ensures Shape() && (pm.IsEmpty() <==> pe.Vacant?) && Reaches(entries[..], hash, mask, pe, index)
      ensures Contents() + Slot(pe) == old(Contents()) + Slot(e)
      ensures |Contents()| + |Slot(pe)| == old(|Contents()|) + |Slot(e)|
      ensures old(Windowed()) ==> TrackedSlot(pm, pe, index, hash, mask, currentPsl)
      ensures old(Windowed()) && TrackedSlot(m, e, index, hash, mask, currentPsl) ==> Windowed()
    {
      ghost var ms, es := info[..], entries[..];
      SlotAt(ms, es, hash, mask, index);
      if TrackedAll(ms, es, hash, mask, currentPsl) {
        TrackedAtIdx(ms, es, hash, mask, currentPsl, index);
      }
      StoredUpdate(es, index, e);
      MultisetSum(Stored(es[index := e]), Slot(es[index]), Stored(es), Slot(e));
      WriteSlot(ms, es, hash, mask, index, m, e);
      pe, pm := entries[index], info[index];
      entries[index] := e;
      info[index] := m;
      assert entries[..] == es[index := e] && info[..] == ms[index := m];
      if TrackedAll(ms, es, hash, mask, currentPsl) && TrackedSlot(m, e, index, hash, mask, currentPsl) {
        WriteTracked(ms, es, hash, mask, currentPsl, index, m, e);
      }
    }

    /** The empty-slot branch of Emplace: the slot takes the entry and Count goes up. */
    method PlaceAt(index: int, e: Entry<K, V>, m: MetaByte)
      requires Valid() && 0 <= index < info.Length && info[index].IsEmpty()
      requires e.Entry? && !m.IsEmpty() && Reaches(entries[..], hash, mask, e, index)
      modifies this`count, info, entries
      ensures Valid() && Contents() == old(Contents()) + Slot(e) && count == old(count) + 1
      ensures old(Windowed()) && TrackedSlot(m, e, index, hash, mask, currentPsl) ==> Windowed()
    {
      var pe, pm := Exchange(index, e, m);
      count := count + 1;
    }

    /**
     * The do-while loop of Emplace, from the home slot with PSL 0: store into the first
     * empty slot, displace a resident with a smaller PSL and carry it on from the same
     * slot, and at the maximum PSL count the entry, resize and reinsert the carried one.
     */
    method Insert(e0: Entry<K, V>) returns (r: Result<()>, ghost untracked: bool)
      requires Valid() && e0.Entry?
      modifies this, info, entries
      ensures (info == old(info) && entries == old(entries)) || (fresh(info) && fresh(entries))
      ensures r.Ok? ==> Valid() && Contents() == old(Contents()) + Slot(e0) && count == old(count) + 1
      ensures r.Ok? ==> length >= old(length)
      ensures r.Ok? && old(Windowed()) && !untracked ==> Windowed()
    {
      var e := e0;
      var m := Default.SetPsl(0);
      SetPslSmall(Default, 0);
      var index := Home(e0.key);
      ghost var tracking := Windowed();
      ghost var swapped := false;
      while true
        invariant Valid() && info == old(info) && entries == old(entries)
        invariant count == old(count) && length == old(length)
        invariant 0 <= index < info.Length
        invariant e.Entry? && !m.IsEmpty() && m.Psl() <= maxPsl
        invariant Reaches(entries[..], hash, mask, e, index)
        invariant Contents() + Slot(e) == old(Contents()) + Slot(e0)
        invariant tracking ==> Windowed() && m.Psl() == index - Home(e.key)
        invariant swapped ==> !info[index].IsEmpty() && info[index].Psl() > m.Psl()
        decreases info.Length - index, if swapped then 0 else 1
      {
        ghost var before := Contents();
        var done, next, nextMeta, nextIndex;
        ghost var nowSwapped;
        done, r, untracked, next, nextMeta, nextIndex, nowSwapped := InsertStep(index, e, m, tracking, swapped);
        if done {
          return;
        }
        Chain(old(Contents()), before, Contents(), Slot(e0), Slot(e), Slot(next));
        e, m, index, swapped := next, nextMeta, nextIndex, nowSwapped;
      }
    }

    /** The swap branch of Emplace's loop: the carried entry has the larger PSL, takes the
        slot, and the resident is carried on. */
    method Displace(index: int, e: Entry<K, V>, m: MetaByte, ghost tracking: bool) returns (pe: Entry<K, V>, pm: MetaByte)
      requires Valid() && 0 <= index < info.Length && e.Entry? && !m.IsEmpty() && m.Psl() <= maxPsl
      requires Reaches(entries[..], hash, mask, e, index)
      requires !info[index].IsEmpty() && m.Psl() > info[index].Psl()
      requires tracking ==> Windowed() && m.Psl() == index - Home(e.key) && m.Psl() <= currentPsl
      modifies info, entries
      ensures Valid() && pe.Entry? && !pm.IsEmpty() && pm.Psl() <= maxPsl
      ensures Reaches(entries[..], hash, mask, pe, index)
      ensures Contents() + Slot(pe) == old(Contents()) + Slot(e)
      ensures tracking ==> Windowed() && pm.Psl() == index - Home(pe.key)
      ensures !info[index].IsEmpty() && info[index].Psl() > pm.Psl()
    {
      pe, pm := Exchange(index, e, m);
      assert pe.Entry? && |Slot(pe)| == |Slot(e)|;
      if tracking {
        assert TrackedSlot(m, e, index, hash, mask, currentPsl);
      }
    }

    /** One pass of Emplace's do-while loop at slot `index`, carrying `(e, m)`. */
    method InsertStep(index: int, e: Entry<K, V>, m: MetaByte, ghost tracking: bool, ghost swapped: bool)
      returns (done: bool, r: Result<()>, ghost untracked: bool, next: Entry<K, V>, nextMeta: MetaByte, nextIndex: int, ghost nowSwapped: bool)
      requires Valid() && 0 <= index < info.Length
      requires e.Entry? && !m.IsEmpty() && m.Psl() <= maxPsl
      requires Reaches(entries[..], hash, mask, e, index)
      requires tracking ==> Windowed() && m.Psl() == index - Home(e.key)
      requires swapped ==> !info[index].IsEmpty() && info[index].Psl() > m.Psl()
      modifies this, info, entries
      ensures (info == old(info) && entries == old(entries)) || (fresh(info) && fresh(entries))
      ensures !done ==>
        && info == old(info) && entries == old(entries) && count == old(count) && length == old(length)
        && Valid() && 0 <= nextIndex < info.Length
        && next.Entry? && !nextMeta.IsEmpty() && nextMeta.Psl() <= maxPsl
        && Reaches(entries[..], hash, mask, next, nextIndex)
        && Contents() + Slot(next) == old(Contents()) + Slot(e)
        && (tracking ==> Windowed() && nextMeta.Psl() == nextIndex - Home(next.key))
        && (nowSwapped ==> !info[nextIndex].IsEmpty() && info[nextIndex].Psl() > nextMeta.Psl())
        && (nextIndex > index || (nextIndex == index && nowSwapped && !swapped))
      ensures done && r.Ok? ==>
        Valid() && Contents() == old(Contents()) + Slot(e) && count == old(count) + 1 && length >= old(length)
      ensures done && r.Ok? && tracking && !untracked ==> Windowed()
    {
      untracked := false;
      TrackPsl(m.Psl());
      var slot := info[index];
      if slot.IsEmpty() {
        PlaceAt(index, e, m);
        return true, Ok(()), false, e, m, index, false;
      }
      if m.Psl() > slot.Psl() {
        next, nextMeta := Displace(index, e, m, tracking);
        return false, Ok(()), false, next, nextMeta, index, true;
      }
      if m.Psl() == maxPsl {
        r, untracked := ResizeThenPlace(e, m);
        return true, r, untracked, e, m, index, false;
      }
      SlotAt(info[..], entries[..], hash, mask, index);
      ReachesNext(entries[..], hash, mask, e, index);
      if index + 1 >= info.Length {
        return true, Err(IndexOutOfRange), false, e, m, index, false;
      }
      IncPslSmall(m);
      return false, Ok(()), false, e, m.IncPsl(), index + 1, false;
    }

    /** The maximum-PSL branch of Emplace: Count goes up, the table is resized and the
        carried entry is reinserted. */
    method ResizeThenPlace(e: Entry<K, V>, m: MetaByte) returns (r: Result<()>, ghost untracked: bool)
      requires Valid() && e.Entry?
      modifies this, info, entries
      ensures (info == old(info) && entries == old(entries)) || (fresh(info) && fresh(entries))
      ensures r.Ok? ==> Valid() && Contents() == old(Contents()) + Slot(e) && count == old(count) + 1
      ensures r.Ok? ==> length > old(length)
      ensures r.Ok? && !untracked ==> Windowed()
    {
      count := count + 1;
      var grown, w := Resize();
      if grown.Err? {
        return grown, w;
      }
      var placed, w2 := EmplaceInternal(e, m);
      return placed, w || w2;
    }

    /**
     * EmplaceInternal: the probe loop without the uniqueness check, the Count update or
     * the PSL limit.  `untracked` records a placement the current PSL does not cover:
     * the current PSL is raised only after the empty-slot and displacement checks, and
     * the seven-bit PSL can wrap.
     */
    method EmplaceInternal(e0: Entry<K, V>, m0: MetaByte) returns (r: Result<()>, ghost untracked: bool)
      requires Shape() && e0.Entry?
      modifies this`currentPsl, info, entries
      ensures r.Ok? ==> Shape() && Contents() == old(Contents()) + Slot(e0)
      ensures r.Ok? && old(Windowed()) && !untracked ==> Windowed()
    {
      var e := e0;
      var index := Home(e0.key);
      var m := m0.SetPsl(0);
      SetPslSmall(m0, 0);
      untracked := false;
      ghost var tracking := Windowed();
      ghost var swapped := false;
      ghost var target := old(Contents()) + Slot(e0);
      while true
        invariant info == old(info) && entries == old(entries)
        invariant Probing(e, m, index, target, tracking, untracked, swapped)
        decreases info.Length - index, if swapped then 0 else 1
      {
        var done;
        done, r, e, m, index, untracked, swapped := ProbeAt(e, m, index, target, tracking, untracked, swapped);
        if done {
          return;
        }
      }
    }

    /** The loop invariant of EmplaceInternal: `e` with metadata `m` is carried at slot
        `index` of its probe sequence, the table and the carried entry together hold
        `target`, and after a displacement the slot holds a larger PSL. */
    ghost predicate Probing(e: Entry<K, V>, m: MetaByte, index: int, target: multiset<Entry<K, V>>,
                            tracking: bool, untracked: bool, swapped: bool)
      reads this, info, entries
    {
      && Shape() && 0 <= index < info.Length
      && e.Entry? && !m.IsEmpty()
      && Reaches(entries[..], hash, mask, e, index)
      && Contents() + Slot(e) == target
      && (tracking && !untracked ==> Windowed() && m.Psl() == index - Home(e.key))
      && (swapped ==> !info[index].IsEmpty() && info[index].Psl() > m.Psl())
    }

    /** One pass of the probe loop at `index`: store into an empty slot (`done`), displace
        a resident with a smaller PSL and go on at the same slot carrying it, or go on at
        index + 1 with the PSL one higher; past the arrays' end it raises. */
    method ProbeAt(e: Entry<K, V>, m: MetaByte, index: int, ghost target: multiset<Entry<K, V>>,
                   ghost tracking: bool, ghost untracked: bool, ghost swapped: bool)
      returns (done: bool, r: Result<()>, e': Entry<K, V>, m': MetaByte, index': int, ghost untracked': bool, ghost swapped': bool)
      requires Probing(e, m, index, target, tracking, untracked, swapped)
      modifies this`currentPsl, info, entries
      ensures info == old(info) && entries == old(entries)
      ensures done && r.Ok? ==> Shape() && Contents() == target
      ensures done && r.Ok? && tracking && !untracked' ==> Windowed()
      ensures !done ==> Probing(e', m', index', target, tracking, untracked', swapped')
      ensures !done ==> index' > index || (index' == index && swapped' && !swapped)
    {
      var slot := info[index];
      if slot.IsEmpty() {
        untracked' := PlaceEmpty(e, m, index, target, tracking, untracked, swapped);
        return true, Ok(()), e, m, index, untracked', swapped;
      }
      if m.Psl() > slot.Psl() {
        e', m', untracked' := SwapCarried(e, m, index, target, tracking, untracked, swapped);
        return false, Ok(()), e', m', index, untracked', true;
      }
      r, m', untracked' := Advance(e, m, index, target, tracking, untracked, swapped);
      return r.Err?, r, e, m', index + 1, untracked', false;
    }

    /** The empty-slot branch: the slot takes the carried entry. */
    method PlaceEmpty(e: Entry<K, V>, m: MetaByte, index: int, ghost target: multiset<Entry<K, V>>,
                      ghost tracking: bool, ghost untracked: bool, ghost swapped: bool) returns (ghost untracked': bool)
      requires Probing(e, m, index, target, tracking, untracked, swapped) && info[index].IsEmpty()
      modifies info, entries
      ensures Shape() && Contents() == target
      ensures tracking && !untracked' ==> Windowed()
    {
      untracked' := untracked || m.Psl() > currentPsl;
      var pe, pm := Exchange(index, e, m);
    }

    /** The displacement branch: the slot takes the carried entry, and its resident, with
        the smaller PSL, is carried on from the same slot. */
    method SwapCarried(e: Entry<K, V>, m: MetaByte, index: int, ghost target: multiset<Entry<K, V>>,
                    ghost tracking: bool, ghost untracked: bool, ghost swapped: bool)
      returns (e': Entry<K, V>, m': MetaByte, ghost untracked': bool)
      requires Probing(e, m, index, target, tracking, untracked, swapped)
      requires !info[index].IsEmpty() && m.Psl() > info[index].Psl()
      modifies info, entries
      ensures info == old(info) && entries == old(entries)
      ensures Probing(e', m', index, target, tracking, untracked', true)
    {
      untracked' := untracked || m.Psl() > currentPsl;
      e', m' := Exchange(index, e, m);
    }

    /** The branch that passes a resident with a PSL at least the carried one: the current
        PSL grows to the carried PSL, and the probe goes on at index + 1, if there is one,
        with the PSL one higher (wrapping at 127). */
    method Advance(e: Entry<K, V>, m: MetaByte, index: int, ghost target: multiset<Entry<K, V>>,
                   ghost tracking: bool, ghost untracked: bool, ghost swapped: bool)
      returns (r: Result<()>, m': MetaByte, ghost untracked': bool)
      requires Probing(e, m, index, target, tracking, untracked, swapped)
      requires !info[index].IsEmpty() && m.Psl() <= info[index].Psl()
      modifies this`currentPsl
      ensures r == if index + 1 >= info.Length then Err(IndexOutOfRange) else Ok(())
      ensures r.Ok? ==> Probing(e, m', index + 1, target, tracking, untracked', false)
    {
      TrackPsl(m.Psl());
      SlotAt(info[..], entries[..], hash, mask, index);
      ReachesNext(entries[..], hash, mask, e, index);
      untracked' := untracked;
      m' := m;
      if index + 1 >= info.Length {
        return Err(IndexOutOfRange), m', untracked';
      }
      if m.Psl() == 127 {
        untracked' := true;
      }
      IncPslStep(m);
      m' := m.IncPsl();
      r := Ok(());
    }

    /**
     * Resize: the shift goes down by one, _length becomes NextPow2(_length + 1) with its
     * PSL limit, threshold and mask, both arrays are copied and replaced by fresh ones
     * of _length + maxPsl + 1 slots, and every occupied old slot is reinserted in slot
     * order.  Count and the current PSL are kept.  Past 2^30 slots the new length is
     * negative and allocating the arrays raises.
     */
    method Resize() returns (r: Result<()>, ghost untracked: bool)
      requires Shape()
      modifies this
      ensures count == old(count)
      ensures (info == old(info) && entries == old(entries)) || (fresh(info) && fresh(entries))
      ensures r.Ok? ==> Shape() && Contents() == old(Contents()) && length > old(length)
      ensures r.Ok? && !untracked ==> Windowed()
      ensures shift == old(shift) - 1
      ensures Bits.NextPow2(old(length) + 1) > MaxLength ==>
        && r == Err(Overflow) && info == old(info) && entries == old(entries) && currentPsl == old(currentPsl)
        && length == old(length) && maxPsl == old(maxPsl) && threshold == old(threshold) && mask == old(mask)
    {
      shift := shift - 1;
      var next := Bits.NextPow2(length + 1);
      Bits.NextPow2Least(length + 1);
      if next > MaxLength {
        return Err(Overflow), false;
      }
      var log := Bits.Log2(next);
      SizeBounds(next);
      forall i | 0 <= i < info.Length ensures info[i].IsEmpty() <==> entries[i].Vacant? {
        SlotAt(info[..], entries[..], hash, mask, i);
      }
      var psl := if 2 * lfNum <= lfDen then log else PslLimit(next);
      length := next;
      maxPsl := psl;
      threshold := Threshold(next, lfNum, lfDen);
      mask := next - 1;
      var oldInfo, oldEntries := info[..], entries[..];
      r, untracked := Rebuild(oldInfo, oldEntries);
    }

    /** The second half of Resize: fresh arrays and the copied slots reinserted. */
    method Rebuild(oldInfo: seq<MetaByte>, oldEntries: seq<Entry<K, V>>) returns (r: Result<()>, ghost untracked: bool)
      requires lfDen > 0 && 1 <= length <= MaxLength
      requires 0 <= mask < MaxLength && maxPsl <= 105 && currentPsl <= 127
      requires |oldInfo| == |oldEntries|
      requires forall i :: 0 <= i < |oldInfo| ==> (oldInfo[i].IsEmpty() <==> oldEntries[i].Vacant?)
      modifies this`info, this`entries, this`currentPsl
      ensures fresh(info) && fresh(entries)
      ensures r.Ok? ==> Shape() && Contents() == Stored(oldEntries)
      ensures r.Ok? && !untracked ==> Windowed()
    {
      entries := new Entry<K, V>[mask + maxPsl + 2](_ => Vacant);
      info := new MetaByte[mask + maxPsl + 2](_ => Default);
      EmptySlots(info[..], entries[..], hash, mask, currentPsl);
      r, untracked := Reinsert(oldInfo, oldEntries);
    }

    /** One copied slot of Resize's loop: an occupied one goes through EmplaceInternal,
        an empty one is skipped. */
    method ReinsertSlot(m: MetaByte, e: Entry<K, V>) returns (r: Result<()>, ghost untracked: bool)
      requires Shape() && (m.IsEmpty() <==> e.Vacant?)
      modifies this`currentPsl, info, entries
      ensures r.Ok? ==> Shape() && Contents() == old(Contents()) + Slot(e)
      ensures r.Ok? && old(Windowed()) && !untracked ==> Windowed()
    {
      if m.IsEmpty() {
        return Ok(()), false;
      }
      r, untracked := EmplaceInternal(e, m);
    }

    /** The loop of Resize: every occupied copied slot, in slot order, goes through
        EmplaceInternal into the new table. */
    method Reinsert(oldInfo: seq<MetaByte>, oldEntries: seq<Entry<K, V>>) returns (r: Result<()>, ghost untracked: bool)
      requires Shape() && Windowed() && Contents() == multiset{}
      requires |oldInfo| == |oldEntries|
      requires forall i :: 0 <= i < |oldInfo| ==> (oldInfo[i].IsEmpty() <==> oldEntries[i].Vacant?)
      modifies this`currentPsl, info, entries
      ensures r.Ok? ==> Shape() && Contents() == Stored(oldEntries)
      ensures r.Ok? && !untracked ==> Windowed()
    {
      untracked := false;
      var i := 0;
      while i < |oldEntries|
        invariant 0 <= i <= |oldEntries|
        invariant Shape() && info == old(info) && entries == old(entries)
        invariant Contents() == Stored(oldEntries[..i])
        invariant !untracked ==> Windowed()
      {
        ghost var before := Contents();
        var placed, w := ReinsertSlot(oldInfo[i], oldEntries[i]);
        untracked := untracked || w;
        if placed.Err? {
          return placed, untracked;
        }
        StoredPrefixStep(oldEntries, i, before, Contents());
        i := i + 1;
      }
      assert oldEntries[..i] == oldEntries;
      return Ok(()), untracked;
    }
  }
}
