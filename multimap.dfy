/**
 * MultiMap: the Robin Hood table that maps a key to any number of values.  Two parallel
 * arrays hold the slots: `info` keeps each slot's metadata (occupied bit, probe sequence
 * length, full hashcode) and `entries` its key and value.  Entries with equal hashcodes
 * are kept next to each other; reaching the maximum PSL triggers a resize that
 * reinserts every entry.  DelegateCache is the same table with one extra rule in
 * Emplace (see `throwAtPslLimit`).
 */
module MultiMaps {
  import opened Wrappers
  import opened MetaBytes
  import Bits

  /** The largest number of elements a .NET array may have (Array.MaxLength); a larger
      allocation raises OutOfMemoryException. */
  const MaxArrayLength: nat := 0x7FFF_FFC7

  /** DelegateCache.Emplace's message when 127 entries share a probe sequence. */
  const PslLimitMessage := "Only 127 values can be stored with 1 unique key. Since psl is a byte and we use 1 bit the indicate if this struct is empty, it leaves us with 127, hence the max entries stored with the same key is 127"

  /** A slot's key and value; `Vacant` is the zero-initialised struct (null key). */
  datatype Entry<K, V> = Vacant | Entry(key: K, value: V)

  /** What a slot holds, as a multiset of at most one entry. */
  ghost function Slot<K, V>(e: Entry<K, V>): multiset<Entry<K, V>> {
    if e.Entry? then multiset{e} else multiset{}
  }

  /** Every entry stored in a run of slots: the slots as a multiset, minus the vacant ones. */
  ghost function Stored<K, V>(s: seq<Entry<K, V>>): multiset<Entry<K, V>> {
    multiset(s)[Vacant := 0]
  }

  /** The values stored under `key` in a run of slots. */
  ghost function ValuesOf<K, V>(s: seq<Entry<K, V>>, key: K): multiset<V> {
    if |s| == 0 then multiset{} else Under(s[0], key) + ValuesOf(s[1..], key)
  }

  /** The values stored under `key` in slots lo..hi. */
  ghost function WindowValues<K, V>(s: seq<Entry<K, V>>, lo: int, hi: int, key: K): multiset<V>
    requires 0 <= lo <= hi + 1 <= |s|
  {
    ValuesOf(s[lo..hi + 1], key)
  }

  /** The value a slot contributes under `key`. */
  ghost function Under<K, V>(e: Entry<K, V>, key: K): multiset<V> {
    if e.Entry? && e.key == key then multiset{e.value} else multiset{}
  }

  // ---------------------------------------------------------------------------------
  // The home slot `hashcode & _maxlookupsMinusOne`.  The mask is NextPow2(capacity) - 1,
  // so it is either 2^k - 1, and then the 32-bit AND of a two's complement hashcode is
  // its Euclidean remainder modulo 2^k, or -1 (capacity 0), which keeps the hashcode.

  function HomeIndex(hashcode: int, mask: int): (h: int)
    ensures mask >= 0 ==> 0 <= h <= mask
  {
    if mask < 0 then hashcode else hashcode % (mask + 1)
  }

  // ---------------------------------------------------------------------------------
  // The window scans of Get, GetAll and the two ContainsKey overloads: slots lo..hi in
  // ascending order; an index outside the arrays raises before the scan goes on.

  function FindIn<K(==), V>(s: seq<Entry<K, V>>, lo: int, hi: int, key: K): (r: Result<Option<V>>)
    decreases hi - lo
    ensures r.Err? ==> r.fault == IndexOutOfRange
  {
    if lo > hi then Ok(None)
    else if lo < 0 || lo >= |s| then Err(IndexOutOfRange)
    else if s[lo].Entry? && s[lo].key == key then Ok(Some(s[lo].value))
    else FindIn(s, lo + 1, hi, key)
  }

  function FindAllIn<K(==), V>(s: seq<Entry<K, V>>, lo: int, hi: int, key: K): (r: Result<seq<V>>)
    decreases hi - lo
    ensures r.Err? ==> r.fault == IndexOutOfRange
  {
    if lo > hi then Ok([])
    else if lo < 0 || lo >= |s| then Err(IndexOutOfRange)
    else
      match FindAllIn(s, lo + 1, hi, key)
      case Err(f) => Err(f)
      case Ok(rest) => Ok(if s[lo].Entry? && s[lo].key == key then [s[lo].value] + rest else rest)
  }

  function HasKeyIn<K(==), V>(s: seq<Entry<K, V>>, lo: int, hi: int, key: K): (r: Result<bool>)
    decreases hi - lo
    ensures r.Err? ==> r.fault == IndexOutOfRange
  {
    if lo > hi then Ok(false)
    else if lo < 0 || lo >= |s| then Err(IndexOutOfRange)
    else if s[lo].Entry? && s[lo].key == key then Ok(true)
    else HasKeyIn(s, lo + 1, hi, key)
  }

  function HasPairIn<K(==), V(==)>(s: seq<Entry<K, V>>, lo: int, hi: int, key: K, value: V): (r: Result<bool>)
    decreases hi - lo
    ensures r.Err? ==> r.fault == IndexOutOfRange
  {
    if lo > hi then Ok(false)
    else if lo < 0 || lo >= |s| then Err(IndexOutOfRange)
    else if s[lo] == Entry(key, value) then Ok(true)
    else HasPairIn(s, lo + 1, hi, key, value)
  }

  /** `acc` followed by what a scan yields; a scan that raises raises. */
  function Prepend<V>(acc: seq<V>, r: Result<seq<V>>): Result<seq<V>> {
    match r
    case Err(f) => Err(f)
    case Ok(rest) => Ok(acc + rest)
  }

  // ---------------------------------------------------------------------------------
  // Facts about the stored multiset.

  /** Overwriting slot i trades the entry it held for the new one. */
  lemma {:induction false} StoredUpdate<K, V>(s: seq<Entry<K, V>>, i: int, e: Entry<K, V>)
    requires 0 <= i < |s|
    ensures Stored(s[i := e]) + Slot(s[i]) == Stored(s) + Slot(e)
  {
    assert multiset(s[i := e]) == multiset(s) - multiset{s[i]} + multiset{e};
  }

  /** Appending a slot adds what it holds. */
  lemma {:induction false} StoredAppend<K, V>(s: seq<Entry<K, V>>, x: Entry<K, V>)
    ensures Stored(s + [x]) == Stored(s) + Slot(x)
  {
    assert multiset(s + [x]) == multiset(s) + multiset{x};
  }

  /** The prefix invariant of a loop over the slots advances by one slot. */
  lemma {:induction false} StoredPrefixStep<K, V>(s: seq<Entry<K, V>>, i: int, before: multiset<Entry<K, V>>, after: multiset<Entry<K, V>>)
    requires 0 <= i < |s| && before == Stored(s[..i]) && after == before + Slot(s[i])
    ensures after == Stored(s[..i + 1])
  {
    assert s[..i + 1] == s[..i] + [s[i]];
    StoredAppend(s[..i], s[i]);
  }

  lemma {:induction false} StoredHas<K, V>(s: seq<Entry<K, V>>, i: int)
    requires 0 <= i < |s| && s[i].Entry?
    ensures s[i] in Stored(s)
  {
  }

  lemma {:induction false} StoredWitness<K, V>(s: seq<Entry<K, V>>, p: Entry<K, V>) returns (i: int)
    requires p in Stored(s)
    ensures 0 <= i < |s| && s[i] == p && p.Entry?
  {
    assert p in multiset(s);
    assert p in s;
    i :| 0 <= i < |s| && s[i] == p;
  }

  lemma {:induction false} StoredVacant<K, V>(s: seq<Entry<K, V>>)
    requires forall i :: 0 <= i < |s| ==> s[i].Vacant?
    ensures Stored(s) == multiset{}
  {
    forall p | p in Stored(s)
      ensures false
    {
      var i := StoredWitness(s, p);
    }
  }

  /** A window scan for a pair answers true exactly when some slot of the window,
      before the first index outside the arrays, holds the pair. */
  lemma {:induction false} HasPairInFinds<K, V>(s: seq<Entry<K, V>>, lo: int, hi: int, j: int, key: K, value: V)
    requires 0 <= lo <= j <= hi && j < |s| && s[j] == Entry(key, value)
    ensures HasPairIn(s, lo, hi, key, value) == Ok(true)
    decreases j - lo
  {
    if s[lo] != Entry(key, value) {
      HasPairInFinds(s, lo + 1, hi, j, key, value);
    }
  }

  lemma {:induction false} HasPairInSound<K, V>(s: seq<Entry<K, V>>, lo: int, hi: int, key: K, value: V)
    requires HasPairIn(s, lo, hi, key, value) == Ok(true)
    ensures Entry(key, value) in Stored(s)
    decreases hi - lo
  {
    if s[lo] == Entry(key, value) {
      StoredHas(s, lo);
    } else {
      HasPairInSound(s, lo + 1, hi, key, value);
    }
  }

  lemma {:induction false} FindInFinds<K, V>(s: seq<Entry<K, V>>, lo: int, hi: int, j: int, key: K)
    requires 0 <= lo <= j <= hi && j < |s| && s[j].Entry? && s[j].key == key
    ensures FindIn(s, lo, hi, key).Ok? && FindIn(s, lo, hi, key).value.Some?
    decreases j - lo
  {
    if !(s[lo].Entry? && s[lo].key == key) {
      FindInFinds(s, lo + 1, hi, j, key);
    }
  }

  lemma {:induction false} FindInSound<K, V>(s: seq<Entry<K, V>>, lo: int, hi: int, key: K, v: V)
    requires FindIn(s, lo, hi, key) == Ok(Some(v))
    ensures Entry(key, v) in Stored(s)
    decreases hi - lo
  {
    if s[lo].Entry? && s[lo].key == key {
      StoredHas(s, lo);
    } else {
      FindInSound(s, lo + 1, hi, key, v);
    }
  }

  lemma {:induction false} HasKeyInFinds<K, V>(s: seq<Entry<K, V>>, lo: int, hi: int, j: int, key: K)
    requires 0 <= lo <= j <= hi && j < |s| && s[j].Entry? && s[j].key == key
    ensures HasKeyIn(s, lo, hi, key) == Ok(true)
    decreases j - lo
  {
    if !(s[lo].Entry? && s[lo].key == key) {
      HasKeyInFinds(s, lo + 1, hi, j, key);
    }
  }

  lemma {:induction false} HasKeyInSound<K, V>(s: seq<Entry<K, V>>, lo: int, hi: int, key: K)
    requires HasKeyIn(s, lo, hi, key) == Ok(true)
    ensures exists v :: Entry(key, v) in Stored(s)
    decreases hi - lo
  {
    if s[lo].Entry? && s[lo].key == key {
      StoredHas(s, lo);
    } else {
      HasKeyInSound(s, lo + 1, hi, key);
    }
  }

  lemma {:induction false} ValuesOfConcat<K, V>(a: seq<Entry<K, V>>, b: seq<Entry<K, V>>, key: K)
    ensures ValuesOf(a + b, key) == ValuesOf(a, key) + ValuesOf(b, key)
  {
    if |a| > 0 {
      assert (a + b)[1..] == a[1..] + b;
      ValuesOfConcat(a[1..], b, key);
    } else {
      assert a + b == b;
    }
  }

  /** A run of slots none of which holds the key contributes no values. */
  lemma {:induction false} ValuesOfNone<K, V>(s: seq<Entry<K, V>>, key: K)
    requires forall i :: 0 <= i < |s| ==> !(s[i].Entry? && s[i].key == key)
    ensures ValuesOf(s, key) == multiset{}
  {
    if |s| > 0 {
      ValuesOfNone(s[1..], key);
    }
  }

  lemma {:induction false} ValuesOfDropFront<K, V>(s: seq<Entry<K, V>>, n: int, key: K)
    requires 0 <= n <= |s|
    requires forall i :: 0 <= i < n ==> !(s[i].Entry? && s[i].key == key)
    ensures ValuesOf(s, key) == ValuesOf(s[n..], key)
  {
    assert s == s[..n] + s[n..];
    ValuesOfConcat(s[..n], s[n..], key);
    ValuesOfNone(s[..n], key);
  }

  lemma {:induction false} ValuesOfDropBack<K, V>(s: seq<Entry<K, V>>, n: int, key: K)
    requires 0 <= n <= |s|
    requires forall i :: n <= i < |s| ==> !(s[i].Entry? && s[i].key == key)
    ensures ValuesOf(s, key) == ValuesOf(s[..n], key)
  {
    assert s == s[..n] + s[n..];
    ValuesOfConcat(s[..n], s[n..], key);
    forall i | 0 <= i < |s| - n ensures !(s[n..][i].Entry? && s[n..][i].key == key) {
      assert s[n..][i] == s[n + i];
    }
    ValuesOfNone(s[n..], key);
  }

  /** When every slot holding the key lies in lo..hi, the window holds all its values. */
  lemma {:induction false} ValuesOfWindow<K, V>(s: seq<Entry<K, V>>, lo: int, hi: int, key: K)
    requires 0 <= lo <= hi + 1 <= |s|
    requires forall i :: 0 <= i < |s| && s[i].Entry? && s[i].key == key ==> lo <= i <= hi
    ensures ValuesOf(s, key) == WindowValues(s, lo, hi, key)
  {
    ValuesOfDropBack(s, hi + 1, key);
    var t := s[..hi + 1];
    forall i | 0 <= i < lo ensures !(t[i].Entry? && t[i].key == key) {
      assert t[i] == s[i];
    }
    ValuesOfDropFront(t, lo, key);
    assert t[lo..] == s[lo..hi + 1];
  }

  /** A GetAll scan that completes collects exactly the values under the key in the
      scanned slots, each once. */
  lemma {:induction false} FindAllInValues<K, V>(s: seq<Entry<K, V>>, lo: int, hi: int, key: K)
    requires FindAllIn(s, lo, hi, key).Ok?
    ensures lo <= hi ==> 0 <= lo && hi < |s|
    ensures lo > hi ==> multiset(FindAllIn(s, lo, hi, key).value) == multiset{}
    ensures lo <= hi ==> multiset(FindAllIn(s, lo, hi, key).value) == WindowValues(s, lo, hi, key)
    decreases hi - lo
  {
    if lo <= hi {
      FindAllInValues(s, lo + 1, hi, key);
      var w := s[lo..hi + 1];
      assert w[0] == s[lo];
      assert w[1..] == s[lo + 1..hi + 1];
      assert WindowValues(s, lo, hi, key) == Under(s[lo], key) + ValuesOf(w[1..], key);
      var rest := FindAllIn(s, lo + 1, hi, key).value;
      assert multiset(FindAllIn(s, lo, hi, key).value) == Under(s[lo], key) + multiset(rest);
    }
  }

  lemma {:induction false} PrependStep<K, V>(s: seq<Entry<K, V>>, lo: int, hi: int, key: K, acc: seq<V>)
    requires 0 <= lo < |s| && lo <= hi
    ensures Prepend(acc, FindAllIn(s, lo, hi, key))
         == Prepend(acc + (if s[lo].Entry? && s[lo].key == key then [s[lo].value] else []),
                    FindAllIn(s, lo + 1, hi, key))
  {
    match FindAllIn(s, lo + 1, hi, key)
    case Err(_) =>
    case Ok(rest) =>
      if s[lo].Entry? && s[lo].key == key {
        assert acc + ([s[lo].value] + rest) == (acc + [s[lo].value]) + rest;
      } else {
        assert acc + [] == acc;
      }
  }

  lemma {:induction false} PrependEnds<V>(r: Result<seq<V>>, acc: seq<V>)
    ensures Prepend([], r) == r
    ensures Prepend(acc, Ok([])) == Ok(acc)
  {
    assert acc + [] == acc;
    if r.Ok? {
      assert [] + r.value == r.value;
    }
  }

  /** Two steps that each trade one bag for another compose. */
  lemma {:induction false} Chain<T>(c0: multiset<T>, c1: multiset<T>, c2: multiset<T>, x0: multiset<T>, x1: multiset<T>, x2: multiset<T>)
    requires c1 + x1 == c0 + x0 && c2 + x2 == c1 + x1
    ensures c2 + x2 == c0 + x0
  {
  }

  lemma {:induction false} MultisetSum<T>(a: multiset<T>, x: multiset<T>, b: multiset<T>, y: multiset<T>)
    requires a + x == b + y
    ensures |a| + |x| == |b| + |y|
  {
    assert |a + x| == |b + y|;
  }

  // ---------------------------------------------------------------------------------
  // Slot invariants, stated on the array contents.

  /** The occupied bit and the entry agree, and an occupied slot keeps its key's hashcode. */
  ghost predicate Agrees<K, V>(m: MetaByte, e: Entry<K, V>, hash: K -> int) {
    (m.IsEmpty() <==> e.Vacant?) && (e.Entry? ==> m.hashcode == hash(e.key))
  }

  /** Slot i of both arrays agrees.  The quantifiers below fire only on this term, so
      each use of the invariant is an explicit step (AgreeAt, PlacedAt). */
  ghost predicate AgreesAt<K, V>(ms: seq<MetaByte>, es: seq<Entry<K, V>>, hash: K -> int, i: int) {
    0 <= i < |ms| && i < |es| && Agrees(ms[i], es[i], hash)
  }

  ghost predicate AgreeAll<K, V>(ms: seq<MetaByte>, es: seq<Entry<K, V>>, hash: K -> int) {
    |ms| == |es| && forall i {:trigger AgreesAt(ms, es, hash, i)} :: 0 <= i < |ms| ==> AgreesAt(ms, es, hash, i)
  }

  /** An occupied slot i sits PSL slots after its home slot, and its PSL is within the
      table's current PSL, so every window scan from the home slot reaches it. */
  ghost predicate PlacedSlot<K, V>(m: MetaByte, e: Entry<K, V>, i: int, mask: int, cur: nat) {
    e.Entry? ==> var h := HomeIndex(m.hashcode, mask); 0 <= h && m.Psl() == i - h && m.Psl() <= cur
  }

  ghost predicate PlacedAtIdx<K, V>(ms: seq<MetaByte>, es: seq<Entry<K, V>>, mask: int, cur: nat, i: int) {
    0 <= i < |ms| && i < |es| && PlacedSlot(ms[i], es[i], i, mask, cur)
  }

  ghost predicate PlacedAll<K, V>(ms: seq<MetaByte>, es: seq<Entry<K, V>>, mask: int, cur: nat) {
    |ms| == |es| && forall i {:trigger PlacedAtIdx(ms, es, mask, cur, i)} :: 0 <= i < |ms| ==> PlacedAtIdx(ms, es, mask, cur, i)
  }

  lemma {:induction false} AgreeAt<K, V>(ms: seq<MetaByte>, es: seq<Entry<K, V>>, hash: K -> int, i: int)
    requires AgreeAll(ms, es, hash) && 0 <= i < |ms|
    ensures Agrees(ms[i], es[i], hash)
  {
    assert AgreesAt(ms, es, hash, i);
  }

  lemma {:induction false} PlacedAt<K, V>(ms: seq<MetaByte>, es: seq<Entry<K, V>>, mask: int, cur: nat, i: int)
    requires PlacedAll(ms, es, mask, cur) && 0 <= i < |ms|
    ensures PlacedSlot(ms[i], es[i], i, mask, cur)
  {
    assert PlacedAtIdx(ms, es, mask, cur, i);
  }

  /** A table of default slots agrees, is placed and stores nothing. */
  lemma {:induction false} EmptyTable<K, V>(ms: seq<MetaByte>, es: seq<Entry<K, V>>, hash: K -> int, mask: int, cur: nat)
    requires |ms| == |es|
    requires forall i :: 0 <= i < |ms| ==> ms[i] == Default && es[i] == Vacant
    ensures AgreeAll(ms, es, hash) && PlacedAll(ms, es, mask, cur) && Stored(es) == multiset{}
  {
    DefaultIsEmpty();
    StoredVacant(es);
    forall i | 0 <= i < |ms| ensures AgreesAt(ms, es, hash, i) && PlacedAtIdx(ms, es, mask, cur, i) {
      assert ms[i] == Default && es[i] == Vacant;
    }
  }

  lemma {:induction false} WriteAgrees<K, V>(ms: seq<MetaByte>, es: seq<Entry<K, V>>, hash: K -> int, i: int, m: MetaByte, e: Entry<K, V>)
    requires AgreeAll(ms, es, hash) && 0 <= i < |ms| && Agrees(m, e, hash)
    ensures AgreeAll(ms[i := m], es[i := e], hash)
  {
    var ms', es' := ms[i := m], es[i := e];
    forall j | 0 <= j < |ms| ensures AgreesAt(ms', es', hash, j) {
      if j != i {
        assert AgreesAt(ms, es, hash, j);
      }
    }
  }

  lemma {:induction false} WritePlaced<K, V>(ms: seq<MetaByte>, es: seq<Entry<K, V>>, mask: int, cur: nat, i: int, m: MetaByte, e: Entry<K, V>)
    requires PlacedAll(ms, es, mask, cur) && 0 <= i < |ms| && PlacedSlot(m, e, i, mask, cur)
    ensures PlacedAll(ms[i := m], es[i := e], mask, cur)
  {
    var ms', es' := ms[i := m], es[i := e];
    forall j | 0 <= j < |ms| ensures PlacedAtIdx(ms', es', mask, cur, j) {
      if j != i {
        assert PlacedAtIdx(ms, es, mask, cur, j);
      }
    }
  }

  /** Where placement holds, a stored entry lies in its key's window. */
  lemma {:induction false} InWindow<K, V>(ms: seq<MetaByte>, es: seq<Entry<K, V>>, hash: K -> int, mask: int, cur: nat, j: int)
    requires AgreeAll(ms, es, hash) && PlacedAll(ms, es, mask, cur)
    requires 0 <= j < |es| && es[j].Entry?
    ensures var h := HomeIndex(hash(es[j].key), mask); 0 <= h <= j <= h + cur
  {
    AgreeAt(ms, es, hash, j);
    PlacedAt(ms, es, mask, cur, j);
  }

  lemma {:induction false} PlacedGrow<K, V>(ms: seq<MetaByte>, es: seq<Entry<K, V>>, mask: int, cur: nat, cur': nat)
    requires PlacedAll(ms, es, mask, cur) && cur <= cur'
    ensures PlacedAll(ms, es, mask, cur')
  {
    forall i | 0 <= i < |ms| ensures PlacedAtIdx(ms, es, mask, cur', i) {
      assert PlacedAtIdx(ms, es, mask, cur, i);
    }
  }

  // ---------------------------------------------------------------------------------
  // What the window scans answer on a placed table.

  /** Get finds a value exactly when the key is stored, and the value it finds is stored
      under the key. */
  lemma {:induction false} GetExact<K, V>(ms: seq<MetaByte>, es: seq<Entry<K, V>>, hash: K -> int, mask: int, cur: nat, key: K)
    requires AgreeAll(ms, es, hash) && PlacedAll(ms, es, mask, cur)
    ensures var h := HomeIndex(hash(key), mask); var r := FindIn(es, h, h + cur, key);
      && ((r.Ok? && r.value.Some?) <==> exists v :: Entry(key, v) in Stored(es))
      && (r.Ok? && r.value.Some? ==> Entry(key, r.value.value) in Stored(es))
  {
    var h := HomeIndex(hash(key), mask);
    var r := FindIn(es, h, h + cur, key);
    if r.Ok? && r.value.Some? {
      FindInSound(es, h, h + cur, key, r.value.value);
    }
    if v :| Entry(key, v) in Stored(es) {
      var j := StoredWitness(es, Entry(key, v));
      InWindow(ms, es, hash, mask, cur, j);
      FindInFinds(es, h, h + cur, j, key);
    }
  }

  /** ContainsKey(key) answers true exactly when the key is stored. */
  lemma {:induction false} ContainsKeyExact<K, V>(ms: seq<MetaByte>, es: seq<Entry<K, V>>, hash: K -> int, mask: int, cur: nat, key: K)
    requires AgreeAll(ms, es, hash) && PlacedAll(ms, es, mask, cur)
    ensures var h := HomeIndex(hash(key), mask);
      HasKeyIn(es, h, h + cur, key) == Ok(true) <==> exists v :: Entry(key, v) in Stored(es)
  {
    var h := HomeIndex(hash(key), mask);
    if HasKeyIn(es, h, h + cur, key) == Ok(true) {
      HasKeyInSound(es, h, h + cur, key);
    }
    if v :| Entry(key, v) in Stored(es) {
      var j := StoredWitness(es, Entry(key, v));
      InWindow(ms, es, hash, mask, cur, j);
      HasKeyInFinds(es, h, h + cur, j, key);
    }
  }

  /** ContainsKey(key, value) answers true exactly when the pair is stored. */
  lemma {:induction false} ContainsPairExact<K, V>(ms: seq<MetaByte>, es: seq<Entry<K, V>>, hash: K -> int, mask: int, cur: nat, key: K, value: V)
    requires AgreeAll(ms, es, hash) && PlacedAll(ms, es, mask, cur)
    ensures var h := HomeIndex(hash(key), mask);
      HasPairIn(es, h, h + cur, key, value) == Ok(true) <==> Entry(key, value) in Stored(es)
  {
    var h := HomeIndex(hash(key), mask);
    if HasPairIn(es, h, h + cur, key, value) == Ok(true) {
      HasPairInSound(es, h, h + cur, key, value);
    }
    if Entry(key, value) in Stored(es) {
      var j := StoredWitness(es, Entry(key, value));
      InWindow(ms, es, hash, mask, cur, j);
      HasPairInFinds(es, h, h + cur, j, key, value);
    }
  }

  /** A GetAll scan of the key's window that completes yields every value stored under
      the key, as many times as it is stored. */
  lemma {:induction false} GetAllExact<K, V>(ms: seq<MetaByte>, es: seq<Entry<K, V>>, hash: K -> int, mask: int, cur: nat, key: K, found: seq<V>)
    requires AgreeAll(ms, es, hash) && PlacedAll(ms, es, mask, cur)
    requires FindAllIn(es, HomeIndex(hash(key), mask), HomeIndex(hash(key), mask) + cur, key) == Ok(found)
    ensures multiset(found) == ValuesOf(es, key)
  {
    var h := HomeIndex(hash(key), mask);
    FindAllCollects(es, h, h + cur, key, found);
    WindowHoldsAll(ms, es, hash, mask, cur, key, multiset(found));
  }

  /** FindAllInValues for a named result. */
  lemma {:induction false} FindAllCollects<K, V>(s: seq<Entry<K, V>>, lo: int, hi: int, key: K, found: seq<V>)
    requires lo <= hi && FindAllIn(s, lo, hi, key) == Ok(found)
    ensures 0 <= lo <= hi < |s| && multiset(found) == WindowValues(s, lo, hi, key)
  {
    FindAllInValues(s, lo, hi, key);
  }

  /** Where placement holds, a bag equal to the values of the key's window is the bag of
      all the key's values. */
  lemma {:induction false} WindowHoldsAll<K, V>(ms: seq<MetaByte>, es: seq<Entry<K, V>>, hash: K -> int, mask: int, cur: nat, key: K, b: multiset<V>)
    requires AgreeAll(ms, es, hash) && PlacedAll(ms, es, mask, cur)
    requires 0 <= HomeIndex(hash(key), mask) <= HomeIndex(hash(key), mask) + cur < |es|
    requires b == WindowValues(es, HomeIndex(hash(key), mask), HomeIndex(hash(key), mask) + cur, key)
    ensures b == ValuesOf(es, key)
  {
    KeyInWindow(ms, es, hash, mask, cur, key);
    ValuesOfWindow(es, HomeIndex(hash(key), mask), HomeIndex(hash(key), mask) + cur, key);
  }

  /** Where placement holds, every slot holding the key lies in the key's window. */
  lemma {:induction false} KeyInWindow<K, V>(ms: seq<MetaByte>, es: seq<Entry<K, V>>, hash: K -> int, mask: int, cur: nat, key: K)
    requires AgreeAll(ms, es, hash) && PlacedAll(ms, es, mask, cur)
    ensures forall i :: 0 <= i < |es| && es[i].Entry? && es[i].key == key ==>
      HomeIndex(hash(key), mask) <= i <= HomeIndex(hash(key), mask) + cur
  {
    forall i | 0 <= i < |es| && es[i].Entry? && es[i].key == key
      ensures HomeIndex(hash(key), mask) <= i <= HomeIndex(hash(key), mask) + cur
    {
      InWindow(ms, es, hash, mask, cur, i);
    }
  }

  /** The slots StartSwapping leaves after carrying `e` (metadata `m0`) on from slot
      `index` up to slot `last`: when last > index, slots index + 1 .. last hold e and
      then the entries that stood at index + 1 .. last - 1, one slot further on, each
      with its PSL raised by one, the slots passed over were occupied and slot `last`
      was empty; every other slot is as it was. */
  ghost predicate Shifted<K, V>(es: seq<Entry<K, V>>, ms: seq<MetaByte>, es': seq<Entry<K, V>>, ms': seq<MetaByte>,
                                index: int, last: int, e: Entry<K, V>, m0: MetaByte)
  {
    && |es'| == |es| == |ms| == |ms'| && 0 <= index <= last < |es|
    && (forall i :: 0 <= i < |es| && (i <= index || last < i) ==> es'[i] == es[i] && ms'[i] == ms[i])
    && (last > index ==> e.Entry? && es'[index + 1] == e && ms'[index + 1] == m0.IncPsl() && es[last].Vacant?)
    && (forall i :: index + 1 < i <= last ==> es'[i] == es[i - 1] && ms'[i] == ms[i - 1].IncPsl())
    && (forall i :: index < i < last ==> es[i].Entry?)
  }

  /** Writing `e` into slot index + 1 and then carrying the displaced slot on from there
      is carrying `e` on from `index`. */
  lemma {:induction false} ShiftCompose<K, V>(es: seq<Entry<K, V>>, ms: seq<MetaByte>, es1: seq<Entry<K, V>>, ms1: seq<MetaByte>,
                           es': seq<Entry<K, V>>, ms': seq<MetaByte>, index: int, last: int, e: Entry<K, V>, m0: MetaByte,
                           pe: Entry<K, V>, pm: MetaByte)
    requires |es| == |ms| && 0 <= index && index + 1 < |es| && e.Entry?
    requires pe == es[index + 1] && pm == ms[index + 1]
    requires es1 == es[index + 1 := e] && ms1 == ms[index + 1 := m0.IncPsl()]
    requires Shifted(es1, ms1, es', ms', index + 1, last, pe, pm)
    requires last == index + 1 ==> pe.Vacant?
    ensures Shifted(es, ms, es', ms', index, last, e, m0)
  {
    assert es'[index + 1] == es1[index + 1];
    forall i | 0 <= i < |es| && (i <= index || last < i) ensures es'[i] == es[i] && ms'[i] == ms[i] {
      assert es'[i] == es1[i] && ms'[i] == ms1[i];
    }
    forall i | index + 1 < i <= last ensures es'[i] == es[i - 1] && ms'[i] == ms[i - 1].IncPsl() {
      if i > index + 2 {
        assert es'[i] == es1[i - 1] && ms'[i] == ms1[i - 1].IncPsl();
      }
    }
    forall i | index < i < last ensures es[i].Entry? {
      if i > index + 1 {
        assert es1[i] == es[i];
      }
    }
    if last > index + 1 {
      assert es1[last] == es[last];
    }
  }

  // ---------------------------------------------------------------------------------

  class MultiMap<K(==,!new), V(==,!new)> {
    /** RuntimeHelpers.GetHashCode: the identity hash of a key. */
    const hash: K -> int
    /** Type.GetHashCode, which GetAll uses instead. */
    const typeHash: K -> int
    /** The load factor, lfNum / lfDen. */
    const lfNum: nat
    const lfDen: nat
    /** DelegateCache's Emplace raises instead of resizing when the PSL limit is 127. */
    const throwAtPslLimit: bool
    var maxlookups: nat
    /** _maxlookupsMinusOne */
    var mask: int
    var maxPsl: nat
    var currentPsl: nat
    var count: nat
    var info: array<MetaByte>
    var entries: array<Entry<K, V>>

    ghost predicate Shape()
      reads this, info, entries
    {
      && lfDen > 0
      && maxPsl <= 127 && currentPsl <= 127
      && info.Length == entries.Length == maxlookups + maxPsl + 1 <= MaxArrayLength
      && AgreeAll(info[..], entries[..], hash)
    }

    /** The shape invariant, and Count is the number of occupied slots. */
    ghost predicate Valid()
      reads this, info, entries
    {
      Shape() && count == |Stored(entries[..])|
    }

    ghost function Contents(): multiset<Entry<K, V>>
      reads this, entries
    {
      Stored(entries[..])
    }

    /** Every entry is reachable from its home slot (see PlacedSlot). */
    ghost predicate Placed()
      reads this, info, entries
    {
      PlacedAll(info[..], entries[..], mask, currentPsl)
    }

    /** Placement holds, and an entry carried with metadata `m` stands at slot `index`
        of its probe sequence. */
    ghost predicate PlacedFrom(index: int, e: Entry<K, V>, m: MetaByte)
      reads this, info, entries
    {
      Placed() && (e.Entry? ==> 0 <= HomeIndex(m.hashcode, mask) && m.Psl() == index - HomeIndex(m.hashcode, mask))
    }

    /** The first slot a key's probe starts at. */
    function Home(key: K): int
      reads this
    {
      HomeIndex(hash(key), mask)
    }

    constructor (length: nat, lfNum: nat, lfDen: nat, hash: K -> int, typeHash: K -> int, throwAtPslLimit: bool)
      requires lfDen > 0
      requires length + 128 <= MaxArrayLength
      ensures Valid() && Placed() && Contents() == multiset{}
      ensures this.hash == hash && this.typeHash == typeHash && this.lfNum == lfNum && this.lfDen == lfDen
      ensures this.throwAtPslLimit == throwAtPslLimit
      ensures maxlookups == length && mask == Bits.NextPow2(length) - 1 && currentPsl == 0
      ensures maxPsl == if length < 127 then Bits.BitLength(Bits.NextPow2(length)) else 127
      ensures info.Length == entries.Length == length + maxPsl + 1
      ensures fresh(info) && fresh(entries)
    {
      this.hash := hash;
      this.typeHash := typeHash;
      this.lfNum := lfNum;
      this.lfDen := lfDen;
      this.throwAtPslLimit := throwAtPslLimit;
      maxlookups := length;
      var size := Bits.NextPow2(length);
      var psl: nat := 127;
      if length < 127 {
        psl := Bits.Log2(size);
        SmallPslBound(length);
      }
      maxPsl := psl;
      mask := size as int - 1;
      currentPsl := 0;
      count := 0;
      entries := new Entry<K, V>[length + psl + 1](_ => Vacant);
      info := new MetaByte[length + psl + 1](_ => Default);
      new;
      StoredVacant(entries[..]);
    }

    // ------------------------------------------------------------------------------
    // Window scans: slots Home(key) .. Home(key) + currentPsl.

    /** ContainsKey(key, value): is the pair in the key's window? */
    method ContainsPair(key: K, value: V) returns (r: Result<bool>)
      ensures r == HasPairIn(entries[..], Home(key), Home(key) + currentPsl, key, value)
    {
      var index := Home(key);
      var maxDistance := index + currentPsl;
      while index <= maxDistance
        invariant HasPairIn(entries[..], index, maxDistance, key, value)
               == HasPairIn(entries[..], Home(key), maxDistance, key, value)
        decreases maxDistance - index
      {
        if index < 0 || index >= entries.Length {
          return Err(IndexOutOfRange);
        }
        var entry := entries[index];
        if entry.Entry? && entry.key == key && entry.value == value {
          return Ok(true);
        }
        index := index + 1;
      }
      return Ok(false);
    }

    /** ContainsKey(key): is the key in its window? */
    method ContainsKey(key: K) returns (r: Result<bool>)
      ensures r == HasKeyIn(entries[..], Home(key), Home(key) + currentPsl, key)
    {
      var index := Home(key);
      var maxDistance := index + currentPsl;
      while index <= maxDistance
        invariant HasKeyIn(entries[..], index, maxDistance, key)
               == HasKeyIn(entries[..], Home(key), maxDistance, key)
        decreases maxDistance - index
      {
        if index < 0 || index >= entries.Length {
          return Err(IndexOutOfRange);
        }
        var entry := entries[index];
        if entry.Entry? && entry.key == key {
          return Ok(true);
        }
        index := index + 1;
      }
      return Ok(false);
    }

    /** Get: the first value in the key's window, None where the source returns default. */
    method Get(key: K) returns (r: Result<Option<V>>)
      ensures r == FindIn(entries[..], Home(key), Home(key) + currentPsl, key)
    {
      var index := Home(key);
      var maxDistance := index + currentPsl;
      while index <= maxDistance
        invariant FindIn(entries[..], index, maxDistance, key)
               == FindIn(entries[..], Home(key), maxDistance, key)
        decreases maxDistance - index
      {
        if index < 0 || index >= entries.Length {
          return Err(IndexOutOfRange);
        }
        var entry := entries[index];
        if entry.Entry? && entry.key == key {
          return Ok(Some(entry.value));
        }
        index := index + 1;
      }
      return Ok(None);
    }

    /** GetAll: every value in the window, in slot order.  The window starts at the
        home slot of `typeHash(key)`, which the source takes from a different hash. */
    method GetAll(key: K) returns (r: Result<seq<V>>)
      ensures r == FindAllIn(entries[..], HomeIndex(typeHash(key), mask), HomeIndex(typeHash(key), mask) + currentPsl, key)
    {
      var lo := HomeIndex(typeHash(key), mask);
      var index := lo;
      var maxDistance := index + currentPsl;
      var acc: seq<V> := [];
      PrependEnds(FindAllIn(entries[..], lo, maxDistance, key), acc);
      while index <= maxDistance
        invariant lo <= index
        invariant FindAllIn(entries[..], lo, maxDistance, key)
               == Prepend(acc, FindAllIn(entries[..], index, maxDistance, key))
        decreases maxDistance - index
      {
        if index < 0 || index >= entries.Length {
          return Err(IndexOutOfRange);
        }
        var entry := entries[index];
        PrependStep(entries[..], index, maxDistance, key, acc);
        if entry.Entry? && entry.key == key {
          acc := acc + [entry.value];
        } else {
          assert acc + [] == acc;
        }
        index := index + 1;
      }
      PrependEnds(FindAllIn(entries[..], lo, maxDistance, key), acc);
      return Ok(acc);
    }

    // ------------------------------------------------------------------------------
    // Insertion.

    /** The two Swap calls on slot `index`: the slot takes `(e, m)` and its former
        contents are handed back. */
    method Exchange(index: int, e: Entry<K, V>, m: MetaByte) returns (pe: Entry<K, V>, pm: MetaByte)
      requires Shape() && 0 <= index < info.Length && Agrees(m, e, hash)
      modifies info, entries
      ensures pe == old(entries[index]) && pm == old(info[index])
      ensures entries[..] == old(entries[..])[index := e] && info[..] == old(info[..])[index := m]
      ensures Shape() && Agrees(pm, pe, hash)
      ensures Contents() + Slot(pe) == old(Contents()) + Slot(e)
      ensures |Contents()| + |Slot(pe)| == old(|Contents()|) + |Slot(e)|
      ensures old(Placed()) ==> PlacedSlot(pm, pe, index, mask, currentPsl)
      ensures old(Placed()) && PlacedSlot(m, e, index, mask, currentPsl) ==> Placed()
    {
      ghost var ms, es := info[..], entries[..];
      AgreeAt(ms, es, hash, index);
      if PlacedAll(ms, es, mask, currentPsl) {
        PlacedAt(ms, es, mask, currentPsl, index);
      }
      StoredUpdate(es, index, e);
      MultisetSum(Stored(es[index := e]), Slot(es[index]), Stored(es), Slot(e));
      pe, pm := entries[index], info[index];
      entries[index] := e;
      info[index] := m;
      assert entries[..] == es[index := e] && info[..] == ms[index := m];
      WriteAgrees(ms, es, hash, index, m, e);
      if PlacedAll(ms, es, mask, currentPsl) && PlacedSlot(m, e, index, mask, currentPsl) {
        WritePlaced(ms, es, mask, currentPsl, index, m, e);
      }
    }

    /**
     * Emplace: a pair already in its key's window is not stored again (false); otherwise
     * it is stored (true).  A load-factor resize may come first.  When every entry was
     * reachable from its home slot and no PSL wrapped, that stays so and the answer is
     * exactly whether the pair was new.
     */
    method Emplace(key: K, value: V) returns (r: Result<bool>, ghost wrapped: bool)
      requires Valid()
      modifies this, info, entries
      ensures (info == old(info) && entries == old(entries)) || (fresh(info) && fresh(entries))
      ensures maxlookups >= old(maxlookups)
      ensures r == Ok(false) ==> Valid() && Contents() == old(Contents()) && Entry(key, value) in Contents()
      ensures r == Ok(true) ==>
        Valid() && Contents() == old(Contents()) + multiset{Entry(key, value)} && count == old(count) + 1
      ensures r.Ok? && old(Placed()) && !wrapped ==>
        Placed() && (r.value <==> Entry(key, value) !in old(Contents()))
      ensures r.Err? && r.fault.InvalidOperation? ==> throwAtPslLimit
    {
      wrapped := false;
      if count * lfDen > lfNum * maxlookups {
        var grown;
        grown, wrapped := Resize();
        if grown.Err? {
          return Err(grown.fault), wrapped;
        }
      }
      var present := ContainsPair(key, value);
      if present.Err? {
        return Err(present.fault), wrapped;
      }
      if present.value {
        HasPairInSound(entries[..], Home(key), Home(key) + currentPsl, key, value);
        return Ok(false), wrapped;
      }
      if !wrapped && Placed() && Entry(key, value) in Contents() {
        var j := StoredWitness(entries[..], Entry(key, value));
        InWindow(info[..], entries[..], hash, mask, currentPsl, j);
        HasPairInFinds(entries[..], Home(key), Home(key) + currentPsl, j, key, value);
        assert false;
      }
      var placed, w := EmplaceInternal(Entry(key, value), MetaByte(0, hash(key)).SetPsl(0), throwAtPslLimit);
      wrapped := wrapped || w;
      if placed.Err? {
        return Err(placed.fault), wrapped;
      }
      return Ok(true), wrapped;
    }

    /** The check at the head of every probe step: the current PSL, the window every
        lookup scans, grows to `p` when `p` is larger. */
    method TrackPsl(p: nat)
      requires Shape() && p <= 127
      modifies this
      ensures currentPsl == if old(currentPsl) < p then p else old(currentPsl)
      ensures count == old(count) && maxlookups == old(maxlookups) && mask == old(mask) && maxPsl == old(maxPsl)
      ensures info == old(info) && entries == old(entries) && Contents() == old(Contents())
      ensures Shape() && (old(Placed()) ==> Placed())
    {
      if currentPsl < p {
        ghost var before := currentPsl;
        currentPsl := p;
        if PlacedAll(info[..], entries[..], mask, before) {
          PlacedGrow(info[..], entries[..], mask, before, p);
        }
      }
    }

    /** One step of StartSwapping past the checks: the current PSL grows to the carried
        PSL, then, when slot `index` exists, the slot takes the carried entry and hands
        back its former contents. */
    method CarryInto(index: int, e: Entry<K, V>, m: MetaByte) returns (ok: bool, pe: Entry<K, V>, pm: MetaByte)
      requires Shape() && 0 <= index && e.Entry? && Agrees(m, e, hash)
      modifies this, info, entries
      ensures ok <==> index < info.Length
      ensures info == old(info) && entries == old(entries)
      ensures count == old(count) && maxlookups == old(maxlookups) && mask == old(mask) && maxPsl == old(maxPsl)
      ensures Shape()
      ensures ok ==> pe == old(entries[..])[index] && pm == old(info[..])[index]
      ensures ok ==> entries[..] == old(entries[..])[index := e] && info[..] == old(info[..])[index := m]
      ensures ok ==> Agrees(pm, pe, hash) && Stored(entries[..]) + Slot(pe) == old(Stored(entries[..])) + Slot(e)
      ensures ok ==> |Stored(entries[..])| + |Slot(pe)| == old(|Stored(entries[..])|) + |Slot(e)|
      ensures ok && old(Placed()) ==> PlacedSlot(pm, pe, index, mask, currentPsl)
      ensures ok && old(Placed()) && 0 <= HomeIndex(m.hashcode, mask) && m.Psl() == index - HomeIndex(m.hashcode, mask) ==> Placed()
    {
      TrackPsl(m.Psl());
      if index >= info.Length {
        return false, e, m;
      }
      ok := true;
      pe, pm := Exchange(index, e, m);
    }

    /** The empty-slot branch of the probe loop: the slot takes the carried entry and
        Count goes up by one. */
    method PlaceAt(index: int, e: Entry<K, V>, m: MetaByte)
      requires Valid() && 0 <= index < info.Length && info[index].IsEmpty()
      requires e.Entry? && Agrees(m, e, hash)
      modifies this, info, entries
      ensures info == old(info) && entries == old(entries)
      ensures entries[..] == old(entries[..])[index := e] && info[..] == old(info[..])[index := m]
      ensures maxlookups == old(maxlookups) && mask == old(mask) && maxPsl == old(maxPsl) && currentPsl == old(currentPsl)
      ensures Valid() && Contents() == old(Contents()) + Slot(e) && count == old(count) + 1
      ensures old(Placed()) && PlacedSlot(m, e, index, mask, currentPsl) ==> Placed()
    {
      var pe, pm := Exchange(index, e, m);
      assert pe == Vacant;
      count := count + 1;
    }

    /** The equal-hashcode branch of the probe loop: Count goes up by one and
        StartSwapping moves the carried entry next to the entries that share its
        hashcode. */
    method JoinRun(index: int, e: Entry<K, V>, m: MetaByte) returns (r: Result<()>, ghost wrapped: bool)
      requires Valid() && 0 <= index < info.Length && e.Entry? && Agrees(m, e, hash)
      modifies this, info, entries
      decreases Bits.Two32 - maxlookups, 3, 0
      ensures maxlookups >= old(maxlookups)
      ensures (info == old(info) && entries == old(entries)) || (fresh(info) && fresh(entries))
      ensures r.Ok? ==> Valid() && Contents() == old(Contents()) + Slot(e)
      ensures r.Ok? && !wrapped && old(PlacedFrom(index, e, m)) ==> Placed()
      ensures r.Err? ==> !r.fault.InvalidOperation?
    {
      count := count + 1;
      ghost var resized, last;
      r, wrapped, resized, last := StartSwapping(index, e, m);
    }

    /** The branch taken at the PSL limit (and at slot maxlookups in StartSwapping):
        Resize, then EmplaceInternal for the carried entry. */
    method ResizeThenPlace(e: Entry<K, V>, m: MetaByte) returns (r: Result<()>, ghost wrapped: bool)
      requires Shape() && e.Entry? && m.hashcode == hash(e.key)
      modifies this, info, entries
      decreases Bits.Two32 - maxlookups, 1, 0
      ensures maxlookups > old(maxlookups)
      ensures (info == old(info) && entries == old(entries)) || (fresh(info) && fresh(entries))
      ensures r.Ok? ==> Valid() && Contents() == old(Contents()) + Slot(e)
      ensures r.Ok? && !wrapped ==> Placed()
      ensures r.Err? ==> !r.fault.InvalidOperation?
    {
      var grown, w := Resize();
      if grown.Err? {
        return Err(grown.fault), w;
      }
      ghost var w2;
      r, w2 := EmplaceInternal(e, m, false);
      wrapped := w || w2;
    }

    /**
     * The probe loop of Emplace and EmplaceInternal: from the home slot with PSL 0, store
     * into the first empty slot, hand over to StartSwapping at the first slot with the same
     * hashcode, displace any resident with a smaller PSL and carry it on, and resize when
     * the PSL reaches the maximum.  `throwAtLimit` is DelegateCache.Emplace's exception at
     * PSL 127.
     */
    method EmplaceInternal(e: Entry<K, V>, m0: MetaByte, throwAtLimit: bool) returns (r: Result<()>, ghost wrapped: bool)
      requires Valid() && e.Entry? && m0.hashcode == hash(e.key)
      modifies this, info, entries
      decreases Bits.Two32 - maxlookups, 5, 0
      ensures maxlookups >= old(maxlookups)
      ensures (info == old(info) && entries == old(entries)) || (fresh(info) && fresh(entries))
      ensures r.Ok? ==> Valid() && Contents() == old(Contents()) + Slot(e)
      ensures r.Ok? && old(Placed()) && !wrapped ==> Placed()
      ensures r.Err? && r.fault.InvalidOperation? ==> throwAtLimit
    {
      var entry := e;
      var meta := m0.SetPsl(0);
      SetPslSmall(m0, 0);
      var index := HomeIndex(meta.hashcode, mask);
      ghost var tracking := Placed();
      while true
        invariant Valid()
        invariant info == old(info) && entries == old(entries) && maxlookups == old(maxlookups)
        invariant entry.Entry? && Agrees(meta, entry, hash)
        invariant meta.Psl() <= maxPsl
        invariant Contents() + Slot(entry) == old(Contents()) + Slot(e)
        invariant tracking ==> Placed() && meta.Psl() == index - HomeIndex(meta.hashcode, mask)
        invariant tracking ==> 0 <= HomeIndex(meta.hashcode, mask) || index < 0
        decreases info.Length - index
      {
        ghost var before := Contents();
        var done, next, nextMeta;
        done, r, wrapped, next, nextMeta := Probe(index, entry, meta, throwAtLimit, tracking);
        if done {
          return;
        }
        Chain(old(Contents()), before, Contents(), Slot(e), Slot(entry), Slot(next));
        entry, meta, index := next, nextMeta, index + 1;
      }
    }

    /**
     * One pass of the probe loop at `index` with the carried entry: the PSL check comes
     * first, then either the insertion finishes at this slot (`done`) or the loop goes on
     * at index + 1 carrying `next` with metadata `nextMeta` (the displaced resident, or
     * the same entry one step further from home).
     */
    method Probe(index: int, entry: Entry<K, V>, meta: MetaByte, throwAtLimit: bool, ghost tracking: bool)
      returns (done: bool, r: Result<()>, ghost wrapped: bool, next: Entry<K, V>, nextMeta: MetaByte)
      requires Valid() && entry.Entry? && Agrees(meta, entry, hash) && meta.Psl() <= maxPsl
      requires tracking ==> Placed() && meta.Psl() == index - HomeIndex(meta.hashcode, mask)
      requires tracking ==> 0 <= HomeIndex(meta.hashcode, mask) || index < 0
      modifies this, info, entries
      decreases Bits.Two32 - maxlookups, 4, 0
      ensures maxlookups >= old(maxlookups)
      ensures (info == old(info) && entries == old(entries)) || (fresh(info) && fresh(entries))
      ensures !done ==>
        && info == old(info) && entries == old(entries) && maxlookups == old(maxlookups)
        && 0 <= index < info.Length && Valid()
        && next.Entry? && Agrees(nextMeta, next, hash) && nextMeta.Psl() <= maxPsl
        && Contents() + Slot(next) == old(Contents()) + Slot(entry)
        && (tracking ==> Placed() && nextMeta.Psl() == index + 1 - HomeIndex(nextMeta.hashcode, mask))
        && (tracking ==> 0 <= HomeIndex(nextMeta.hashcode, mask))
      ensures done && r.Ok? ==> Valid() && Contents() == old(Contents()) + Slot(entry)
      ensures done && r.Ok? && tracking && !wrapped ==> Placed()
      ensures done && r.Err? && r.fault.InvalidOperation? ==> throwAtLimit
    {
      next, nextMeta, wrapped, done := entry, meta, false, true;
      TrackPsl(meta.Psl());
      if index < 0 || index >= info.Length {
        return done, Err(IndexOutOfRange), wrapped, next, nextMeta;
      }
      var m := info[index];
      if m.IsEmpty() {
        PlaceAt(index, entry, meta);
        return done, Ok(()), wrapped, next, nextMeta;
      }
      if m.hashcode == meta.hashcode {
        r, wrapped := JoinRun(index, entry, meta);
        return;
      }
      if meta.Psl() > m.Psl() {
        next, nextMeta := Exchange(index, entry, meta);
      } else if meta.Psl() == maxPsl {
        if throwAtLimit && meta.Psl() == 127 {
          return done, Err(InvalidOperation(PslLimitMessage)), wrapped, next, nextMeta;
        }
        r, wrapped := ResizeThenPlace(entry, meta);
        return;
      }
      IncPslSmall(nextMeta);
      nextMeta := nextMeta.IncPsl();
      done, r := false, Ok(());
    }

    /**
     * After the probe met a slot with the same hashcode: the carried entry goes into the
     * next slot with PSL + 1 and the entry it displaces is carried on in the same way,
     * until an empty slot absorbs the last one, so equal hashcodes stay adjacent.
     * Reaching slot `maxlookups` instead resizes and reinserts the carried entry.  The
     * source's jump back to its Start label is the tail call.
     */
    method StartSwapping(index: int, e: Entry<K, V>, m0: MetaByte)
      returns (r: Result<()>, ghost wrapped: bool, ghost resized: bool, ghost last: int)
      requires Shape() && 0 <= index < info.Length && Agrees(m0, e, hash)
      requires count == |Contents()| + |Slot(e)|
      modifies this, info, entries
      decreases Bits.Two32 - maxlookups, 2, 3 * (info.Length - index)
      ensures maxlookups >= old(maxlookups)
      ensures (info == old(info) && entries == old(entries)) || (fresh(info) && fresh(entries))
      ensures r.Ok? ==> Valid() && Contents() == old(Contents()) + Slot(e)
      ensures r.Ok? && !wrapped && old(PlacedFrom(index, e, m0)) ==> Placed()
      ensures r.Err? ==> !r.fault.InvalidOperation?
      ensures r.Ok? && !resized ==>
        && info == old(info) && entries == old(entries)
        && (last == index <==> m0.IsEmpty())
        && Shifted(old(entries[..]), old(info[..]), entries[..], info[..], index, last, e, m0)
    {
      wrapped, resized, last := false, false, index;
      if m0.IsEmpty() {
        return Ok(()), wrapped, resized, last;
      }
      if index == maxlookups {
        IncPslStep(m0);
        ghost var w;
        r, w := ResizeThenPlace(e, m0.IncPsl());
        return r, w || m0.Psl() == 127, true, last;
      }
      r, wrapped, resized, last := SwapOn(index, e, m0);
    }

    /** StartSwapping below slot maxlookups with an occupied slot: the carried entry goes
        into slot index + 1 with PSL + 1, and the swapping goes on with what it displaces. */
    method SwapOn(index: int, e: Entry<K, V>, m0: MetaByte)
      returns (r: Result<()>, ghost wrapped: bool, ghost resized: bool, ghost last: int)
      requires Shape() && 0 <= index < info.Length && Agrees(m0, e, hash) && !m0.IsEmpty()
      requires count == |Contents()| + |Slot(e)|
      modifies this, info, entries
      decreases Bits.Two32 - maxlookups, 2, 3 * (info.Length - index) - 1
      ensures maxlookups >= old(maxlookups)
      ensures (info == old(info) && entries == old(entries)) || (fresh(info) && fresh(entries))
      ensures r.Ok? ==> Valid() && Contents() == old(Contents()) + Slot(e)
      ensures r.Ok? && !wrapped && old(PlacedFrom(index, e, m0)) ==> Placed()
      ensures r.Err? ==> !r.fault.InvalidOperation?
      ensures r.Ok? && !resized ==>
        && info == old(info) && entries == old(entries) && last != index
        && Shifted(old(entries[..]), old(info[..]), entries[..], info[..], index, last, e, m0)
    {
      IncPslStep(m0);
      var bumped := m0.IncPsl();
      ghost var es0, ms0 := entries[..], info[..];
      var ok, pe, pm := CarryInto(index + 1, e, bumped);
      if !ok {
        return Err(IndexOutOfRange), m0.Psl() == 127, false, index;
      }
      if old(PlacedFrom(index, e, m0)) && m0.Psl() < 127 {
        assert bumped.Psl() == index + 1 - HomeIndex(bumped.hashcode, mask);
        assert PlacedSlot(pm, pe, index + 1, mask, currentPsl);
      }
      ghost var w;
      r, w, resized, last := SwapFrom(index, e, m0, pe, pm, es0, ms0);
      wrapped := w || m0.Psl() == 127;
    }

    /** The rest of SwapOn once slot index + 1 holds the carried entry and `pe`, `pm` (what
        stood there) are carried on: StartSwapping from index + 1. */
    method SwapFrom(index: int, e: Entry<K, V>, m0: MetaByte, pe: Entry<K, V>, pm: MetaByte,
                    ghost es0: seq<Entry<K, V>>, ghost ms0: seq<MetaByte>)
      returns (r: Result<()>, ghost wrapped: bool, ghost resized: bool, ghost last: int)
      requires Shape() && 0 <= index && index + 1 < info.Length && Agrees(pm, pe, hash) && e.Entry?
      requires count == |Contents()| + |Slot(pe)|
      requires |es0| == |ms0| == info.Length && pe == es0[index + 1] && pm == ms0[index + 1]
      requires entries[..] == es0[index + 1 := e] && info[..] == ms0[index + 1 := m0.IncPsl()]
      modifies this, info, entries
      decreases Bits.Two32 - maxlookups, 2, 3 * (info.Length - index) - 2
      ensures maxlookups >= old(maxlookups)
      ensures (info == old(info) && entries == old(entries)) || (fresh(info) && fresh(entries))
      ensures r.Ok? ==> Valid() && Contents() == old(Contents()) + Slot(pe)
      ensures r.Ok? && !wrapped && old(PlacedFrom(index + 1, pe, pm)) ==> Placed()
      ensures r.Err? ==> !r.fault.InvalidOperation?
      ensures r.Ok? && !resized ==>
        && info == old(info) && entries == old(entries) && last != index
        && Shifted(es0, ms0, entries[..], info[..], index, last, e, m0)
    {
      ghost var es1, ms1 := entries[..], info[..];
      r, wrapped, resized, last := StartSwapping(index + 1, pe, pm);
      if r.Ok? && !resized {
        assert last == index + 1 ==> pm.IsEmpty();
        ShiftCompose(es0, ms0, es1, ms1, entries[..], info[..], index, last, e, m0, pe, pm);
      }
    }

    /**
     * Resize: capacity NextPow2(maxlookups + 1), a maximum PSL to match, fresh arrays of
     * capacity + maxPsl + 1 slots, Count reset, and every occupied old slot reinserted in
     * slot order.  The entries are kept; the current PSL is not reset.
     */
    method Resize() returns (r: Result<()>, ghost wrapped: bool)
      requires Shape()
      modifies this, info, entries
      decreases Bits.Two32 - maxlookups, 0, 0
      ensures maxlookups > old(maxlookups)
      ensures r.Ok? ==> Valid() && Contents() == old(Contents()) && fresh(info) && fresh(entries)
      ensures r.Ok? && !wrapped ==> Placed()
      ensures r.Err? ==> !r.fault.InvalidOperation?
      ensures (info == old(info) && entries == old(entries)) || (fresh(info) && fresh(entries))
    {
      var next, psl := GrownSize(maxlookups);
      maxlookups := next;
      maxPsl := psl;
      mask := next as int - 1;
      if next + psl + 1 > MaxArrayLength {
        return Err(OutOfMemory), false;
      }
      // The source copies both arrays before replacing them.
      var oldInfo, oldEntries := info[..], entries[..];
      r, wrapped := Rebuild(oldInfo, oldEntries);
    }

    /** The second half of Resize: fresh arrays for the new capacity, Count reset, and
        the copied slots reinserted. */
    method Rebuild(oldInfo: seq<MetaByte>, oldEntries: seq<Entry<K, V>>) returns (r: Result<()>, ghost wrapped: bool)
      requires lfDen > 0 && maxPsl <= 127 && currentPsl <= 127
      requires maxlookups + maxPsl + 1 <= MaxArrayLength
      requires AgreeAll(oldInfo, oldEntries, hash)
      modifies this
      decreases Bits.Two32 - maxlookups, 8, 0
      ensures maxlookups >= old(maxlookups)
      ensures fresh(info) && fresh(entries)
      ensures r.Ok? ==> Valid() && Contents() == Stored(oldEntries)
      ensures r.Ok? && !wrapped ==> Placed()
      ensures r.Err? ==> !r.fault.InvalidOperation?
    {
      info, entries := NewTable(maxlookups + maxPsl + 1, hash, mask, currentPsl);
      count := 0;
      r, wrapped := Reinsert(oldInfo, oldEntries);
    }

    /** One step of Resize's reinsertion loop: an occupied old slot goes back in through
        EmplaceInternal; an empty one is skipped. */
    method ReinsertSlot(m: MetaByte, e: Entry<K, V>) returns (r: Result<()>, ghost wrapped: bool)
      requires Valid() && Agrees(m, e, hash)
      modifies this, info, entries
      decreases Bits.Two32 - maxlookups, 6, 0
      ensures maxlookups >= old(maxlookups)
      ensures (info == old(info) && entries == old(entries)) || (fresh(info) && fresh(entries))
      ensures r.Ok? ==> Valid() && Contents() == old(Contents()) + Slot(e)
      ensures r.Ok? && old(Placed()) && !wrapped ==> Placed()
      ensures r.Err? ==> !r.fault.InvalidOperation?
    {
      if m.IsEmpty() {
        return Ok(()), false;
      }
      r, wrapped := EmplaceInternal(e, m, false);
    }

    /** The loop of Resize: every occupied slot of the copied arrays, in slot order, goes
        through EmplaceInternal into the new table. */
    method Reinsert(oldInfo: seq<MetaByte>, oldEntries: seq<Entry<K, V>>) returns (r: Result<()>, ghost wrapped: bool)
      requires Valid() && Placed() && Contents() == multiset{}
      requires AgreeAll(oldInfo, oldEntries, hash)
      modifies this, info, entries
      decreases Bits.Two32 - maxlookups, 7, 0
      ensures maxlookups >= old(maxlookups)
      ensures (info == old(info) && entries == old(entries)) || (fresh(info) && fresh(entries))
      ensures r.Ok? ==> Valid() && Contents() == Stored(oldEntries)
      ensures r.Ok? && !wrapped ==> Placed()
      ensures r.Err? ==> !r.fault.InvalidOperation?
    {
      wrapped := false;
      var i := 0;
      while i < |oldEntries|
        invariant 0 <= i <= |oldEntries|
        invariant (info == old(info) && entries == old(entries)) || (fresh(info) && fresh(entries))
        invariant Valid() && maxlookups >= old(maxlookups)
        invariant Contents() == Stored(oldEntries[..i])
        invariant !wrapped ==> Placed()
      {
        AgreeAt(oldInfo, oldEntries, hash, i);
        ghost var before := Contents();
        var placed, w := ReinsertSlot(oldInfo[i], oldEntries[i]);
        wrapped := wrapped || w;
        if placed.Err? {
          return placed, wrapped;
        }
        StoredPrefixStep(oldEntries, i, before, Contents());
        i := i + 1;
      }
      assert oldEntries[..i] == oldEntries;
      return Ok(()), wrapped;
    }

    static lemma {:induction false} Growth(maxlookups: nat)
      requires maxlookups < MaxArrayLength
      ensures maxlookups < Bits.NextPow2(maxlookups + 1) <= 0x8000_0000
    {
      Bits.NextPow2Least(maxlookups + 1);
      var k: nat :| k <= 31 && Bits.NextPow2(maxlookups + 1) == Bits.Pow2(k);
      Bits.Pow2At32();
      Bits.Pow2Mono(k, 31);
    }

    /** Fresh arrays of `size` empty slots (metadata 0, no entry). */
    static method NewTable(size: nat, hash: K -> int, mask: int, cur: nat) returns (ms: array<MetaByte>, es: array<Entry<K, V>>)
      ensures fresh(ms) && fresh(es) && ms.Length == es.Length == size
      ensures AgreeAll(ms[..], es[..], hash) && PlacedAll(ms[..], es[..], mask, cur) && Stored(es[..]) == multiset{}
    {
      es := new Entry<K, V>[size](_ => Vacant);
      ms := new MetaByte[size](_ => Default);
      EmptyTable(ms[..], es[..], hash, mask, cur);
    }

    /** The new lookup span and PSL limit chosen by Resize. */
    static method GrownSize(ml: nat) returns (next: nat, psl: nat)
      requires ml < MaxArrayLength
      ensures next == Bits.NextPow2(ml + 1) && ml < next <= 0x8000_0000
      ensures psl == (if next < 127 then Bits.BitLength(next) else 127) && psl <= 127
    {
      next := Bits.NextPow2(ml + 1);
      Growth(ml);
      psl := 127;
      if next < 127 {
        psl := Bits.Log2(next);
        SmallLog2(next);
      }
    }

    static lemma {:induction false} SmallLog2(v: nat)
      requires v < 127
      ensures Bits.BitLength(v) <= 7
    {
      assert Bits.Pow2(7) == 128;
      Bits.BitLengthAtMost(v, 7);
    }

    static lemma {:induction false} SmallPslBound(length: nat)
      requires length < 127
      ensures Bits.BitLength(Bits.NextPow2(length)) <= 8
    {
      if length == 0 {
        Bits.NextPow2Wraps(0);
      } else {
        Bits.NextPow2Least(length);
        Bits.Pow2At32();
        assert Bits.Pow2(8) == 256;
        Bits.BitLengthAtMost(Bits.NextPow2(length), 8);
      }
    }
  }
}
