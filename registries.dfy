/**
 * Registries: the registration store as the compilers and the container see it — the
 * (registered type, registration) pairs in the order they were emplaced — together
 * with the two fields of a registration that are assigned after it is created
 * (Registration.Expression and Registration.Value), kept by registration identity.
 *
 * ExpressionGenerator and DependencyResolver work on whichever MultiMap<Type, Registration>
 * they are given, so their store's policy is a parameter.  A MultiMap built without a
 * comparer refuses only the very same registration object under the same key.  Container
 * builds its MultiMap with RegistrationEqualityComparer, and ExpressionFactory uses
 * RegistrationFactory; both refuse a registration equal under that comparer.
 */
module Registries {
  import opened Wrappers
  import opened Types
  import opened Registrations
  import opened Plans

  type Entries = seq<(Type, Registration)>

  /** How a store recognises a duplicate registration under the same key. */
  datatype Policy = ByReference | ByComparer

  /** GetAll(key): every registration stored under `key`, in order. */
  function GetAll(es: Entries, key: Type): (rs: seq<Registration>)
    ensures |rs| <= |es|
    ensures forall r :: r in rs <==> (key, r) in es
  {
    if |es| == 0 then []
    else GetAll(es[..|es| - 1], key) + (if es[|es| - 1].0 == key then [es[|es| - 1].1] else [])
  }

  /** Get(key): the first registration stored under `key`, if any. */
  function Get(es: Entries, key: Type): (r: Option<Registration>)
    ensures r.Some? <==> exists x :: (key, x) in es
    ensures r.Some? ==> (key, r.value) in es
  {
    if |es| == 0 then None
    else if es[0].0 == key then Some(es[0].1)
    else Get(es[1..], key)
  }

  /** ContainsKey(key) */
  predicate ContainsKey(es: Entries, key: Type) {
    exists i :: 0 <= i < |es| && es[i].0 == key
  }

  /** Values: every stored registration, in order. */
  function Values(es: Entries): (rs: seq<Registration>)
    ensures |rs| == |es|
    ensures forall i :: 0 <= i < |es| ==> rs[i] == es[i].1
  {
    seq(|es|, i requires 0 <= i < |es| => es[i].1)
  }

  /** Whether `reg` counts as already stored under `key`. */
  predicate Duplicate(policy: Policy, es: Entries, key: Type, reg: Registration) {
    exists i :: 0 <= i < |es| && es[i].0 == key &&
      (if policy == ByReference then es[i].1 == reg else Same(es[i].1, reg))
  }

  /** Emplace(key, reg): refuses a duplicate, otherwise stores the pair; the flag says
      which. */
  function EmplaceIn(policy: Policy, es: Entries, key: Type, reg: Registration): (r: (Entries, bool))
    ensures r.1 <==> !Duplicate(policy, es, key, reg)
    ensures !r.1 ==> r.0 == es
    ensures r.1 ==> r.0 == es + [(key, reg)] && (key, reg) in r.0
  {
    if Duplicate(policy, es, key, reg) then (es, false) else (es + [(key, reg)], true)
  }

  /** Identities of the stored registrations lie below `next`. */
  predicate IdsBelow(es: Entries, next: nat) {
    forall i :: 0 <= i < |es| ==> es[i].1.id < next
  }

  /** The first registration is the first of all of them, and the key is present exactly
      when there is one. */
  lemma {:induction false} GetIsFirstOfAll(es: Entries, key: Type)
    ensures Get(es, key).Some? <==> |GetAll(es, key)| > 0
    ensures Get(es, key).Some? ==> Get(es, key).value == GetAll(es, key)[0]
    ensures ContainsKey(es, key) <==> Get(es, key).Some?
    decreases |es|
  {
    if |es| > 0 {
      var rest := es[1..];
      GetAllCons(es, key);
      GetIsFirstOfAll(rest, key);
      if es[0].0 == key {
        assert Get(es, key) == Some(es[0].1);
        assert GetAll(es, key)[0] == es[0].1;
        assert ContainsKey(es, key) by { assert es[0].0 == key; }
      } else {
        assert Get(es, key) == Get(rest, key);
        assert GetAll(es, key) == GetAll(rest, key);
        ContainsKeyTail(es, key);
      }
    }
  }

  /** Past a first pair of another key, the key is present exactly when it is present
      in the rest. */
  lemma {:induction false} ContainsKeyTail(es: Entries, key: Type)
    requires |es| > 0 && es[0].0 != key
    ensures ContainsKey(es, key) <==> ContainsKey(es[1..], key)
  {
    if ContainsKey(es, key) {
      var i :| 0 <= i < |es| && es[i].0 == key;
      assert es[1..][i - 1].0 == key;
    }
    if ContainsKey(es[1..], key) {
      var i :| 0 <= i < |es[1..]| && es[1..][i].0 == key;
      assert es[i + 1].0 == key;
    }
  }

  /** GetAll read from the front. */
  lemma {:induction false} GetAllCons(es: Entries, key: Type)
    requires |es| > 0
    ensures GetAll(es, key) == (if es[0].0 == key then [es[0].1] else []) + GetAll(es[1..], key)
    decreases |es|
  {
    if |es| > 1 {
      var front := es[..|es| - 1];
      GetAllCons(front, key);
      assert front[1..] == es[1..][..|es[1..]| - 1];
    } else {
      assert es[1..] == [];
    }
  }

  /** Emplacing under one key appends to GetAll of that key and leaves every other key
      as it was. */
  lemma {:induction false} GetAllAfterEmplace(policy: Policy, es: Entries, key: Type, reg: Registration, other: Type)
    ensures var (es', stored) := EmplaceIn(policy, es, key, reg);
      GetAll(es', other) == GetAll(es, other) + (if stored && other == key then [reg] else [])
  {
    var (es', stored) := EmplaceIn(policy, es, key, reg);
    if stored {
      assert es'[..|es'| - 1] == es;
    }
  }

  /** With identities handed out in increasing order, a registration just created is
      never a duplicate by reference, so the MultiMap always stores it. */
  lemma {:induction false} FreshIsStored(es: Entries, key: Type, reg: Registration, next: nat)
    requires IdsBelow(es, next) && reg.id >= next
    ensures EmplaceIn(ByReference, es, key, reg).1
    ensures IdsBelow(EmplaceIn(ByReference, es, key, reg).0, reg.id + 1)
  {
  }

  /** The comparer-based store refuses a registration of the same two types under the
      same key, whatever its identity, lifetime or key hash. */
  lemma {:induction false} ComparerRefusesSameTypes(es: Entries, key: Type, reg: Registration, other: Registration)
    requires (key, reg) in es && Same(reg, other)
    ensures !EmplaceIn(ByComparer, es, key, other).1
    ensures EmplaceIn(ByComparer, es, key, other).0 == es
  {
    var i :| 0 <= i < |es| && es[i] == (key, reg);
    assert es[i].0 == key && Same(es[i].1, other);
  }

  /** The shared, mutable store: the pairs, the Expression and Value of each
      registration by identity, and the supply of identities for new registrations. */
  class Registry {
    const policy: Policy
    var entries: Entries
    /** Registration.Expression */
    var expression: map<nat, Plan>
    /** Registration.Value */
    var value: map<nat, Plan>
    var nextId: nat

    predicate Valid()
      reads this
    {
      IdsBelow(entries, nextId)
    }

    constructor (policy: Policy)
      ensures Valid() && this.policy == policy
      ensures entries == [] && expression == map[] && value == map[] && nextId == 0
    {
      this.policy := policy;
      entries := [];
      expression := map[];
      value := map[];
      nextId := 0;
    }

    /** new Registration(...): a registration object with a fresh identity. */
    /** The store as a walk left it: its pairs and its supply of identities. */
    method Adopt(es: Entries, next: nat)
      requires IdsBelow(es, next)
      modifies this`entries, this`nextId
      ensures Valid() && entries == es && nextId == next
    {
      entries, nextId := es, next;
    }

    method NewRegistration(registeredType: Type, returnType: Type, lifetime: Lifetimes.Lifetime,
                           hashCode: Option<int>, body: Option<OverrideBody>) returns (reg: Registration)
      requires Valid()
      modifies this`nextId
      ensures Valid() && nextId == old(nextId) + 1
      ensures reg == Registration(old(nextId), registeredType, returnType, lifetime, hashCode, body)
    {
      reg := Registration(nextId, registeredType, returnType, lifetime, hashCode, body);
      nextId := nextId + 1;
    }

    /** Emplace(key, reg) on the store. */
    method Emplace(key: Type, reg: Registration) returns (stored: bool)
      requires Valid() && reg.id < nextId
      modifies this`entries
      ensures Valid()
      ensures (entries, stored) == EmplaceIn(policy, old(entries), key, reg)
    {
      var r := EmplaceIn(policy, entries, key, reg);
      entries, stored := r.0, r.1;
    }
  }
}
