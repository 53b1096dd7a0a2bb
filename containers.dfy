/**
 * Container: the facade.  Every Register overload builds one registration and emplaces
 * it in the container's MultiMap of registrations under its registered type;
 * RegisterServiceCollection adds the container itself and the scope factory before the
 * collection's items; Resolve(type) runs the delegate HashMap holds for the type, or the
 * one ExpressionGenerator creates on a miss, against ContainerScope; Resolve(key) looks
 * a key's string hash up in a cache of delegates and, on a miss, scans the
 * registrations for the first with that key hash; Dispose disposes ContainerScope once.
 *
 * string.GetHashCode is the `keyHash` parameter and Type.GetHashCode the `typeHash`
 * parameter; the static ContainerScope and the scope counters live in the shared
 * `Runtime`.
 */
module Containers {
  import opened Wrappers
  import opened Types
  import opened Lifetimes
  import opened Registrations
  import opened Plans
  import opened Scopes
  import opened Registries
  import opened Compilers
  import opened HashMaps
  import opened ExpressionGenerators
  import MultiMaps

  /** typeof(IContainer), typeof(Container), typeof(IServiceScopeFactory),
      typeof(ScopeFactory) */
  const IContainerType := Named("IContainer")
  const ContainerType := Named("Container")
  const IServiceScopeFactoryType := Named("IServiceScopeFactory")
  const ScopeFactoryType := Named("ScopeFactory")

  /**
   * What HashMap.Get(type) on the delegate cache yields, given the probe `found` of the
   * table as it was, the store before (`es0`, `nextId0`, `exprs0`) and after (`es`,
   * `nextId`, `exprs`) and the cache afterwards (`cached`): the probe's exception, the
   * cached delegate, or on a miss the registration lookup's exception, an exception
   * whenever the root's dependency walk fails, and otherwise a delegate created and
   * cached for the registration found or synthesised.
   */
  ghost predicate LookedUp(u: Universe, policy: Policy, depth: nat, t: Type, found: Result<Option<Plan>>,
                           es0: Entries, nextId0: nat, exprs0: map<nat, Plan>,
                           es: Entries, nextId: nat, exprs: map<nat, Plan>, cached: multiset<MultiMaps.Entry<Type, Plan>>,
                           d: Result<Plan>)
  {
    && (found.Err? ==> d == Err(found.fault))
    && (found.Ok? && found.value.Some? ==> d == Ok(found.value.value))
    && (found.Ok? && found.value.None? ==>
          var f := RegistrationFor(u, policy, es0, nextId0, t);
          && (f.Err? ==> d == Err(f.fault))
          && (f.Ok? && RootWalk(u, policy, f.value.reg, f.value.entries, f.value.nextId, depth).outcome.Err? ==> d.Err?)
          && (f.Ok? && d.Ok? ==> Created(u, policy, depth, f.value.reg, f.value.entries, f.value.nextId, exprs0, es, nextId, exprs, cached, d.value)))
  }

  /** An item of a ServiceCollection: ServiceType, ImplementationType and Lifetime. */
  datatype ServiceDescriptor = ServiceDescriptor(serviceType: Type, implementationType: Type, lifetime: ServiceLifetime)

  /** The registration Register(ServiceType, ImplementationType, Convert(Lifetime))
      builds for an item, given the identity it receives. */
  function ItemRegistration(id: nat, item: ServiceDescriptor): (reg: Registration)
    ensures reg.registeredType == item.serviceType && reg.returnType == item.implementationType
    ensures reg.lifetime == Convert(item.lifetime) && reg.hashCode.None? && reg.overrideBody.None?
  {
    Registration(id, item.serviceType, item.implementationType, Convert(item.lifetime), None, None)
  }

  /** The store after registering `items` one after the other, the first receiving the
      identity `nextId`. */
  function RegisterAll(policy: Policy, es: Entries, nextId: nat, items: seq<ServiceDescriptor>): (r: Entries)
    decreases |items|
  {
    if |items| == 0 then es
    else
      var item := items[|items| - 1];
      EmplaceIn(policy, RegisterAll(policy, es, nextId, items[..|items| - 1]), item.serviceType,
                ItemRegistration(nextId + |items| - 1, item)).0
  }

  /** Registering items only appends, at most one pair per item, and the identities stay
      below the next free one. */
  lemma {:induction false} RegisterAllGrows(policy: Policy, es: Entries, nextId: nat, items: seq<ServiceDescriptor>)
    ensures var r := RegisterAll(policy, es, nextId, items);
      Prefix(es, r) && |r| <= |es| + |items| && (IdsBelow(es, nextId) ==> IdsBelow(r, nextId + |items|))
    decreases |items|
  {
    if |items| > 0 {
      var front := items[..|items| - 1];
      var before := RegisterAll(policy, es, nextId, front);
      RegisterAllGrows(policy, es, nextId, front);
      var after := EmplaceIn(policy, before, items[|items| - 1].serviceType, ItemRegistration(nextId + |items| - 1, items[|items| - 1])).0;
      assert Prefix(before, after) by {
        if after != before {
          assert after[..|before|] == before;
        }
      }
      PrefixTrans(es, before, after);
    }
  }

  /** The registrations under a type no item is registered as are the ones that were
      there before. */
  lemma {:induction false} RegisterAllOtherKeys(policy: Policy, es: Entries, nextId: nat, items: seq<ServiceDescriptor>, key: Type)
    requires forall k :: 0 <= k < |items| ==> items[k].serviceType != key
    ensures GetAll(RegisterAll(policy, es, nextId, items), key) == GetAll(es, key)
    decreases |items|
  {
    if |items| > 0 {
      var front := items[..|items| - 1];
      var item := items[|items| - 1];
      RegisterAllOtherKeys(policy, es, nextId, front, key);
      GetAllAfterEmplace(policy, RegisterAll(policy, es, nextId, front), item.serviceType, ItemRegistration(nextId + |items| - 1, item), key);
    }
  }

  /** The first pair of the keyed registration scan: the index of the first registration
      whose key hash is `h`, if there is one. */
  function FirstKeyed(values: seq<Registration>, h: int): (r: Option<nat>)
    ensures r.None? <==> forall j :: 0 <= j < |values| ==> values[j].hashCode != Some(h)
    ensures r.Some? ==>
      r.value < |values| && values[r.value].hashCode == Some(h) &&
      forall j :: 0 <= j < r.value ==> values[j].hashCode != Some(h)
    decreases |values|
  {
    if |values| == 0 then None
    else if values[0].hashCode == Some(h) then Some(0)
    else match FirstKeyed(values[1..], h)
      case None => None
      case Some(j) => Some(j + 1)
  }

  /** The foreach over _registrations.Values in Resolve(key): stops at the first
      registration whose key hash is `h`. */
  method ScanForKey(values: seq<Registration>, h: int) returns (r: Option<nat>)
    ensures r == FirstKeyed(values, h)
  {
    var i := 0;
    while i < |values|
      invariant 0 <= i <= |values|
      invariant forall j :: 0 <= j < i ==> values[j].hashCode != Some(h)
    {
      if values[i].hashCode == Some(h) {
        return Some(i);
      }
      i := i + 1;
    }
    return None;
  }

  class Container {
    /** _registrations */
    const registry: Registry
    const runtime: Runtime
    /** _generator */
    const generator: ExpressionGenerator
    /** _delegates */
    const delegates: HashMap<Type, Plan>
    /** string.GetHashCode */
    const keyHash: string -> int
    /** _keyCache: key hash to delegate. */
    var keyCache: map<int, Plan>
    /** _disposed */
    var disposed: bool

    /** The generator works on this container's store and runtime, the store is the
        comparer-based one, and ContainerScope exists. */
    ghost predicate Valid()
      reads this, registry, runtime, runtime.containerScope, delegates, delegates.info, delegates.entries
    {
      && registry.Valid() && runtime.Valid() && delegates.Valid()
      && generator.registry == registry && generator.runtime == runtime
      && registry.policy == ByComparer && runtime.containerScope != null
    }

    /** new Container(): an empty store compared with RegistrationEqualityComparer, a
        generator over it, a HashMap of 64 slots with load factor 0.5, and a new
        ContainerScope. */
    constructor (runtime: Runtime, u: Universe, typeHash: Type -> int, keyHash: string -> int, depth: nat)
      requires runtime.Valid() && runtime.scopeCount >= 0
      modifies runtime`containerScope
      ensures Valid() && this.runtime == runtime && this.keyHash == keyHash
      ensures fresh(registry) && registry.entries == [] && registry.expression == map[] && registry.value == map[] && registry.nextId == 0
      ensures generator.u == u && generator.depth == depth
      ensures fresh(delegates) && delegates.Contents() == multiset{} && delegates.hash == typeHash
      ensures delegates.length == 64 && delegates.lfNum == 1 && delegates.lfDen == 2
      ensures keyCache == map[] && !disposed
      ensures fresh(runtime.containerScope) &&
        runtime.containerScope.View() == ScopeView(Some(seq(runtime.scopeCount, _ => Null)), Some([]))
    {
      var store := new Registry(ByComparer);
      registry := store;
      generator := new ExpressionGenerator(store, runtime, u, depth);
      delegates := new HashMap(64, 1, 2, typeHash);
      this.runtime := runtime;
      this.keyHash := keyHash;
      keyCache := map[];
      disposed := false;
      new;
      var scope := new Scoped(runtime.scopeCount);
      runtime.containerScope := scope;
    }

    /** new Container(registrations), the child container: the given store, a generator
        over it, a HashMap of 64 slots with load factor 0.6, and a new ContainerScope. */
    constructor Child(registry: Registry, runtime: Runtime, u: Universe, typeHash: Type -> int, keyHash: string -> int, depth: nat)
      requires registry.Valid() && registry.policy == ByComparer
      requires runtime.Valid() && runtime.scopeCount >= 0
      modifies runtime`containerScope
      ensures Valid() && this.registry == registry && this.runtime == runtime && this.keyHash == keyHash
      ensures generator.u == u && generator.depth == depth
      ensures fresh(delegates) && delegates.Contents() == multiset{} && delegates.hash == typeHash
      ensures delegates.length == 64 && delegates.lfNum == 3 && delegates.lfDen == 5
      ensures keyCache == map[] && !disposed
      ensures fresh(runtime.containerScope) &&
        runtime.containerScope.View() == ScopeView(Some(seq(runtime.scopeCount, _ => Null)), Some([]))
    {
      this.registry := registry;
      generator := new ExpressionGenerator(registry, runtime, u, depth);
      delegates := new HashMap(64, 3, 5, typeHash);
      this.runtime := runtime;
      this.keyHash := keyHash;
      keyCache := map[];
      disposed := false;
      new;
      var scope := new Scoped(runtime.scopeCount);
      runtime.containerScope := scope;
    }

    // ------------------------------------------------------------------------------
    // Registration.

    /** Every Register and RegisterOverride overload: one new registration, Transient
        when no lifetime is given, with the key's string hash when a key is given and
        the lambda when an expression is given (its return type being the type of the
        lambda's body), emplaced under its registered type. */
    method Register(registeredType: Type, returnType: Type, lifetime: Option<Lifetime>, key: Option<string>, body: Option<OverrideBody>)
      requires Valid()
      modifies registry`entries, registry`nextId
      ensures Valid() && registry.nextId == old(registry.nextId) + 1
      ensures var reg := Registration(old(registry.nextId), registeredType, returnType,
                                      if lifetime.Some? then lifetime.value else Transient,
                                      if key.Some? then Some(keyHash(key.value)) else None, body);
        registry.entries == EmplaceIn(ByComparer, old(registry.entries), registeredType, reg).0
    {
      var reg := registry.NewRegistration(registeredType, returnType,
                                          if lifetime.Some? then lifetime.value else Transient,
                                          if key.Some? then Some(keyHash(key.value)) else None, body);
      var _ := registry.Emplace(registeredType, reg);
    }

    /** RegisterServiceCollection(collection): the container itself as IContainer, a
        Singleton whose expression is the container as a constant; then the scope factory
        as IServiceScopeFactory, a Singleton; then every item, its lifetime converted. */
    method RegisterServiceCollection(items: seq<ServiceDescriptor>)
      requires Valid()
      modifies registry`entries, registry`nextId, registry`expression
      ensures Valid() && registry.nextId == old(registry.nextId) + 2 + |items|
      ensures var n := old(registry.nextId);
        var self := Registration(n, IContainerType, ContainerType, Singleton, None, None);
        var factory := Registration(n + 1, IServiceScopeFactoryType, ScopeFactoryType, Singleton, None, None);
        var es := EmplaceIn(ByComparer, old(registry.entries), IContainerType, self).0;
        var es' := EmplaceIn(ByComparer, es, IServiceScopeFactoryType, factory).0;
        registry.entries == RegisterAll(ByComparer, es', n + 2, items) &&
        registry.expression == old(registry.expression)[n := Constant(ContainerObj)]
    {
      RegisterSelf();
      var factory := registry.NewRegistration(IServiceScopeFactoryType, ScopeFactoryType, Singleton, None, None);
      var _ := registry.Emplace(IServiceScopeFactoryType, factory);
      RegisterItems(items);
    }

    /** The IContainer registration, its Expression preset to the container. */
    method RegisterSelf()
      requires Valid()
      modifies registry`entries, registry`nextId, registry`expression
      ensures Valid() && registry.nextId == old(registry.nextId) + 1
      ensures var self := Registration(old(registry.nextId), IContainerType, ContainerType, Singleton, None, None);
        registry.entries == EmplaceIn(ByComparer, old(registry.entries), IContainerType, self).0 &&
        registry.expression == old(registry.expression)[self.id := Constant(ContainerObj)]
    {
      var self := registry.NewRegistration(IContainerType, ContainerType, Singleton, None, None);
      registry.expression := registry.expression[self.id := Constant(ContainerObj)];
      var _ := registry.Emplace(IContainerType, self);
    }

    /** The foreach over the collection. */
    method RegisterItems(items: seq<ServiceDescriptor>)
      requires Valid()
      modifies registry`entries, registry`nextId
      ensures Valid() && registry.nextId == old(registry.nextId) + |items|
      ensures registry.entries == RegisterAll(ByComparer, old(registry.entries), old(registry.nextId), items)
    {
      var k := 0;
      while k < |items|
        invariant 0 <= k <= |items|
        invariant Valid() && registry.nextId == old(registry.nextId) + k
        invariant registry.entries == RegisterAll(ByComparer, old(registry.entries), old(registry.nextId), items[..k])
      {
        assert items[..k + 1][..k] == items[..k];
        Register(items[k].serviceType, items[k].implementationType, Some(Convert(items[k].lifetime)), None, None);
        k := k + 1;
      }
      assert items[..k] == items;
    }

    // ------------------------------------------------------------------------------
    // Resolution.

    /** Invoking a compiled delegate with `scope` as its argument; the objects it builds
        take their identities from the runtime's counter. */
    method Invoke(d: Plan, scope: Scoped?) returns (r: Result<Obj>)
      modifies Frame(scope), runtime`nextObject
      ensures scope != null ==> scope.slots == old(scope.slots) && scope.disposed == old(scope.disposed)
      ensures scope != null && old(scope.Valid()) ==> scope.Valid()
      ensures old(Valid()) ==> Valid()
      ensures Outcome(r, ViewOf(scope), runtime.nextObject) == Eval(d, old(ViewOf(scope)), old(runtime.nextObject))
    {
      var next;
      r, next := Run(d, scope, runtime.nextObject);
      EvalMonotone(d, old(ViewOf(scope)), old(runtime.nextObject));
      runtime.nextObject := next;
    }

    /** Resolve(type, scope): the delegate for the type, from HashMap or compiled on a
        miss, invoked with the given scope.  Resolve(type), Resolve<T>() and
        GetService(type) are this with ContainerScope.  The ghost outputs are the
        delegate Lookup produced and the scope and object counter it was invoked with. */
    method Resolve(t: Type, scope: Scoped?) returns (r: Result<Obj>, ghost d: Result<Plan>, ghost view: Option<ScopeView>, ghost next: nat)
      requires Valid()
      modifies registry`entries, registry`nextId, registry`expression, runtime`scopeIndex, runtime`nextObject
      modifies runtime.containerScope, Frame(scope)
      modifies delegates, delegates.info, delegates.entries
      ensures r.Ok? ==> Valid() && old(delegates.Contents()) <= delegates.Contents()
      ensures d.Err? ==> r == Err(d.fault)
      ensures d.Ok? ==> Outcome(r, ViewOf(scope), runtime.nextObject) == Eval(d.value, view, next)
      ensures scope != runtime.containerScope ==> view == old(ViewOf(scope))
      ensures LookedUp(generator.u, registry.policy, generator.depth, t, RunFind(old(delegates.entries[..]), old(delegates.Home(t)), t),
                       old(registry.entries), old(registry.nextId), old(registry.expression),
                       registry.entries, registry.nextId, registry.expression, delegates.Contents(), d)
      ensures var found := RunFind(old(delegates.entries[..]), old(delegates.Home(t)), t);
        found.Ok? && found.value.Some? ==> view == old(ViewOf(scope)) && next == old(runtime.nextObject)
    {
      var found := Lookup(t, scope);
      d, view, next := found, ViewOf(scope), runtime.nextObject;
      r := InvokeFound(found, scope, view, next);
    }

    /** HashMap.Get(type) on the container's cache: the cached delegate, or the one
        the generator creates on a miss. */
    method Lookup(t: Type, ghost scope: Scoped?) returns (d: Result<Plan>)
      requires Valid()
      modifies registry`entries, registry`nextId, registry`expression, runtime`scopeIndex, runtime`nextObject
      modifies runtime.containerScope
      modifies delegates, delegates.info, delegates.entries
      ensures d.Ok? ==> Valid() && old(delegates.Contents()) <= delegates.Contents()
      ensures runtime.containerScope.slots == old(runtime.containerScope.slots)
      ensures scope != runtime.containerScope ==> ViewOf(scope) == old(ViewOf(scope))
      ensures LookedUp(generator.u, registry.policy, generator.depth, t, RunFind(old(delegates.entries[..]), old(delegates.Home(t)), t),
                       old(registry.entries), old(registry.nextId), old(registry.expression),
                       registry.entries, registry.nextId, registry.expression, delegates.Contents(), d)
      ensures var found := RunFind(old(delegates.entries[..]), old(delegates.Home(t)), t);
        found.Ok? && found.value.Some? ==>
          runtime.nextObject == old(runtime.nextObject) &&
          runtime.containerScope.disposables == old(runtime.containerScope.disposables) &&
          (runtime.containerScope.slots != null ==> runtime.containerScope.slots[..] == old(runtime.containerScope.slots[..])) &&
          ViewOf(scope) == old(ViewOf(scope))
    {
      d := GetOrCreate(generator, delegates, t);
    }

    /** The delegate HashMap.Get produced, or its exception, invoked with `scope`. */
    method InvokeFound(d: Result<Plan>, scope: Scoped?, ghost view: Option<ScopeView>, ghost next: nat) returns (r: Result<Obj>)
      requires view == ViewOf(scope) && next == runtime.nextObject
      modifies Frame(scope), runtime`nextObject
      ensures runtime.containerScope == old(runtime.containerScope)
      ensures old(Valid()) ==> Valid()
      ensures delegates.Contents() == old(delegates.Contents())
      ensures registry.entries == old(registry.entries) && registry.nextId == old(registry.nextId)
      ensures registry.expression == old(registry.expression)
      ensures d.Err? ==> r == Err(d.fault)
      ensures d.Ok? ==> Outcome(r, ViewOf(scope), runtime.nextObject) == Eval(d.value, view, next)
    {
      if d.Err? {
        return Err(d.fault);
      }
      r := Invoke(d.value, scope);
    }

    /** Resolve(key): a cached delegate for the key's hash is invoked with ContainerScope;
        otherwise the first registration whose key hash matches has its registered type
        compiled, the delegate is cached under the hash and invoked; with no match the
        result is null. */
    method ResolveKey(key: string) returns (r: Result<Obj>)
      requires Valid()
      modifies registry`entries, registry`nextId, registry`expression, runtime`scopeIndex, runtime`nextObject
      modifies Frame(runtime.containerScope)
      modifies delegates, delegates.info, delegates.entries, this`keyCache
      ensures r.Ok? ==> Valid()
      ensures var h := keyHash(key); var cs := runtime.containerScope;
        (h in old(keyCache) ==>
          keyCache == old(keyCache) && registry.entries == old(registry.entries) &&
          Outcome(r, ViewOf(cs), runtime.nextObject) == Eval(old(keyCache)[h], old(ViewOf(cs)), old(runtime.nextObject))) &&
        (h !in old(keyCache) && FirstKeyed(Values(old(registry.entries)), h).None? ==>
          r == Ok(Null) && keyCache == old(keyCache) && unchanged(registry, runtime, cs)) &&
        (h !in old(keyCache) && FirstKeyed(Values(old(registry.entries)), h).Some? && r.Ok? ==>
          h in keyCache && keyCache == old(keyCache)[h := keyCache[h]])
    {
      var h := keyHash(key);
      if h in keyCache {
        r := Invoke(keyCache[h], runtime.containerScope);
        return;
      }
      var found := ScanForKey(Values(registry.entries), h);
      if found.None? {
        return Ok(Null);
      }
      r := CompileKeyed(Values(registry.entries)[found.value].registeredType, h);
    }

    /** The matching branch of Resolve(key): compile the registered type, cache the
        delegate under the key's hash, invoke it with ContainerScope. */
    method CompileKeyed(t: Type, h: int) returns (r: Result<Obj>)
      requires Valid()
      modifies registry`entries, registry`nextId, registry`expression, runtime`scopeIndex, runtime`nextObject
      modifies Frame(runtime.containerScope)
      modifies delegates, delegates.info, delegates.entries, this`keyCache
      requires h !in keyCache
      ensures r.Ok? ==> Valid()
      ensures keyCache == old(keyCache) || (h in keyCache && keyCache == old(keyCache)[h := keyCache[h]])
      ensures r.Ok? ==> h in keyCache
    {
      var d := generator.Create(t, delegates);
      if d.Err? {
        return Err(d.fault);
      }
      r := CacheAndInvoke(h, d.value);
    }

    /** _keyCache.Emplace(hash, delegate), then the delegate invoked with ContainerScope. */
    method CacheAndInvoke(h: int, d: Plan) returns (r: Result<Obj>)
      requires runtime.Valid() && runtime.containerScope != null
      modifies this`keyCache, runtime`nextObject, Frame(runtime.containerScope)
      ensures runtime.Valid() && keyCache == old(keyCache)[h := d]
      ensures old(Valid()) ==> Valid()
      ensures runtime.containerScope.slots == old(runtime.containerScope.slots)
      ensures Outcome(r, ViewOf(runtime.containerScope), runtime.nextObject) ==
        Eval(d, old(ViewOf(runtime.containerScope)), old(runtime.nextObject))
    {
      keyCache := keyCache[h := d];
      r := Invoke(d, runtime.containerScope);
    }

    /** CreateScope(): a new scope with the current ScopeCount. */
    method CreateScope() returns (r: Result<Scoped>)
      requires Valid()
      ensures r.Err? <==> runtime.scopeCount < 0
      ensures r.Ok? ==>
        fresh(r.value) && r.value.Valid() && !r.value.disposed &&
        r.value.View() == ScopeView(Some(seq(runtime.scopeCount, _ => Null)), Some([]))
    {
      r := runtime.NewScope();
    }

    // ------------------------------------------------------------------------------
    // Disposal.

    /** Dispose(): the first call disposes ContainerScope, releasing its disposables (the
        Singleton ones among them) in order; later calls do nothing. */
    method Dispose() returns (released: seq<Obj>)
      requires Valid()
      modifies this`disposed, runtime.containerScope
      ensures Valid() && disposed
      ensures !old(disposed) ==> runtime.containerScope.disposed
      ensures old(disposed) ==> released == [] && unchanged(runtime.containerScope)
      ensures !old(disposed) && !old(runtime.containerScope.disposed) ==>
        released == NonNull(old(runtime.containerScope.disposables).value)
    {
      released := [];
      if !disposed {
        released := runtime.containerScope.Dispose();
        disposed := true;
      }
    }
  }
}
