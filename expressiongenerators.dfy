/**
 * ExpressionGenerator: compiles a registration, and first every registration its
 * constructor parameters need, into delegates it stores in HashMap, the container's
 * delegate cache.  It shares the container's MultiMap of registrations, whose duplicate
 * test is the store's policy, and puts into it the registrations it synthesises for
 * sequences and closed generic types.
 */
module ExpressionGenerators {
  import opened Wrappers
  import opened Types
  import opened Registrations
  import opened Plans
  import opened Scopes
  import opened Registries
  import opened Lifecycles
  import opened Compilers
  import opened MultiMaps
  import opened HashMaps

  class ExpressionGenerator {
    const registry: Registry
    const runtime: Runtime
    const u: Universe
    /** How deep the parameter walk may recurse. */
    const depth: nat

    /** new ExpressionGenerator(registrations) */
    constructor (registry: Registry, runtime: Runtime, u: Universe, depth: nat)
      ensures this.registry == registry && this.runtime == runtime && this.u == u && this.depth == depth
    {
      this.registry := registry;
      this.runtime := runtime;
      this.u := u;
      this.depth := depth;
    }

    /** Compile(reg, hashmap): the delegate of the registration, stored in the cache
        under its registered type unless the cache holds that type already. */
    method Compile(reg: Registration, hashmap: HashMap<Type, Plan>) returns (r: Result<Plan>)
      requires runtime.Valid() && hashmap.Valid()
      modifies registry`expression, runtime`scopeIndex, runtime`nextObject
      modifies if runtime.containerScope == null then {} else {runtime.containerScope}
      modifies hashmap, hashmap.info, hashmap.entries
      ensures runtime.Valid()
      ensures runtime.containerScope != null ==>
        runtime.containerScope.slots == old(runtime.containerScope.slots) &&
        runtime.containerScope.disposed == old(runtime.containerScope.disposed)
      ensures (hashmap.info == old(hashmap.info) && hashmap.entries == old(hashmap.entries)) ||
        (fresh(hashmap.info) && fresh(hashmap.entries))
      ensures registry.expression == old(registry.expression) ||
        (reg.id !in old(registry.expression) && reg.id in registry.expression &&
         registry.expression == old(registry.expression)[reg.id := registry.expression[reg.id]])
      ensures reg.id in old(registry.expression) ==> registry.expression == old(registry.expression)
      ensures Extends(old(registry.expression), registry.expression)
      ensures r.Ok? ==>
        reg.id in registry.expression && r.value == Delegate(u, reg, old(registry.expression), registry.expression) &&
        hashmap.Valid() && old(hashmap.Contents()) <= hashmap.Contents() &&
        Cached(hashmap.Contents(), reg.registeredType) &&
        (hashmap.Contents() == old(hashmap.Contents()) ||
         hashmap.Contents() == old(hashmap.Contents()) + multiset{Entry(reg.registeredType, r.value)})
    {
      var d := CompileExpression(registry, runtime, u, reg);
      if d.Err? {
        return d;
      }
      var cached := Cache(reg.registeredType, d.value, hashmap);
      if cached.Err? {
        return Err(cached.fault);
      }
      return d;
    }

    /** HashMap.Emplace(key, delegate): stored unless the cache holds the key. */
    method Cache(key: Type, d: Plan, hashmap: HashMap<Type, Plan>) returns (r: Result<()>)
      requires hashmap.Valid()
      modifies hashmap, hashmap.info, hashmap.entries
      ensures (hashmap.info == old(hashmap.info) && hashmap.entries == old(hashmap.entries)) ||
        (fresh(hashmap.info) && fresh(hashmap.entries))
      ensures r.Ok? ==>
        hashmap.Valid() && old(hashmap.Contents()) <= hashmap.Contents() && Cached(hashmap.Contents(), key)
      ensures r.Ok? ==>
        hashmap.Contents() == old(hashmap.Contents()) ||
        hashmap.Contents() == old(hashmap.Contents()) + multiset{Entry(key, d)}
    {
      var stored, _ := hashmap.Emplace(key, d);
      if stored.Err? {
        return Err(stored.fault);
      }
      if stored.value {
        assert Entry(key, d) in hashmap.Contents();
      }
      return Ok(());
    }

    /** Create(type, hashmap): the root registration; then, in the order the walk yields
        them, every registration the root's parameters need, each compiled while the
        store is as it was when it was yielded; then the root.  The first exception ends
        it, whether from compiling a yielded registration or from the walk itself. */
    method Create(t: Type, hashmap: HashMap<Type, Plan>) returns (r: Result<Plan>)
      requires registry.Valid() && runtime.Valid() && hashmap.Valid()
      modifies registry`entries, registry`nextId, registry`expression, runtime`scopeIndex, runtime`nextObject
      modifies if runtime.containerScope == null then {} else {runtime.containerScope}
      modifies hashmap, hashmap.info, hashmap.entries
      ensures runtime.Valid() && registry.Valid()
      ensures runtime.containerScope != null ==>
        runtime.containerScope.slots == old(runtime.containerScope.slots) &&
        runtime.containerScope.disposed == old(runtime.containerScope.disposed)
      ensures Extends(old(registry.expression), registry.expression)
      ensures var f := RegistrationFor(u, registry.policy, old(registry.entries), old(registry.nextId), t);
        (f.Err? ==> r == Err(f.fault)) &&
        (f.Ok? && RootWalk(u, registry.policy, f.value.reg, f.value.entries, f.value.nextId, depth).outcome.Err? ==> r.Err?) &&
        (f.Ok? && r.Ok? ==>
           Created(u, registry.policy, depth, f.value.reg, f.value.entries, f.value.nextId, old(registry.expression),
                   registry.entries, registry.nextId, registry.expression, hashmap.Contents(), r.value))
      ensures r.Ok? ==> hashmap.Valid() && old(hashmap.Contents()) <= hashmap.Contents()
    {
      var root := GetRegistration(registry, u, t);
      if root.Err? {
        return Err(root.fault);
      }
      r := CreateFor(root.value, hashmap);
    }

    /** Create once the root registration is known. */
    method CreateFor(root: Registration, hashmap: HashMap<Type, Plan>) returns (r: Result<Plan>)
      requires registry.Valid() && runtime.Valid() && hashmap.Valid()
      modifies registry`entries, registry`nextId, registry`expression, runtime`scopeIndex, runtime`nextObject
      modifies if runtime.containerScope == null then {} else {runtime.containerScope}
      modifies hashmap, hashmap.info, hashmap.entries
      ensures runtime.Valid() && registry.Valid()
      ensures runtime.containerScope != null ==>
        runtime.containerScope.slots == old(runtime.containerScope.slots) &&
        runtime.containerScope.disposed == old(runtime.containerScope.disposed)
      ensures Extends(old(registry.expression), registry.expression)
      ensures RootWalk(u, registry.policy, root, old(registry.entries), old(registry.nextId), depth).outcome.Err? ==> r.Err?
      ensures r.Ok? ==>
        Created(u, registry.policy, depth, root, old(registry.entries), old(registry.nextId), old(registry.expression),
                registry.entries, registry.nextId, registry.expression, hashmap.Contents(), r.value) &&
        hashmap.Valid() && old(hashmap.Contents()) <= hashmap.Contents()
    {
      var w := RootWalk(u, registry.policy, root, registry.entries, registry.nextId, depth);
      RootWalkIds(u, registry.policy, root, registry.entries, registry.nextId, depth);
      var compiled := CompileYields(w.emitted, hashmap);
      if compiled.Err? {
        return Err(compiled.fault);
      }
      if w.outcome.Err? {
        return Err(w.outcome.fault);
      }
      ghost var mid, cached := registry.expression, hashmap.Contents();
      r := CompileRoot(root, w, hashmap);
      if r.Ok? {
        RootDelegateOf(u, root, old(registry.expression), w.emitted, mid, registry.expression, cached);
      }
    }

    /** The last step of Create: the root itself, once everything the walk yielded is
        compiled, with the store the walk leaves. */
    method CompileRoot(root: Registration, w: Walk, hashmap: HashMap<Type, Plan>) returns (r: Result<Plan>)
      requires runtime.Valid() && hashmap.Valid() && IdsBelow(w.entries, w.nextId)
      requires AllCompiled(w.emitted, |w.emitted|, registry.expression, hashmap.Contents())
      modifies registry`entries, registry`nextId, registry`expression, runtime`scopeIndex, runtime`nextObject
      modifies if runtime.containerScope == null then {} else {runtime.containerScope}
      modifies hashmap, hashmap.info, hashmap.entries
      ensures runtime.Valid()
      ensures runtime.containerScope != null ==>
        runtime.containerScope.slots == old(runtime.containerScope.slots) &&
        runtime.containerScope.disposed == old(runtime.containerScope.disposed)
      ensures Extends(old(registry.expression), registry.expression)
      ensures registry.entries == w.entries && registry.nextId == w.nextId
      ensures r.Ok? ==>
        AllCompiled(w.emitted, |w.emitted|, registry.expression, hashmap.Contents()) &&
        root.id in registry.expression && Cached(hashmap.Contents(), root.registeredType) &&
        r.value == Delegate(u, root, old(registry.expression), registry.expression) &&
        hashmap.Valid() && old(hashmap.Contents()) <= hashmap.Contents()
    {
      registry.Adopt(w.entries, w.nextId);
      r := Compile(root, hashmap);
      if r.Ok? {
        AllCompiledGrows(w.emitted, |w.emitted|, old(registry.expression), registry.expression, old(hashmap.Contents()), hashmap.Contents());
      }
    }

    /** The foreach of Create over what the walk yields: each registration compiled in
        turn, with the store as the walk had left it when it yielded that registration,
        up to the first exception. */
    method CompileYields(emitted: seq<Yield>, hashmap: HashMap<Type, Plan>) returns (r: Result<()>)
      requires registry.Valid() && runtime.Valid() && hashmap.Valid()
      requires forall k :: 0 <= k < |emitted| ==> IdsBelow(emitted[k].entries, emitted[k].nextId)
      modifies registry`entries, registry`nextId, registry`expression, runtime`scopeIndex, runtime`nextObject
      modifies if runtime.containerScope == null then {} else {runtime.containerScope}
      modifies hashmap, hashmap.info, hashmap.entries
      ensures registry.Valid() && runtime.Valid()
      ensures r.Ok? ==> hashmap.Valid() && old(hashmap.Contents()) <= hashmap.Contents()
      ensures runtime.containerScope != null ==>
        runtime.containerScope.slots == old(runtime.containerScope.slots) &&
        runtime.containerScope.disposed == old(runtime.containerScope.disposed)
      ensures (hashmap.info == old(hashmap.info) && hashmap.entries == old(hashmap.entries)) ||
        (fresh(hashmap.info) && fresh(hashmap.entries))
      ensures Extends(old(registry.expression), registry.expression)
      ensures r.Ok? ==> AllCompiled(emitted, |emitted|, registry.expression, hashmap.Contents())
      ensures r.Ok? ==> KeysWithin(registry.expression, old(registry.expression), emitted, |emitted|)
    {
      var k := 0;
      while k < |emitted|
        invariant 0 <= k <= |emitted|
        invariant registry.Valid() && runtime.Valid() && hashmap.Valid() && old(hashmap.Contents()) <= hashmap.Contents()
        invariant runtime.containerScope != null ==>
          runtime.containerScope.slots == old(runtime.containerScope.slots) &&
          runtime.containerScope.disposed == old(runtime.containerScope.disposed)
        invariant (hashmap.info == old(hashmap.info) && hashmap.entries == old(hashmap.entries)) ||
          (fresh(hashmap.info) && fresh(hashmap.entries))
        invariant Extends(old(registry.expression), registry.expression)
        invariant AllCompiled(emitted, k, registry.expression, hashmap.Contents())
        invariant KeysWithin(registry.expression, old(registry.expression), emitted, k)
      {
        r := CompileYield(emitted, k, hashmap, old(registry.expression));
        if r.Err? {
          return;
        }
        k := k + 1;
      }
      return Ok(());
    }

    /** One turn of CompileYields: the k-th yielded registration, compiled with the
        store it was yielded with. */
    method CompileYield(emitted: seq<Yield>, k: nat, hashmap: HashMap<Type, Plan>, ghost exprs0: map<nat, Plan>) returns (r: Result<()>)
      requires k < |emitted| && IdsBelow(emitted[k].entries, emitted[k].nextId)
      requires runtime.Valid() && hashmap.Valid()
      requires AllCompiled(emitted, k, registry.expression, hashmap.Contents())
      requires Extends(exprs0, registry.expression) && KeysWithin(registry.expression, exprs0, emitted, k)
      modifies registry`entries, registry`nextId, registry`expression, runtime`scopeIndex, runtime`nextObject
      modifies if runtime.containerScope == null then {} else {runtime.containerScope}
      modifies hashmap, hashmap.info, hashmap.entries
      ensures registry.Valid() && runtime.Valid()
      ensures runtime.containerScope != null ==>
        runtime.containerScope.slots == old(runtime.containerScope.slots) &&
        runtime.containerScope.disposed == old(runtime.containerScope.disposed)
      ensures (hashmap.info == old(hashmap.info) && hashmap.entries == old(hashmap.entries)) ||
        (fresh(hashmap.info) && fresh(hashmap.entries))
      ensures Extends(old(registry.expression), registry.expression)
      ensures r.Ok? ==> hashmap.Valid() && old(hashmap.Contents()) <= hashmap.Contents()
      ensures r.Ok? ==> AllCompiled(emitted, k + 1, registry.expression, hashmap.Contents())
      ensures registry.expression.Keys <= old(registry.expression).Keys + {emitted[k].reg.id}
      ensures Extends(exprs0, registry.expression)
      ensures r.Ok? ==> KeysWithin(registry.expression, exprs0, emitted, k + 1)
    {
      registry.Adopt(emitted[k].entries, emitted[k].nextId);
      ghost var before := hashmap.Contents();
      ghost var exprs := registry.expression;
      var d := Compile(emitted[k].reg, hashmap);
      ExtendsTrans(exprs0, exprs, registry.expression);
      if d.Err? {
        return Err(d.fault);
      }
      AllCompiledStep(emitted, k, exprs, registry.expression, before, hashmap.Contents());
      KeysWithinStep(exprs, registry.expression, exprs0, emitted, k);
      return Ok(());
    }
  }

  /** HashMap.Get(type): a cached delegate, or on a miss the one ExpressionGenerator
      creates. */
  method GetOrCreate(generator: ExpressionGenerator, hashmap: HashMap<Type, Plan>, t: Type) returns (r: Result<Plan>)
    requires generator.registry.Valid() && generator.runtime.Valid() && hashmap.Valid()
    modifies generator.registry`entries, generator.registry`nextId, generator.registry`expression, generator.runtime`scopeIndex, generator.runtime`nextObject
    modifies if generator.runtime.containerScope == null then {} else {generator.runtime.containerScope}
    modifies hashmap, hashmap.info, hashmap.entries
    ensures generator.runtime.Valid() && generator.registry.Valid()
    ensures var found := RunFind(old(hashmap.entries[..]), old(hashmap.Home(t)), t);
      (found.Err? ==> r == Err(found.fault)) &&
      (found.Ok? && found.value.Some? ==> r == Ok(found.value.value) && Entry(t, r.value) in hashmap.Contents())
    ensures var found := RunFind(old(hashmap.entries[..]), old(hashmap.Home(t)), t);
      found.Ok? && found.value.Some? ==>
        generator.registry.entries == old(generator.registry.entries) && generator.registry.nextId == old(generator.registry.nextId) &&
        generator.runtime.nextObject == old(generator.runtime.nextObject) &&
        (generator.runtime.containerScope != null ==> generator.runtime.containerScope.disposables == old(generator.runtime.containerScope.disposables)) &&
        (generator.runtime.containerScope != null && generator.runtime.containerScope.slots != null ==> generator.runtime.containerScope.slots[..] == old(generator.runtime.containerScope.slots[..]))
    ensures var found := RunFind(old(hashmap.entries[..]), old(hashmap.Home(t)), t);
      found.Ok? && found.value.None? ==>
        var f := RegistrationFor(generator.u, generator.registry.policy, old(generator.registry.entries), old(generator.registry.nextId), t);
        (f.Err? ==> r == Err(f.fault)) &&
        (f.Ok? && RootWalk(generator.u, generator.registry.policy, f.value.reg, f.value.entries, f.value.nextId, generator.depth).outcome.Err? ==> r.Err?) &&
        (f.Ok? && r.Ok? ==>
           Created(generator.u, generator.registry.policy, generator.depth, f.value.reg, f.value.entries, f.value.nextId,
                   old(generator.registry.expression), generator.registry.entries, generator.registry.nextId,
                   generator.registry.expression, hashmap.Contents(), r.value))
    ensures generator.runtime.containerScope != null ==>
      generator.runtime.containerScope.slots == old(generator.runtime.containerScope.slots) &&
      generator.runtime.containerScope.disposed == old(generator.runtime.containerScope.disposed)
    ensures Extends(old(generator.registry.expression), generator.registry.expression)
    ensures r.Ok? ==> hashmap.Valid() && old(hashmap.Contents()) <= hashmap.Contents()
  {
    var found := hashmap.Get(t);
    if found.Err? {
      return Err(found.fault);
    }
    if found.value.Some? {
      RunFindSound(hashmap.entries[..], hashmap.Home(t), t, found.value.value);
      return Ok(found.value.value);
    }
    r := generator.Create(t, hashmap);
  }
}
