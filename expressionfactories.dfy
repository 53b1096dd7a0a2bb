/**
 * ExpressionFactory: the compiler of ExpressionGenerator over RegistrationFactory, a
 * store that refuses a registration equal under RegistrationEqualityComparer, with the
 * delegates cached in a grouped table of its own.  The table is the grouped table of
 * module GroupedTables from Type to delegate: 16 slots to begin with, load factor 0.5,
 * and an Emplace that refuses any key already present, whatever its delegate.
 */
module ExpressionFactories {
  import opened Wrappers
  import opened Types
  import opened Registrations
  import opened Plans
  import opened Scopes
  import opened Registries
  import opened Lifecycles
  import opened Compilers
  import opened MultiMaps
  import opened HashMaps
  import opened GroupedTables

  /** The delegate table as ExpressionFactory keeps it: valid, comparing keys only, and
      holding at most one delegate per key. */
  ghost predicate KeyedCache(table: GroupedTable<Type, Plan>)
    reads table, table.metadata, table.entries
  {
    table.Valid() && (forall a: Plan, b: Plan :: table.sameValue(a, b)) && UniqueKeys(table.Contents())
  }

  /** When every two values count as the same, an entry is a duplicate exactly when its
      key is present. */
  lemma {:induction false} KeysOnlyDuplicate(c: multiset<Entry<Type, Plan>>, key: Type, value: Plan, sameValue: (Plan, Plan) -> bool)
    requires forall a: Plan, b: Plan :: sameValue(a, b)
    ensures GroupedTables.Duplicate(c, key, value, sameValue) <==> Cached(c, key)
  {
    if Cached(c, key) {
      var v :| Entry(key, v) in c;
      assert sameValue(v, value);
    }
  }

  /** GetAll(key) yields nothing: ExpressionFactory keeps no second delegate under a key. */
  function GetAll(key: Type): (r: seq<Plan>)
    ensures |r| == 0
  {
    []
  }

  class ExpressionFactory {
    /** _regFactory */
    const registry: Registry
    const runtime: Runtime
    const u: Universe
    /** How deep the parameter walk may recurse. */
    const depth: nat
    /** _metadata, _entries, Count, _length, _shift and _maxLookupsBeforeResize. */
    const table: GroupedTable<Type, Plan>

    /** new ExpressionFactory(reg): an empty table of length 16 that resizes once it
        holds 8 delegates. */
    constructor (registry: Registry, runtime: Runtime, u: Universe, depth: nat, hash: Type -> int)
      requires registry.policy == ByComparer
      ensures this.registry == registry && this.runtime == runtime && this.u == u && this.depth == depth
      ensures fresh(table) && fresh(table.metadata) && fresh(table.entries) && KeyedCache(table)
      ensures table.hash == hash && table.length == 16 && table.threshold == 8
      ensures table.count == 0 && table.Contents() == multiset{}
    {
      this.registry := registry;
      this.runtime := runtime;
      this.u := u;
      this.depth := depth;
      assert IsPow2(16);
      table := new GroupedTable(16, 1, 2, hash, (a: Plan, b: Plan) => true);
    }

    /** Compile(reg): the delegate of the registration, emplaced in the table under its
        registered type, which keeps the delegate already there if there is one. */
    method Compile(reg: Registration) returns (r: Result<Plan>)
      requires runtime.Valid() && KeyedCache(table)
      modifies registry`expression, runtime`scopeIndex, runtime`nextObject
      modifies if runtime.containerScope == null then {} else {runtime.containerScope}
      modifies table, table.metadata, table.entries
      ensures runtime.Valid() && KeyedCache(table)
      ensures runtime.containerScope != null ==>
        runtime.containerScope.slots == old(runtime.containerScope.slots) &&
        runtime.containerScope.disposed == old(runtime.containerScope.disposed)
      ensures (table.metadata == old(table.metadata) && table.entries == old(table.entries)) ||
        (fresh(table.metadata) && fresh(table.entries))
      ensures reg.id in old(registry.expression) ==> registry.expression == old(registry.expression)
      ensures registry.expression == old(registry.expression) ||
        (reg.id !in old(registry.expression) && reg.id in registry.expression &&
         registry.expression == old(registry.expression)[reg.id := registry.expression[reg.id]])
      ensures Extends(old(registry.expression), registry.expression)
      ensures old(table.Contents()) <= table.Contents()
      ensures r.Ok? ==>
        reg.id in registry.expression && r.value == Delegate(u, reg, old(registry.expression), registry.expression) &&
        Cached(table.Contents(), reg.registeredType) &&
        table.Contents() == old(table.Contents()) +
          (if Cached(old(table.Contents()), reg.registeredType) then multiset{} else multiset{Entry(reg.registeredType, r.value)})
    {
      var d := CompileExpression(registry, runtime, u, reg);
      if d.Err? {
        return d;
      }
      var cached := Cache(reg.registeredType, d.value);
      if cached.Err? {
        return Err(cached.fault);
      }
      return d;
    }

    /** Emplace(key, delegate) on the table: stored unless the key is present. */
    method Cache(key: Type, d: Plan) returns (r: Result<()>)
      requires KeyedCache(table)
      modifies table, table.metadata, table.entries
      ensures KeyedCache(table)
      ensures (table.metadata == old(table.metadata) && table.entries == old(table.entries)) ||
        (fresh(table.metadata) && fresh(table.entries))
      ensures old(table.Contents()) <= table.Contents()
      ensures r.Ok? ==> Cached(table.Contents(), key)
      ensures r.Ok? ==>
        table.Contents() == old(table.Contents()) + (if Cached(old(table.Contents()), key) then multiset{} else multiset{Entry(key, d)})
    {
      ghost var before := table.Contents();
      var stored := table.Emplace(key, d);
      KeysOnlyDuplicate(before, key, d, table.sameValue);
      if stored.Err? {
        return Err(stored.fault);
      }
      if stored.value {
        InsertKeepsUnique(before, key, d);
        assert Entry(key, d) in table.Contents();
      }
      return Ok(());
    }

    /** Create(type): the root registration; then, in the order the walk yields them,
        every registration the root's parameters need, each compiled while the store is
        as it was when it was yielded; then the root.  The first exception ends it. */
    method Create(t: Type) returns (r: Result<Plan>)
      requires registry.Valid() && runtime.Valid() && KeyedCache(table)
      modifies registry`entries, registry`nextId, registry`expression, runtime`scopeIndex, runtime`nextObject
      modifies if runtime.containerScope == null then {} else {runtime.containerScope}
      modifies table, table.metadata, table.entries
      ensures runtime.Valid() && registry.Valid() && KeyedCache(table)
      ensures runtime.containerScope != null ==>
        runtime.containerScope.slots == old(runtime.containerScope.slots) &&
        runtime.containerScope.disposed == old(runtime.containerScope.disposed)
      ensures Extends(old(registry.expression), registry.expression)
      ensures old(table.Contents()) <= table.Contents()
      ensures var f := RegistrationFor(u, registry.policy, old(registry.entries), old(registry.nextId), t);
        (f.Err? ==> r == Err(f.fault)) &&
        (f.Ok? && RootWalk(u, registry.policy, f.value.reg, f.value.entries, f.value.nextId, depth).outcome.Err? ==> r.Err?) &&
        (f.Ok? && r.Ok? ==>
           Created(u, registry.policy, depth, f.value.reg, f.value.entries, f.value.nextId, old(registry.expression),
                   registry.entries, registry.nextId, registry.expression, table.Contents(), r.value))
    {
      var root := GetRegistration(registry, u, t);
      if root.Err? {
        return Err(root.fault);
      }
      r := CreateFor(root.value);
    }

    /** Create once the root registration is known. */
    method CreateFor(root: Registration) returns (r: Result<Plan>)
      requires registry.Valid() && runtime.Valid() && KeyedCache(table)
      modifies registry`entries, registry`nextId, registry`expression, runtime`scopeIndex, runtime`nextObject
      modifies if runtime.containerScope == null then {} else {runtime.containerScope}
      modifies table, table.metadata, table.entries
      ensures runtime.Valid() && registry.Valid() && KeyedCache(table)
      ensures runtime.containerScope != null ==>
        runtime.containerScope.slots == old(runtime.containerScope.slots) &&
        runtime.containerScope.disposed == old(runtime.containerScope.disposed)
      ensures Extends(old(registry.expression), registry.expression)
      ensures old(table.Contents()) <= table.Contents()
      ensures RootWalk(u, registry.policy, root, old(registry.entries), old(registry.nextId), depth).outcome.Err? ==> r.Err?
      ensures r.Ok? ==>
        Created(u, registry.policy, depth, root, old(registry.entries), old(registry.nextId), old(registry.expression),
                registry.entries, registry.nextId, registry.expression, table.Contents(), r.value)
    {
      var w := RootWalk(u, registry.policy, root, registry.entries, registry.nextId, depth);
      RootWalkIds(u, registry.policy, root, registry.entries, registry.nextId, depth);
      var compiled := CompileYields(w.emitted);
      if compiled.Err? {
        return Err(compiled.fault);
      }
      r := CompileRoot(root, w, old(registry.expression));
    }

    /** The last step of Create, once everything the walk yielded is compiled: the walk's
        own exception, if it raised one, and otherwise the root itself, with the store the
        walk leaves. */
    method CompileRoot(root: Registration, w: Walk, ghost exprs0: map<nat, Plan>) returns (r: Result<Plan>)
      requires registry.Valid() && runtime.Valid() && KeyedCache(table) && IdsBelow(w.entries, w.nextId)
      requires Extends(exprs0, registry.expression) && KeysWithin(registry.expression, exprs0, w.emitted, |w.emitted|)
      requires AllCompiled(w.emitted, |w.emitted|, registry.expression, table.Contents())
      modifies registry`entries, registry`nextId, registry`expression, runtime`scopeIndex, runtime`nextObject
      modifies if runtime.containerScope == null then {} else {runtime.containerScope}
      modifies table, table.metadata, table.entries
      ensures runtime.Valid() && registry.Valid() && KeyedCache(table)
      ensures runtime.containerScope != null ==>
        runtime.containerScope.slots == old(runtime.containerScope.slots) &&
        runtime.containerScope.disposed == old(runtime.containerScope.disposed)
      ensures Extends(old(registry.expression), registry.expression)
      ensures old(table.Contents()) <= table.Contents()
      ensures w.outcome.Err? ==> r == Err(w.outcome.fault)
      ensures r.Ok? ==>
        registry.entries == w.entries && registry.nextId == w.nextId &&
        AllCompiled(w.emitted, |w.emitted|, registry.expression, table.Contents()) &&
        root.id in registry.expression && Cached(table.Contents(), root.registeredType) &&
        r.value == RootDelegate(u, root, exprs0, w.emitted, registry.expression)
    {
      if w.outcome.Err? {
        return Err(w.outcome.fault);
      }
      registry.Adopt(w.entries, w.nextId);
      ghost var mid, cached := registry.expression, table.Contents();
      r := Compile(root);
      AllCompiledGrows(w.emitted, |w.emitted|, old(registry.expression), registry.expression, old(table.Contents()), table.Contents());
      if r.Ok? {
        RootDelegateOf(u, root, exprs0, w.emitted, mid, registry.expression, cached);
      }
    }

    /** The foreach of Create over what the walk yields, up to the first exception. */
    method CompileYields(emitted: seq<Yield>) returns (r: Result<()>)
      requires registry.Valid() && runtime.Valid() && KeyedCache(table)
      requires forall k :: 0 <= k < |emitted| ==> IdsBelow(emitted[k].entries, emitted[k].nextId)
      modifies registry`entries, registry`nextId, registry`expression, runtime`scopeIndex, runtime`nextObject
      modifies if runtime.containerScope == null then {} else {runtime.containerScope}
      modifies table, table.metadata, table.entries
      ensures runtime.Valid() && KeyedCache(table)
      ensures registry.Valid()
      ensures (table.metadata == old(table.metadata) && table.entries == old(table.entries)) ||
        (fresh(table.metadata) && fresh(table.entries))
      ensures runtime.containerScope != null ==>
        runtime.containerScope.slots == old(runtime.containerScope.slots) &&
        runtime.containerScope.disposed == old(runtime.containerScope.disposed)
      ensures Extends(old(registry.expression), registry.expression)
      ensures old(table.Contents()) <= table.Contents()
      ensures r.Ok? ==> AllCompiled(emitted, |emitted|, registry.expression, table.Contents())
      ensures r.Ok? ==> KeysWithin(registry.expression, old(registry.expression), emitted, |emitted|)
    {
      var k := 0;
      while k < |emitted|
        invariant 0 <= k <= |emitted|
        invariant registry.Valid() && runtime.Valid() && KeyedCache(table) && old(table.Contents()) <= table.Contents()
        invariant runtime.containerScope != null ==>
          runtime.containerScope.slots == old(runtime.containerScope.slots) &&
          runtime.containerScope.disposed == old(runtime.containerScope.disposed)
        invariant (table.metadata == old(table.metadata) && table.entries == old(table.entries)) ||
          (fresh(table.metadata) && fresh(table.entries))
        invariant Extends(old(registry.expression), registry.expression)
        invariant AllCompiled(emitted, k, registry.expression, table.Contents())
        invariant KeysWithin(registry.expression, old(registry.expression), emitted, k)
      {
        ghost var exprs := registry.expression;
        r := CompileYield(emitted, k);
        if r.Err? {
          return;
        }
        KeysWithinStep(exprs, registry.expression, old(registry.expression), emitted, k);
        k := k + 1;
      }
      return Ok(());
    }

    /** One turn of CompileYields: the k-th yielded registration, compiled with the
        store it was yielded with. */
    method CompileYield(emitted: seq<Yield>, k: nat) returns (r: Result<()>)
      requires k < |emitted| && IdsBelow(emitted[k].entries, emitted[k].nextId)
      requires runtime.Valid() && KeyedCache(table)
      requires AllCompiled(emitted, k, registry.expression, table.Contents())
      modifies registry`entries, registry`nextId, registry`expression, runtime`scopeIndex, runtime`nextObject
      modifies if runtime.containerScope == null then {} else {runtime.containerScope}
      modifies table, table.metadata, table.entries
      ensures registry.Valid() && runtime.Valid() && KeyedCache(table)
      ensures runtime.containerScope != null ==>
        runtime.containerScope.slots == old(runtime.containerScope.slots) &&
        runtime.containerScope.disposed == old(runtime.containerScope.disposed)
      ensures (table.metadata == old(table.metadata) && table.entries == old(table.entries)) ||
        (fresh(table.metadata) && fresh(table.entries))
      ensures Extends(old(registry.expression), registry.expression)
      ensures old(table.Contents()) <= table.Contents()
      ensures r.Ok? ==> AllCompiled(emitted, k + 1, registry.expression, table.Contents())
      ensures registry.expression.Keys <= old(registry.expression).Keys + {emitted[k].reg.id}
    {
      registry.Adopt(emitted[k].entries, emitted[k].nextId);
      ghost var before := table.Contents();
      ghost var exprs := registry.expression;
      var d := Compile(emitted[k].reg);
      if d.Err? {
        return Err(d.fault);
      }
      AllCompiledStep(emitted, k, exprs, registry.expression, before, table.Contents());
      return Ok(());
    }

    /** Get(key): the delegate cached under the key, found by the group probe, with
        nothing changed; on a miss, the delegate Create(key) compiles. */
    method Get(key: Type) returns (r: Result<Plan>)
      requires registry.Valid() && runtime.Valid() && KeyedCache(table)
      modifies registry`entries, registry`nextId, registry`expression, runtime`scopeIndex, runtime`nextObject
      modifies if runtime.containerScope == null then {} else {runtime.containerScope}
      modifies table, table.metadata, table.entries
      ensures runtime.Valid() && registry.Valid() && KeyedCache(table)
      ensures Cached(old(table.Contents()), key) ==>
        (forall v :: Entry(key, v) in old(table.Contents()) ==> r == Ok(v)) &&
        unchanged(registry, runtime, table) && unchanged(table.metadata, table.entries) &&
        (runtime.containerScope != null ==> unchanged(runtime.containerScope))
      ensures !Cached(old(table.Contents()), key) ==>
        var f := RegistrationFor(u, registry.policy, old(registry.entries), old(registry.nextId), key);
        (f.Err? ==> r == Err(f.fault)) &&
        (f.Ok? && RootWalk(u, registry.policy, f.value.reg, f.value.entries, f.value.nextId, depth).outcome.Err? ==> r.Err?) &&
        (f.Ok? && r.Ok? ==>
           Created(u, registry.policy, depth, f.value.reg, f.value.entries, f.value.nextId, old(registry.expression),
                   registry.entries, registry.nextId, registry.expression, table.Contents(), r.value))
    {
      var found, slot, _ := table.Get(key);
      if found.Some? {
        StoredHas(table.entries[..], slot);
        return Ok(found.value);
      }
      r := Create(key);
    }
  }
}
