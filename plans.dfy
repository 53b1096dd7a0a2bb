/**
 * Plans: what the compilers build instead of expression trees, and what running a
 * compiled delegate does.
 *
 * A `Plan` is the expression a registration compiles to: a constructor call over the
 * plans of its arguments, an array of plans, a constant, a call of the scope's
 * EmplaceOrGetScopedInstance at a fixed slot, or one of the two disposal wrappers.  A
 * compiled `Func<Scoped, object>` is its plan; `Eval` says what invoking it does to the
 * scope it is given and which object it returns.  Objects are values with an identity
 * drawn from a counter, so "a new object" is "an object with a fresh id".
 */
module Plans {
  import opened Wrappers
  import opened Types

  /** An object a delegate can return. */
  datatype Obj =
    | Null
    /** An object built by a constructor call, with the objects passed to it. */
    | Instance(id: nat, of: Type, parts: seq<Obj>)
    /** An array built by NewArrayInit. */
    | ArrayOf(id: nat, elem: Type, items: seq<Obj>)
    /** The container itself, which RegisterServiceCollection registers as a constant. */
    | ContainerObj

  datatype Plan =
    /** Expression.New(constructor of `of`, args) */
    | New(of: Type, args: seq<Plan>)
    /** Expression.NewArrayInit(elem, items) */
    | NewArray(elem: Type, items: seq<Plan>)
    /** Expression.Constant(value) */
    | Constant(value: Obj)
    /** Scope.EmplaceOrGetScopedInstance(builder, index), the builder being the plan
        compiled to a parameterless delegate. */
    | ScopedSlot(builder: Plan, index: int)
    /** { transient = inner; Scope.Disposeables.Add(transient); transient } */
    | TrackTransient(inner: Plan)
    /** { scoped = inner; if (!Scope.Disposeables.Contains(scoped)) Scope.Disposeables.Add(scoped); scoped } */
    | TrackScoped(inner: Plan)

  /** Whether a plan mentions the scope parameter outside a nested compiled delegate.
      Only such plans can be compiled to a parameterless delegate. */
  predicate UsesScope(p: Plan) {
    match p
    case New(_, args) => exists i :: 0 <= i < |args| && UsesScope(args[i])
    case NewArray(_, items) => exists i :: 0 <= i < |items| && UsesScope(items[i])
    case Constant(_) => false
    case ScopedSlot(_, _) => true
    case TrackTransient(_) => true
    case TrackScoped(_) => true
  }

  /** What a scope holds: its slot array and its disposal list, each absent (null) once
      the scope is disposed. */
  datatype ScopeView = ScopeView(slots: Option<seq<Obj>>, disposables: Option<seq<Obj>>)

  /** The outcome of running a plan: the result or the exception, the scope afterwards
      (none when the delegate was invoked without one) and the next free object id. */
  datatype Outcome<T> = Outcome(result: Result<T>, scope: Option<ScopeView>, next: nat)

  /** Invoking a compiled delegate on `scope` (None for a null scope or a parameterless
      delegate) when the next free object id is `next`. */
  function Eval(p: Plan, scope: Option<ScopeView>, next: nat): (o: Outcome<Obj>)
    decreases p, 1
  {
    match p
    case New(of, args) =>
      var a := EvalAll(args, scope, next);
      if a.result.Err? then Outcome(Err(a.result.fault), a.scope, a.next)
      else Outcome(Ok(Instance(a.next, of, a.result.value)), a.scope, a.next + 1)
    case NewArray(elem, items) =>
      var a := EvalAll(items, scope, next);
      if a.result.Err? then Outcome(Err(a.result.fault), a.scope, a.next)
      else Outcome(Ok(ArrayOf(a.next, elem, a.result.value)), a.scope, a.next + 1)
    case Constant(v) => Outcome(Ok(v), scope, next)
    case ScopedSlot(builder, index) => EvalSlot(builder, index, scope, next)
    case TrackTransient(inner) =>
      var o := Eval(inner, scope, next);
      if o.result.Err? then o
      else if o.scope.None? || o.scope.value.disposables.None? then Outcome(Err(NullReference), o.scope, o.next)
      else
        var list := o.scope.value.disposables.value;
        Outcome(o.result, Some(o.scope.value.(disposables := Some(list + [o.result.value]))), o.next)
    case TrackScoped(inner) =>
      var o := Eval(inner, scope, next);
      if o.result.Err? then o
      else if o.scope.None? || o.scope.value.disposables.None? then Outcome(Err(NullReference), o.scope, o.next)
      else
        var list := o.scope.value.disposables.value;
        if o.result.value in list then o
        else Outcome(o.result, Some(o.scope.value.(disposables := Some(list + [o.result.value]))), o.next)
  }

  /** Scoped.EmplaceOrGetScopedInstance(builder, index) on `scope`: a non-null slot is
      returned as it is; a null one is filled by invoking the builder, which runs
      without a scope. */
  function EvalSlot(builder: Plan, index: int, scope: Option<ScopeView>, next: nat): (o: Outcome<Obj>)
    decreases builder, 2
  {
    if scope.None? || scope.value.slots.None? then Outcome(Err(NullReference), scope, next)
    else
      var slots := scope.value.slots.value;
      if index < 0 || index >= |slots| then Outcome(Err(IndexOutOfRange), scope, next)
      else if slots[index] != Null then Outcome(Ok(slots[index]), scope, next)
      else
        var b := Eval(builder, None, next);
        if b.result.Err? then Outcome(b.result, scope, b.next)
        else Outcome(b.result, Some(scope.value.(slots := Some(slots[index := b.result.value]))), b.next)
  }

  /** The arguments of a call, left to right, stopping at the first exception. */
  function EvalAll(ps: seq<Plan>, scope: Option<ScopeView>, next: nat): (o: Outcome<seq<Obj>>)
    decreases ps, 0
  {
    if |ps| == 0 then Outcome(Ok([]), scope, next)
    else
      var a := EvalAll(ps[..|ps| - 1], scope, next);
      if a.result.Err? then a
      else
        var o := Eval(ps[|ps| - 1], a.scope, a.next);
        if o.result.Err? then Outcome(Err(o.result.fault), o.scope, o.next)
        else Outcome(Ok(a.result.value + [o.result.value]), o.scope, o.next)
  }

  /** A compiled delegate only ever takes fresh ids, every object it builds has an id
      at or above the one it started from, and it keeps a scope's disposal list. */
  lemma {:induction false} EvalMonotone(p: Plan, scope: Option<ScopeView>, next: nat)
    ensures Eval(p, scope, next).next >= next
    ensures var o := Eval(p, scope, next); o.result.Ok? && (o.result.value.Instance? || o.result.value.ArrayOf?) && (p.New? || p.NewArray?) ==>
      next <= o.result.value.id < o.next
    ensures var o := Eval(p, scope, next); scope.None? ==> o.scope.None?
    ensures var o := Eval(p, scope, next); scope.Some? ==>
      o.scope.Some? && (o.scope.value.disposables.Some? <==> scope.value.disposables.Some?)
    decreases p, 1
  {
    match p
    case New(_, args) => EvalAllMonotone(args, scope, next);
    case NewArray(_, items) => EvalAllMonotone(items, scope, next);
    case Constant(_) =>
    case ScopedSlot(builder, _) => EvalMonotone(builder, None, next);
    case TrackTransient(inner) => EvalMonotone(inner, scope, next);
    case TrackScoped(inner) => EvalMonotone(inner, scope, next);
  }

  lemma {:induction false} EvalAllMonotone(ps: seq<Plan>, scope: Option<ScopeView>, next: nat)
    ensures EvalAll(ps, scope, next).next >= next
    ensures scope.None? ==> EvalAll(ps, scope, next).scope.None?
    ensures var o := EvalAll(ps, scope, next); scope.Some? ==>
      o.scope.Some? && (o.scope.value.disposables.Some? <==> scope.value.disposables.Some?)
    decreases ps, 0
  {
    if |ps| > 0 {
      var a := EvalAll(ps[..|ps| - 1], scope, next);
      EvalAllMonotone(ps[..|ps| - 1], scope, next);
      if a.result.Ok? {
        EvalMonotone(ps[|ps| - 1], a.scope, a.next);
      }
    }
  }

  /** Transient: invoking a constructor plan twice, the second time after the first,
      gives two different objects. */
  lemma {:induction false} TransientIsDistinct(of: Type, args: seq<Plan>, scope: Option<ScopeView>, next: nat)
    ensures var p := New(of, args);
      var first := Eval(p, scope, next);
      var second := Eval(p, first.scope, first.next);
      first.result.Ok? && second.result.Ok? ==> first.result.value != second.result.value
  {
    var p := New(of, args);
    var first := Eval(p, scope, next);
    EvalMonotone(p, scope, next);
    EvalMonotone(p, first.scope, first.next);
  }

  /** Singleton: a constant plan returns its object every time and changes nothing. */
  lemma {:induction false} SingletonIsShared(v: Obj, scope: Option<ScopeView>, next: nat)
    ensures Eval(Constant(v), scope, next) == Outcome(Ok(v), scope, next)
  {
  }

  /** Scoped: once a slot plan has produced a non-null object in a scope, invoking it
      again in that scope returns the same object, builds nothing and changes nothing. */
  lemma {:induction false} ScopedIsSharedInScope(builder: Plan, index: int, scope: Option<ScopeView>, next: nat)
    ensures var p := ScopedSlot(builder, index);
      var first := Eval(p, scope, next);
      first.result.Ok? && first.result.value != Null ==>
        Eval(p, first.scope, first.next) == Outcome(first.result, first.scope, first.next)
  {
  }

  /** Scoped: in a fresh scope the slot plan builds a new object with the builder, and
      in two fresh scopes one after the other it builds two different ones when the
      builder is a constructor call. */
  lemma {:induction false} ScopedDiffersAcrossScopes(of: Type, args: seq<Plan>, index: int, s1: ScopeView, s2: ScopeView, next: nat)
    requires s1.slots.Some? && 0 <= index < |s1.slots.value| && s1.slots.value[index] == Null
    requires s2.slots.Some? && 0 <= index < |s2.slots.value| && s2.slots.value[index] == Null
    ensures var p := ScopedSlot(New(of, args), index);
      var first := Eval(p, Some(s1), next);
      var second := Eval(p, Some(s2), first.next);
      first.result.Ok? && second.result.Ok? ==> first.result.value != second.result.value
  {
    var b := New(of, args);
    var first := Eval(b, None, next);
    EvalMonotone(b, None, next);
    EvalMonotone(b, None, first.next);
  }

  /** The transient wrapper adds the object to the disposal list of the scope it runs
      in, on every invocation. */
  lemma {:induction false} TransientWrapperAppends(inner: Plan, scope: ScopeView, next: nat)
    requires scope.disposables.Some?
    requires !UsesScope(inner)
    ensures var o := Eval(TrackTransient(inner), Some(scope), next);
      o.result.Ok? ==> o.scope.Some? && o.scope.value.disposables == Some(scope.disposables.value + [o.result.value])
  {
    UnscopedKeepsScope(inner, Some(scope), next);
  }

  /** The scoped wrapper adds the object only when the list does not hold it yet, so
      invoking it twice in one scope lists a scoped object once. */
  lemma {:induction false} ScopedWrapperAddsOnce(inner: Plan, scope: ScopeView, next: nat)
    requires scope.disposables.Some?
    requires !UsesScope(inner)
    ensures var first := Eval(TrackScoped(inner), Some(scope), next);
      var list := scope.disposables.value;
      first.result.Ok? ==>
        first.scope.Some? &&
        first.scope.value.disposables == Some(if first.result.value in list then list else list + [first.result.value])
    ensures var first := Eval(TrackScoped(inner), Some(scope), next);
      first.result.Ok? ==>
        first.scope.Some? && first.scope.value.disposables.Some? &&
        first.result.value in first.scope.value.disposables.value
  {
    UnscopedKeepsScope(inner, Some(scope), next);
  }

  /** A plan that does not mention the scope leaves the scope as it was. */
  lemma {:induction false} UnscopedKeepsScope(p: Plan, scope: Option<ScopeView>, next: nat)
    requires !UsesScope(p)
    ensures Eval(p, scope, next).scope == scope
    decreases p, 1
  {
    match p
    case New(_, args) => UnscopedAllKeepsScope(args, scope, next);
    case NewArray(_, items) => UnscopedAllKeepsScope(items, scope, next);
    case Constant(_) =>
  }

  lemma {:induction false} UnscopedAllKeepsScope(ps: seq<Plan>, scope: Option<ScopeView>, next: nat)
    requires forall i :: 0 <= i < |ps| ==> !UsesScope(ps[i])
    ensures EvalAll(ps, scope, next).scope == scope
    decreases ps, 0
  {
    if |ps| > 0 {
      var a := EvalAll(ps[..|ps| - 1], scope, next);
      UnscopedAllKeepsScope(ps[..|ps| - 1], scope, next);
      if a.result.Ok? {
        UnscopedKeepsScope(ps[|ps| - 1], a.scope, a.next);
      }
    }
  }
}
