/**
 * CreateLifetimeExpression and AddCleanup, which ExpressionGenerator, ExpressionFactory
 * and DependencyResolver write out alike.
 *
 * Compiling a plan that mentions the scope parameter into a parameterless delegate
 * (the Singleton evaluation of ExpressionGenerator and ExpressionFactory, and every
 * Scoped builder) leaves that parameter unbound; the model lets such a compilation raise
 * the expression library's InvalidOperationException.
 */
module Lifecycles {
  import opened Wrappers
  import opened Types
  import opened Lifetimes
  import opened Registrations
  import opened Plans
  import opened Scopes

  const UnboundScope := InvalidOperation("variable 'Scope' of type 'Faster.Ioc.Scoped' referenced from scope '', but it is not defined")

  /** The disposal wrapper AddCleanup puts around a registration's expression: none for a
      type that does not implement IDisposable or for a Singleton, otherwise the wrapper
      for its lifetime. */
  function CleanupPlan(lifetime: Lifetime, disposable: bool, expression: Plan): Plan {
    if !disposable then expression
    else match lifetime
      case Transient => TrackTransient(expression)
      case Singleton => expression
      case Scoped => TrackScoped(expression)
  }

  /** The expression CreateLifetimeExpression returns, with ScopeIndex and the next free
      object identity after it. */
  datatype Lowered = Lowered(expression: Result<Plan>, scopeIndex: int, next: nat)

  /** CreateLifetimeExpression as a function of the statics it reads. */
  function Lifetimed(lifetime: Lifetime, expression: Plan, withScopeParameter: bool, scopeIndex: int, next: nat): (l: Lowered)
    requires -0x8000_0000 <= scopeIndex < 0x8000_0000
    ensures -0x8000_0000 <= l.scopeIndex < 0x8000_0000 && l.next >= next
    ensures lifetime != Scoped ==> l.scopeIndex == scopeIndex
    ensures lifetime != Singleton ==> l.next == next
    ensures l.expression.Ok? && lifetime == Singleton ==>
      l.expression.value.Constant? && Eval(expression, None, next).result == Ok(l.expression.value.value)
    ensures l.expression.Ok? && lifetime == Scoped ==>
      !UsesScope(expression) && l.expression.value == ScopedSlot(expression, scopeIndex) && l.scopeIndex != scopeIndex
  {
    match lifetime
    case Transient => Lowered(Ok(expression), scopeIndex, next)
    case Singleton =>
      if UsesScope(expression) && !withScopeParameter then Lowered(Err(UnboundScope), scopeIndex, next)
      else
        var o := Eval(expression, None, next);
        EvalMonotone(expression, None, next);
        Lowered(if o.result.Ok? then Ok(Constant(o.result.value)) else Err(o.result.fault), scopeIndex, o.next)
    case Scoped =>
      if UsesScope(expression) then Lowered(Err(UnboundScope), scopeIndex, next)
      else Lowered(Ok(ScopedSlot(expression, scopeIndex)), Inc32(scopeIndex), next)
  }

  /** CreateLifetimeExpression(reg, expression).  Transient leaves the expression as it
      is; Singleton invokes it once, now, and keeps the object as a constant; Scoped
      binds it to the current ScopeIndex, which then moves on.  `withScopeParameter` is
      DependencyResolver's Singleton, which compiles with the scope parameter and
      invokes the delegate on null. */
  method CreateLifetimeExpression(runtime: Runtime, lifetime: Lifetime, expression: Plan, withScopeParameter: bool)
    returns (r: Result<Plan>)
    requires runtime.Valid()
    modifies runtime`scopeIndex, runtime`nextObject
    ensures runtime.Valid()
    ensures Lowered(r, runtime.scopeIndex, runtime.nextObject) ==
      Lifetimed(lifetime, expression, withScopeParameter, old(runtime.scopeIndex), old(runtime.nextObject))
    ensures lifetime == Transient ==>
      r == Ok(expression) && runtime.scopeIndex == old(runtime.scopeIndex) && runtime.nextObject == old(runtime.nextObject)
    ensures lifetime == Singleton ==> runtime.scopeIndex == old(runtime.scopeIndex)
    ensures lifetime == Singleton && UsesScope(expression) && !withScopeParameter ==>
      r == Err(UnboundScope) && runtime.nextObject == old(runtime.nextObject)
    ensures lifetime == Singleton && (!UsesScope(expression) || withScopeParameter) ==>
      var o := Eval(expression, None, old(runtime.nextObject));
      runtime.nextObject == o.next &&
      r == (if o.result.Ok? then Ok(Constant(o.result.value)) else Err(o.result.fault))
    ensures lifetime == Scoped ==> runtime.nextObject == old(runtime.nextObject)
    ensures lifetime == Scoped && UsesScope(expression) ==>
      r == Err(UnboundScope) && runtime.scopeIndex == old(runtime.scopeIndex)
    ensures lifetime == Scoped && !UsesScope(expression) ==>
      r == Ok(ScopedSlot(expression, old(runtime.scopeIndex))) && runtime.scopeIndex == Inc32(old(runtime.scopeIndex))
  {
    match lifetime
    case Transient =>
      return Ok(expression);
    case Singleton =>
      if UsesScope(expression) && !withScopeParameter {
        return Err(UnboundScope);
      }
      var instance, next := Run(expression, null, runtime.nextObject);
      runtime.nextObject := next;
      if instance.Err? {
        return Err(instance.fault);
      }
      return Ok(Constant(instance.value));
    case Scoped =>
      if UsesScope(expression) {
        return Err(UnboundScope);
      }
      r := Ok(ScopedSlot(expression, runtime.scopeIndex));
      runtime.scopeIndex := Inc32(runtime.scopeIndex);
  }

  /** AddCleanup(reg) on the expression just assigned to reg.Expression.  A disposable
      Singleton's object joins ContainerScope's disposal list now. */
  method AddCleanup(runtime: Runtime, u: Universe, reg: Registration, expression: Plan) returns (r: Result<Plan>)
    requires runtime.Valid()
    modifies if runtime.containerScope == null then {} else {runtime.containerScope}
    ensures runtime.Valid()
    ensures runtime.containerScope != null ==>
      runtime.containerScope.slots == old(runtime.containerScope.slots) &&
      runtime.containerScope.disposed == old(runtime.containerScope.disposed)
    ensures !(u.disposable(reg.returnType) && reg.lifetime == Singleton) ==>
      r == Ok(CleanupPlan(reg.lifetime, u.disposable(reg.returnType), expression)) &&
      (runtime.containerScope != null ==> runtime.containerScope.disposables == old(runtime.containerScope.disposables))
    ensures u.disposable(reg.returnType) && reg.lifetime == Singleton ==>
      if runtime.containerScope == null || old(runtime.containerScope.disposables).None? then
        r == Err(NullReference)
      else if !expression.Constant? then
        r == Err(InvalidCast) && runtime.containerScope.disposables == old(runtime.containerScope.disposables)
      else
        r == Ok(expression) &&
        runtime.containerScope.disposables == Some(old(runtime.containerScope.disposables).value + [expression.value])
  {
    if !u.disposable(reg.returnType) {
      return Ok(expression);
    }
    match reg.lifetime
    case Transient =>
      return Ok(TrackTransient(expression));
    case Singleton =>
      var scope := runtime.containerScope;
      if scope == null || scope.disposables.None? {
        return Err(NullReference);
      }
      if !expression.Constant? {
        return Err(InvalidCast);
      }
      scope.disposables := Some(scope.disposables.value + [expression.value]);
      return Ok(expression);
    case Scoped =>
      return Ok(TrackScoped(expression));
  }

  /** What the disposal wrappers do when the compiled delegate runs: a disposable
      Transient's object joins the resolving scope's list on every run, a disposable
      Scoped's object joins it once, and the plan is otherwise the expression's. */
  lemma {:induction false} CleanupRuns(lifetime: Lifetime, disposable: bool, expression: Plan, scope: ScopeView, next: nat)
    requires scope.disposables.Some? && !UsesScope(expression)
    ensures var o := Eval(expression, Some(scope), next);
      var c := Eval(CleanupPlan(lifetime, disposable, expression), Some(scope), next);
      o.result.Ok? ==>
        c.result == o.result && c.next == o.next && c.scope.Some? &&
        c.scope.value.slots == scope.slots &&
        c.scope.value.disposables == Some(scope.disposables.value +
          (if disposable && (lifetime == Transient || (lifetime == Scoped && o.result.value !in scope.disposables.value))
           then [o.result.value] else []))
  {
    var o := Eval(expression, Some(scope), next);
    UnscopedKeepsScope(expression, Some(scope), next);
    if !disposable {
      assert scope.disposables.value + [] == scope.disposables.value;
    } else if o.result.Ok? {
      match lifetime
      case Transient =>
        assert Eval(TrackTransient(expression), Some(scope), next).scope ==
          Some(scope.(disposables := Some(scope.disposables.value + [o.result.value])));
      case Singleton =>
        assert scope.disposables.value + [] == scope.disposables.value;
      case Scoped =>
        assert Eval(TrackScoped(expression), Some(scope), next).scope ==
          if o.result.value in scope.disposables.value then Some(scope)
          else Some(scope.(disposables := Some(scope.disposables.value + [o.result.value])));
    }
  }
}
