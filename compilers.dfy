/**
 * What ExpressionGenerator and ExpressionFactory compute alike when they compile a
 * registration: the registration a type resolves to (GetRegistration), the walk over
 * the constructor parameters that emitted the registrations to compile first
 * (GetParameterRegistrations), the constructor-call plan over the parameters'
 * expressions (CreateBaseExpression, GetParameterExpressions), the plan of an override
 * (CreateBaseExpressionWithOverride, GetParameterExpressionOverride) and, after the
 * lifetime transform, the write of Registration.Expression.
 *
 * The store is the insertion-ordered view of module Registries; the walk and the plan
 * builders are functions of it, and the compile step a method on the shared state.
 */
module Compilers {
  import opened Wrappers
  import opened Types
  import opened Lifetimes
  import opened Registrations
  import opened Plans
  import opened Scopes
  import opened Registries
  import opened CircularReferences
  import opened Lifecycles
  import MultiMaps

  // ---------------------------------------------------------------------------------
  // Building plans.

  /** Expression.New(constructor, args) for a constructor with `paramTypes`: the argument
      list must match the parameter list in length and hold no null. */
  function MakeNew(paramTypes: seq<Type>, of: Type, args: seq<Option<Plan>>): (r: Result<Plan>)
    ensures r.Ok? <==> |args| == |paramTypes| && forall i :: 0 <= i < |args| ==> args[i].Some?
    ensures r.Ok? ==>
      r.value.New? && r.value.of == of && |r.value.args| == |args| &&
      forall i :: 0 <= i < |args| ==> r.value.args[i] == args[i].value
    ensures |args| != |paramTypes| ==> r == Err(ArgumentMismatch)
  {
    if |args| != |paramTypes| then Err(ArgumentMismatch)
    else if exists i :: 0 <= i < |args| && args[i].None? then Err(ArgumentNull)
    else Ok(New(of, seq(|args|, i requires 0 <= i < |args| => args[i].value)))
  }

  /** Expression.NewArrayInit(elem, items): no item may be null. */
  function MakeArray(elem: Type, items: seq<Option<Plan>>): (r: Result<Plan>)
    ensures r.Ok? <==> forall i :: 0 <= i < |items| ==> items[i].Some?
    ensures r.Err? ==> r.fault == ArgumentNull
    ensures r.Ok? ==>
      r.value.NewArray? && r.value.elem == elem && |r.value.items| == |items| &&
      forall i :: 0 <= i < |items| ==> r.value.items[i] == items[i].value
  {
    if exists i :: 0 <= i < |items| && items[i].None? then Err(ArgumentNull)
    else Ok(NewArray(elem, seq(|items|, i requires 0 <= i < |items| => items[i].value)))
  }

  /** `regs.Select(r => r.Expression)`: the expression of each registration, null where
      it has none yet. */
  function ExpressionsOf(regs: seq<Registration>, exprs: map<nat, Plan>): (r: seq<Option<Plan>>)
    ensures |r| == |regs|
    ensures forall i :: 0 <= i < |regs| ==> r[i] == (if regs[i].id in exprs then Some(exprs[regs[i].id]) else None)
  {
    seq(|regs|, i requires 0 <= i < |regs| => if regs[i].id in exprs then Some(exprs[regs[i].id]) else None)
  }

  /** Every registration has an expression exactly when no entry of the selection is
      null. */
  lemma {:induction false} ExpressionsOfAll(regs: seq<Registration>, exprs: map<nat, Plan>)
    ensures (forall i :: 0 <= i < |regs| ==> ExpressionsOf(regs, exprs)[i].Some?) <==>
      (forall i :: 0 <= i < |regs| ==> regs[i].id in exprs)
  {
    var items := ExpressionsOf(regs, exprs);
    if exists i :: 0 <= i < |regs| && regs[i].id !in exprs {
      var i :| 0 <= i < |regs| && regs[i].id !in exprs;
      assert items[i].None?;
    }
  }

  /** The argument one constructor parameter of type `t` contributes
      (GetParameterExpressions): an array of the expressions of every registration of
      the element type for IEnumerable<T> and IList<T>; the registration's expression
      for a registered type, which must have one; nothing for an unregistered type. */
  function ParamExpression(u: Universe, es: Entries, exprs: map<nat, Plan>, t: Type): (r: Result<seq<Option<Plan>>>)
    ensures r.Ok? ==> (|r.value| == 1 <==> Contributes(es, t)) && |r.value| <= 1 && forall i :: 0 <= i < |r.value| ==> r.value[i].Some?
    ensures t.IsSequence() ==>
      (r.Ok? <==> forall i :: 0 <= i < |GetAll(es, t.Element())| ==> GetAll(es, t.Element())[i].id in exprs)
    ensures t.IsSequence() && r.Err? ==> r.fault == ArgumentNull
    ensures t.IsSequence() && r.Ok? ==>
      var regs := GetAll(es, t.Element());
      |r.value| == 1 && r.value[0].Some? && r.value[0].value.NewArray? &&
      r.value[0].value.items == seq(|regs|, i requires 0 <= i < |regs| && regs[i].id in exprs => exprs[regs[i].id])
    ensures !t.IsSequence() && Get(es, t).None? ==> r == Ok([])
    ensures !t.IsSequence() && Get(es, t).Some? ==>
      var reg := Get(es, t).value;
      r == if reg.id in exprs then Ok([Some(exprs[reg.id])])
           else Err(InvalidOperation("Expression of type [" + u.fullName(reg.returnType) + "] not found"))
  {
    if t.IsSequence() then
      var regs := GetAll(es, t.Element());
      var a := MakeArray(t.Element(), ExpressionsOf(regs, exprs));
      ExpressionsOfAll(regs, exprs);
      if a.Err? then
        assert !(forall i :: 0 <= i < |regs| ==> regs[i].id in exprs);
        assert regs == GetAll(es, t.Element());
        Err(a.fault)
      else Ok([Some(a.value)])
    else match Get(es, t)
      case None => Ok([])
      case Some(reg) =>
        if reg.id in exprs then Ok([Some(exprs[reg.id])])
        else Err(InvalidOperation("Expression of type [" + u.fullName(reg.returnType) + "] not found"))
  }

  /** Whether a parameter of type `t` contributes an argument. */
  predicate Contributes(es: Entries, t: Type) {
    t.IsSequence() || Get(es, t).Some?
  }

  /** GetParameterExpressions over a parameter list, enumerated by Expression.New: the
      arguments in order, or the first exception. */
  function ParamExpressions(u: Universe, es: Entries, exprs: map<nat, Plan>, ps: seq<Type>): (r: Result<seq<Option<Plan>>>)
    ensures r.Ok? <==> forall i :: 0 <= i < |ps| ==> ParamExpression(u, es, exprs, ps[i]).Ok?
    ensures r.Ok? ==> |r.value| <= |ps| && forall i :: 0 <= i < |r.value| ==> r.value[i].Some?
    ensures r.Ok? ==> (|r.value| == |ps| <==> forall i :: 0 <= i < |ps| ==> Contributes(es, ps[i]))
    ensures r.Err? ==>
      exists i :: 0 <= i < |ps| && ParamExpression(u, es, exprs, ps[i]) == Err(r.fault) &&
        forall j :: 0 <= j < i ==> ParamExpression(u, es, exprs, ps[j]).Ok?
    decreases |ps|
  {
    if |ps| == 0 then Ok([])
    else
      var head := ParamExpression(u, es, exprs, ps[0]);
      if head.Err? then Err(head.fault)
      else
        var rest := ParamExpressions(u, es, exprs, ps[1..]);
        if rest.Err? then
          assert forall j :: 1 <= j < |ps| ==> ps[j] == ps[1..][j - 1];
          Err(rest.fault)
        else
          assert forall j :: 1 <= j < |ps| ==> ps[j] == ps[1..][j - 1];
          assert forall j :: 0 <= j < |ps| - 1 ==> ps[1..][j] == ps[j + 1];
          Ok(head.value + rest.value)
  }

  /** The registrations among `regs` whose ReturnType is `argType`, in order. */
  function Matching(regs: seq<Registration>, argType: Type): (r: seq<Registration>)
    ensures |r| <= |regs|
    ensures forall x :: x in r <==> x in regs && x.returnType == argType
  {
    if |regs| == 0 then []
    else Matching(regs[..|regs| - 1], argType) + (if regs[|regs| - 1].returnType == argType then [regs[|regs| - 1]] else [])
  }

  /** GetParameterExpressionOverride from argument `i` on, `found` being the flag so far:
      each argument contributes the expression of the registrations under its parameter
      type whose ReturnType is the argument's type, the first of them only when
      `firstOnly`.  The flag is never cleared, so only while no argument has matched does
      a miss raise. */
  function OverrideArgs(u: Universe, es: Entries, exprs: map<nat, Plan>, paramTypes: seq<Type>, argTypes: seq<Type>,
                        i: nat, found: bool, firstOnly: bool): (r: Result<seq<Option<Plan>>>)
    decreases |argTypes| - i
  {
    if i >= |argTypes| then Ok([])
    else if i >= |paramTypes| then Err(IndexOutOfRange)
    else
      var matches := Matching(GetAll(es, paramTypes[i]), argTypes[i]);
      var picked := if firstOnly && |matches| > 1 then matches[..1] else matches;
      var found' := found || |picked| > 0;
      if !found' then Err(InvalidOperation("Unable to find type " + u.fullName(paramTypes[i])))
      else
        var rest := OverrideArgs(u, es, exprs, paramTypes, argTypes, i + 1, found', firstOnly);
        if rest.Err? then rest else Ok(ExpressionsOf(picked, exprs) + rest.value)
  }

  /** Once an argument has matched, a later argument without a match raises nothing:
      only a parameter list shorter than the argument list can then fail. */
  lemma {:induction false} FoundIsNeverReset(u: Universe, es: Entries, exprs: map<nat, Plan>, paramTypes: seq<Type>, argTypes: seq<Type>,
                                             i: nat, firstOnly: bool)
    ensures var r := OverrideArgs(u, es, exprs, paramTypes, argTypes, i, true, firstOnly);
      r.Err? ==> r.fault == IndexOutOfRange
    decreases |argTypes| - i
  {
    if i < |argTypes| && i < |paramTypes| {
      FoundIsNeverReset(u, es, exprs, paramTypes, argTypes, i + 1, firstOnly);
    }
  }

  /** With the first match only, each argument contributes at most one expression; with
      a parameter for every argument, one that matches contributes exactly one. */
  lemma {:induction false} FirstMatchOnly(u: Universe, es: Entries, exprs: map<nat, Plan>, paramTypes: seq<Type>, argTypes: seq<Type>,
                                          i: nat, found: bool)
    requires i <= |argTypes| <= |paramTypes|
    requires forall j {:trigger Matching(GetAll(es, paramTypes[j]), argTypes[j])} :: i <= j < |argTypes| ==> |Matching(GetAll(es, paramTypes[j]), argTypes[j])| > 0
    ensures var r := OverrideArgs(u, es, exprs, paramTypes, argTypes, i, found, true);
      r.Ok? && |r.value| == |argTypes| - i
    decreases |argTypes| - i
  {
    if i < |argTypes| {
      var matches := Matching(GetAll(es, paramTypes[i]), argTypes[i]);
      var picked := if |matches| > 1 then matches[..1] else matches;
      assert |picked| == 1;
      FirstMatchOnly(u, es, exprs, paramTypes, argTypes, i + 1, true);
      var rest := OverrideArgs(u, es, exprs, paramTypes, argTypes, i + 1, true, true);
      assert OverrideArgs(u, es, exprs, paramTypes, argTypes, i, found, true) == Ok(ExpressionsOf(picked, exprs) + rest.value);
    }
  }

  /** A miss on the first argument raises, naming its parameter type. */
  lemma {:induction false} FirstMissRaises(u: Universe, es: Entries, exprs: map<nat, Plan>, paramTypes: seq<Type>, argTypes: seq<Type>, firstOnly: bool)
    requires 0 < |argTypes| && 0 < |paramTypes|
    requires |Matching(GetAll(es, paramTypes[0]), argTypes[0])| == 0
    ensures OverrideArgs(u, es, exprs, paramTypes, argTypes, 0, false, firstOnly) ==
      Err(InvalidOperation("Unable to find type " + u.fullName(paramTypes[0])))
  {
  }

  /** CreateBaseExpressionWithOverride: the override's body must be a constructor call;
      a registration whose own constructor takes no parameters calls the body's
      constructor with no arguments. */
  function OverrideBase(u: Universe, es: Entries, exprs: map<nat, Plan>, reg: Registration, firstOnly: bool): (r: Result<Plan>)
    requires reg.overrideBody.Some?
    ensures reg.overrideBody.value.OtherBody? ==> r == Err(InvalidOperation("Expression must have a body"))
    ensures r.Ok? ==>
      reg.overrideBody.value.NewCall? && r.value.New? && r.value.of == reg.overrideBody.value.ctor &&
      |r.value.args| == |reg.overrideBody.value.paramTypes|
    ensures reg.overrideBody.value.NewCall? && |u.params(reg.returnType)| == 0 ==>
      (r.Ok? <==> |reg.overrideBody.value.paramTypes| == 0)
  {
    match reg.overrideBody.value
    case OtherBody => Err(InvalidOperation("Expression must have a body"))
    case NewCall(ctor, paramTypes, argTypes) =>
      if |u.params(reg.returnType)| == 0 then MakeNew(paramTypes, ctor, [])
      else
        var args := OverrideArgs(u, es, exprs, paramTypes, argTypes, 0, false, firstOnly);
        if args.Err? then Err(args.fault) else MakeNew(paramTypes, ctor, args.value)
  }

  /** CreateBaseExpression: a call of the registration's constructor over the
      parameters' expressions. */
  function ConstructorBase(u: Universe, es: Entries, exprs: map<nat, Plan>, reg: Registration): (r: Result<Plan>)
    ensures var ps := u.params(reg.returnType);
      (r.Ok? <==> ParamExpressions(u, es, exprs, ps).Ok? && forall i :: 0 <= i < |ps| ==> Contributes(es, ps[i])) &&
      (r.Ok? ==> r.value.New? && r.value.of == reg.returnType && |r.value.args| == |ps|)
    ensures var ps := u.params(reg.returnType);
      ParamExpressions(u, es, exprs, ps).Ok? && (exists i :: 0 <= i < |ps| && !Contributes(es, ps[i])) ==>
      r == Err(ArgumentMismatch)
  {
    var ps := u.params(reg.returnType);
    if |ps| == 0 then Ok(New(reg.returnType, []))
    else
      var args := ParamExpressions(u, es, exprs, ps);
      if args.Err? then Err(args.fault) else MakeNew(ps, reg.returnType, args.value)
  }

  /** The base expression of a registration: its override's, if it has one, otherwise
      its constructor's. */
  function BaseFor(u: Universe, es: Entries, exprs: map<nat, Plan>, reg: Registration): Result<Plan> {
    if reg.overrideBody.Some? then OverrideBase(u, es, exprs, reg, true) else ConstructorBase(u, es, exprs, reg)
  }

  /** The expression a registration not yet compiled gets (Registration.Expression =
      CreateLifetimeExpression(reg, base)), with the static state it leaves. */
  function Lower(u: Universe, es: Entries, exprs: map<nat, Plan>, reg: Registration, scopeIndex: int, next: nat): (l: Lowered)
    requires -0x8000_0000 <= scopeIndex < 0x8000_0000
    ensures BaseFor(u, es, exprs, reg).Err? ==> l == Lowered(Err(BaseFor(u, es, exprs, reg).fault), scopeIndex, next)
    ensures reg.lifetime == Transient ==> l == Lowered(BaseFor(u, es, exprs, reg), scopeIndex, next)
    ensures l.expression.Ok? && reg.lifetime == Singleton ==> l.expression.value.Constant? && l.scopeIndex == scopeIndex
    ensures l.expression.Ok? && reg.lifetime == Scoped ==>
      l.expression == Ok(ScopedSlot(BaseFor(u, es, exprs, reg).value, scopeIndex)) && l.scopeIndex == Inc32(scopeIndex) && l.next == next
  {
    var base := BaseFor(u, es, exprs, reg);
    if base.Err? then Lowered(Err(base.fault), scopeIndex, next)
    else Lifetimed(reg.lifetime, base.value, false, scopeIndex, next)
  }

  // ---------------------------------------------------------------------------------
  // GetRegistration.

  /** The registration a type resolves to, with the store after it. */
  datatype Found = Found(reg: Registration, entries: Entries, nextId: nat)

  /** GetRegistration(type): the first registration under the type; otherwise, for
      IEnumerable<T> or IList<T>, a new Transient registration to List<T>; otherwise,
      for a closed generic type whose definition is registered, a new registration
      closing the definition's ReturnType over the type's arguments with the
      definition's lifetime.  A new registration is emplaced under the type.  Anything
      else raises. */
  function RegistrationFor(u: Universe, policy: Policy, es: Entries, nextId: nat, t: Type): (r: Result<Found>)
    ensures Get(es, t).Some? ==> r == Ok(Found(Get(es, t).value, es, nextId))
    ensures Get(es, t).None? && t.IsSequence() ==>
      var reg := Registration(nextId, t, Closed(ListDef, t.args), Transient, None, None);
      r == Ok(Found(reg, EmplaceIn(policy, es, t, reg).0, nextId + 1))
    ensures Get(es, t).None? && !t.IsSequence() && t.Closed? && Get(es, t.Definition()).Some? ==>
      var open := Get(es, t.Definition()).value;
      (r.Ok? <==> open.returnType.Open?) &&
      (r.Ok? ==>
         r.value.reg == Registration(nextId, t, Closed(open.returnType.def, t.args), open.lifetime, None, None) &&
         r.value.entries == EmplaceIn(policy, es, t, r.value.reg).0 && r.value.nextId == nextId + 1)
    ensures Get(es, t).None? && !t.IsSequence() && !(t.Closed? && Get(es, t.Definition()).Some?) ==>
      r == Err(InvalidOperation("Please register type:" + u.fullName(t)))
    ensures r.Err? ==> r.fault.InvalidOperation?
  {
    match Get(es, t)
    case Some(reg) => Ok(Found(reg, es, nextId))
    case None =>
      if t.IsSequence() then
        var reg := Registration(nextId, t, Closed(ListDef, t.args), Transient, None, None);
        Ok(Found(reg, EmplaceIn(policy, es, t, reg).0, nextId + 1))
      else if t.Closed? && Get(es, t.Definition()).Some? then
        var open := Get(es, t.Definition()).value;
        match MakeGeneric(open.returnType, t.args)
        case Err(f) => Err(f)
        case Ok(returnType) =>
          var reg := Registration(nextId, t, returnType, open.lifetime, None, None);
          Ok(Found(reg, EmplaceIn(policy, es, t, reg).0, nextId + 1))
      else Err(InvalidOperation("Please register type:" + u.fullName(t)))
  }

  /** Get after appending one pair: the first match stays first. */
  lemma {:induction false} GetAppend(es: Entries, key: Type, reg: Registration, t: Type)
    ensures Get(es + [(key, reg)], t) ==
      if Get(es, t).Some? then Get(es, t) else if key == t then Some(reg) else None
    decreases |es|
  {
    if |es| > 0 {
      assert (es + [(key, reg)])[1..] == es[1..] + [(key, reg)];
      GetAppend(es[1..], key, reg, t);
    }
  }

  /** GetRegistration stores what it synthesises under the type it was asked for, so
      asking again, with identities handed out in increasing order, returns the same
      registration and changes nothing. */
  lemma {:induction false} RegistrationForIsStable(u: Universe, es: Entries, nextId: nat, t: Type)
    requires IdsBelow(es, nextId)
    ensures var r := RegistrationFor(u, ByReference, es, nextId, t);
      r.Ok? ==>
        IdsBelow(r.value.entries, r.value.nextId) && (t, r.value.reg) in r.value.entries &&
        RegistrationFor(u, ByReference, r.value.entries, r.value.nextId, t) == Ok(Found(r.value.reg, r.value.entries, r.value.nextId))
  {
    var r := RegistrationFor(u, ByReference, es, nextId, t);
    if r.Ok? && Get(es, t).None? {
      FreshIsStored(es, t, r.value.reg, nextId);
      GetAppend(es, t, r.value.reg, t);
    }
  }

  /** GetRegistration(type) on the shared store. */
  method GetRegistration(registry: Registry, u: Universe, t: Type) returns (r: Result<Registration>)
    requires registry.Valid()
    modifies registry`entries, registry`nextId
    ensures registry.Valid()
    ensures var f := RegistrationFor(u, registry.policy, old(registry.entries), old(registry.nextId), t);
      (f.Err? ==> r == Err(f.fault) && registry.entries == old(registry.entries) && registry.nextId == old(registry.nextId)) &&
      (f.Ok? ==> r == Ok(f.value.reg) && registry.entries == f.value.entries && registry.nextId == f.value.nextId)
  {
    var found := Get(registry.entries, t);
    if found.Some? {
      return Ok(found.value);
    }
    if t.IsSequence() {
      var reg := registry.NewRegistration(t, Closed(ListDef, t.args), Lifetimes.Transient, None, None);
      var _ := registry.Emplace(t, reg);
      return Ok(reg);
    }
    if t.Closed? {
      var open := Get(registry.entries, t.Definition());
      if open.Some? {
        var returnType := MakeGeneric(open.value.returnType, t.args);
        if returnType.Err? {
          return Err(returnType.fault);
        }
        var reg := registry.NewRegistration(t, returnType.value, open.value.lifetime, None, None);
        var _ := registry.Emplace(t, reg);
        return Ok(reg);
      }
    }
    return Err(InvalidOperation("Please register type:" + u.fullName(t)));
  }

  // ---------------------------------------------------------------------------------
  // GetParameterRegistrations.

  /** A registration the walk emitted, with the store as it is when the consumer receives
      it (the walk is lazy, so this is what the consumer sees). */
  datatype Yield = Yield(reg: Registration, entries: Entries, nextId: nat)

  /** The state of a walk: the store, the cycle-guard stack, what was yielded so far, and
      whether it raised. */
  datatype Walk = Walk(entries: Entries, nextId: nat, stack: seq<Type>, emitted: seq<Yield>, outcome: Result<()>)

  /** GetParameterRegistrations(reg, tracker): push the registered type, walk the
      constructor parameters, pop.  `fuel` bounds the depth of the recursion. */
  function WalkOf(u: Universe, policy: Policy, reg: Registration, w: Walk, fuel: nat): (w': Walk)
    requires w.outcome.Ok?
    decreases fuel, 0
  {
    if fuel == 0 then w.(outcome := Err(OutOfFuel))
    else
      var (stack, pushed) := Push(u.name, w.stack, reg.registeredType);
      if pushed.Err? then w.(stack := stack, outcome := pushed)
      else
        var w1 := WalkParams(u, policy, u.params(reg.returnType), 0, w.(stack := stack), fuel - 1);
        if w1.outcome.Err? then w1
        else
          var (stack', popped) := Pop(w1.stack);
          w1.(stack := stack', outcome := popped)
  }

  /** The loop over the parameters from `i` on. */
  function WalkParams(u: Universe, policy: Policy, ps: seq<Type>, i: nat, w: Walk, fuel: nat): (w': Walk)
    requires i <= |ps| && w.outcome.Ok?
    decreases fuel, 3, |ps| - i
  {
    if i == |ps| then w
    else
      var w1 := WalkParam(u, policy, ps[i], w, fuel);
      if w1.outcome.Err? then w1 else WalkParams(u, policy, ps, i + 1, w1, fuel)
  }

  /** The type a parameter is resolved by: the element type of IEnumerable<T> and
      IList<T>, the parameter type otherwise. */
  function Unwrapped(p: Type): Type {
    if p.IsSequence() then p.Element() else p
  }

  /** One parameter.  A generic type whose definition is registered gets a new closed
      registration; any other type has its registrations walked and yielded in order. */
  function WalkParam(u: Universe, policy: Policy, p: Type, w: Walk, fuel: nat): (w': Walk)
    requires w.outcome.Ok?
    decreases fuel, 2
  {
    var t := Unwrapped(p);
    if t.IsGeneric() && Get(w.entries, t.Definition()).Some? then WalkClosed(u, policy, t, Get(w.entries, t.Definition()).value, w, fuel)
    else WalkEach(u, policy, GetAll(w.entries, t), 0, w, fuel)
  }

  /** The registration closing the definition's registered and return types over the
      arguments of `t`, with the definition's lifetime, is emplaced under `t`, walked,
      then yielded. */
  function WalkClosed(u: Universe, policy: Policy, t: Type, open: Registration, w: Walk, fuel: nat): (w': Walk)
    requires w.outcome.Ok?
    decreases fuel, 1
  {
    var args := t.GenericArguments();
    match MakeGeneric(open.returnType, args)
    case Err(f) => w.(outcome := Err(f))
    case Ok(returnType) =>
      match MakeGeneric(open.registeredType, args)
      case Err(f) => w.(outcome := Err(f))
      case Ok(registeredType) =>
        var reg := Registration(w.nextId, registeredType, returnType, open.lifetime, None, None);
        var w2 := WalkOf(u, policy, reg, w.(entries := EmplaceIn(policy, w.entries, t, reg).0, nextId := w.nextId + 1), fuel);
        if w2.outcome.Err? then w2 else w2.(emitted := w2.emitted + [Yield(reg, w2.entries, w2.nextId)])
  }

  /** `foreach (var reg in GetAll(type))`: walk each registration, then yield it. */
  function WalkEach(u: Universe, policy: Policy, regs: seq<Registration>, j: nat, w: Walk, fuel: nat): (w': Walk)
    requires j <= |regs| && w.outcome.Ok?
    decreases fuel, 1, |regs| - j
  {
    if j == |regs| then w
    else
      var w1 := WalkOf(u, policy, regs[j], w, fuel);
      if w1.outcome.Err? then w1
      else WalkEach(u, policy, regs, j + 1, w1.(emitted := w1.emitted + [Yield(regs[j], w1.entries, w1.nextId)]), fuel)
  }

  /** `a` is a prefix of `b`. */
  ghost predicate Prefix<T>(a: seq<T>, b: seq<T>) {
    |a| <= |b| && b[..|a|] == a
  }

  /** Some registration in the store is RegistrationEqualityComparer-equal to `reg`. */
  ghost predicate SameInStore(es: Entries, reg: Registration) {
    exists i :: 0 <= i < |es| && Same(es[i].1, reg)
  }

  /** `reg` itself is in the store. */
  ghost predicate InStore(es: Entries, reg: Registration) {
    exists i :: 0 <= i < |es| && es[i].1 == reg
  }

  /** What holds of every state of a walk: identities stay below the supply; every
      yielded registration was in the store when it was yielded (itself, for the
      reference-comparing store; an equal one at least, for the comparer-based one);
      and the stores the consumer sees grow from one yield to the next into the current
      store. */
  ghost predicate Sound(policy: Policy, w: Walk) {
    SoundStore(policy, w.entries, w.nextId, w.emitted)
  }

  ghost predicate SoundStore(policy: Policy, es: Entries, nextId: nat, emitted: seq<Yield>) {
    && IdsBelow(es, nextId)
    && (forall k :: 0 <= k < |emitted| ==>
          && Prefix(emitted[k].entries, es) && emitted[k].nextId <= nextId
          && IdsBelow(emitted[k].entries, emitted[k].nextId)
          && SameInStore(emitted[k].entries, emitted[k].reg)
          && (policy == ByReference ==> InStore(emitted[k].entries, emitted[k].reg)))
    && (forall k, l :: 0 <= k <= l < |emitted| ==> Prefix(emitted[k].entries, emitted[l].entries))
  }

  /** `w'` continues `w`: the store and what was yielded only grow. */
  ghost predicate Grows(w: Walk, w': Walk) {
    GrowsStore(w.entries, w.nextId, w.emitted, w'.entries, w'.nextId, w'.emitted)
  }

  ghost predicate GrowsStore(es: Entries, nextId: nat, emitted: seq<Yield>, es': Entries, nextId': nat, emitted': seq<Yield>) {
    Prefix(es, es') && nextId <= nextId' && Prefix(emitted, emitted') &&
    forall k :: |emitted| <= k < |emitted'| ==> Prefix(es, emitted'[k].entries)
  }

  lemma {:induction false} PrefixTrans<T>(a: seq<T>, b: seq<T>, c: seq<T>)
    requires Prefix(a, b) && Prefix(b, c)
    ensures Prefix(a, c)
  {
    assert c[..|a|] == c[..|b|][..|a|];
  }

  /** Grows is transitive. */
  lemma {:induction false} GrowsTrans(a: Walk, b: Walk, c: Walk)
    requires Grows(a, b) && Grows(b, c)
    ensures Grows(a, c)
  {
    PrefixTrans(a.entries, b.entries, c.entries);
    PrefixTrans(a.emitted, b.emitted, c.emitted);
    forall k | |a.emitted| <= k < |c.emitted|
      ensures Prefix(a.entries, c.emitted[k].entries)
    {
      if k < |b.emitted| {
        assert c.emitted[k] == c.emitted[..|b.emitted|][k] == b.emitted[k];
      } else {
        PrefixTrans(a.entries, b.entries, c.emitted[k].entries);
      }
    }
  }

  /** Emplacing keeps a walk sound, and the walk after it continues the one before. */
  lemma {:induction false} EmplaceKeepsSound(policy: Policy, w: Walk, t: Type, reg: Registration)
    requires Sound(policy, w) && reg.id == w.nextId
    ensures var w' := w.(entries := EmplaceIn(policy, w.entries, t, reg).0, nextId := w.nextId + 1);
      Sound(policy, w') && Grows(w, w') &&
      SameInStore(w'.entries, reg) && (policy == ByReference ==> InStore(w'.entries, reg))
  {
    var (es, stored) := EmplaceIn(policy, w.entries, t, reg);
    assert Prefix(w.entries, es) by {
      if stored {
        assert es[..|w.entries|] == w.entries;
      }
    }
    forall k | 0 <= k < |w.emitted|
      ensures Prefix(w.emitted[k].entries, es)
    {
      PrefixTrans(w.emitted[k].entries, w.entries, es);
    }
    if stored {
      assert es[|es| - 1].1 == reg;
    } else {
      ComparerDuplicate(policy, w.entries, t, reg);
    }
  }

  /** A registration refused as a duplicate has an equal one in the store, and the very
      same one when the store compares by reference. */
  lemma {:induction false} ComparerDuplicate(policy: Policy, es: Entries, t: Type, reg: Registration)
    requires Duplicate(policy, es, t, reg)
    ensures SameInStore(es, reg) && (policy == ByReference ==> InStore(es, reg))
  {
    var i :| 0 <= i < |es| && es[i].0 == t && (if policy == ByReference then es[i].1 == reg else Same(es[i].1, reg));
    assert Same(es[i].1, reg);
  }

  /** Yielding a registration that is in the store keeps a walk sound. */
  lemma {:induction false} YieldKeepsSound(policy: Policy, w: Walk, reg: Registration)
    requires Sound(policy, w)
    requires SameInStore(w.entries, reg) && (policy == ByReference ==> InStore(w.entries, reg))
    ensures var w' := w.(emitted := w.emitted + [Yield(reg, w.entries, w.nextId)]);
      Sound(policy, w') && Grows(w, w')
  {
    var w' := w.(emitted := w.emitted + [Yield(reg, w.entries, w.nextId)]);
    assert w'.emitted[..|w.emitted|] == w.emitted;
    assert Prefix(w.entries, w.entries);
    forall k, l | 0 <= k <= l < |w'.emitted|
      ensures Prefix(w'.emitted[k].entries, w'.emitted[l].entries)
    {
      if l == |w.emitted| && k < l {
        assert w'.emitted[k] == w.emitted[k];
      }
    }
  }

  /** A walk keeps its invariant and only grows, and one that does not raise leaves the
      cycle-guard stack as it found it. */
  lemma {:induction false} WalkOfSound(u: Universe, policy: Policy, reg: Registration, w: Walk, fuel: nat)
    requires w.outcome.Ok? && Sound(policy, w)
    ensures var w' := WalkOf(u, policy, reg, w, fuel);
      Sound(policy, w') && Grows(w, w') && (w'.outcome.Ok? ==> w'.stack == w.stack)
    decreases fuel, 0
  {
    assert Prefix(w.entries, w.entries) && Prefix(w.emitted, w.emitted);
    if fuel > 0 {
      var (stack, pushed) := Push(u.name, w.stack, reg.registeredType);
      if pushed.Ok? {
        var w0 := w.(stack := stack);
        WalkParamsSound(u, policy, u.params(reg.returnType), 0, w0, fuel - 1);
        var w1 := WalkParams(u, policy, u.params(reg.returnType), 0, w0, fuel - 1);
        if w1.outcome.Ok? {
          assert w1.stack == w.stack + [reg.registeredType];
          assert w1.stack[..|w1.stack| - 1] == w.stack;
        }
      }
    }
  }

  lemma {:induction false} WalkParamsSound(u: Universe, policy: Policy, ps: seq<Type>, i: nat, w: Walk, fuel: nat)
    requires i <= |ps| && w.outcome.Ok? && Sound(policy, w)
    ensures var w' := WalkParams(u, policy, ps, i, w, fuel);
      Sound(policy, w') && Grows(w, w') && (w'.outcome.Ok? ==> w'.stack == w.stack)
    decreases fuel, 3, |ps| - i
  {
    assert Prefix(w.entries, w.entries) && Prefix(w.emitted, w.emitted);
    if i < |ps| {
      WalkParamSound(u, policy, ps[i], w, fuel);
      var w1 := WalkParam(u, policy, ps[i], w, fuel);
      if w1.outcome.Ok? {
        WalkParamsSound(u, policy, ps, i + 1, w1, fuel);
        GrowsTrans(w, w1, WalkParams(u, policy, ps, i + 1, w1, fuel));
      }
    }
  }

  lemma {:induction false} WalkParamSound(u: Universe, policy: Policy, p: Type, w: Walk, fuel: nat)
    requires w.outcome.Ok? && Sound(policy, w)
    ensures var w' := WalkParam(u, policy, p, w, fuel);
      Sound(policy, w') && Grows(w, w') && (w'.outcome.Ok? ==> w'.stack == w.stack)
    decreases fuel, 2
  {
    var t := Unwrapped(p);
    if t.IsGeneric() && Get(w.entries, t.Definition()).Some? {
      WalkClosedSound(u, policy, t, Get(w.entries, t.Definition()).value, w, fuel);
    } else {
      GetAllInStore(w.entries, t);
      WalkEachSound(u, policy, GetAll(w.entries, t), 0, w, fuel);
    }
  }

  lemma {:induction false} WalkClosedSound(u: Universe, policy: Policy, t: Type, open: Registration, w: Walk, fuel: nat)
    requires w.outcome.Ok? && Sound(policy, w)
    ensures var w' := WalkClosed(u, policy, t, open, w, fuel);
      Sound(policy, w') && Grows(w, w') && (w'.outcome.Ok? ==> w'.stack == w.stack)
    decreases fuel, 1
  {
    assert Prefix(w.entries, w.entries) && Prefix(w.emitted, w.emitted);
    var args := t.GenericArguments();
    if MakeGeneric(open.returnType, args).Ok? && MakeGeneric(open.registeredType, args).Ok? {
      var reg := Registration(w.nextId, MakeGeneric(open.registeredType, args).value,
        MakeGeneric(open.returnType, args).value, open.lifetime, None, None);
      var w0 := w.(entries := EmplaceIn(policy, w.entries, t, reg).0, nextId := w.nextId + 1);
      EmplaceKeepsSound(policy, w, t, reg);
      WalkOfSound(u, policy, reg, w0, fuel);
      var w2 := WalkOf(u, policy, reg, w0, fuel);
      GrowsTrans(w, w0, w2);
      if w2.outcome.Ok? {
        InStoreGrows(policy, w0.entries, w2.entries, reg);
        YieldKeepsSound(policy, w2, reg);
        GrowsTrans(w, w2, w2.(emitted := w2.emitted + [Yield(reg, w2.entries, w2.nextId)]));
      }
    }
  }

  lemma {:induction false} WalkEachSound(u: Universe, policy: Policy, regs: seq<Registration>, j: nat, w: Walk, fuel: nat)
    requires j <= |regs| && w.outcome.Ok? && Sound(policy, w)
    requires forall k :: j <= k < |regs| ==> InStore(w.entries, regs[k]) && SameInStore(w.entries, regs[k])
    ensures var w' := WalkEach(u, policy, regs, j, w, fuel);
      Sound(policy, w') && Grows(w, w') && (w'.outcome.Ok? ==> w'.stack == w.stack)
    decreases fuel, 1, |regs| - j
  {
    assert Prefix(w.entries, w.entries) && Prefix(w.emitted, w.emitted);
    if j < |regs| {
      WalkOfSound(u, policy, regs[j], w, fuel);
      var w1 := WalkOf(u, policy, regs[j], w, fuel);
      if w1.outcome.Ok? {
        forall k | j <= k < |regs|
          ensures InStore(w1.entries, regs[k]) && SameInStore(w1.entries, regs[k])
        {
          InStoreGrows(policy, w.entries, w1.entries, regs[k]);
          InStoreGrows(ByReference, w.entries, w1.entries, regs[k]);
        }
        YieldKeepsSound(policy, w1, regs[j]);
        var w2 := w1.(emitted := w1.emitted + [Yield(regs[j], w1.entries, w1.nextId)]);
        GrowsTrans(w, w1, w2);
        WalkEachSound(u, policy, regs, j + 1, w2, fuel);
        GrowsTrans(w, w2, WalkEach(u, policy, regs, j + 1, w2, fuel));
      }
    }
  }

  /** What GetAll returns is in the store. */
  lemma {:induction false} GetAllInStore(es: Entries, t: Type)
    ensures forall k :: 0 <= k < |GetAll(es, t)| ==> InStore(es, GetAll(es, t)[k]) && SameInStore(es, GetAll(es, t)[k])
  {
    var regs := GetAll(es, t);
    forall k | 0 <= k < |regs|
      ensures InStore(es, regs[k]) && SameInStore(es, regs[k])
    {
      assert (t, regs[k]) in es;
      var m :| 0 <= m < |es| && es[m] == (t, regs[k]);
      assert Same(es[m].1, regs[k]);
    }
  }

  /** What is in a store stays in every store it grows into. */
  lemma {:induction false} InStoreGrows(policy: Policy, a: Entries, b: Entries, reg: Registration)
    requires Prefix(a, b)
    requires SameInStore(a, reg) && (policy == ByReference ==> InStore(a, reg))
    ensures SameInStore(b, reg) && (policy == ByReference ==> InStore(b, reg))
  {
    var i :| 0 <= i < |a| && Same(a[i].1, reg);
    assert b[i] == a[i];
    if policy == ByReference {
      var m :| 0 <= m < |a| && a[m].1 == reg;
      assert b[m] == a[m];
    }
  }

  /** Walking a registration whose registered type is already being walked raises the
      cycle exception, which names that type first, and yields nothing more. */
  lemma {:induction false} WalkDetectsCycle(u: Universe, policy: Policy, reg: Registration, w: Walk, fuel: nat)
    requires fuel > 0 && w.outcome.Ok? && reg.registeredType in w.stack
    ensures var w' := WalkOf(u, policy, reg, w, fuel);
      w'.outcome == Err(CycleFault(u.name, w.stack + [reg.registeredType])) &&
      w'.entries == w.entries && w'.emitted == w.emitted &&
      NamesTopFirst(u.name, w'.stack)[0] == u.name(reg.registeredType) &&
      NamesTopFirst(u.name, w'.stack)[1..] == NamesTopFirst(u.name, w.stack)
  {
    CycleMessageStartsWithRepeat(u.name, w.stack, reg.registeredType);
  }

  /** A walk that yields registrations has them all in the store: walking from an empty
      record, everything yielded was stored (itself, when the store compares by
      reference) by the time the consumer received it, and is still stored at the end. */
  lemma {:induction false} WalkYieldsStored(u: Universe, policy: Policy, reg: Registration, es: Entries, nextId: nat, fuel: nat)
    requires IdsBelow(es, nextId)
    ensures var w := WalkOf(u, policy, reg, Walk(es, nextId, [], [], Ok(())), fuel);
      Prefix(es, w.entries) && IdsBelow(w.entries, w.nextId) &&
      (w.outcome.Ok? ==> w.stack == []) &&
      forall k :: 0 <= k < |w.emitted| ==>
        Prefix(w.emitted[k].entries, w.entries) && SameInStore(w.emitted[k].entries, w.emitted[k].reg) &&
        (policy == ByReference ==> InStore(w.entries, w.emitted[k].reg))
  {
    var w0 := Walk(es, nextId, [], [], Ok(()));
    WalkOfSound(u, policy, reg, w0, fuel);
    var w := WalkOf(u, policy, reg, w0, fuel);
    forall k | 0 <= k < |w.emitted| && policy == ByReference
      ensures InStore(w.entries, w.emitted[k].reg)
    {
      InStoreGrows(policy, w.emitted[k].entries, w.entries, w.emitted[k].reg);
    }
  }

  // ---------------------------------------------------------------------------------
  // Compile, up to the delegate cache.

  /** Compile(reg, cache) up to storing the delegate: a registration that has an
      expression compiles to it as it is; otherwise the base expression, the lifetime
      transform (which becomes Registration.Expression) and the disposal wrapper. */
  method CompileExpression(registry: Registry, runtime: Runtime, u: Universe, reg: Registration) returns (r: Result<Plan>)
    requires runtime.Valid()
    modifies registry`expression, runtime`scopeIndex, runtime`nextObject
    modifies if runtime.containerScope == null then {} else {runtime.containerScope}
    ensures runtime.Valid()
    ensures runtime.containerScope != null ==>
      runtime.containerScope.slots == old(runtime.containerScope.slots) &&
      runtime.containerScope.disposed == old(runtime.containerScope.disposed)
    ensures reg.id in old(registry.expression) ==>
      r == Ok(old(registry.expression)[reg.id]) && registry.expression == old(registry.expression) &&
      runtime.scopeIndex == old(runtime.scopeIndex) && runtime.nextObject == old(runtime.nextObject) &&
      (runtime.containerScope != null ==> runtime.containerScope.disposables == old(runtime.containerScope.disposables))
    ensures reg.id !in old(registry.expression) ==>
      var l := Lower(u, registry.entries, old(registry.expression), reg, old(runtime.scopeIndex), old(runtime.nextObject));
      runtime.scopeIndex == l.scopeIndex && runtime.nextObject == l.next &&
      (l.expression.Err? ==>
         r == Err(l.expression.fault) && registry.expression == old(registry.expression) &&
         (runtime.containerScope != null ==> runtime.containerScope.disposables == old(runtime.containerScope.disposables))) &&
      (l.expression.Ok? ==> registry.expression == old(registry.expression)[reg.id := l.expression.value])
    ensures reg.id !in old(registry.expression) && reg.id in registry.expression && !(u.disposable(reg.returnType) && reg.lifetime == Singleton) ==>
      r == Ok(CleanupPlan(reg.lifetime, u.disposable(reg.returnType), registry.expression[reg.id])) &&
      (runtime.containerScope != null ==> runtime.containerScope.disposables == old(runtime.containerScope.disposables))
    ensures reg.id !in old(registry.expression) && reg.id in registry.expression && u.disposable(reg.returnType) && reg.lifetime == Singleton ==>
      registry.expression[reg.id].Constant? &&
      if runtime.containerScope == null || old(runtime.containerScope.disposables).None? then r == Err(NullReference)
      else
        r == Ok(registry.expression[reg.id]) &&
        runtime.containerScope.disposables == Some(old(runtime.containerScope.disposables).value + [registry.expression[reg.id].value])
  {
    if reg.id in registry.expression {
      return Ok(registry.expression[reg.id]);
    }
    var base := BaseFor(u, registry.entries, registry.expression, reg);
    if base.Err? {
      return Err(base.fault);
    }
    var lifetimed := CreateLifetimeExpression(runtime, reg.lifetime, base.value, false);
    if lifetimed.Err? {
      return lifetimed;
    }
    registry.expression := registry.expression[reg.id := lifetimed.value];
    r := AddCleanup(runtime, u, reg, lifetimed.value);
  }

  // ---------------------------------------------------------------------------------
  // What a compiler has done: expressions assigned and delegates cached.

  /** Every expression in `a` is in `b`, unchanged. */
  ghost predicate Extends(a: map<nat, Plan>, b: map<nat, Plan>) {
    forall id :: id in a ==> id in b && b[id] == a[id]
  }

  lemma {:induction false} ExtendsTrans(a: map<nat, Plan>, b: map<nat, Plan>, c: map<nat, Plan>)
    requires Extends(a, b) && Extends(b, c)
    ensures Extends(a, c)
  {
  }

  /** The first `k` yielded registrations have an expression, and a delegate in the
      cache under their registered type. */
  ghost predicate AllCompiled(emitted: seq<Yield>, k: nat, exprs: map<nat, Plan>, c: multiset<MultiMaps.Entry<Type, Plan>>)
    requires k <= |emitted|
  {
    forall m :: 0 <= m < k ==> emitted[m].reg.id in exprs && Cached(c, emitted[m].reg.registeredType)
  }

  lemma {:induction false} AllCompiledGrows(emitted: seq<Yield>, k: nat, exprs: map<nat, Plan>, exprs': map<nat, Plan>,
                                            c: multiset<MultiMaps.Entry<Type, Plan>>, c': multiset<MultiMaps.Entry<Type, Plan>>)
    requires k <= |emitted| && AllCompiled(emitted, k, exprs, c) && Extends(exprs, exprs') && c <= c'
    ensures AllCompiled(emitted, k, exprs', c')
  {
    forall m | 0 <= m < k
      ensures emitted[m].reg.id in exprs' && Cached(c', emitted[m].reg.registeredType)
    {
      CachedGrows(c, c', emitted[m].reg.registeredType);
    }
  }

  lemma {:induction false} AllCompiledStep(emitted: seq<Yield>, k: nat, exprs: map<nat, Plan>, exprs': map<nat, Plan>,
                                           c: multiset<MultiMaps.Entry<Type, Plan>>, c': multiset<MultiMaps.Entry<Type, Plan>>)
    requires k < |emitted| && AllCompiled(emitted, k, exprs, c) && Extends(exprs, exprs') && c <= c'
    requires emitted[k].reg.id in exprs' && Cached(c', emitted[k].reg.registeredType)
    ensures AllCompiled(emitted, k + 1, exprs', c')
  {
    AllCompiledGrows(emitted, k, exprs, exprs', c, c');
  }

  /** The identities of the first `k` yielded registrations. */
  ghost function YieldIds(emitted: seq<Yield>, k: nat): set<nat>
    requires k <= |emitted|
  {
    set m | 0 <= m < k :: emitted[m].reg.id
  }

  lemma {:induction false} YieldIdsStep(emitted: seq<Yield>, k: nat)
    requires k < |emitted|
    ensures YieldIds(emitted, k + 1) == YieldIds(emitted, k) + {emitted[k].reg.id}
  {
    assert emitted[k].reg.id in YieldIds(emitted, k + 1);
  }

  /** Every expression in `exprs` was there in `exprs0` or belongs to one of the first
      `k` yields. */
  ghost predicate KeysWithin(exprs: map<nat, Plan>, exprs0: map<nat, Plan>, emitted: seq<Yield>, k: nat)
    requires k <= |emitted|
  {
    exprs.Keys <= exprs0.Keys + YieldIds(emitted, k)
  }

  /** Compiling the k-th yield adds at most its own identity. */
  lemma {:induction false} KeysWithinStep(exprs: map<nat, Plan>, exprs': map<nat, Plan>, exprs0: map<nat, Plan>, emitted: seq<Yield>, k: nat)
    requires k < |emitted| && KeysWithin(exprs, exprs0, emitted, k)
    requires exprs'.Keys <= exprs.Keys + {emitted[k].reg.id}
    ensures KeysWithin(exprs', exprs0, emitted, k + 1)
  {
    YieldIdsStep(emitted, k);
  }

  /** Once the yields are compiled, each of their identities has an expression. */
  lemma {:induction false} AllCompiledIds(emitted: seq<Yield>, k: nat, exprs: map<nat, Plan>, c: multiset<MultiMaps.Entry<Type, Plan>>)
    requires k <= |emitted| && AllCompiled(emitted, k, exprs, c)
    ensures YieldIds(emitted, k) <= exprs.Keys
  {
    forall id | id in YieldIds(emitted, k)
      ensures id in exprs
    {
      var m :| 0 <= m < k && emitted[m].reg.id == id;
    }
  }

  /** The delegate Create returns for its root, `exprs0` being the expressions when
      Create began and `exprs` those it leaves: the root's expression as it is when the
      root had one already or was itself among the yields, otherwise that expression
      with its disposal wrapper. */
  ghost function RootDelegate(u: Universe, root: Registration, exprs0: map<nat, Plan>, emitted: seq<Yield>, exprs: map<nat, Plan>): Plan
    requires root.id in exprs
  {
    if root.id in exprs0 || root.id in YieldIds(emitted, |emitted|) then exprs[root.id]
    else CleanupPlan(root.lifetime, u.disposable(root.returnType), exprs[root.id])
  }

  /** The delegate Compile gives the root, `mid` being the expressions once the yields
      are compiled, is RootDelegate. */
  lemma {:induction false} RootDelegateOf(u: Universe, root: Registration, exprs0: map<nat, Plan>, emitted: seq<Yield>,
                                          mid: map<nat, Plan>, exprs: map<nat, Plan>, c: multiset<MultiMaps.Entry<Type, Plan>>)
    requires Extends(exprs0, mid) && Extends(mid, exprs) && root.id in exprs
    requires AllCompiled(emitted, |emitted|, mid, c)
    requires KeysWithin(mid, exprs0, emitted, |emitted|)
    ensures Delegate(u, root, mid, exprs) == RootDelegate(u, root, exprs0, emitted, exprs)
  {
    AllCompiledIds(emitted, |emitted|, mid, c);
  }

  /** The cache holds a delegate under `key`. */
  ghost predicate Cached(c: multiset<MultiMaps.Entry<Type, Plan>>, key: Type) {
    exists v :: MultiMaps.Entry(key, v) in c
  }

  lemma {:induction false} CachedGrows(before: multiset<MultiMaps.Entry<Type, Plan>>, after: multiset<MultiMaps.Entry<Type, Plan>>, key: Type)
    requires before <= after && Cached(before, key)
    ensures Cached(after, key)
  {
    var v :| MultiMaps.Entry(key, v) in before;
    assert before[MultiMaps.Entry(key, v)] <= after[MultiMaps.Entry(key, v)];
  }

  /** The walk Create consumes: from the store as it is once the root registration is
      known, with an empty cycle guard. */
  function RootWalk(u: Universe, policy: Policy, root: Registration, es: Entries, nextId: nat, depth: nat): Walk {
    WalkOf(u, policy, root, Walk(es, nextId, [], [], Ok(())), depth)
  }

  /** Identities stay below the supply in the store the walk leaves and in every
      snapshot it yields. */
  lemma {:induction false} RootWalkIds(u: Universe, policy: Policy, root: Registration, es: Entries, nextId: nat, depth: nat)
    requires IdsBelow(es, nextId)
    ensures var w := RootWalk(u, policy, root, es, nextId, depth);
      IdsBelow(w.entries, w.nextId) &&
      forall k :: 0 <= k < |w.emitted| ==> IdsBelow(w.emitted[k].entries, w.emitted[k].nextId)
  {
    WalkOfSound(u, policy, root, Walk(es, nextId, [], [], Ok(())), depth);
  }

  /** The delegate Compile stores for a registration, given its expression before and
      after: the cached expression as it is, or the new one with its disposal wrapper. */
  function Delegate(u: Universe, reg: Registration, before: map<nat, Plan>, after: map<nat, Plan>): Plan
    requires reg.id in after
  {
    if reg.id in before then before[reg.id] else CleanupPlan(reg.lifetime, u.disposable(reg.returnType), after[reg.id])
  }

  /** What Create, of ExpressionGenerator or of ExpressionFactory, has done once it
      succeeds for `root` with delegate `d`, the store being `es` and `nextId` and the
      expressions `exprs0` when the walk started: the store is the one the walk left,
      the root and everything the walk yielded have an expression and a cached
      delegate, and `d` is the root's delegate. */
  ghost predicate Created(u: Universe, policy: Policy, depth: nat, root: Registration, es: Entries, nextId: nat, exprs0: map<nat, Plan>,
                          es': Entries, nextId': nat, exprs: map<nat, Plan>, c: multiset<MultiMaps.Entry<Type, Plan>>, d: Plan)
  {
    var w := RootWalk(u, policy, root, es, nextId, depth);
    && w.outcome.Ok? && es' == w.entries && nextId' == w.nextId
    && AllCompiled(w.emitted, |w.emitted|, exprs, c)
    && root.id in exprs && Cached(c, root.registeredType)
    && d == RootDelegate(u, root, exprs0, w.emitted, exprs)
  }
}
