/**
 * DependencyResolver, the older compiler: it resolves a type to a delegate through the
 * DelegateCache (a MultiMap of delegates that raises rather than resizing at the PSL
 * limit), and compiles a registration by walking its constructor parameters depth
 * first, compiling every registration the walk yields as soon as it is yielded.
 *
 * Unlike ExpressionGenerator, its GetParameterExpressions synthesises and stores closed
 * generic registrations while it builds a constructor call, so the store the walk reads
 * changes under it as the compile steps run: the walk and the compile loop are one
 * recursive method here, over the same shared state as the other compilers.
 */
module DependencyResolvers {
  import opened Wrappers
  import opened Types
  import opened Lifetimes
  import opened Registrations
  import opened Plans
  import opened Scopes
  import opened Registries
  import opened CircularReferences
  import opened Lifecycles
  import opened Compilers
  import opened MultiMaps
  import Bits

  /** The delegate `_ => null` CreateDelegate returns for an unregistered type. */
  const NullDelegate := Constant(Null)

  /** What building an expression yields, or the exception, with the store after it. */
  datatype Built<T> = Built(result: Result<T>, entries: Entries, nextId: nat)

  /** The store after a build continues the one before: it only grows, and identities
      stay below the supply. */
  ghost predicate Continues(es: Entries, nextId: nat, es': Entries, nextId': nat) {
    Prefix(es, es') && nextId <= nextId' && (IdsBelow(es, nextId) ==> IdsBelow(es', nextId'))
  }

  lemma {:induction false} ContinuesTrans(es: Entries, n: nat, es1: Entries, n1: nat, es2: Entries, n2: nat)
    requires Continues(es, n, es1, n1) && Continues(es1, n1, es2, n2)
    ensures Continues(es, n, es2, n2)
  {
    PrefixTrans(es, es1, es2);
  }

  lemma {:induction false} ContinuesRefl(es: Entries, n: nat)
    ensures Continues(es, n, es, n)
  {
    assert es[..|es|] == es;
  }

  /** Storing a registration created with the next identity continues the store. */
  lemma {:induction false} ContinuesByFresh(policy: Policy, es: Entries, n: nat, key: Type, reg: Registration)
    requires reg.id == n
    ensures Continues(es, n, EmplaceIn(policy, es, key, reg).0, n + 1)
  {
    var es' := EmplaceIn(policy, es, key, reg).0;
    assert es'[..|es|] == es;
  }

  /** New(reg.Constructor, GetParameterExpressions(parameters)): a constructor without
      parameters needs nothing more; otherwise one expression per parameter, built with
      one level less of fuel. */
  function NewOf(u: Universe, policy: Policy, es: Entries, nextId: nat, exprs: map<nat, Plan>, reg: Registration, fuel: nat): (b: Built<Plan>)
    ensures Continues(es, nextId, b.entries, b.nextId)
    ensures b.result.Ok? ==>
      b.result.value.New? && b.result.value.of == reg.returnType &&
      |b.result.value.args| == |u.params(reg.returnType)|
    decreases fuel, 0
  {
    var ps := u.params(reg.returnType);
    if |ps| == 0 then
      ContinuesRefl(es, nextId);
      Built(Ok(New(reg.returnType, [])), es, nextId)
    else if fuel == 0 then
      ContinuesRefl(es, nextId);
      Built(Err(OutOfFuel), es, nextId)
    else
      var a := ArgsFrom(u, policy, es, nextId, exprs, ps, 0, fuel - 1);
      if a.result.Err? then Built(Err(a.result.fault), a.entries, a.nextId)
      else Built(MakeNew(ps, reg.returnType, a.result.value), a.entries, a.nextId)
  }

  /** GetParameterExpressions from parameter `i` on: the expressions in order, or the
      first exception. */
  function ArgsFrom(u: Universe, policy: Policy, es: Entries, nextId: nat, exprs: map<nat, Plan>, ps: seq<Type>, i: nat, fuel: nat): (b: Built<seq<Option<Plan>>>)
    requires i <= |ps|
    ensures Continues(es, nextId, b.entries, b.nextId)
    ensures b.result.Ok? ==> |b.result.value| == |ps| - i
    decreases fuel, 3, |ps| - i
  {
    if i == |ps| then
      ContinuesRefl(es, nextId);
      Built(Ok([]), es, nextId)
    else
      var a := ArgFor(u, policy, es, nextId, exprs, ps[i], fuel);
      if a.result.Err? then Built(Err(a.result.fault), a.entries, a.nextId)
      else
        var rest := ArgsFrom(u, policy, a.entries, a.nextId, exprs, ps, i + 1, fuel);
        ContinuesTrans(es, nextId, a.entries, a.nextId, rest.entries, rest.nextId);
        if rest.result.Err? then rest
        else Built(Ok([a.result.value] + rest.result.value), rest.entries, rest.nextId)
  }

  /** The expression of one parameter of type `p`, None standing for a null one.  A
      non-generic type must have a registration, and the registration an expression.  A
      generic type uses its registration's expression if it has one; IEnumerable<T>
      becomes an array of the expressions of every registration of T; any other generic
      type is built inline from the registration of the type closed over its arguments,
      or from a closed registration synthesised from its definition's and stored, and is
      null when the definition is not registered either. */
  function ArgFor(u: Universe, policy: Policy, es: Entries, nextId: nat, exprs: map<nat, Plan>, p: Type, fuel: nat): (b: Built<Option<Plan>>)
    ensures Continues(es, nextId, b.entries, b.nextId)
    ensures !p.IsGeneric() ==> b.entries == es && b.nextId == nextId
    ensures !p.IsGeneric() && Get(es, p).None? ==> b.result == Err(InvalidOperation(u.fullName(p) + " not registered"))
    ensures Get(es, p).Some? && Get(es, p).value.id !in exprs && !p.IsGeneric() ==>
      b.result == Err(InvalidOperation(u.fullName(Get(es, p).value.registeredType) + " expression not resolved"))
    ensures Get(es, p).Some? && Get(es, p).value.id in exprs ==>
      b.result == Ok(Some(exprs[Get(es, p).value.id])) && b.entries == es && b.nextId == nextId
    decreases fuel, 2
  {
    var registration := Get(es, p);
    if !p.IsGeneric() then
      ContinuesRefl(es, nextId);
      if registration.None? then Built(Err(InvalidOperation(u.fullName(p) + " not registered")), es, nextId)
      else if registration.value.id !in exprs then
        Built(Err(InvalidOperation(u.fullName(registration.value.registeredType) + " expression not resolved")), es, nextId)
      else Built(Ok(Some(exprs[registration.value.id])), es, nextId)
    else if registration.Some? && registration.value.id in exprs then
      ContinuesRefl(es, nextId);
      Built(Ok(Some(exprs[registration.value.id])), es, nextId)
    else if p.def == EnumerableDef then
      ContinuesRefl(es, nextId);
      var args := p.GenericArguments();
      if |args| == 0 then Built(Err(IndexOutOfRange), es, nextId)
      else
        var a := MakeArray(args[0], ExpressionsOf(GetAll(es, args[0]), exprs));
        Built(if a.Err? then Err(a.fault) else Ok(Some(a.value)), es, nextId)
    else
      ClosedArg(u, policy, es, nextId, exprs, p.Definition(), p.GenericArguments(), fuel)
  }

  /** The expressions of the first registrations of the given types, one per type. */
  function FirstExpressions(es: Entries, exprs: map<nat, Plan>, ps: seq<Type>): (r: seq<Option<Plan>>)
    requires forall k :: 0 <= k < |ps| ==> Get(es, ps[k]).Some? && Get(es, ps[k]).value.id in exprs
    ensures |r| == |ps|
    ensures forall k :: 0 <= k < |ps| ==> r[k] == Some(exprs[Get(es, ps[k]).value.id])
  {
    if |ps| == 0 then [] else [Some(exprs[Get(es, ps[0]).value.id])] + FirstExpressions(es, exprs, ps[1..])
  }

  /** Parameters of non-generic types whose first registrations all have expressions
      become those expressions, in order, and the store is left as it is. */
  lemma {:induction false} ArgsResolved(u: Universe, policy: Policy, es: Entries, nextId: nat, exprs: map<nat, Plan>, ps: seq<Type>, i: nat, fuel: nat)
    requires i <= |ps|
    requires forall k :: i <= k < |ps| ==> !ps[k].IsGeneric() && Get(es, ps[k]).Some? && Get(es, ps[k]).value.id in exprs
    ensures ArgsFrom(u, policy, es, nextId, exprs, ps, i, fuel) == Built(Ok(FirstExpressions(es, exprs, ps[i..])), es, nextId)
    decreases |ps| - i
  {
    if i < |ps| {
      ArgsResolved(u, policy, es, nextId, exprs, ps, i + 1, fuel);
      assert ps[i..][1..] == ps[i + 1..];
    }
  }

  /** A constructor whose parameters are all of resolved non-generic types becomes
      New(constructor, the first registrations' expressions), and the store is left as
      it is. */
  lemma {:induction false} NewOfResolved(u: Universe, policy: Policy, es: Entries, nextId: nat, exprs: map<nat, Plan>, reg: Registration, fuel: nat)
    requires fuel > 0
    requires var ps := u.params(reg.returnType);
      forall k :: 0 <= k < |ps| ==> !ps[k].IsGeneric() && Get(es, ps[k]).Some? && Get(es, ps[k]).value.id in exprs
    ensures var b := NewOf(u, policy, es, nextId, exprs, reg, fuel); var ps := u.params(reg.returnType);
      b.entries == es && b.nextId == nextId && b.result.Ok? &&
      b.result.value.New? && b.result.value.of == reg.returnType && |b.result.value.args| == |ps| &&
      forall k :: 0 <= k < |ps| ==> b.result.value.args[k] == exprs[Get(es, ps[k]).value.id]
  {
    var ps := u.params(reg.returnType);
    if |ps| > 0 {
      ArgsResolved(u, policy, es, nextId, exprs, ps, 0, fuel - 1);
      assert ps[0..] == ps;
      var args := FirstExpressions(es, exprs, ps);
      var m := MakeNew(ps, reg.returnType, args);
      assert NewOf(u, policy, es, nextId, exprs, reg, fuel) == Built(m, es, nextId);
      assert forall k :: 0 <= k < |args| ==> args[k].Some?;
      forall k | 0 <= k < |ps|
        ensures m.value.args[k] == exprs[Get(es, ps[k]).value.id]
      {
        assert args[k] == Some(exprs[Get(es, ps[k]).value.id]);
      }
    }
  }

  /** The first parameter of a non-generic type without a registration, after
      parameters that all resolve, raises "<type> not registered". */
  lemma {:induction false} ArgsUnregistered(u: Universe, policy: Policy, es: Entries, nextId: nat, exprs: map<nat, Plan>, ps: seq<Type>, i: nat, m: nat, fuel: nat)
    requires i <= m < |ps|
    requires forall k :: i <= k < m ==> !ps[k].IsGeneric() && Get(es, ps[k]).Some? && Get(es, ps[k]).value.id in exprs
    requires !ps[m].IsGeneric() && Get(es, ps[m]).None?
    ensures ArgsFrom(u, policy, es, nextId, exprs, ps, i, fuel) == Built(Err(InvalidOperation(u.fullName(ps[m]) + " not registered")), es, nextId)
    decreases m - i
  {
    var a := ArgFor(u, policy, es, nextId, exprs, ps[i], fuel);
    if i < m {
      assert a == Built(Ok(Some(exprs[Get(es, ps[i]).value.id])), es, nextId);
      ArgsUnregistered(u, policy, es, nextId, exprs, ps, i + 1, m, fuel);
    } else {
      assert a.result.Err? && a.entries == es && a.nextId == nextId;
    }
  }

  /** The inline build of a generic parameter whose definition is `def` and arguments
      `args`: the registration of def<args> if there is one; otherwise a registration
      closing the definition's registration over `args`, stored under its registered
      type; otherwise null. */
  function ClosedArg(u: Universe, policy: Policy, es: Entries, nextId: nat, exprs: map<nat, Plan>, def: Type, args: seq<Type>, fuel: nat): (b: Built<Option<Plan>>)
    requires def.Open?
    ensures Continues(es, nextId, b.entries, b.nextId)
    ensures Get(es, Closed(def.def, args)).None? && Get(es, def).None? ==>
      b == Built(Ok(None), es, nextId)
    ensures Get(es, Closed(def.def, args)).None? && Get(es, def).Some? && b.result.Ok? ==>
      var open := Get(es, def).value;
      open.registeredType.Open? && open.returnType.Open? &&
      var reg := Registration(nextId, Closed(open.registeredType.def, args), Closed(open.returnType.def, args), open.lifetime, None, None);
      Prefix(EmplaceIn(policy, es, reg.registeredType, reg).0, b.entries)
    decreases fuel, 1
  {
    match Get(es, Closed(def.def, args))
    case Some(genericType) =>
      var n := NewOf(u, policy, es, nextId, exprs, genericType, fuel);
      Built(if n.result.Err? then Err(n.result.fault) else Ok(Some(n.result.value)), n.entries, n.nextId)
    case None =>
      match Get(es, def)
      case None =>
        ContinuesRefl(es, nextId);
        Built(Ok(None), es, nextId)
      case Some(open) =>
        match MakeGeneric(open.registeredType, args)
        case Err(f) =>
          ContinuesRefl(es, nextId);
          Built(Err(f), es, nextId)
        case Ok(registeredType) =>
          match MakeGeneric(open.returnType, args)
          case Err(f) =>
            ContinuesRefl(es, nextId);
            Built(Err(f), es, nextId)
          case Ok(returnType) =>
            var reg := Registration(nextId, registeredType, returnType, open.lifetime, None, None);
            var es1 := EmplaceIn(policy, es, registeredType, reg).0;
            ContinuesByFresh(policy, es, nextId, registeredType, reg);
            var n := NewOf(u, policy, es1, nextId + 1, exprs, reg, fuel);
            ContinuesTrans(es, nextId, es1, nextId + 1, n.entries, n.nextId);
            Built(if n.result.Err? then Err(n.result.fault) else Ok(Some(n.result.value)), n.entries, n.nextId)
  }

  /** The base expression of a registration not yet compiled: its override's, where the
      override's argument matching keeps every match, or its constructor call. */
  function BaseOf(u: Universe, policy: Policy, es: Entries, nextId: nat, exprs: map<nat, Plan>, reg: Registration, fuel: nat): (b: Built<Plan>)
    ensures Continues(es, nextId, b.entries, b.nextId)
    ensures reg.overrideBody.Some? ==> b == Built(OverrideBase(u, es, exprs, reg, false), es, nextId)
    ensures reg.overrideBody.None? && b.result.Ok? ==>
      b.result.value.New? && b.result.value.of == reg.returnType && |b.result.value.args| == |u.params(reg.returnType)|
  {
    if reg.overrideBody.Some? then
      ContinuesRefl(es, nextId);
      Built(OverrideBase(u, es, exprs, reg, false), es, nextId)
    else NewOf(u, policy, es, nextId, exprs, reg, fuel)
  }

  /** The type GetParameterRegistrations walks the registrations of for a parameter of
      type `p`, with the store after deciding it. */
  datatype Target = Target(t: Type, entries: Entries, nextId: nat)

  /** A non-generic type stands for itself, IEnumerable<T> for T; a closed generic type
      whose definition is registered stands for the definition's registered type closed
      over the same arguments, which is given a registration of its own, closing the
      definition's return type likewise, unless one is stored under it; anything else
      stands for itself. */
  function TargetOf(policy: Policy, es: Entries, nextId: nat, p: Type): (r: Result<Target>)
    ensures r.Ok? ==> Continues(es, nextId, r.value.entries, r.value.nextId)
    ensures !p.IsGeneric() ==> r == Ok(Target(p, es, nextId))
    ensures p.IsGeneric() && p.def == EnumerableDef ==>
      r == if |p.GenericArguments()| == 0 then Err(IndexOutOfRange) else Ok(Target(p.GenericArguments()[0], es, nextId))
    ensures p.Closed? && p.def != EnumerableDef && Get(es, p.Definition()).Some? ==>
      var open := Get(es, p.Definition()).value;
      if !open.registeredType.Open? then r.Err?
      else
      var registeredType := Closed(open.registeredType.def, p.args);
      if ContainsKey(es, registeredType) then r == Ok(Target(registeredType, es, nextId))
      else if !open.returnType.Open? then r.Err?
      else
        var reg := Registration(nextId, registeredType, Closed(open.returnType.def, p.args), open.lifetime, None, None);
        r == Ok(Target(registeredType, EmplaceIn(policy, es, registeredType, reg).0, nextId + 1))
    ensures (p.Open? && p.def != EnumerableDef) || (p.Closed? && p.def != EnumerableDef && Get(es, p.Definition()).None?) ==>
      r == Ok(Target(p, es, nextId))
  {
    if !p.IsGeneric() then
      ContinuesRefl(es, nextId);
      Ok(Target(p, es, nextId))
    else if p.def == EnumerableDef then
      ContinuesRefl(es, nextId);
      var args := p.GenericArguments();
      if |args| == 0 then Err(IndexOutOfRange) else Ok(Target(args[0], es, nextId))
    else if p.IsDefinition() then
      ContinuesRefl(es, nextId);
      Ok(Target(p, es, nextId))
    else
      match Get(es, p.Definition())
      case None =>
        ContinuesRefl(es, nextId);
        Ok(Target(p, es, nextId))
      case Some(open) =>
        match MakeGeneric(open.registeredType, p.GenericArguments())
        case Err(f) => Err(f)
        case Ok(registeredType) =>
          if ContainsKey(es, registeredType) then
            ContinuesRefl(es, nextId);
            Ok(Target(registeredType, es, nextId))
          else
            match MakeGeneric(open.returnType, p.GenericArguments())
            case Err(f) => Err(f)
            case Ok(returnType) =>
              var reg := Registration(nextId, registeredType, returnType, open.lifetime, None, None);
              ContinuesByFresh(policy, es, nextId, registeredType, reg);
              Ok(Target(registeredType, EmplaceIn(policy, es, registeredType, reg).0, nextId + 1))
  }

  /** Every one of `regs` has an expression. */
  ghost predicate Compiled(regs: seq<Registration>, exprs: map<nat, Plan>) {
    forall j :: 0 <= j < |regs| ==> regs[j].id in exprs
  }

  /** The first `j` of `regs` have an expression. */
  ghost predicate CompiledUpTo(regs: seq<Registration>, j: nat, exprs: map<nat, Plan>)
    requires j <= |regs|
  {
    forall k :: 0 <= k < j ==> regs[k].id in exprs
  }

  lemma {:induction false} CompiledStep(regs: seq<Registration>, j: nat, exprs: map<nat, Plan>, exprs': map<nat, Plan>)
    requires j < |regs| && CompiledUpTo(regs, j, exprs) && Extends(exprs, exprs') && regs[j].id in exprs'
    ensures CompiledUpTo(regs, j + 1, exprs')
  {
  }

  /** The registrations Compile handles, in the order it handles them, when each entry
      of `orders` is the run of one walk in turn. */
  ghost function Flatten(orders: seq<seq<Registration>>): seq<Registration> {
    if |orders| == 0 then [] else Flatten(orders[..|orders| - 1]) + orders[|orders| - 1]
  }

  /** A run of compile steps that ends with `reg`: what the walk yields for `reg`, then
      `reg` itself. */
  ghost predicate EndsWith(order: seq<Registration>, reg: Registration) {
    |order| > 0 && order[|order| - 1] == reg
  }

  /** The k-th run of compile steps is that of the k-th registration: post-order, each
      registration after everything its own walk yielded. */
  ghost predicate PostOrder(regs: seq<Registration>, orders: seq<seq<Registration>>) {
    |orders| == |regs| && forall k :: 0 <= k < |regs| ==> EndsWith(orders[k], regs[k])
  }

  /** The store continues and expressions are only added. */
  ghost predicate Grew(es: Entries, nextId: nat, exprs: map<nat, Plan>, es': Entries, nextId': nat, exprs': map<nat, Plan>) {
    Continues(es, nextId, es', nextId') && Extends(exprs, exprs')
  }

  lemma {:induction false} GrewTrans(es: Entries, n: nat, x: map<nat, Plan>, es1: Entries, n1: nat, x1: map<nat, Plan>,
                                     es2: Entries, n2: nat, x2: map<nat, Plan>)
    requires Grew(es, n, x, es1, n1, x1) && Grew(es1, n1, x1, es2, n2, x2)
    ensures Grew(es, n, x, es2, n2, x2)
  {
    ContinuesTrans(es, n, es1, n1, es2, n2);
    ExtendsTrans(x, x1, x2);
  }

  lemma {:induction false} GrewRefl(es: Entries, n: nat, x: map<nat, Plan>)
    ensures Grew(es, n, x, es, n, x)
  {
    ContinuesRefl(es, n);
  }

  /** NextPow2(256) is 256, so the DelegateCache of 256 slots has the mask 255. */
  lemma {:induction false} DelegateCacheMask()
    ensures Bits.NextPow2(256) == 256
  {
    assert Bits.BitLength(1) == 1 && Bits.BitLength(3) == 2 && Bits.BitLength(7) == 3 && Bits.BitLength(15) == 4;
    assert Bits.BitLength(31) == 5 && Bits.BitLength(63) == 6 && Bits.BitLength(127) == 7 && Bits.BitLength(255) == 8;
    assert Bits.Pow2(8) == 256;
  }

  /** The registry at one moment: the store, the supply of identities, and the
      Expression and Value of each registration by identity. */
  datatype Snapshot = Snapshot(entries: Entries, nextId: nat, expression: map<nat, Plan>, value: map<nat, Plan>)

  /** `d` is what Compile(reg) returns once it succeeds, `s` being the registry it
      leaves: the registration has an expression, and `d` is its delegate, or null
      without one. */
  ghost predicate Yielded(s: Snapshot, reg: Registration, d: Option<Plan>) {
    reg.id in s.expression && d == if reg.id in s.value then Some(s.value[reg.id]) else None
  }

  /** What CreateDelegate(t) does, from registry `s` to registry `s'`: a registration of
      `t` compiles; without one a non-generic type gets the null delegate; a generic one
      gets none when its definition is not registered, and otherwise a registration of
      `t` itself, to the definition's return type closed over t's arguments, is stored
      and compiled. */
  ghost predicate CreatesDelegate(policy: Policy, s: Snapshot, s': Snapshot, t: Type, r: Result<Option<Plan>>) {
    match Get(s.entries, t)
    case Some(reg) => r.Ok? ==> Yielded(s', reg, r.value)
    case None =>
      if !t.IsGeneric() then r == Ok(Some(NullDelegate)) && s'.entries == s.entries
      else match Get(s.entries, t.Definition())
        case None => r == Ok(None) && s'.entries == s.entries
        case Some(open) =>
          match MakeGeneric(open.returnType, t.GenericArguments())
          case Err(f) => r == Err(f) && s'.entries == s.entries
          case Ok(returnType) =>
            var reg := Registration(s.nextId, t, returnType, open.lifetime, None, None);
            Prefix(EmplaceIn(policy, s.entries, t, reg).0, s'.entries) && (r.Ok? ==> Yielded(s', reg, r.value))
  }

  /** CreateDelegate(reg.RegisteredType) for the first |outs| of `regs` in turn, the k-th
      going from registry states[k] to states[k + 1] with outcome outs[k], every one but
      the last succeeding. */
  ghost predicate CreatesDelegates(policy: Policy, regs: seq<Registration>, states: seq<Snapshot>, outs: seq<Result<Option<Plan>>>) {
    && |outs| <= |regs| && |states| == |outs| + 1
    && (forall k :: 0 <= k < |outs| ==> CreatesDelegate(policy, states[k], states[k + 1], regs[k].registeredType, outs[k]))
    && (forall k :: 0 <= k < |outs| - 1 ==> outs[k].Ok?)
  }

  /** One more CreateDelegate after a run of successful ones extends the run. */
  lemma {:induction false} CreatesDelegatesStep(policy: Policy, regs: seq<Registration>, states: seq<Snapshot>, outs: seq<Result<Option<Plan>>>,
                                                s': Snapshot, d: Result<Option<Plan>>)
    requires CreatesDelegates(policy, regs, states, outs) && |outs| < |regs|
    requires forall k :: 0 <= k < |outs| ==> outs[k].Ok?
    requires CreatesDelegate(policy, states[|outs|], s', regs[|outs|].registeredType, d)
    ensures CreatesDelegates(policy, regs, states + [s'], outs + [d])
  {
    var states', outs' := states + [s'], outs + [d];
    forall k | 0 <= k < |outs'|
      ensures CreatesDelegate(policy, states'[k], states'[k + 1], regs[k].registeredType, outs'[k])
    {
      if k < |outs| {
        assert states'[k] == states[k] && states'[k + 1] == states[k + 1] && outs'[k] == outs[k];
      }
    }
  }

  /** `r` is the delegates `cached` followed by the outcomes of a run `outs` of n
      CreateDelegate calls, or the exception that ended the run. */
  ghost predicate Gathered(cached: seq<Plan>, outs: seq<Result<Option<Plan>>>, n: nat, r: Result<seq<Option<Plan>>>) {
    && (r.Ok? ==>
          |outs| == n && |r.value| == |cached| + n &&
          (forall i :: 0 <= i < |cached| ==> r.value[i] == Some(cached[i])) &&
          (forall k :: 0 <= k < n ==> outs[k] == Ok(r.value[|cached| + k])))
    && (r.Err? ==> |outs| > 0 && outs[|outs| - 1] == Err(r.fault))
  }

  /** Putting the cached delegates in front of what CreateDelegates produced. */
  function CachedThenCreated(cached: seq<Plan>, created: Result<seq<Option<Plan>>>): (r: Result<seq<Option<Plan>>>)
    ensures forall outs: seq<Result<Option<Plan>>>, n: nat :: Gathered([], outs, n, created) ==> Gathered(cached, outs, n, r)
  {
    if created.Err? then Err(created.fault)
    else Ok(seq(|cached|, i requires 0 <= i < |cached| => Some(cached[i])) + created.value)
  }

  class DependencyResolver {
    const registry: Registry
    const runtime: Runtime
    const u: Universe
    /** How deep the walk and the inline constructor builds may recurse. */
    const depth: nat
    /** DelegateCache: a MultiMap of delegates keyed by identity, raising at the PSL limit. */
    const cache: MultiMap<Type, Plan>
    /** KeyCache */
    const keyCache: MultiMap<int, Plan>

    /** new DependencyResolver(registrations): a DelegateCache of 256 slots, whose
        maximum PSL is then 127, and a key cache of 32, both with load factor 0.5.  `identity` is RuntimeHelpers.GetHashCode
        and `typeHash` is Type.GetHashCode, which DelegateCache.GetAll uses instead. */
    constructor (registry: Registry, runtime: Runtime, u: Universe, identity: Type -> int, typeHash: Type -> int,
                 intHash: int -> int, depth: nat)
      ensures this.registry == registry && this.runtime == runtime && this.u == u && this.depth == depth
      ensures fresh(cache) && fresh(cache.info) && fresh(cache.entries) && fresh(keyCache)
      ensures cache.Valid() && cache.Placed() && cache.Contents() == multiset{}
      ensures cache.hash == identity && cache.typeHash == typeHash && cache.throwAtPslLimit
      ensures cache.lfNum == 1 && cache.lfDen == 2 && cache.maxlookups == 256 && cache.mask == 255 && cache.maxPsl == 127
      ensures cache.info.Length == cache.entries.Length == 384
      ensures keyCache.Valid() && keyCache.Contents() == multiset{} && keyCache.maxlookups == 32 && !keyCache.throwAtPslLimit
    {
      this.registry := registry;
      this.runtime := runtime;
      this.u := u;
      this.depth := depth;
      DelegateCacheMask();
      cache := new MultiMap(256, 1, 2, identity, typeHash, true);
      keyCache := new MultiMap(32, 1, 2, intHash, intHash, false);
    }

    /** The foreach body of Compile for a registration without an expression, up to
        Registration.Expression: the base expression, which may store synthesised
        registrations, and the lifetime transform, a Singleton being invoked on a null
        scope. */
    method Express(reg: Registration) returns (r: Result<Plan>)
      requires runtime.Valid() && registry.Valid() && reg.id !in registry.expression
      modifies registry`entries, registry`nextId, registry`expression, runtime`scopeIndex, runtime`nextObject
      ensures runtime.Valid() && registry.Valid()
      ensures var b := BaseOf(u, registry.policy, old(registry.entries), old(registry.nextId), old(registry.expression), reg, depth);
        registry.entries == b.entries && registry.nextId == b.nextId &&
        (b.result.Err? ==>
           r == Err(b.result.fault) && registry.expression == old(registry.expression) &&
           runtime.scopeIndex == old(runtime.scopeIndex) && runtime.nextObject == old(runtime.nextObject)) &&
        (b.result.Ok? ==>
           var l := Lifetimed(reg.lifetime, b.result.value, true, old(runtime.scopeIndex), old(runtime.nextObject));
           r == l.expression && runtime.scopeIndex == l.scopeIndex && runtime.nextObject == l.next &&
           registry.expression == if r.Ok? then old(registry.expression)[reg.id := r.value] else old(registry.expression))
    {
      var b := BaseOf(u, registry.policy, registry.entries, registry.nextId, registry.expression, reg, depth);
      if b.result.Err? {
        registry.Adopt(b.entries, b.nextId);
        return Err(b.result.fault);
      }
      r := CreateLifetimeExpression(runtime, reg.lifetime, b.result.value, true);
      registry.entries, registry.nextId, registry.expression :=
        b.entries, b.nextId, if r.Ok? then registry.expression[reg.id := r.value] else registry.expression;
    }

    /** The rest of the foreach body: AddCleanup, then Registration.Value and the
        DelegateCache entry. */
    method Publish(reg: Registration, expression: Plan) returns (r: Result<()>)
      requires runtime.Valid() && cache.Valid()
      modifies registry`value
      modifies if runtime.containerScope == null then {} else {runtime.containerScope}
      modifies cache, cache.info, cache.entries
      ensures runtime.Valid()
      ensures runtime.containerScope != null ==>
        runtime.containerScope.slots == old(runtime.containerScope.slots) &&
        runtime.containerScope.disposed == old(runtime.containerScope.disposed)
      ensures (cache.info == old(cache.info) && cache.entries == old(cache.entries)) || (fresh(cache.info) && fresh(cache.entries))
      ensures !(u.disposable(reg.returnType) && reg.lifetime == Singleton) ==>
        runtime.containerScope != null ==> runtime.containerScope.disposables == old(runtime.containerScope.disposables)
      ensures u.disposable(reg.returnType) && reg.lifetime == Singleton && r.Ok? ==>
        runtime.containerScope != null && old(runtime.containerScope.disposables).Some? && expression.Constant? &&
        runtime.containerScope.disposables == Some(old(runtime.containerScope.disposables).value + [expression.value])
      ensures r.Ok? ==>
        reg.id in registry.value && registry.value == old(registry.value)[reg.id := registry.value[reg.id]] &&
        registry.value[reg.id] == CleanupPlan(reg.lifetime, u.disposable(reg.returnType), expression) &&
        cache.Valid() && old(cache.Contents()) <= cache.Contents() &&
        MultiMaps.Entry(reg.registeredType, registry.value[reg.id]) in cache.Contents()
    {
      var d := AddCleanup(runtime, u, reg, expression);
      if d.Err? {
        return Err(d.fault);
      }
      r := Store(reg, d.value);
    }

    /** reg.Value = delegate; DelegateCache.Emplace(reg.RegisteredType, reg.Value). */
    method Store(reg: Registration, d: Plan) returns (r: Result<()>)
      requires cache.Valid()
      modifies registry`value, cache, cache.info, cache.entries
      ensures (cache.info == old(cache.info) && cache.entries == old(cache.entries)) || (fresh(cache.info) && fresh(cache.entries))
      ensures registry.value == old(registry.value)[reg.id := d]
      ensures r.Ok? ==>
        cache.Valid() && old(cache.Contents()) <= cache.Contents() && MultiMaps.Entry(reg.registeredType, d) in cache.Contents()
      ensures r.Ok? ==>
        cache.Contents() == old(cache.Contents()) || cache.Contents() == old(cache.Contents()) + multiset{MultiMaps.Entry(reg.registeredType, d)}
    {
      registry.value := registry.value[reg.id := d];
      var stored, _ := cache.Emplace(reg.registeredType, d);
      if stored.Err? {
        return Err(stored.fault);
      }
      if stored.value {
        assert MultiMaps.Entry(reg.registeredType, d) in cache.Contents();
      }
      return Ok(());
    }

    /** One turn of Compile's foreach: a registration with an expression is skipped;
        any other gets its expression, its delegate and a DelegateCache entry. */
    method CompileOne(reg: Registration) returns (r: Result<()>)
      requires runtime.Valid() && registry.Valid() && cache.Valid()
      modifies registry`entries, registry`nextId, registry`expression, registry`value, runtime`scopeIndex, runtime`nextObject
      modifies if runtime.containerScope == null then {} else {runtime.containerScope}
      modifies cache, cache.info, cache.entries
      ensures runtime.Valid() && registry.Valid()
      ensures runtime.containerScope != null ==>
        runtime.containerScope.slots == old(runtime.containerScope.slots) &&
        runtime.containerScope.disposed == old(runtime.containerScope.disposed)
      ensures (cache.info == old(cache.info) && cache.entries == old(cache.entries)) || (fresh(cache.info) && fresh(cache.entries))
      ensures Grew(old(registry.entries), old(registry.nextId), old(registry.expression), registry.entries, registry.nextId, registry.expression)
      ensures reg.id in old(registry.expression) ==>
        r == Ok(()) && unchanged(registry, runtime, cache) &&
        (runtime.containerScope != null ==> runtime.containerScope.disposables == old(runtime.containerScope.disposables))
      ensures reg.id !in old(registry.expression) ==>
        var b := BaseOf(u, registry.policy, old(registry.entries), old(registry.nextId), old(registry.expression), reg, depth);
        registry.entries == b.entries && registry.nextId == b.nextId &&
        (b.result.Err? ==> r == Err(b.result.fault) && registry.expression == old(registry.expression)) &&
        (b.result.Ok? ==>
           var l := Lifetimed(reg.lifetime, b.result.value, true, old(runtime.scopeIndex), old(runtime.nextObject));
           runtime.scopeIndex == l.scopeIndex && runtime.nextObject == l.next &&
           (l.expression.Err? ==> r == Err(l.expression.fault) && registry.expression == old(registry.expression)) &&
           (l.expression.Ok? ==> registry.expression == old(registry.expression)[reg.id := l.expression.value]))
      ensures r.Ok? ==> reg.id in registry.expression && cache.Valid() && old(cache.Contents()) <= cache.Contents()
      ensures r.Ok? && reg.id !in old(registry.expression) ==>
        reg.id in registry.value && registry.value == old(registry.value)[reg.id := registry.value[reg.id]] &&
        registry.value[reg.id] == CleanupPlan(reg.lifetime, u.disposable(reg.returnType), registry.expression[reg.id]) &&
        MultiMaps.Entry(reg.registeredType, registry.value[reg.id]) in cache.Contents()
    {
      if reg.id in registry.expression {
        GrewRefl(registry.entries, registry.nextId, registry.expression);
        return Ok(());
      }
      var e := Express(reg);
      if e.Err? {
        return Err(e.fault);
      }
      r := Publish(reg, e.value);
    }

    /** CompileOne as the walk sees it: the registration ends up with an expression. */
    method CompileStep(reg: Registration) returns (r: Result<()>)
      requires runtime.Valid() && registry.Valid() && cache.Valid()
      modifies registry`entries, registry`nextId, registry`expression, registry`value, runtime`scopeIndex, runtime`nextObject
      modifies if runtime.containerScope == null then {} else {runtime.containerScope}
      modifies cache, cache.info, cache.entries
      ensures runtime.Valid() && registry.Valid()
      ensures runtime.containerScope != null ==>
        runtime.containerScope.slots == old(runtime.containerScope.slots) &&
        runtime.containerScope.disposed == old(runtime.containerScope.disposed)
      ensures (cache.info == old(cache.info) && cache.entries == old(cache.entries)) || (fresh(cache.info) && fresh(cache.entries))
      ensures Grew(old(registry.entries), old(registry.nextId), old(registry.expression), registry.entries, registry.nextId, registry.expression)
      ensures r.Ok? ==> reg.id in registry.expression && cache.Valid() && old(cache.Contents()) <= cache.Contents()
      ensures reg.id in old(registry.expression) ==> r == Ok(())
    {
      r := CompileOne(reg);
    }

    /** GetParameterRegistrations(reg, crs, first) together with the Compile foreach
        consuming it: a registration without constructor parameters yields itself when
        it is the root and nothing otherwise; any other is pushed on the cycle guard, its
        parameters are walked in order, the root is compiled, and the guard is popped. */
    method Walk(reg: Registration, first: bool, crs: CircularReferenceService, fuel: nat) returns (r: Result<()>, ghost order: seq<Registration>)
      requires crs.name == u.name
      requires runtime.Valid() && registry.Valid() && cache.Valid()
      modifies registry`entries, registry`nextId, registry`expression, registry`value, runtime`scopeIndex, runtime`nextObject
      modifies if runtime.containerScope == null then {} else {runtime.containerScope}
      modifies cache, cache.info, cache.entries, crs
      ensures runtime.Valid() && registry.Valid()
      ensures runtime.containerScope != null ==>
        runtime.containerScope.slots == old(runtime.containerScope.slots) &&
        runtime.containerScope.disposed == old(runtime.containerScope.disposed)
      ensures (cache.info == old(cache.info) && cache.entries == old(cache.entries)) || (fresh(cache.info) && fresh(cache.entries))
      ensures Grew(old(registry.entries), old(registry.nextId), old(registry.expression), registry.entries, registry.nextId, registry.expression)
      ensures r.Ok? ==> cache.Valid() && old(cache.Contents()) <= cache.Contents()
      ensures r.Ok? ==> crs.stack == old(crs.stack)
      ensures r.Ok? && first ==> reg.id in registry.expression && EndsWith(order, reg)
      ensures |u.params(reg.returnType)| == 0 ==> order == if first then [reg] else []
      ensures |u.params(reg.returnType)| == 0 && !first ==> r == Ok(()) && unchanged(registry, crs)
      ensures |u.params(reg.returnType)| == 0 && first && reg.id in old(registry.expression) ==> r == Ok(())
      ensures |u.params(reg.returnType)| > 0 && fuel == 0 ==> r == Err(OutOfFuel)
      ensures |u.params(reg.returnType)| > 0 && fuel > 0 && reg.registeredType in old(crs.stack) ==>
        r == Err(CycleFault(u.name, old(crs.stack) + [reg.registeredType])) && unchanged(registry)
      decreases fuel, 2
    {
      if |u.params(reg.returnType)| == 0 {
        if first {
          r := CompileStep(reg);
        } else {
          GrewRefl(registry.entries, registry.nextId, registry.expression);
          r := Ok(());
        }
        return r, if first then [reg] else [];
      }
      if fuel == 0 {
        GrewRefl(registry.entries, registry.nextId, registry.expression);
        return Err(OutOfFuel), [];
      }
      r, order := Nest(reg, first, crs, fuel);
    }

    /** The walk of a registration with constructor parameters: pushed, its parameters
        walked, then the root compiled, and popped. */
    method Nest(reg: Registration, first: bool, crs: CircularReferenceService, fuel: nat) returns (r: Result<()>, ghost order: seq<Registration>)
      requires fuel > 0
      requires crs.name == u.name
      requires runtime.Valid() && registry.Valid() && cache.Valid()
      modifies registry`entries, registry`nextId, registry`expression, registry`value, runtime`scopeIndex, runtime`nextObject
      modifies if runtime.containerScope == null then {} else {runtime.containerScope}
      modifies cache, cache.info, cache.entries, crs
      ensures runtime.Valid() && registry.Valid()
      ensures runtime.containerScope != null ==>
        runtime.containerScope.slots == old(runtime.containerScope.slots) &&
        runtime.containerScope.disposed == old(runtime.containerScope.disposed)
      ensures (cache.info == old(cache.info) && cache.entries == old(cache.entries)) || (fresh(cache.info) && fresh(cache.entries))
      ensures Grew(old(registry.entries), old(registry.nextId), old(registry.expression), registry.entries, registry.nextId, registry.expression)
      ensures r.Ok? ==> cache.Valid() && old(cache.Contents()) <= cache.Contents()
      ensures r.Ok? ==> crs.stack == old(crs.stack)
      ensures r.Ok? && first ==> reg.id in registry.expression && EndsWith(order, reg)
      ensures reg.registeredType in old(crs.stack) ==>
        r == Err(CycleFault(u.name, old(crs.stack) + [reg.registeredType])) && unchanged(registry)
      decreases fuel, 1
    {
      ghost var es, n, x := registry.entries, registry.nextId, registry.expression;
      r, order := Descend(reg, crs, fuel);
      if r.Err? {
        return;
      }
      ghost var stack := crs.stack;
      ghost var es1, n1, x1 := registry.entries, registry.nextId, registry.expression;
      r := Finish(reg, first, crs);
      GrewTrans(es, n, x, es1, n1, x1, registry.entries, registry.nextId, registry.expression);
      assert stack[..|stack| - 1] == old(crs.stack);
      order := order + if first then [reg] else [];
    }

    /** crs.Add(reg), then the walk of each constructor parameter in order. */
    method Descend(reg: Registration, crs: CircularReferenceService, fuel: nat) returns (r: Result<()>, ghost order: seq<Registration>)
      requires fuel > 0
      requires crs.name == u.name
      requires runtime.Valid() && registry.Valid() && cache.Valid()
      modifies registry`entries, registry`nextId, registry`expression, registry`value, runtime`scopeIndex, runtime`nextObject
      modifies if runtime.containerScope == null then {} else {runtime.containerScope}
      modifies cache, cache.info, cache.entries, crs
      ensures runtime.Valid() && registry.Valid()
      ensures runtime.containerScope != null ==>
        runtime.containerScope.slots == old(runtime.containerScope.slots) &&
        runtime.containerScope.disposed == old(runtime.containerScope.disposed)
      ensures (cache.info == old(cache.info) && cache.entries == old(cache.entries)) || (fresh(cache.info) && fresh(cache.entries))
      ensures Grew(old(registry.entries), old(registry.nextId), old(registry.expression), registry.entries, registry.nextId, registry.expression)
      ensures r.Ok? ==> cache.Valid() && old(cache.Contents()) <= cache.Contents()
      ensures r.Ok? ==> crs.stack == old(crs.stack) + [reg.registeredType]
      ensures reg.registeredType in old(crs.stack) ==>
        r == Err(CycleFault(u.name, old(crs.stack) + [reg.registeredType])) && unchanged(registry)
      decreases fuel, 0
    {
      r := crs.Add(reg);
      if r.Err? {
        GrewRefl(registry.entries, registry.nextId, registry.expression);
        return r, [];
      }
      r, order := WalkParams(u.params(reg.returnType), crs, fuel - 1);
    }

    /** The for loop of GetParameterRegistrations over the constructor parameters. */
    method WalkParams(ps: seq<Type>, crs: CircularReferenceService, fuel: nat) returns (r: Result<()>, ghost order: seq<Registration>)
      requires crs.name == u.name
      requires runtime.Valid() && registry.Valid() && cache.Valid()
      modifies registry`entries, registry`nextId, registry`expression, registry`value, runtime`scopeIndex, runtime`nextObject
      modifies if runtime.containerScope == null then {} else {runtime.containerScope}
      modifies cache, cache.info, cache.entries, crs
      ensures runtime.Valid() && registry.Valid()
      ensures runtime.containerScope != null ==>
        runtime.containerScope.slots == old(runtime.containerScope.slots) &&
        runtime.containerScope.disposed == old(runtime.containerScope.disposed)
      ensures (cache.info == old(cache.info) && cache.entries == old(cache.entries)) || (fresh(cache.info) && fresh(cache.entries))
      ensures Grew(old(registry.entries), old(registry.nextId), old(registry.expression), registry.entries, registry.nextId, registry.expression)
      ensures r.Ok? ==> cache.Valid() && old(cache.Contents()) <= cache.Contents() && crs.stack == old(crs.stack)
      decreases fuel, 7
    {
      order := [];
      var i := 0;
      while i < |ps|
        invariant 0 <= i <= |ps|
        invariant crs.stack == old(crs.stack)
        invariant runtime.Valid() && registry.Valid() && cache.Valid() && old(cache.Contents()) <= cache.Contents()
        invariant runtime.containerScope != null ==>
          runtime.containerScope.slots == old(runtime.containerScope.slots) &&
          runtime.containerScope.disposed == old(runtime.containerScope.disposed)
        invariant (cache.info == old(cache.info) && cache.entries == old(cache.entries)) || (fresh(cache.info) && fresh(cache.entries))
        invariant Grew(old(registry.entries), old(registry.nextId), old(registry.expression), registry.entries, registry.nextId, registry.expression)
      {
        ghost var es, n, x := registry.entries, registry.nextId, registry.expression;
        ghost var orders;
        r, orders := WalkParam(ps[i], crs, fuel);
        GrewTrans(old(registry.entries), old(registry.nextId), old(registry.expression), es, n, x, registry.entries, registry.nextId, registry.expression);
        if r.Err? {
          return;
        }
        order := order + Flatten(orders);
        i := i + 1;
      }
      return Ok(()), order;
    }

    /** The end of the walk of a registration with parameters: the root is yielded,
        hence compiled, then crs.Exit(). */
    method Finish(reg: Registration, first: bool, crs: CircularReferenceService) returns (r: Result<()>)
      requires |crs.stack| > 0
      requires runtime.Valid() && registry.Valid() && cache.Valid()
      modifies registry`entries, registry`nextId, registry`expression, registry`value, runtime`scopeIndex, runtime`nextObject
      modifies if runtime.containerScope == null then {} else {runtime.containerScope}
      modifies cache, cache.info, cache.entries, crs
      ensures runtime.Valid() && registry.Valid()
      ensures runtime.containerScope != null ==>
        runtime.containerScope.slots == old(runtime.containerScope.slots) &&
        runtime.containerScope.disposed == old(runtime.containerScope.disposed)
      ensures (cache.info == old(cache.info) && cache.entries == old(cache.entries)) || (fresh(cache.info) && fresh(cache.entries))
      ensures Grew(old(registry.entries), old(registry.nextId), old(registry.expression), registry.entries, registry.nextId, registry.expression)
      ensures r.Ok? ==> cache.Valid() && old(cache.Contents()) <= cache.Contents()
      ensures r.Ok? ==> crs.stack == old(crs.stack)[..|old(crs.stack)| - 1]
      ensures r.Ok? && first ==> reg.id in registry.expression
    {
      if first {
        r := CompileStep(reg);
        if r.Err? {
          return;
        }
      } else {
        GrewRefl(registry.entries, registry.nextId, registry.expression);
      }
      r := crs.Exit();
    }

    /** The walk of one constructor parameter: the registrations of its target type,
        each walked and then compiled. */
    method WalkParam(p: Type, crs: CircularReferenceService, fuel: nat) returns (r: Result<()>, ghost orders: seq<seq<Registration>>)
      requires crs.name == u.name
      requires runtime.Valid() && registry.Valid() && cache.Valid()
      modifies registry`entries, registry`nextId, registry`expression, registry`value, runtime`scopeIndex, runtime`nextObject
      modifies if runtime.containerScope == null then {} else {runtime.containerScope}
      modifies cache, cache.info, cache.entries, crs
      ensures runtime.Valid() && registry.Valid()
      ensures runtime.containerScope != null ==>
        runtime.containerScope.slots == old(runtime.containerScope.slots) &&
        runtime.containerScope.disposed == old(runtime.containerScope.disposed)
      ensures (cache.info == old(cache.info) && cache.entries == old(cache.entries)) || (fresh(cache.info) && fresh(cache.entries))
      ensures Grew(old(registry.entries), old(registry.nextId), old(registry.expression), registry.entries, registry.nextId, registry.expression)
      ensures r.Ok? ==> cache.Valid() && old(cache.Contents()) <= cache.Contents()
      ensures r.Ok? ==> crs.stack == old(crs.stack)
      ensures var target := TargetOf(registry.policy, old(registry.entries), old(registry.nextId), p);
        (target.Err? ==> r == Err(target.fault) && unchanged(registry)) &&
        (target.Ok? && r.Ok? ==>
           Prefix(target.value.entries, registry.entries) &&
           Compiled(GetAll(target.value.entries, target.value.t), registry.expression) &&
           PostOrder(GetAll(target.value.entries, target.value.t), orders))
      decreases fuel, 6
    {
      var target := TargetOf(registry.policy, registry.entries, registry.nextId, p);
      if target.Err? {
        GrewRefl(registry.entries, registry.nextId, registry.expression);
        return Err(target.fault), [];
      }
      registry.Adopt(target.value.entries, target.value.nextId);
      r, orders := WalkAll(GetAll(registry.entries, target.value.t), crs, fuel);
      ContinuesTrans(old(registry.entries), old(registry.nextId), target.value.entries, target.value.nextId, registry.entries, registry.nextId);
    }

    /** The foreach over the registrations of a parameter's target type. */
    method WalkAll(regs: seq<Registration>, crs: CircularReferenceService, fuel: nat) returns (r: Result<()>, ghost orders: seq<seq<Registration>>)
      requires crs.name == u.name
      requires runtime.Valid() && registry.Valid() && cache.Valid()
      modifies registry`entries, registry`nextId, registry`expression, registry`value, runtime`scopeIndex, runtime`nextObject
      modifies if runtime.containerScope == null then {} else {runtime.containerScope}
      modifies cache, cache.info, cache.entries, crs
      ensures runtime.Valid() && registry.Valid()
      ensures runtime.containerScope != null ==>
        runtime.containerScope.slots == old(runtime.containerScope.slots) &&
        runtime.containerScope.disposed == old(runtime.containerScope.disposed)
      ensures (cache.info == old(cache.info) && cache.entries == old(cache.entries)) || (fresh(cache.info) && fresh(cache.entries))
      ensures Grew(old(registry.entries), old(registry.nextId), old(registry.expression), registry.entries, registry.nextId, registry.expression)
      ensures r.Ok? ==> cache.Valid() && old(cache.Contents()) <= cache.Contents()
      ensures r.Ok? ==> crs.stack == old(crs.stack) && Compiled(regs, registry.expression)
      ensures r.Ok? ==> PostOrder(regs, orders)
      decreases fuel, 5
    {
      orders := [];
      var j := 0;
      while j < |regs|
        invariant 0 <= j <= |regs| && |orders| == j
        invariant forall k :: 0 <= k < j ==> EndsWith(orders[k], regs[k])
        invariant crs.stack == old(crs.stack)
        invariant CompiledUpTo(regs, j, registry.expression)
        invariant runtime.Valid() && registry.Valid() && cache.Valid() && old(cache.Contents()) <= cache.Contents()
        invariant runtime.containerScope != null ==>
          runtime.containerScope.slots == old(runtime.containerScope.slots) &&
          runtime.containerScope.disposed == old(runtime.containerScope.disposed)
        invariant (cache.info == old(cache.info) && cache.entries == old(cache.entries)) || (fresh(cache.info) && fresh(cache.entries))
        invariant Grew(old(registry.entries), old(registry.nextId), old(registry.expression), registry.entries, registry.nextId, registry.expression)
      {
        ghost var es, n, x := registry.entries, registry.nextId, registry.expression;
        ghost var o;
        r, o := WalkOne(regs[j], crs, fuel);
        GrewTrans(old(registry.entries), old(registry.nextId), old(registry.expression), es, n, x, registry.entries, registry.nextId, registry.expression);
        if r.Err? {
          return;
        }
        CompiledStep(regs, j, x, registry.expression);
        orders := orders + [o];
        j := j + 1;
      }
      return Ok(()), orders;
    }

    /** One registration of a parameter's target type: what its walk yields, then the
        registration itself. */
    method WalkOne(reg: Registration, crs: CircularReferenceService, fuel: nat) returns (r: Result<()>, ghost order: seq<Registration>)
      requires crs.name == u.name
      requires runtime.Valid() && registry.Valid() && cache.Valid()
      modifies registry`entries, registry`nextId, registry`expression, registry`value, runtime`scopeIndex, runtime`nextObject
      modifies if runtime.containerScope == null then {} else {runtime.containerScope}
      modifies cache, cache.info, cache.entries, crs
      ensures runtime.Valid() && registry.Valid()
      ensures runtime.containerScope != null ==>
        runtime.containerScope.slots == old(runtime.containerScope.slots) &&
        runtime.containerScope.disposed == old(runtime.containerScope.disposed)
      ensures (cache.info == old(cache.info) && cache.entries == old(cache.entries)) || (fresh(cache.info) && fresh(cache.entries))
      ensures Grew(old(registry.entries), old(registry.nextId), old(registry.expression), registry.entries, registry.nextId, registry.expression)
      ensures r.Ok? ==> cache.Valid() && old(cache.Contents()) <= cache.Contents()
      ensures r.Ok? ==> crs.stack == old(crs.stack) && reg.id in registry.expression
      ensures r.Ok? ==> EndsWith(order, reg)
      decreases fuel, 4
    {
      r, order := WalkBelow(reg, crs, fuel);
      if r.Err? {
        return;
      }
      ghost var es, n, x := registry.entries, registry.nextId, registry.expression;
      r := CompileStep(reg);
      order := order + [reg];
      GrewTrans(old(registry.entries), old(registry.nextId), old(registry.expression), es, n, x, registry.entries, registry.nextId, registry.expression);
    }

    /** The nested GetParameterRegistrations(reg, crs, false) of that foreach, as its
        consumer sees it. */
    method WalkBelow(reg: Registration, crs: CircularReferenceService, fuel: nat) returns (r: Result<()>, ghost order: seq<Registration>)
      requires crs.name == u.name
      requires runtime.Valid() && registry.Valid() && cache.Valid()
      modifies registry`entries, registry`nextId, registry`expression, registry`value, runtime`scopeIndex, runtime`nextObject
      modifies if runtime.containerScope == null then {} else {runtime.containerScope}
      modifies cache, cache.info, cache.entries, crs
      ensures runtime.Valid() && registry.Valid()
      ensures runtime.containerScope != null ==>
        runtime.containerScope.slots == old(runtime.containerScope.slots) &&
        runtime.containerScope.disposed == old(runtime.containerScope.disposed)
      ensures (cache.info == old(cache.info) && cache.entries == old(cache.entries)) || (fresh(cache.info) && fresh(cache.entries))
      ensures Grew(old(registry.entries), old(registry.nextId), old(registry.expression), registry.entries, registry.nextId, registry.expression)
      ensures r.Ok? ==> cache.Valid() && old(cache.Contents()) <= cache.Contents()
      ensures r.Ok? ==> crs.stack == old(crs.stack)
      decreases fuel, 3
    {
      r, order := Walk(reg, false, crs, fuel);
    }

    /** Compile(registration): the walk from the registration with a new cycle guard,
        compiling as it goes; then the registration's delegate, null when an earlier
        exception left it with an expression but no delegate. */
    method Compile(root: Registration) returns (r: Result<Option<Plan>>, ghost order: seq<Registration>)
      requires runtime.Valid() && registry.Valid() && cache.Valid()
      modifies registry`entries, registry`nextId, registry`expression, registry`value, runtime`scopeIndex, runtime`nextObject
      modifies if runtime.containerScope == null then {} else {runtime.containerScope}
      modifies cache, cache.info, cache.entries
      ensures runtime.Valid() && registry.Valid()
      ensures runtime.containerScope != null ==>
        runtime.containerScope.slots == old(runtime.containerScope.slots) &&
        runtime.containerScope.disposed == old(runtime.containerScope.disposed)
      ensures (cache.info == old(cache.info) && cache.entries == old(cache.entries)) || (fresh(cache.info) && fresh(cache.entries))
      ensures Grew(old(registry.entries), old(registry.nextId), old(registry.expression), registry.entries, registry.nextId, registry.expression)
      ensures r.Ok? ==> cache.Valid() && old(cache.Contents()) <= cache.Contents()
      ensures r.Ok? ==>
        root.id in registry.expression &&
        r.value == if root.id in registry.value then Some(registry.value[root.id]) else None
      ensures r.Ok? ==> EndsWith(order, root)
      ensures |u.params(root.returnType)| == 0 ==> order == [root]
      ensures |u.params(root.returnType)| == 0 && root.id in old(registry.expression) ==> r.Ok?
      ensures |u.params(root.returnType)| > 0 && depth == 0 ==> r == Err(OutOfFuel)
    {
      var crs := new CircularReferenceService(u.name);
      var walked;
      walked, order := Walk(root, true, crs, depth);
      if walked.Err? {
        return Err(walked.fault), order;
      }
      return Ok(if root.id in registry.value then Some(registry.value[root.id]) else None), order;
    }

    /** The registry as it stands. */
    ghost function State(): Snapshot
      reads registry
    {
      Snapshot(registry.entries, registry.nextId, registry.expression, registry.value)
    }

    /** What CreateDelegate(t) has done, from the registry as it found it. */
    twostate predicate CreatedDelegate(t: Type, new r: Result<Option<Plan>>)
      reads this, registry
    {
      CreatesDelegate(registry.policy, old(State()), State(), t, r)
    }

    /** CreateDelegate(type) */
    method CreateDelegate(t: Type) returns (r: Result<Option<Plan>>)
      requires runtime.Valid() && registry.Valid() && cache.Valid()
      modifies registry`entries, registry`nextId, registry`expression, registry`value, runtime`scopeIndex, runtime`nextObject
      modifies if runtime.containerScope == null then {} else {runtime.containerScope}
      modifies cache, cache.info, cache.entries
      ensures runtime.Valid() && registry.Valid()
      ensures runtime.containerScope != null ==>
        runtime.containerScope.slots == old(runtime.containerScope.slots) &&
        runtime.containerScope.disposed == old(runtime.containerScope.disposed)
      ensures (cache.info == old(cache.info) && cache.entries == old(cache.entries)) || (fresh(cache.info) && fresh(cache.entries))
      ensures Grew(old(registry.entries), old(registry.nextId), old(registry.expression), registry.entries, registry.nextId, registry.expression)
      ensures r.Ok? ==> cache.Valid() && old(cache.Contents()) <= cache.Contents()
      ensures CreatedDelegate(t, r)
      ensures Get(old(registry.entries), t).None? && (!t.IsGeneric() || Get(old(registry.entries), t.Definition()).None?) ==>
        unchanged(registry, runtime, cache)
    {
      var found := Get(registry.entries, t);
      if found.Some? {
        ghost var order;
        r, order := Compile(found.value);
        return;
      }
      if !t.IsGeneric() {
        GrewRefl(registry.entries, registry.nextId, registry.expression);
        return Ok(Some(NullDelegate));
      }
      var open := Get(registry.entries, t.Definition());
      if open.None? {
        GrewRefl(registry.entries, registry.nextId, registry.expression);
        return Ok(None);
      }
      var returnType := MakeGeneric(open.value.returnType, t.GenericArguments());
      if returnType.Err? {
        GrewRefl(registry.entries, registry.nextId, registry.expression);
        return Err(returnType.fault);
      }
      ghost var es, n, x := registry.entries, registry.nextId, registry.expression;
      var reg := Synthesise(t, returnType.value, open.value.lifetime);
      ghost var es1, n1 := registry.entries, registry.nextId;
      ghost var order;
      r, order := Compile(reg);
      ContinuesByFresh(registry.policy, es, n, t, reg);
      GrewTrans(es, n, x, es1, n1, x, registry.entries, registry.nextId, registry.expression);
    }

    /** new Registration(type, returnType, lifetime), stored under `type`. */
    method Synthesise(t: Type, returnType: Type, lifetime: Lifetime) returns (reg: Registration)
      requires registry.Valid()
      modifies registry`entries, registry`nextId
      ensures registry.Valid()
      ensures reg == Registration(old(registry.nextId), t, returnType, lifetime, None, None)
      ensures registry.nextId == old(registry.nextId) + 1
      ensures registry.entries == EmplaceIn(registry.policy, old(registry.entries), t, reg).0
    {
      reg := registry.NewRegistration(t, returnType, lifetime, None, None);
      var _ := registry.Emplace(t, reg);
    }

    /** CreateDelegates(key): CreateDelegate(reg.RegisteredType) for each registration
        stored under `key`. */
    method CreateDelegates(key: Type) returns (r: Result<seq<Option<Plan>>>, ghost states: seq<Snapshot>, ghost outs: seq<Result<Option<Plan>>>)
      requires runtime.Valid() && registry.Valid() && cache.Valid()
      modifies registry`entries, registry`nextId, registry`expression, registry`value, runtime`scopeIndex, runtime`nextObject
      modifies if runtime.containerScope == null then {} else {runtime.containerScope}
      modifies cache, cache.info, cache.entries
      ensures runtime.Valid() && registry.Valid()
      ensures runtime.containerScope != null ==>
        runtime.containerScope.slots == old(runtime.containerScope.slots) &&
        runtime.containerScope.disposed == old(runtime.containerScope.disposed)
      ensures (cache.info == old(cache.info) && cache.entries == old(cache.entries)) || (fresh(cache.info) && fresh(cache.entries))
      ensures Grew(old(registry.entries), old(registry.nextId), old(registry.expression), registry.entries, registry.nextId, registry.expression)
      ensures r.Ok? ==> cache.Valid() && old(cache.Contents()) <= cache.Contents()
      ensures CreatesDelegates(registry.policy, GetAll(old(registry.entries), key), states, outs)
      ensures states[0] == old(State()) && states[|states| - 1] == State()
      ensures Gathered([], outs, |GetAll(old(registry.entries), key)|, r)
    {
      var regs := GetAll(registry.entries, key);
      var out: seq<Option<Plan>> := [];
      states, outs := [State()], [];
      ghost var contents := cache.Contents();
      GrewRefl(registry.entries, registry.nextId, registry.expression);
      var j := 0;
      while j < |regs|
        invariant 0 <= j <= |regs| && Gathered([], outs, j, Ok(out))
        invariant CreatesDelegates(registry.policy, regs, states, outs) && states[0] == old(State()) && states[j] == State()
        invariant runtime.Valid() && registry.Valid() && cache.Valid() && contents <= cache.Contents()
        invariant runtime.containerScope != null ==>
          runtime.containerScope.slots == old(runtime.containerScope.slots) &&
          runtime.containerScope.disposed == old(runtime.containerScope.disposed)
        invariant (cache.info == old(cache.info) && cache.entries == old(cache.entries)) || (fresh(cache.info) && fresh(cache.entries))
        invariant Grew(states[0].entries, states[0].nextId, states[0].expression, registry.entries, registry.nextId, registry.expression)
      {
        var d;
        d, states, outs := CreateNext(regs, j, out, states, outs, contents);
        if d.Err? {
          return Err(d.fault), states, outs;
        }
        out := out + [d.value];
        j := j + 1;
      }
      return Ok(out), states, outs;
    }

    /** One turn of the foreach of CreateDelegates: CreateDelegate for the next
        registration, with the run so far extended by it. */
    method CreateNext(regs: seq<Registration>, j: nat, out: seq<Option<Plan>>, ghost states: seq<Snapshot>, ghost outs: seq<Result<Option<Plan>>>,
                      ghost contents: multiset<MultiMaps.Entry<Type, Plan>>)
      returns (d: Result<Option<Plan>>, ghost states': seq<Snapshot>, ghost outs': seq<Result<Option<Plan>>>)
      requires runtime.Valid() && registry.Valid() && cache.Valid() && contents <= cache.Contents()
      requires Gathered([], outs, j, Ok(out)) && j < |regs|
      requires CreatesDelegates(registry.policy, regs, states, outs) && states[j] == State()
      requires Grew(states[0].entries, states[0].nextId, states[0].expression, registry.entries, registry.nextId, registry.expression)
      modifies registry`entries, registry`nextId, registry`expression, registry`value, runtime`scopeIndex, runtime`nextObject
      modifies if runtime.containerScope == null then {} else {runtime.containerScope}
      modifies cache, cache.info, cache.entries
      ensures runtime.Valid() && registry.Valid()
      ensures runtime.containerScope != null ==>
        runtime.containerScope.slots == old(runtime.containerScope.slots) &&
        runtime.containerScope.disposed == old(runtime.containerScope.disposed)
      ensures (cache.info == old(cache.info) && cache.entries == old(cache.entries)) || (fresh(cache.info) && fresh(cache.entries))
      ensures Grew(old(registry.entries), old(registry.nextId), old(registry.expression), registry.entries, registry.nextId, registry.expression)
      ensures d.Ok? ==> cache.Valid() && old(cache.Contents()) <= cache.Contents()
      ensures CreatesDelegates(registry.policy, regs, states', outs') && states' == states + [State()] && outs' == outs + [d]
      ensures d.Ok? ==> Gathered([], outs', j + 1, Ok(out + [d.value]))
      ensures d.Err? ==> Gathered([], outs', |regs|, Err(d.fault))
      ensures Grew(states'[0].entries, states'[0].nextId, states'[0].expression, registry.entries, registry.nextId, registry.expression)
      ensures d.Ok? ==> contents <= cache.Contents()
    {
      ghost var es, n, x := registry.entries, registry.nextId, registry.expression;
      d := CreateDelegate(regs[j].registeredType);
      GrewTrans(states[0].entries, states[0].nextId, states[0].expression, es, n, x, registry.entries, registry.nextId, registry.expression);
      CreatesDelegatesStep(registry.policy, regs, states, outs, State(), d);
      states', outs' := states + [State()], outs + [d];
    }

    /** DelegateCache.Get(key): the delegate stored in the probe window, or on a miss
        the one CreateDelegate creates, which the cache does not store itself. */
    method GetDelegate(t: Type) returns (r: Result<Option<Plan>>)
      requires runtime.Valid() && registry.Valid() && cache.Valid()
      modifies registry`entries, registry`nextId, registry`expression, registry`value, runtime`scopeIndex, runtime`nextObject
      modifies if runtime.containerScope == null then {} else {runtime.containerScope}
      modifies cache, cache.info, cache.entries
      ensures runtime.Valid() && registry.Valid()
      ensures runtime.containerScope != null ==>
        runtime.containerScope.slots == old(runtime.containerScope.slots) &&
        runtime.containerScope.disposed == old(runtime.containerScope.disposed)
      ensures (cache.info == old(cache.info) && cache.entries == old(cache.entries)) || (fresh(cache.info) && fresh(cache.entries))
      ensures Grew(old(registry.entries), old(registry.nextId), old(registry.expression), registry.entries, registry.nextId, registry.expression)
      ensures r.Ok? ==> cache.Valid() && old(cache.Contents()) <= cache.Contents()
      ensures var found := FindIn(old(cache.entries[..]), old(cache.Home(t)), old(cache.Home(t) + cache.currentPsl), t);
        (found.Err? ==> r == Err(found.fault) && unchanged(registry, runtime, cache)) &&
        (found.Ok? && found.value.Some? ==>
           r == Ok(found.value) && MultiMaps.Entry(t, found.value.value) in cache.Contents() && unchanged(registry, runtime, cache)) &&
        (found == Ok(None) ==> CreatedDelegate(t, r))
    {
      var found := cache.Get(t);
      if found.Err? {
        GrewRefl(registry.entries, registry.nextId, registry.expression);
        return Err(found.fault);
      }
      if found.value.Some? {
        GrewRefl(registry.entries, registry.nextId, registry.expression);
        FindInSound(cache.entries[..], cache.Home(t), cache.Home(t) + cache.currentPsl, t, found.value.value);
        return Ok(found.value);
      }
      r := CreateDelegate(t);
    }

    /** DelegateCache.GetAll(key): the delegates stored under `key` in the probe window
        from the key's Type.GetHashCode home, in slot order, then every delegate
        CreateDelegates(key) produces. */
    method GetDelegates(key: Type) returns (r: Result<seq<Option<Plan>>>, ghost states: seq<Snapshot>, ghost outs: seq<Result<Option<Plan>>>)
      requires runtime.Valid() && registry.Valid() && cache.Valid()
      modifies registry`entries, registry`nextId, registry`expression, registry`value, runtime`scopeIndex, runtime`nextObject
      modifies if runtime.containerScope == null then {} else {runtime.containerScope}
      modifies cache, cache.info, cache.entries
      ensures runtime.Valid() && registry.Valid()
      ensures runtime.containerScope != null ==>
        runtime.containerScope.slots == old(runtime.containerScope.slots) &&
        runtime.containerScope.disposed == old(runtime.containerScope.disposed)
      ensures (cache.info == old(cache.info) && cache.entries == old(cache.entries)) || (fresh(cache.info) && fresh(cache.entries))
      ensures Grew(old(registry.entries), old(registry.nextId), old(registry.expression), registry.entries, registry.nextId, registry.expression)
      ensures r.Ok? ==> cache.Valid() && old(cache.Contents()) <= cache.Contents()
      ensures var home := HomeIndex(cache.typeHash(key), old(cache.mask));
        var found := FindAllIn(old(cache.entries[..]), home, home + old(cache.currentPsl), key);
        (found.Err? ==> r == Err(found.fault) && unchanged(registry, runtime, cache)) &&
        (found.Ok? ==>
           CreatesDelegates(registry.policy, GetAll(old(registry.entries), key), states, outs) &&
           states[0] == old(State()) && states[|states| - 1] == State() &&
           Gathered(found.value, outs, |GetAll(old(registry.entries), key)|, r))
    {
      var found := cache.GetAll(key);
      if found.Err? {
        GrewRefl(registry.entries, registry.nextId, registry.expression);
        return Err(found.fault), [State()], [];
      }
      var created;
      created, states, outs := CreateDelegates(key);
      r := CachedThenCreated(found.value, created);
    }
  }
}
