/**
 * Scoped: a resolution scope with its get-or-create slot array and its disposal list,
 * the run of a compiled delegate against a scope, and the static state the scopes and
 * the compilers share (Scoped.ScopeIndex, Scoped.ScopeCount, Container.ContainerScope
 * and the supply of object identities), held as the fields of one `Runtime` object.
 */
module Scopes {
  import opened Wrappers
  import opened Types
  import opened Plans

  /** NonNull(list): the elements Dispose releases, in index order, skipping nulls. */
  function NonNull(list: seq<Obj>): (r: seq<Obj>)
    ensures |r| <= |list|
    ensures forall o :: o in r <==> o in list && o != Null
  {
    if |list| == 0 then []
    else NonNull(list[..|list| - 1]) + (if list[|list| - 1] == Null then [] else [list[|list| - 1]])
  }

  class Scoped {
    /** _scopedInstances; null once disposed. */
    var slots: array?<Obj>
    /** Disposeables; null once disposed. */
    var disposables: Option<seq<Obj>>
    /** _disposed */
    var disposed: bool

    /** A live scope has both; a disposed one has neither. */
    predicate Valid()
      reads this
    {
      if disposed then slots == null && disposables.None? else slots != null && disposables.Some?
    }

    function View(): ScopeView
      reads this, slots
    {
      ScopeView(if slots == null then None else Some(slots[..]), disposables)
    }

    /** new Scoped(container) when Scoped.ScopeCount is `scopeCount`: a slot array of
        that length, all null, and an empty disposal list. */
    constructor (scopeCount: nat)
      ensures Valid() && !disposed && fresh(slots)
      ensures View() == ScopeView(Some(seq(scopeCount, _ => Null)), Some([]))
    {
      var a := new Obj[scopeCount](_ => Null);
      assert a[..] == seq(scopeCount, _ => Null);
      slots := a;
      disposables := Some([]);
      disposed := false;
    }

    /** EmplaceOrGetScopedInstance(obj, index): a non-null slot is returned without
        invoking the builder; a null slot is filled with what the builder returns. */
    method EmplaceOrGetScopedInstance(builder: Plan, index: int, next: nat) returns (r: Result<Obj>, next': nat)
      modifies slots
      decreases builder, 1
      ensures slots == old(slots) && disposables == old(disposables) && disposed == old(disposed)
      ensures Outcome(r, Some(View()), next') == EvalSlot(builder, index, Some(old(View())), next)
      ensures slots != null && 0 <= index < slots.Length && old(slots[index]) != Null ==>
        r == Ok(old(slots[index])) && next' == next && slots[..] == old(slots[..])
      ensures slots != null && 0 <= index < slots.Length && old(slots[index]) == Null && r.Ok? ==>
        slots[..] == old(slots[..])[index := r.value]
    {
      if slots == null {
        return Err(NullReference), next;
      }
      if index < 0 || index >= slots.Length {
        return Err(IndexOutOfRange), next;
      }
      var instance := slots[index];
      if instance != Null {
        return Ok(instance), next;
      }
      var i;
      i, next' := Run(builder, null, next);
      if i.Err? {
        return i, next';
      }
      slots[index] := i.value;
      return i, next';
    }

    /** Resize(): a fresh array of `scopeCount` nulls replaces the slot array; the copy
        length is 0, so nothing carries over.  Disposed scopes have no array to copy
        from. */
    method Resize(scopeCount: int) returns (r: Result<()>)
      requires Valid()
      modifies this
      ensures Valid() && disposables == old(disposables) && disposed == old(disposed)
      ensures scopeCount < 0 ==> r == Err(Overflow) && slots == old(slots)
      ensures scopeCount >= 0 && old(slots) == null ==> r == Err(ArgumentNull) && slots == old(slots)
      ensures scopeCount >= 0 && old(slots) != null ==> r.Ok? && fresh(slots) && slots[..] == seq(scopeCount, _ => Null)
    {
      if scopeCount < 0 {
        return Err(Overflow);
      }
      var copy := new Obj[scopeCount](_ => Null);
      if slots == null {
        return Err(ArgumentNull);
      }
      slots := copy;
      return Ok(());
    }

    /** Dispose(): the first call releases every non-null element of the disposal list
        in index order and drops the list and the slots; later calls release nothing. */
    method Dispose() returns (released: seq<Obj>)
      requires Valid()
      modifies this
      ensures Valid() && disposed
      ensures old(disposed) ==> released == [] && slots == old(slots) && disposables == old(disposables)
      ensures !old(disposed) ==> released == NonNull(old(disposables).value)
    {
      released := [];
      if !disposed {
        var list := disposables.value;
        var index := 0;
        while index < |list|
          invariant 0 <= index <= |list|
          invariant released == NonNull(list[..index])
        {
          var instance := list[index];
          if instance != Null {
            released := released + [instance];
          }
          assert list[..index + 1][..index] == list[..index];
          index := index + 1;
        }
        assert list[..index] == list;
        slots := null;
        disposables := None;
      }
      disposed := true;
    }
  }

  /** The scope a delegate is invoked with, as a value. */
  function ViewOf(s: Scoped?): Option<ScopeView>
    reads s, if s == null then null else s.slots
  {
    if s == null then None else Some(s.View())
  }

  /** What invoking a delegate on `s` may change. */
  function Frame(s: Scoped?): set<object>
    reads s
  {
    if s == null then {} else if s.slots == null then {s} else {s, s.slots}
  }

  /** Invoking the delegate compiled from `p` with `scope` as its argument: runs the
      plan, calling into the scope for slot plans and the disposal wrappers. */
  method Run(p: Plan, scope: Scoped?, next: nat) returns (r: Result<Obj>, next': nat)
    modifies Frame(scope)
    decreases p, 0
    ensures scope != null ==> scope.slots == old(scope.slots) && scope.disposed == old(scope.disposed)
    ensures Outcome(r, ViewOf(scope), next') == Eval(p, old(ViewOf(scope)), next)
  {
    match p
    case New(of, args) =>
      var values, n := RunAll(args, scope, next);
      if values.Err? {
        return Err(values.fault), n;
      }
      return Ok(Instance(n, of, values.value)), n + 1;
    case NewArray(elem, items) =>
      var values, n := RunAll(items, scope, next);
      if values.Err? {
        return Err(values.fault), n;
      }
      return Ok(ArrayOf(n, elem, values.value)), n + 1;
    case Constant(v) =>
      return Ok(v), next;
    case ScopedSlot(builder, index) =>
      if scope == null {
        return Err(NullReference), next;
      }
      r, next' := scope.EmplaceOrGetScopedInstance(builder, index, next);
    case TrackTransient(inner) =>
      r, next' := Run(inner, scope, next);
      if r.Err? {
        return;
      }
      if scope == null || scope.disposables.None? {
        return Err(NullReference), next';
      }
      scope.disposables := Some(scope.disposables.value + [r.value]);
    case TrackScoped(inner) =>
      r, next' := Run(inner, scope, next);
      if r.Err? {
        return;
      }
      if scope == null || scope.disposables.None? {
        return Err(NullReference), next';
      }
      if r.value !in scope.disposables.value {
        scope.disposables := Some(scope.disposables.value + [r.value]);
      }
  }

  /** The arguments of a call, left to right. */
  method RunAll(ps: seq<Plan>, scope: Scoped?, next: nat) returns (r: Result<seq<Obj>>, next': nat)
    modifies Frame(scope)
    decreases ps, 1
    ensures scope != null ==> scope.slots == old(scope.slots) && scope.disposed == old(scope.disposed)
    ensures Outcome(r, ViewOf(scope), next') == EvalAll(ps, old(ViewOf(scope)), next)
  {
    var values := [];
    next' := next;
    var k := 0;
    while k < |ps|
      invariant 0 <= k <= |ps|
      invariant scope != null ==> scope.slots == old(scope.slots) && scope.disposed == old(scope.disposed)
      invariant Outcome(Ok(values), ViewOf(scope), next') == EvalAll(ps[..k], old(ViewOf(scope)), next)
    {
      assert ps[..k + 1][..k] == ps[..k];
      var v;
      v, next' := Run(ps[k], scope, next');
      if v.Err? {
        EvalAllStopsAtFault(ps, k + 1, old(ViewOf(scope)), next);
        return Err(v.fault), next';
      }
      values := values + [v.value];
      k := k + 1;
    }
    assert ps[..k] == ps;
    return Ok(values), next';
  }

  /** Once an argument raises, the arguments after it are not evaluated. */
  lemma {:induction false} EvalAllStopsAtFault(ps: seq<Plan>, k: nat, scope: Option<ScopeView>, next: nat)
    requires k <= |ps|
    requires EvalAll(ps[..k], scope, next).result.Err?
    ensures EvalAll(ps, scope, next) == EvalAll(ps[..k], scope, next)
    decreases |ps|
  {
    if k < |ps| {
      var front := ps[..|ps| - 1];
      assert front[..k] == ps[..k];
      EvalAllStopsAtFault(front, k, scope, next);
    } else {
      assert ps[..k] == ps;
    }
  }

  /** int arithmetic wraps at 32 bits: ++ on int.MaxValue gives int.MinValue. */
  function Inc32(x: int): (y: int)
    requires -0x8000_0000 <= x < 0x8000_0000
    ensures -0x8000_0000 <= y < 0x8000_0000
    ensures x < 0x7FFF_FFFF ==> y == x + 1
    ensures x == 0x7FFF_FFFF ==> y == -0x8000_0000
  {
    if x == 0x7FFF_FFFF then -0x8000_0000 else x + 1
  }

  /** The static state: Scoped.ScopeIndex, Scoped.ScopeCount, Container.ContainerScope,
      and the next free object identity. */
  class Runtime {
    var scopeIndex: int
    var scopeCount: int
    var containerScope: Scoped?
    var nextObject: nat

    predicate Valid()
      reads this, containerScope
    {
      -0x8000_0000 <= scopeIndex < 0x8000_0000 && -0x8000_0000 <= scopeCount < 0x8000_0000 &&
      (containerScope != null ==> containerScope.Valid())
    }

    /** The statics before any container exists. */
    constructor ()
      ensures Valid() && scopeIndex == 0 && scopeCount == 0 && containerScope == null && nextObject == 0
    {
      scopeIndex := 0;
      scopeCount := 0;
      containerScope := null;
      nextObject := 0;
    }

    /** The ScopeIndex setter stores the value. */
    method SetScopeIndex(value: int)
      requires Valid() && -0x8000_0000 <= value < 0x8000_0000
      modifies this`scopeIndex
      ensures Valid() && scopeIndex == value
    {
      scopeIndex := value;
    }

    /** The ScopeCount setter stores the value, then resizes ContainerScope. */
    method SetScopeCount(value: int) returns (r: Result<()>)
      requires Valid() && -0x8000_0000 <= value < 0x8000_0000
      modifies this`scopeCount, containerScope
      ensures Valid() && scopeCount == value && containerScope == old(containerScope)
      ensures containerScope == null ==> r == Err(NullReference)
      ensures containerScope != null ==>
        containerScope.disposables == old(containerScope.disposables) &&
        (r.Ok? <==> value >= 0 && old(containerScope.slots) != null) &&
        (r.Ok? ==> fresh(containerScope.slots) && containerScope.slots[..] == seq(value, _ => Null))
    {
      scopeCount := value;
      if containerScope == null {
        return Err(NullReference);
      }
      r := containerScope.Resize(value);
    }

    /** new Scoped(container): a negative ScopeCount makes the slot array allocation
        raise. */
    method NewScope() returns (r: Result<Scoped>)
      requires Valid()
      ensures r.Err? <==> scopeCount < 0
      ensures r.Err? ==> r.fault == Overflow
      ensures r.Ok? ==>
        fresh(r.value) && fresh(r.value.slots) && r.value.Valid() && !r.value.disposed &&
        r.value.View() == ScopeView(Some(seq(scopeCount, _ => Null)), Some([]))
    {
      if scopeCount < 0 {
        return Err(Overflow);
      }
      var s := new Scoped(scopeCount);
      return Ok(s);
    }
  }
}
