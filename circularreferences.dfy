/**
 * The cycle guards of the plan walks.  Both keep a stack of the types whose constructor
 * parameters are being walked: CircularReference is handed the type itself,
 * CircularReferenceService a registration, of which it keeps the registered type.
 * Pushing a type that is already on the stack pushes it all the same and then raises.
 * A stack is modelled bottom first; .NET enumerates a Stack top first, which is the
 * order of the names in the message.
 */
module CircularReferences {
  import opened Wrappers
  import opened Types
  import opened Registrations

  const CyclePrefix := "Found circular reference: "

  /** string.Join(sep, parts) */
  function Join(sep: string, parts: seq<string>): (s: string)
    ensures |parts| == 1 ==> s == parts[0]
    ensures |parts| == 0 ==> s == ""
  {
    if |parts| == 0 then ""
    else if |parts| == 1 then parts[0]
    else parts[0] + sep + Join(sep, parts[1..])
  }

  /** The names of a stack's types, top first. */
  function NamesTopFirst(name: Type -> string, stack: seq<Type>): (names: seq<string>)
    ensures |names| == |stack|
    ensures forall i :: 0 <= i < |stack| ==> names[i] == name(stack[|stack| - 1 - i])
  {
    if |stack| == 0 then [] else [name(stack[|stack| - 1])] + NamesTopFirst(name, stack[..|stack| - 1])
  }

  /** The exception an Add of a repeated type raises, naming the stack after the push. */
  function CycleFault(name: Type -> string, stack: seq<Type>): Fault {
    InvalidOperation(CyclePrefix + Join(" -> ", NamesTopFirst(name, stack)))
  }

  /** The outcome of Add(t) on a stack: the new stack, and whether it raised. */
  function Push(name: Type -> string, stack: seq<Type>, t: Type): (r: (seq<Type>, Result<()>))
    ensures r.0 == stack + [t]
    ensures r.1.Ok? <==> t !in stack
    ensures r.1.Err? ==> r.1.fault.InvalidOperation? && r.1.fault == CycleFault(name, r.0)
  {
    (stack + [t], if t in stack then Err(CycleFault(name, stack + [t])) else Ok(()))
  }

  /** Stack.Pop raises InvalidOperationException on an empty stack. */
  function Pop(stack: seq<Type>): (r: (seq<Type>, Result<()>))
    ensures |stack| > 0 ==> r.1.Ok? && r.0 + [stack[|stack| - 1]] == stack
    ensures |stack| == 0 ==> r.1.Err? && r.0 == stack
  {
    if |stack| == 0 then (stack, Err(InvalidOperation("Stack empty.")))
    else (stack[..|stack| - 1], Ok(()))
  }

  /** A successful Add followed by Exit leaves the stack as it was, and an Add on an
      empty stack never raises. */
  lemma {:induction false} PushPop(name: Type -> string, stack: seq<Type>, t: Type)
    ensures Pop(Push(name, stack, t).0) == (stack, Ok(()))
    ensures stack == [] ==> Push(name, stack, t).1 == Ok(())
  {
    assert (stack + [t])[..|stack|] == stack;
  }

  /** The message of a cycle names the repeated type first, then the rest of the stack
      from the most recent entry down. */
  lemma {:induction false} CycleMessageStartsWithRepeat(name: Type -> string, stack: seq<Type>, t: Type)
    requires t in stack
    ensures var names := NamesTopFirst(name, stack + [t]);
      names[0] == name(t) && names[1..] == NamesTopFirst(name, stack)
  {
    var s := stack + [t];
    assert s[..|s| - 1] == stack;
  }

  /** CircularReference: the stack of types, compared by reference. */
  class CircularReference {
    const name: Type -> string
    var stack: seq<Type>

    constructor (name: Type -> string)
      ensures this.name == name && stack == []
    {
      this.name := name;
      stack := [];
    }

    /** Add(type): push; raise when the type was already on the stack. */
    method Add(t: Type) returns (r: Result<()>)
      modifies this
      ensures (stack, r) == Push(name, old(stack), t)
    {
      var repeated := t in stack;
      stack := stack + [t];
      if repeated {
        return Err(CycleFault(name, stack));
      }
      return Ok(());
    }

    /** Exit(): pop the most recent entry. */
    method Exit() returns (r: Result<()>)
      modifies this
      ensures (stack, r) == Pop(old(stack))
    {
      if |stack| == 0 {
        return Err(InvalidOperation("Stack empty."));
      }
      stack := stack[..|stack| - 1];
      return Ok(());
    }
  }

  /** CircularReferenceService: the same stack, fed with registrations; only the
      registered type takes part. */
  class CircularReferenceService {
    const name: Type -> string
    var stack: seq<Type>

    constructor (name: Type -> string)
      ensures this.name == name && stack == []
    {
      this.name := name;
      stack := [];
    }

    method Add(reg: Registration) returns (r: Result<()>)
      modifies this
      ensures (stack, r) == Push(name, old(stack), reg.registeredType)
    {
      var repeated := reg.registeredType in stack;
      stack := stack + [reg.registeredType];
      if repeated {
        return Err(CycleFault(name, stack));
      }
      return Ok(());
    }

    method Exit() returns (r: Result<()>)
      modifies this
      ensures (stack, r) == Pop(old(stack))
    {
      if |stack| == 0 {
        return Err(InvalidOperation("Stack empty."));
      }
      stack := stack[..|stack| - 1];
      return Ok(());
    }
  }
}
