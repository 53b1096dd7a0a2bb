/**
 * Registration: what the container knows about one registered service, and
 * RegistrationEqualityComparer.
 *
 * A registration is an object whose Expression and Value fields the compilers assign
 * later; identity is the `id` here, and those two fields are kept by the compilers in
 * maps keyed by it.
 */
module Registrations {
  import opened Wrappers
  import opened Types
  import opened Lifetimes

  /** The body of an override lambda: either a constructor call `new C(args)`, with the
      parameter types of the constructor it calls and the static type of each argument
      expression, or anything else. */
  datatype OverrideBody =
    | NewCall(ctor: Type, paramTypes: seq<Type>, argTypes: seq<Type>)
    | OtherBody

  datatype Registration = Registration(
    id: nat,
    registeredType: Type,
    returnType: Type,
    lifetime: Lifetime,
    /** The key's string hash of a keyed registration. */
    hashCode: Option<int>,
    /** OverrideExpression */
    overrideBody: Option<OverrideBody>)

  /** RegistrationEqualityComparer.Equals: the registered types are the same object and
      the return types are the same object. */
  predicate Same(x: Registration, y: Registration) {
    x.registeredType == y.registeredType && x.returnType == y.returnType
  }

  /** RegistrationEqualityComparer.GetHashCode always raises NotImplementedException. */
  function GetHashCode(r: Registration): (h: Result<int>)
    ensures h == Err(NotImplemented)
  {
    Err(NotImplemented)
  }

  /** Same is an equivalence relation. */
  lemma {:induction false} SameIsEquivalence(x: Registration, y: Registration, z: Registration)
    ensures Same(x, x)
    ensures Same(x, y) ==> Same(y, x)
    ensures Same(x, y) && Same(y, z) ==> Same(x, z)
  {
  }

  /** Same ignores the identity, lifetime, key hash and override of both sides: it holds
      exactly when the two type pairs agree. */
  lemma {:induction false} SameIgnoresTheRest(x: Registration, y: Registration, id: nat, lifetime: Lifetime, hashCode: Option<int>, body: Option<OverrideBody>)
    ensures Same(x, y) <==> Same(x, y.(id := id, lifetime := lifetime, hashCode := hashCode, overrideBody := body))
    ensures Same(x, y) <==> (x.registeredType, x.returnType) == (y.registeredType, y.returnType)
  {
  }
}
