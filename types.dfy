/**
 * The runtime types the container works with, as an abstract universe: a plain type, a
 * generic type closed over its arguments, or an open generic definition.  What reflection
 * would tell about a type (its constructor's parameters, whether it implements
 * IDisposable, its name) is a `Universe` value handed to the code that needs it.
 */
module Types {
  import opened Wrappers

  /** A generic type definition: the three the container tests for by identity, or one
      of the program's own. */
  datatype Definition = EnumerableDef | IListDef | ListDef | UserDef(name: string)

  /** A runtime type.  Runtime types are unique objects, so reference equality of two
      types is equality of these values. */
  datatype Type =
    | Named(name: string)
    | Closed(def: Definition, args: seq<Type>)
    | Open(def: Definition)
  {
    /** Type.IsGenericType: closed generic types and open definitions. */
    predicate IsGeneric() {
      Closed? || Open?
    }

    /** Type.IsGenericTypeDefinition */
    predicate IsDefinition() {
      Open?
    }

    /** Type.GetGenericTypeDefinition() of a generic type. */
    function Definition(): (t: Type)
      requires IsGeneric()
      ensures t.IsDefinition() && t.def == def
    {
      Open(def)
    }

    /** Type.GetGenericArguments(): the arguments of a closed type.  A definition's own
        type parameters are not represented, so a definition has none here. */
    function GenericArguments(): seq<Type> {
      if Closed? then args else []
    }

    /** IEnumerable<T> or IList<T>: the parameter types resolved as "all registrations
        of T". */
    predicate IsSequence() {
      Closed? && (def == EnumerableDef || def == IListDef) && |args| == 1
    }

    /** GetGenericArguments()[0] of a sequence type. */
    function Element(): Type
      requires IsSequence()
    {
      args[0]
    }
  }

  /** Type.MakeGenericType: only an open definition can be closed; anything else raises
      InvalidOperationException. */
  function MakeGeneric(t: Type, args: seq<Type>): (r: Result<Type>)
    ensures r.Ok? <==> t.Open?
    ensures r.Ok? ==> r.value == Closed(t.def, args) && r.value.IsGeneric() && !r.value.IsDefinition()
  {
    if t.Open? then Ok(Closed(t.def, args))
    else Err(InvalidOperation("The type is not a generic type definition"))
  }

  /** What reflection reports about types: the parameter types of the constructor a
      registration uses, whether a type implements IDisposable, Type.Name, and
      Type.FullName (also used for a type interpolated into a message). */
  datatype Universe = Universe(params: Type -> seq<Type>, disposable: Type -> bool, name: Type -> string, fullName: Type -> string)

  /** Closing a definition and taking the definition back gives the definition. */
  lemma {:induction false} MakeGenericDefinition(t: Type, args: seq<Type>)
    requires t.Open?
    ensures MakeGeneric(t, args).Ok? && MakeGeneric(t, args).value.Definition() == t
  {
  }

  /** A sequence type is a closed generic type that is not a definition, and its element
      is one of its arguments. */
  lemma {:induction false} SequenceIsClosed(t: Type)
    requires t.IsSequence()
    ensures t.IsGeneric() && !t.IsDefinition() && t.Element() in t.args
  {
  }
}
