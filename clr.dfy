/**
  The small part of the .NET runtime that the adapter inspects: run-time types
  with their single-inheritance chain, the objects passed as log arguments, the
  `params object[]` array that carries them, and the exceptions the adapter
  itself can throw.
 */
module Clr {

  /** A run-time class: either the root of the hierarchy or a class deriving from a base class. */
  datatype ClrType = Root(name: string) | Derived(name: string, baseType: ClrType)

  const ObjectType: ClrType := Root("System.Object")
  const StringType: ClrType := Derived("System.String", ObjectType)
  const ExceptionType: ClrType := Derived("System.Exception", ObjectType)
  const AggregateExceptionType: ClrType := Derived("System.AggregateException", ExceptionType)

  /** Strict derivation, as reflection's `IsSubclassOf`: a class is not a subclass of itself. */
  predicate IsSubclassOf(t: ClrType, b: ClrType)
  {
    t.Derived? && (t.baseType == b || IsSubclassOf(t.baseType, b))
  }

  /** The test applied to each argument: the type is `Exception` itself or derives from it. */
  predicate IsExceptionType(t: ClrType)
  {
    t == ExceptionType || IsSubclassOf(t, ExceptionType)
  }

  /** A class followed by all of its base classes, up to the root. */
  function Ancestry(t: ClrType): (chain: seq<ClrType>)
    ensures |chain| > 0 && chain[0] == t
  {
    match t
    case Root(_) => [t]
    case Derived(_, b) => [t] + Ancestry(b)
  }

  function Depth(t: ClrType): nat
  {
    match t
    case Root(_) => 0
    case Derived(_, b) => 1 + Depth(b)
  }

  /** Strict derivation means "is one of the base classes in the chain". */
  lemma {:induction false} SubclassIffProperAncestor(t: ClrType, b: ClrType)
    ensures IsSubclassOf(t, b) <==> b in Ancestry(t)[1..]
  {
    match t
    case Root(_) =>
    case Derived(_, p) =>
      SubclassIffProperAncestor(p, b);
      assert Ancestry(t)[1..] == Ancestry(p);
      assert Ancestry(p) == [p] + Ancestry(p)[1..];
  }

  /** The exception test accepts exactly the classes that have `Exception` in their chain. */
  lemma {:induction false} ExceptionTypeIffInAncestry(t: ClrType)
    ensures IsExceptionType(t) <==> ExceptionType in Ancestry(t)
  {
    SubclassIffProperAncestor(t, ExceptionType);
    assert Ancestry(t) == [t] + Ancestry(t)[1..];
  }

  /** A base class is strictly shallower than any class deriving from it. */
  lemma {:induction false} SubclassIsDeeper(t: ClrType, b: ClrType)
    requires IsSubclassOf(t, b)
    ensures Depth(b) < Depth(t)
  {
    if t.baseType != b {
      SubclassIsDeeper(t.baseType, b);
    }
  }

  lemma SubclassIrreflexive(t: ClrType)
    ensures !IsSubclassOf(t, t)
  {
    if IsSubclassOf(t, t) {
      SubclassIsDeeper(t, t);
    }
  }

  lemma {:induction false} SubclassTransitive(t: ClrType, m: ClrType, b: ClrType)
    requires IsSubclassOf(t, m) && IsSubclassOf(m, b)
    ensures IsSubclassOf(t, b)
  {
    if t.baseType != m {
      SubclassTransitive(t.baseType, m, b);
    }
  }

  /** Matching is polymorphic: every class deriving from an exception class is itself matched. */
  lemma {:induction false} ExceptionTestIsPolymorphic(t: ClrType, b: ClrType)
    requires IsExceptionType(b) && IsSubclassOf(t, b)
    ensures IsExceptionType(t)
  {
    if b != ExceptionType {
      SubclassTransitive(t, b, ExceptionType);
    }
  }

  /** An argument value: a null reference or an object of some run-time class. */
  datatype Value = Null | Obj(ty: ClrType, id: nat)

  predicate IsExceptionValue(v: Value)
  {
    v.Obj? && IsExceptionType(v.ty)
  }

  /** A `params object[]` argument: the array reference itself may be null. */
  datatype ObjArray = NullArray | Array(items: seq<Value>)

  /** The exceptions the adapter's own code can throw. */
  datatype Fault = NullReferenceException | InvalidCastException
}
