/**
 * The helper object that builds and takes apart tuple and function types
 * through the builtin registry of one type store.
 */
module Helpers {
  import opened Types
  import opened Tuples
  import opened TypeStore

  /** The helper object: every operation reads the registry of one type store. */
  class TypeSystemHelpers {
    const typeSystem: TypeSystem

    constructor (typeSystem: TypeSystem)
      ensures this.typeSystem == typeSystem
    {
      this.typeSystem := typeSystem;
    }

    /** Builds the tuple type of `elements`, folding pairs from the back. */
    method TupleType(elements: seq<Type>) returns (result: Type)
      requires |elements| == 0 ==> Unit in typeSystem.builtinTypes && typeSystem.builtinTypes[Unit].arity == 0
      requires |elements| >= 2 ==> Pair in typeSystem.builtinTypes && typeSystem.builtinTypes[Pair].arity == 2
      ensures result == TupleOf(elements)
    {
      if |elements| == 0 {
        return typeSystem.BuiltinType(Unit, []);
      }
      if |elements| == 1 {
        return elements[0];
      }
      result := elements[|elements| - 1];
      var i := |elements| - 1;
      while i > 0
        invariant 0 <= i < |elements|
        invariant result == TupleOf(elements[i..])
      {
        i := i - 1;
        assert elements[i..][1..] == elements[i + 1..];
        result := typeSystem.BuiltinType(Pair, [elements[i], result]);
      }
      assert elements[0..] == elements;
    }

    /**
     * The elements of a tuple type, walking the right spine of `Pair`
     * expressions.  A variable is not a tuple type and is rejected.
     */
    method DestTupleType(tupleType: Type) returns (result: seq<Type>)
      requires tupleType.Expr? && PairChainOk(tupleType)
      ensures result == DestTupleOf(tupleType)
    {
      var (ctor, arguments) := DestTypeExpression(tupleType);
      if ctor.Builtin? {
        if ctor.tag == Unit {
          return [];
        } else if ctor.tag != Pair {
          return [tupleType];
        }
      } else {
        return [tupleType];
      }
      result := [arguments[0]];
      var tail := arguments[1];
      while true
        invariant PairChainOk(tail)
        invariant DestTupleOf(tupleType) == result + PairTail(tail)
        decreases Size(tail)
      {
        if !tail.Expr? {
          break;
        }
        var (tailCtor, tailArguments) := DestTypeExpression(tail);
        if tailCtor != Builtin(Pair) {
          break;
        }
        ArgSmaller(tailArguments, 1);
        result := result + [tailArguments[0]];
        tail := tailArguments[1];
      }
      result := result + [tail];
    }

    /** The function type from `argType` to `resultType`. */
    function FunctionType(argType: Type, resultType: Type): (r: Type)
      reads typeSystem
      requires Function in typeSystem.builtinTypes && typeSystem.builtinTypes[Function].arity == 2
      ensures r.Expr? && r.ctor == Builtin(Function) && |r.args| == 2
      ensures DestFunctionType(r) == (argType, resultType)
    {
      typeSystem.BuiltinType(Function, [argType, resultType])
    }

    /** Constructor and arguments of a type expression; a variable is rejected. */
    function DestTypeExpression(t: Type): (r: (Ctor, seq<Type>))
      requires t.Expr?
      ensures Expr(r.0, r.1) == t
    {
      (t.ctor, t.args)
    }

    /** Argument and result type of a function type. */
    function DestFunctionType(t: Type): (r: (Type, Type))
      requires t.Expr? && t.ctor == Builtin(Function) && |t.args| == 2
      ensures Expr(Builtin(Function), [r.0, r.1]) == t
    {
      var (ctor, arguments) := DestTypeExpression(t);
      (arguments[0], arguments[|arguments| - 1])
    }

    /** Rebuilding a decomposed function type gives it back. */
    lemma FunctionTypeInverse(t: Type)
      requires Function in typeSystem.builtinTypes && typeSystem.builtinTypes[Function].arity == 2
      requires t.Expr? && t.ctor == Builtin(Function) && |t.args| == 2
      ensures FunctionType(DestFunctionType(t).0, DestFunctionType(t).1) == t
    {
    }

    /** A builtin type decomposes into its tag and the arguments it was built from. */
    lemma BuiltinTypeInverse(tag: Types.BuiltinType, args: seq<Type>)
      requires tag in typeSystem.builtinTypes && typeSystem.builtinTypes[tag].arity == |args|
      ensures DestTypeExpression(typeSystem.BuiltinType(tag, args)) == (Builtin(tag), args)
    {
    }
  }
}
