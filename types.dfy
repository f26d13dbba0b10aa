/**
 * The value types of the experimental type system: types, their
 * constructors, builtin tags, registry entries and unification failures.
 */
module Types {

  /** The builtin type constructors the type store knows by tag. */
  datatype BuiltinType = Void | Function | Unit | Pair | Word | Integer

  /** A type constructor: a user declaration (by its node id) or a builtin tag. */
  datatype Ctor = Decl(declaration: nat) | Builtin(tag: BuiltinType)

  /**
   * A type: a variable of store `store` with slot `index`, or a constructor
   * applied to an ordered list of argument types.
   */
  datatype Type =
    | Var(store: nat, index: nat, generic: bool)
    | Expr(ctor: Ctor, args: seq<Type>)

  /** What the builtin registry records for a tag. */
  datatype ConstructorInfo = ConstructorInfo(name: string, arity: nat)

  /** The pair of resolved types a unification could not match. */
  datatype UnificationFailure = UnificationFailure(a: Type, b: Type)

  /** Every variable occurring in `t` belongs to store `id` and names a slot below `n`. */
  predicate Owned(t: Type, id: nat, n: nat) {
    match t
    case Var(s, i, _) => s == id && i < n
    case Expr(_, args) => forall k :: 0 <= k < |args| ==> Owned(args[k], id, n)
  }

  /** Number of nodes of a type tree. */
  function Size(t: Type): (n: nat) {
    match t
    case Var(_, _, _) => 1
    case Expr(_, args) => 1 + SizeOfAll(args)
  }

  function SizeOfAll(ts: seq<Type>): (n: nat) {
    if ts == [] then 0 else Size(ts[0]) + SizeOfAll(ts[1..])
  }

  /** Each argument is strictly smaller than the expression holding it. */
  lemma {:induction false} ArgSmaller(ts: seq<Type>, k: nat)
    requires k < |ts|
    ensures Size(ts[k]) <= SizeOfAll(ts)
  {
    if k > 0 {
      ArgSmaller(ts[1..], k - 1);
    }
  }

  /** Builtin constructors used with the argument counts the store asserts. */
  predicate ArityOk(t: Type) {
    match t
    case Var(_, _, _) => true
    case Expr(c, args) =>
      (c == Builtin(Function) ==> |args| == 2) &&
      (c == Builtin(Pair) ==> |args| == 2) &&
      (c == Builtin(Unit) ==> |args| == 0) &&
      forall k :: 0 <= k < |args| ==> ArityOk(args[k])
  }
}
