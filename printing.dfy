/**
 * Rendering a type as text, for diagnostics.  The name of a declaration and
 * the registered name of a builtin tag are given as functions.
 */
module Printing {
  import opened Types
  import opened Substitution
  import opened Expansion
  import opened Tuples
  import opened Strings
  import opened TypeStore
  import opened Helpers

  /** `?varN` for a generic variable, `'varN` for a non-generic one. */
  function VarName(v: Type): (s: string)
    requires v.Var?
    ensures |s| >= 4 && s[1..4] == "var" && (s[0] == '?' <==> v.generic)
  {
    (if v.generic then "?" else "'") + "var" + NatToString(v.index)
  }

  /** The argument list printed before a constructor name: empty, or `(a, b) ` with a trailing space. */
  function ArgumentList(parts: seq<string>): (s: string)
    ensures parts == [] <==> s == ""
  {
    if parts == [] then "" else "(" + Join(parts) + ") "
  }

  /**
   * The elements of the `Pair` chain of a resolved expression, and all
   * arguments, can be printed: they expand, are smaller than the
   * expression, and use builtins with the asserted arities.
   */
  lemma {:induction false} PrintableParts(vars: Table, t: Type)
    requires t.Expr? && Expandable(vars, t) && ArityOk(ExpansionOf(vars, t))
    ensures forall k :: 0 <= k < |t.args| ==>
      Expandable(vars, t.args[k]) && ArityOk(ExpansionOf(vars, t.args[k]))
      && Size(ExpansionOf(vars, t.args[k])) < Size(ExpansionOf(vars, t))
    ensures PairChainOk(t)
    ensures IsPair(t) ==> forall k :: 0 <= k < |PairTail(t)| ==>
      Expandable(vars, PairTail(t)[k]) && ArityOk(ExpansionOf(vars, PairTail(t)[k]))
      && Size(ExpansionOf(vars, PairTail(t)[k])) < Size(ExpansionOf(vars, t))
    decreases Size(t)
  {
    ExpandArgs(vars, t);
    var e := ExpansionOf(vars, t);
    assert forall k :: 0 <= k < |t.args| ==> ArityOk(e.args[k]);
    if IsPair(t) {
      var a := t.args[1];
      ArgSmaller(t.args, 1);
      if IsPair(a) {
        PrintableParts(vars, a);
        assert PairTail(t) == [t.args[0]] + PairTail(a);
      }
    }
  }

  /**
   * The text of `t`: resolved first; a declaration or a builtin other than
   * `Function`, `Unit` and `Pair` prints its argument list then its name,
   * `Function` prints `d -> c`, `Unit` prints `()`, and `Pair` prints the
   * elements of its tuple in parentheses.
   */
  function TypeString(vars: Table, declName: nat -> string, builtinName: BuiltinType -> string, t: Type): (s: string)
    requires ChainsAcyclic(vars) && Expandable(vars, t) && ArityOk(ExpansionOf(vars, t))
    decreases Size(ExpansionOf(vars, t))
  {
    ExpandResolve(vars, t);
    var rt := Resolve(vars, t);
    if rt.Var? then VarName(rt)
    else
      PrintableParts(vars, rt);
      var parts := seq(|rt.args|, k requires 0 <= k < |rt.args| => TypeString(vars, declName, builtinName, rt.args[k]));
      match rt.ctor
      case Decl(d) => ArgumentList(parts) + declName(d)
      case Builtin(tag) =>
        if tag == Function then parts[0] + " -> " + parts[1]
        else if tag == Unit then "()"
        else if tag == Pair then
          var elements := DestTupleOf(rt);
          "(" + Join(seq(|elements|, k requires 0 <= k < |elements| =>
                    TypeString(vars, declName, builtinName, elements[k]))) + ")"
        else ArgumentList(parts) + builtinName(tag)
  }

  /** The texts of `items`, one per item. */
  function Rendered(vars: Table, declName: nat -> string, builtinName: BuiltinType -> string, items: seq<Type>)
    : (parts: seq<string>)
    requires ChainsAcyclic(vars)
    requires forall k :: 0 <= k < |items| ==> Expandable(vars, items[k]) && ArityOk(ExpansionOf(vars, items[k]))
    ensures |parts| == |items|
    ensures forall k :: 0 <= k < |items| ==> parts[k] == TypeString(vars, declName, builtinName, items[k])
  {
    seq(|items|, k requires 0 <= k < |items| => TypeString(vars, declName, builtinName, items[k]))
  }

  /** One unfolding of `TypeString`, case by case on the resolved type. */
  lemma TypeStringUnfold(vars: Table, declName: nat -> string, builtinName: BuiltinType -> string, t: Type)
    requires ChainsAcyclic(vars) && Expandable(vars, t) && ArityOk(ExpansionOf(vars, t))
    ensures InRange(vars, t)
    ensures var rt := Resolve(vars, t);
      var s := TypeString(vars, declName, builtinName, t);
      && (rt.Var? ==> s == VarName(rt))
      && (rt.Expr? ==>
        && Expandable(vars, rt) && ArityOk(ExpansionOf(vars, rt)) && PairChainOk(rt)
        && (forall k :: 0 <= k < |rt.args| ==>
              Expandable(vars, rt.args[k]) && ArityOk(ExpansionOf(vars, rt.args[k])))
        && (rt.ctor.Decl? ==> s == ArgumentList(Rendered(vars, declName, builtinName, rt.args)) + declName(rt.ctor.declaration))
        && (rt.ctor == Builtin(Function) ==>
              |rt.args| == 2 && s == TypeString(vars, declName, builtinName, rt.args[0]) + " -> " + TypeString(vars, declName, builtinName, rt.args[1]))
        && (rt.ctor == Builtin(Unit) ==> s == "()")
        && (rt.ctor == Builtin(Pair) ==>
              (forall k :: 0 <= k < |DestTupleOf(rt)| ==>
                 Expandable(vars, DestTupleOf(rt)[k]) && ArityOk(ExpansionOf(vars, DestTupleOf(rt)[k])))
              && s == "(" + Join(Rendered(vars, declName, builtinName, DestTupleOf(rt))) + ")")
        && (rt.ctor.Builtin? && rt.ctor.tag !in {Function, Unit, Pair} ==>
              s == ArgumentList(Rendered(vars, declName, builtinName, rt.args)) + builtinName(rt.ctor.tag)))
  {
    ExpandResolve(vars, t);
    var rt := Resolve(vars, t);
    if rt.Expr? {
      PrintableParts(vars, rt);
      var parts := seq(|rt.args|, k requires 0 <= k < |rt.args| => TypeString(vars, declName, builtinName, rt.args[k]));
      assert parts == Rendered(vars, declName, builtinName, rt.args);
      if IsPair(rt) {
        var elements := DestTupleOf(rt);
        assert seq(|elements|, k requires 0 <= k < |elements| => TypeString(vars, declName, builtinName, elements[k]))
          == Rendered(vars, declName, builtinName, elements);
      }
    }
  }

  /** The stream-printing form of `TypeString`, as the store's diagnostic printer runs it. */
  method TypeToString(ts: TypeSystem, declName: nat -> string, builtinName: BuiltinType -> string, t: Type)
    returns (s: string)
    requires ts.Valid() && Expandable(ts.typeVariables, t) && ArityOk(ExpansionOf(ts.typeVariables, t))
    ensures s == TypeString(ts.typeVariables, declName, builtinName, t)
    decreases Size(ExpansionOf(ts.typeVariables, t)), 2
  {
    TypeStringUnfold(ts.typeVariables, declName, builtinName, t);
    ExpandResolve(ts.typeVariables, t);
    var rt := ts.Resolve(t);
    if rt.Var? {
      return VarName(rt);
    }
    PrintableParts(ts.typeVariables, rt);
    ghost var bound := Size(ExpansionOf(ts.typeVariables, t));
    match rt.ctor
    case Decl(d) =>
      var arguments := PrintTypeArguments(ts, declName, builtinName, rt.args, bound);
      s := arguments + declName(d);
    case Builtin(tag) =>
      if tag == Function {
        s := PrintFunctionType(ts, declName, builtinName, rt, bound);
      } else if tag == Unit {
        s := "()";
      } else if tag == Pair {
        s := PrintTupleType(ts, declName, builtinName, rt, bound);
      } else {
        var arguments := PrintTypeArguments(ts, declName, builtinName, rt.args, bound);
        s := arguments + builtinName(tag);
      }
  }

  /** Prints a function type as its domain, ` -> `, and its codomain. */
  method PrintFunctionType(ts: TypeSystem, declName: nat -> string, builtinName: BuiltinType -> string,
                           f: Type, ghost bound: nat)
    returns (s: string)
    requires ts.Valid() && f.Expr? && |f.args| == 2
    requires forall k :: 0 <= k < 2 ==>
      Expandable(ts.typeVariables, f.args[k]) && ArityOk(ExpansionOf(ts.typeVariables, f.args[k]))
      && Size(ExpansionOf(ts.typeVariables, f.args[k])) < bound
    ensures s == TypeString(ts.typeVariables, declName, builtinName, f.args[0]) + " -> "
      + TypeString(ts.typeVariables, declName, builtinName, f.args[1])
    decreases bound, 1
  {
    var domain := TypeToString(ts, declName, builtinName, f.args[0]);
    var codomain := TypeToString(ts, declName, builtinName, f.args[1]);
    s := domain + " -> " + codomain;
  }

  /** Prints the elements of a pair chain in parentheses, separated by `, `. */
  method PrintTupleType(ts: TypeSystem, declName: nat -> string, builtinName: BuiltinType -> string,
                        p: Type, ghost bound: nat)
    returns (s: string)
    requires ts.Valid() && IsPair(p) && PairChainOk(p)
    requires forall k :: 0 <= k < |DestTupleOf(p)| ==>
      Expandable(ts.typeVariables, DestTupleOf(p)[k]) && ArityOk(ExpansionOf(ts.typeVariables, DestTupleOf(p)[k]))
      && Size(ExpansionOf(ts.typeVariables, DestTupleOf(p)[k])) < bound
    ensures s == "(" + Join(Rendered(ts.typeVariables, declName, builtinName, DestTupleOf(p))) + ")"
    decreases bound, 1
  {
    var helpers := new TypeSystemHelpers(ts);
    var tupleTypes := helpers.DestTupleType(p);
    var inner := PrintJoined(ts, declName, builtinName, tupleTypes, bound);
    s := "(" + inner + ")";
  }

  /** Prints a non-empty argument list as `(a, b) `, and nothing for no arguments. */
  method PrintTypeArguments(ts: TypeSystem, declName: nat -> string, builtinName: BuiltinType -> string,
                            arguments: seq<Type>, ghost bound: nat)
    returns (s: string)
    requires ts.Valid()
    requires forall k :: 0 <= k < |arguments| ==>
      Expandable(ts.typeVariables, arguments[k]) && ArityOk(ExpansionOf(ts.typeVariables, arguments[k]))
      && Size(ExpansionOf(ts.typeVariables, arguments[k])) < bound
    ensures s == ArgumentList(Rendered(ts.typeVariables, declName, builtinName, arguments))
    decreases bound, 1
  {
    if |arguments| == 0 {
      return "";
    }
    var inner := PrintJoined(ts, declName, builtinName, arguments, bound);
    s := "(" + inner + ") ";
  }

  /** Streams each item but the last followed by ", ", then the last item. */
  method PrintJoined(ts: TypeSystem, declName: nat -> string, builtinName: BuiltinType -> string,
                     items: seq<Type>, ghost bound: nat)
    returns (s: string)
    requires ts.Valid() && |items| >= 1
    requires forall k :: 0 <= k < |items| ==>
      Expandable(ts.typeVariables, items[k]) && ArityOk(ExpansionOf(ts.typeVariables, items[k]))
      && Size(ExpansionOf(ts.typeVariables, items[k])) < bound
    ensures s == Join(Rendered(ts.typeVariables, declName, builtinName, items))
    decreases bound, 0
  {
    ghost var parts := Rendered(ts.typeVariables, declName, builtinName, items);
    s := "";
    var i := 0;
    while i < |items| - 1
      invariant 0 <= i <= |items| - 1
      invariant s == Separated(parts[..i])
    {
      var part := TypeToString(ts, declName, builtinName, items[i]);
      SeparatedSnoc(parts, i);
      s := s + part + ", ";
      i := i + 1;
    }
    var last := TypeToString(ts, declName, builtinName, items[i]);
    s := s + last;
  }

  /** The digits after the `?var` or `'var` prefix are the index. */
  lemma VarNameDigits(v: Type)
    requires v.Var?
    ensures VarName(v)[4..] == NatToString(v.index)
  {
    var p := if v.generic then "?var" else "'var";
    assert VarName(v) == p + NatToString(v.index);
  }

  /** Distinct variables print distinctly: the index and the generic flag can be read back. */
  lemma VarNamesDistinct(u: Type, w: Type)
    requires u.Var? && w.Var? && (u.index != w.index || u.generic != w.generic)
    ensures VarName(u) != VarName(w)
  {
    if u.generic == w.generic {
      VarNameDigits(u);
      VarNameDigits(w);
      if VarName(u) == VarName(w) {
        NatToStringInjective(u.index, w.index);
      }
    }
  }

  /** A type prints as the type it resolves to. */
  lemma PrintResolved(vars: Table, declName: nat -> string, builtinName: BuiltinType -> string, t: Type)
    requires ChainsAcyclic(vars) && Expandable(vars, t) && ArityOk(ExpansionOf(vars, t))
    ensures InRange(vars, t) && Expandable(vars, Resolve(vars, t))
    ensures ArityOk(ExpansionOf(vars, Resolve(vars, t)))
    ensures TypeString(vars, declName, builtinName, Resolve(vars, t)) == TypeString(vars, declName, builtinName, t)
  {
    ExpandResolve(vars, t);
    ResolveIdempotent(vars, t);
    TypeStringUnfold(vars, declName, builtinName, t);
    TypeStringUnfold(vars, declName, builtinName, Resolve(vars, t));
  }

  /** A function type prints as its domain, an arrow, and its codomain. */
  lemma PrintFunction(vars: Table, declName: nat -> string, builtinName: BuiltinType -> string, a: Type, b: Type)
    requires ChainsAcyclic(vars)
    requires var f := Expr(Builtin(Function), [a, b]); Expandable(vars, f) && ArityOk(ExpansionOf(vars, f))
    ensures Expandable(vars, a) && ArityOk(ExpansionOf(vars, a))
    ensures Expandable(vars, b) && ArityOk(ExpansionOf(vars, b))
    ensures TypeString(vars, declName, builtinName, Expr(Builtin(Function), [a, b]))
      == TypeString(vars, declName, builtinName, a) + " -> " + TypeString(vars, declName, builtinName, b)
  {
    TypeStringUnfold(vars, declName, builtinName, Expr(Builtin(Function), [a, b]));
  }

  /**
   * A tuple type of two or more elements, the last not itself a pair, prints
   * as its elements in parentheses separated by ", ".
   */
  lemma PrintTuple(vars: Table, declName: nat -> string, builtinName: BuiltinType -> string, xs: seq<Type>)
    requires ChainsAcyclic(vars) && |xs| >= 2 && !IsPair(xs[|xs| - 1])
    requires Expandable(vars, TupleOf(xs)) && ArityOk(ExpansionOf(vars, TupleOf(xs)))
    ensures forall k :: 0 <= k < |xs| ==> Expandable(vars, xs[k]) && ArityOk(ExpansionOf(vars, xs[k]))
    ensures TypeString(vars, declName, builtinName, TupleOf(xs))
      == "(" + Join(Rendered(vars, declName, builtinName, xs)) + ")"
  {
    TupleRoundTrip(xs);
    TypeStringUnfold(vars, declName, builtinName, TupleOf(xs));
  }

  /** `Function(Integer, Integer)` prints as `Integer -> Integer`. */
  lemma PrintIntegerFunction(vars: Table, declName: nat -> string, builtinName: BuiltinType -> string)
    requires ChainsAcyclic(vars) && builtinName(Integer) == "Integer"
    ensures var i := Expr(Builtin(Integer), []);
      var f := Expr(Builtin(Function), [i, i]);
      && Expandable(vars, f) && ArityOk(ExpansionOf(vars, f))
      && TypeString(vars, declName, builtinName, f) == "Integer -> Integer"
  {
    var i := Expr(Builtin(Integer), []);
    var f := Expr(Builtin(Function), [i, i]);
    ExpandExpr(vars, i);
    ExpandExpr(vars, f);
    assert ExpansionOf(vars, f) == Expr(Builtin(Function), [i, i]);
    TypeStringUnfold(vars, declName, builtinName, i);
    assert Rendered(vars, declName, builtinName, []) == [];
    PrintFunction(vars, declName, builtinName, i, i);
  }

  /** An unbound generic variable with index 3 prints as `?var3`. */
  lemma PrintGenericVariable(vars: Table, declName: nat -> string, builtinName: BuiltinType -> string, id: nat)
    requires ChainsAcyclic(vars) && 3 < |vars| && vars[3].None?
    ensures var v := Var(id, 3, true);
      && Expandable(vars, v) && ArityOk(ExpansionOf(vars, v))
      && TypeString(vars, declName, builtinName, v) == "?var3"
  {
    ExpandUnbound(vars, Var(id, 3, true));
    TypeStringUnfold(vars, declName, builtinName, Var(id, 3, true));
  }
}
