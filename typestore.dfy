/**
 * The type store: the substitution table of type variables, the builtin
 * type registry, and the operations that allocate, bind, resolve, unify and
 * copy types.  Internal assertions of the store are preconditions here.
 */
module TypeStore {
  import opened Wrappers
  import opened Types
  import opened Substitution
  import opened Expansion
  import opened Unification
  import opened Renaming

  class TypeSystem {
    /** The identity a variable's `store` field must carry to belong to this store. */
    const id: nat
    /** Slot `i` holds what variable `i` is bound to. */
    var typeVariables: Table
    /** Name and arity of each declared builtin tag. */
    var builtinTypes: map<BuiltinType, ConstructorInfo>

    ghost predicate Valid()
      reads this
    {
      StoreValid(typeVariables, id)
    }

    constructor (id: nat)
      ensures this.id == id && typeVariables == [] && builtinTypes == map[]
      ensures Valid()
    {
      this.id := id;
      typeVariables := [];
      builtinTypes := map[];
      new;
      assert Ranked([], []);
    }

    /** The variable belongs to this store and names one of its slots. */
    predicate Validate(variable: Type)
      reads this
      requires variable.Var?
      ensures Validate(variable) <==> Owned(variable, id, |typeVariables|)
      ensures Validate(variable) ==> InRange(typeVariables, variable)
    {
      variable.store == id && variable.index < |typeVariables|
    }

    /** Appends one unbound slot and returns the variable naming it. */
    method FreshTypeVariable(generic: bool) returns (t: Type)
      requires Valid()
      modifies this
      ensures Valid()
      ensures typeVariables == old(typeVariables) + [None] && builtinTypes == old(builtinTypes)
      ensures t == Var(id, |old(typeVariables)|, generic)
    {
      var index := |typeVariables|;
      AppendKeepsValid(typeVariables, id);
      typeVariables := typeVariables + [None];
      t := Var(id, index, generic);
    }

    /** Binds an unbound variable of this store; binding it twice is an internal error. */
    method Instantiate(variable: Type, t: Type)
      requires variable.Var? && Validate(variable)
      requires typeVariables[variable.index].None?
      modifies this
      ensures typeVariables == old(typeVariables)[variable.index := Some(t)]
      ensures builtinTypes == old(builtinTypes)
    {
      typeVariables := typeVariables[variable.index := Some(t)];
    }

    /** Follows bindings until an unbound variable or a type expression. */
    method Resolve(t: Type) returns (r: Type)
      requires Valid() && InRange(typeVariables, t)
      ensures r == Substitution.Resolve(typeVariables, t)
    {
      ghost var rank := ChainRank(typeVariables);
      r := t;
      while r.Var? && typeVariables[r.index].Some?
        invariant InRange(typeVariables, r)
        invariant Substitution.Resolve(typeVariables, r) == Substitution.Resolve(typeVariables, t)
        decreases if r.Var? then rank[r.index] + 1 else 0
      {
        r := typeVariables[r.index].value;
      }
    }

    /** Registers a builtin tag once; declaring it again is an internal error. */
    method DeclareBuiltinType(tag: BuiltinType, name: string, arity: nat)
      requires tag !in builtinTypes
      modifies this
      ensures builtinTypes == old(builtinTypes)[tag := ConstructorInfo(name, arity)]
      ensures typeVariables == old(typeVariables)
    {
      builtinTypes := builtinTypes[tag := ConstructorInfo(name, arity)];
    }

    /** The builtin type `tag` applied to `args`; the tag must be declared with that arity. */
    function BuiltinType(tag: Types.BuiltinType, args: seq<Type>): (r: Type)
      reads this
      requires tag in builtinTypes && builtinTypes[tag].arity == |args|
      ensures r.Expr? && r.ctor == Builtin(tag) && r.args == args
    {
      Expr(Builtin(tag), args)
    }

    /**
     * Unifies `a` with `b`, binding variables in place and returning every
     * failure.  `fuel` is ghost: it only bounds the recursion for the proof,
     * and the run must be one that finishes within it.
     */
    method Unify(a: Type, b: Type, ghost fuel: nat) returns (failures: seq<UnificationFailure>)
      requires Valid() && Owned(a, id, |typeVariables|) && Owned(b, id, |typeVariables|)
      requires UnifyFuel(typeVariables, id, a, b, fuel).Some?
      modifies this
      ensures Valid() && builtinTypes == old(builtinTypes)
      ensures UnifyFuel(old(typeVariables), id, a, b, fuel) == Some(UnifyResult(failures, typeVariables))
      decreases fuel, 1
    {
      ghost var vars0 := typeVariables;
      var ra := Resolve(a);
      var rb := Resolve(b);
      ResolveOwned(vars0, id, a);
      ResolveOwned(vars0, id, b);
      failures := [];
      if ra.Var? && rb.Var? {
        assert Validate(ra) && Validate(rb);
        if ra.index != rb.index {
          BindKeepsValid(vars0, id, ra.index, rb);
          Instantiate(ra, rb);
        }
      } else if ra.Var? {
        BindKeepsValid(vars0, id, ra.index, rb);
        Instantiate(ra, rb);
      } else if rb.Var? {
        BindKeepsValid(vars0, id, rb.index, ra);
        Instantiate(rb, ra);
      } else if ra.ctor != rb.ctor {
        failures := [UnificationFailure(ra, rb)];
      } else if |ra.args| != |rb.args| {
        failures := [UnificationFailure(ra, rb)];
      } else {
        assert UnifyFuel(vars0, id, a, b, fuel) == UnifyArgs(vars0, id, ra.args, rb.args, fuel - 1);
        failures := UnifyArguments(ra.args, rb.args, fuel - 1);
      }
    }

    /** The argument loop of `Unify`: pairwise, left to right, appending each position's failures. */
    method UnifyArguments(ls: seq<Type>, rs: seq<Type>, ghost f: nat) returns (failures: seq<UnificationFailure>)
      requires Valid() && |ls| == |rs| && AllOwned(ls, id, |typeVariables|) && AllOwned(rs, id, |typeVariables|)
      requires UnifyArgs(typeVariables, id, ls, rs, f).Some?
      modifies this
      ensures Valid() && builtinTypes == old(builtinTypes)
      ensures UnifyArgs(old(typeVariables), id, ls, rs, f) == Some(UnifyResult(failures, typeVariables))
      decreases f + 1, 0
    {
      ghost var vars0 := typeVariables;
      failures := [];
      var i := 0;
      assert ls[0..] == ls && rs[0..] == rs;
      ghost var whole := UnifyArgs(vars0, id, ls, rs, f).value;
      assert UnifyArgs(vars0, id, ls, rs, f) == Some(whole);
      assert whole == UnifyResult(whole.failures, whole.vars);
      assert failures + whole.failures == whole.failures;
      assert UnifyArgs(typeVariables, id, ls[i..], rs[i..], f) == Some(whole);
      while i < |ls|
        invariant 0 <= i <= |ls|
        invariant Valid() && builtinTypes == old(builtinTypes) && |typeVariables| == |vars0|
        invariant UnifyArgs(typeVariables, id, ls[i..], rs[i..], f).Some?
        invariant UnifyArgs(vars0, id, ls, rs, f) ==
          Some(UnifyResult(failures + UnifyArgs(typeVariables, id, ls[i..], rs[i..], f).value.failures,
                           UnifyArgs(typeVariables, id, ls[i..], rs[i..], f).value.vars))
      {
        assert ls[i..][0] == ls[i] && rs[i..][0] == rs[i];
        assert ls[i..][1..] == ls[i + 1..] && rs[i..][1..] == rs[i + 1..];
        ghost var failuresBefore := failures;
        ghost var rest := UnifyArgs(typeVariables, id, ls[i..], rs[i..], f).value;
        var found := Unify(ls[i], rs[i], f);
        failures := failures + found;
        assert rest.failures == found + UnifyArgs(typeVariables, id, ls[i + 1..], rs[i + 1..], f).value.failures;
        assert failuresBefore + rest.failures ==
          failures + UnifyArgs(typeVariables, id, ls[i + 1..], rs[i + 1..], f).value.failures;
        i := i + 1;
      }
      assert ls[i..] == [] && rs[i..] == [];
      assert failures + [] == failures;
    }

    /**
     * Copies `t` for one use of a polymorphic declaration: a variable reached
     * is replaced by a new generic variable when generalizing or when it is
     * generic itself, one new variable per source index; other variables are
     * returned as given.  `mapping` is the per-call rename map, hidden from
     * the caller, and the new variables are the only change to the store.
     */
    method Fresh(t: Type, generalize: bool) returns (r: Type, ghost mapping: map<nat, Type>)
      requires Valid() && Owned(t, id, |typeVariables|) && Expandable(typeVariables, t)
      modifies this
      ensures Valid() && builtinTypes == old(builtinTypes)
      ensures |old(typeVariables)| <= |typeVariables| && typeVariables[..|old(typeVariables)|] == old(typeVariables)
      ensures forall j :: |old(typeVariables)| <= j < |typeVariables| ==> typeVariables[j].None?
      ensures FreshMap(mapping, id, |old(typeVariables)|, |typeVariables|)
      ensures Covered(ExpansionOf(old(typeVariables), t), generalize, mapping.Keys)
      ensures Expandable(typeVariables, r)
      ensures ExpansionOf(typeVariables, r) == Subst(ExpansionOf(old(typeVariables), t), generalize, mapping)
      ensures var rt := Substitution.Resolve(old(typeVariables), t);
        rt.Var? && !generalize && !rt.generic ==> r == t && typeVariables == old(typeVariables)
    {
      r, mapping := FreshImpl(t, generalize, map[], |typeVariables|);
    }

    /** One step of `Fresh`, with the rename map threaded through. */
    method FreshImpl(t: Type, generalize: bool, mapping: map<nat, Type>, ghost base: nat)
      returns (r: Type, mapping': map<nat, Type>)
      requires Valid() && Owned(t, id, |typeVariables|) && Expandable(typeVariables, t)
      requires base <= |typeVariables| && FreshMap(mapping, id, base, |typeVariables|)
      requires forall j :: base <= j < |typeVariables| ==> typeVariables[j].None?
      modifies this
      ensures Valid() && builtinTypes == old(builtinTypes)
      ensures |old(typeVariables)| <= |typeVariables| && typeVariables[..|old(typeVariables)|] == old(typeVariables)
      ensures forall j :: base <= j < |typeVariables| ==> typeVariables[j].None?
      ensures FreshMap(mapping', id, base, |typeVariables|) && MapExtends(mapping, mapping')
      ensures Covered(ExpansionOf(old(typeVariables), t), generalize, mapping'.Keys)
      ensures Expandable(typeVariables, r)
      ensures ExpansionOf(typeVariables, r) == Subst(ExpansionOf(old(typeVariables), t), generalize, mapping')
      ensures var rt := Substitution.Resolve(old(typeVariables), t);
        rt.Var? && !generalize && !rt.generic ==> r == t && typeVariables == old(typeVariables)
      decreases Size(ExpansionOf(typeVariables, t))
    {
      ghost var vars0 := typeVariables;
      ExpandResolve(vars0, t);
      ResolveOwned(vars0, id, t);
      var rt := Resolve(t);
      if rt.Expr? {
        ExpandArgs(vars0, rt);
        var ys;
        ys, mapping' := FreshArgs(rt.args, generalize, mapping, base, Size(ExpansionOf(vars0, t)));
        r := Expr(rt.ctor, ys);
        ExpandRenamedExpr(vars0, typeVariables, t, rt, ys, generalize, mapping');
      } else {
        assert Validate(rt);
        ExpandUnbound(vars0, rt);
        if generalize || rt.generic {
          if rt.index in mapping {
            r := mapping[rt.index];
            mapping' := mapping;
          } else {
            r := FreshTypeVariable(true);
            mapping' := mapping[rt.index := r];
          }
          ExpandUnbound(typeVariables, r);
        } else {
          r := t;
          mapping' := mapping;
        }
      }
    }

    /** The argument loop of `FreshImpl`, in order, sharing one rename map. */
    method FreshArgs(args: seq<Type>, generalize: bool, mapping: map<nat, Type>, ghost base: nat, ghost bound: nat)
      returns (ys: seq<Type>, mapping': map<nat, Type>)
      requires Valid() && base <= |typeVariables| && FreshMap(mapping, id, base, |typeVariables|)
      requires forall j :: base <= j < |typeVariables| ==> typeVariables[j].None?
      requires forall k :: 0 <= k < |args| ==>
        Owned(args[k], id, |typeVariables|) && Expandable(typeVariables, args[k])
        && Size(ExpansionOf(typeVariables, args[k])) < bound
      modifies this
      ensures Valid() && builtinTypes == old(builtinTypes)
      ensures |old(typeVariables)| <= |typeVariables| && typeVariables[..|old(typeVariables)|] == old(typeVariables)
      ensures forall j :: base <= j < |typeVariables| ==> typeVariables[j].None?
      ensures FreshMap(mapping', id, base, |typeVariables|) && MapExtends(mapping, mapping')
      ensures |ys| == |args|
      ensures forall k :: 0 <= k < |args| ==>
        && Covered(ExpansionOf(old(typeVariables), args[k]), generalize, mapping'.Keys)
        && Expandable(typeVariables, ys[k])
        && ExpansionOf(typeVariables, ys[k]) == Subst(ExpansionOf(old(typeVariables), args[k]), generalize, mapping')
      decreases bound, 0
    {
      ghost var vars0 := typeVariables;
      ys := [];
      mapping' := mapping;
      var i := 0;
      while i < |args|
        invariant 0 <= i <= |args| && |ys| == i
        invariant Valid() && builtinTypes == old(builtinTypes)
        invariant |vars0| <= |typeVariables| && typeVariables[..|vars0|] == vars0
        invariant forall j :: base <= j < |typeVariables| ==> typeVariables[j].None?
        invariant FreshMap(mapping', id, base, |typeVariables|) && MapExtends(mapping, mapping')
        invariant forall k :: 0 <= k < i ==>
          && Covered(ExpansionOf(vars0, args[k]), generalize, mapping'.Keys)
          && Expandable(typeVariables, ys[k])
          && ExpansionOf(typeVariables, ys[k]) == Subst(ExpansionOf(vars0, args[k]), generalize, mapping')
      {
        ghost var varsBefore := typeVariables;
        ghost var mapBefore := mapping';
        ExpandPrefix(vars0, typeVariables, args[i]);
        OwnedGrow(args[i], id, |vars0|, |typeVariables|);
        var y;
        y, mapping' := FreshImpl(args[i], generalize, mapping', base);
        ExpandPrefix(vars0, varsBefore, args[i]);
        forall k | 0 <= k < i
          ensures Covered(ExpansionOf(vars0, args[k]), generalize, mapping'.Keys)
          ensures Expandable(typeVariables, ys[k])
          ensures ExpansionOf(typeVariables, ys[k]) == Subst(ExpansionOf(vars0, args[k]), generalize, mapping')
        {
          ExpandPrefix(varsBefore, typeVariables, ys[k]);
          SubstExtend(ExpansionOf(vars0, args[k]), generalize, mapBefore, mapping');
          CoveredGrow(ExpansionOf(vars0, args[k]), generalize, mapBefore.Keys, mapping'.Keys);
        }
        ys := ys + [y];
        i := i + 1;
      }
    }
  }

  /**
   * Two generalizing copies of one type have the same shape and share no
   * variable: the first copy's variables all lie in the slots the first call
   * added, below `mid`, and the second's in the slots the second call added.
   */
  method FreshTwice(ts: TypeSystem, t: Type) returns (first: Type, second: Type, ghost mid: nat)
    requires ts.Valid() && Owned(t, ts.id, |ts.typeVariables|) && Expandable(ts.typeVariables, t)
    modifies ts
    ensures ts.Valid()
    ensures |old(ts.typeVariables)| <= mid <= |ts.typeVariables|
    ensures Expandable(ts.typeVariables, first) && Expandable(ts.typeVariables, second)
    ensures SameSkeleton(ExpansionOf(ts.typeVariables, first), ExpansionOf(ts.typeVariables, second))
    ensures VarsWithin(ExpansionOf(ts.typeVariables, first), |old(ts.typeVariables)|, mid)
    ensures VarsWithin(ExpansionOf(ts.typeVariables, second), mid, |ts.typeVariables|)
  {
    ghost var vars0 := ts.typeVariables;
    ghost var e := ExpansionOf(vars0, t);
    ghost var m1, m2;
    first, m1 := ts.Fresh(t, true);
    ghost var vars1 := ts.typeVariables;
    mid := |vars1|;
    ExpandPrefix(vars0, vars1, t);
    OwnedGrow(t, ts.id, |vars0|, |vars1|);
    second, m2 := ts.Fresh(t, true);
    ExpandPrefix(vars1, ts.typeVariables, first);
    SubstWithin(e, m1, ts.id, |vars0|, mid);
    SubstWithin(e, m2, ts.id, mid, |ts.typeVariables|);
    SubstKeepsSkeleton(e, true, m1);
    SubstKeepsSkeleton(e, true, m2);
    SkeletonJoin(Subst(e, true, m1), Subst(e, true, m2), e);
  }

  /** The expression case of `fresh`: rebuilding from renamed arguments renames the expansion. */
  lemma ExpandRenamedExpr(vars0: Table, vars1: Table, t: Type, rt: Type, ys: seq<Type>,
                          generalize: bool, m: map<nat, Type>)
    requires ChainsAcyclic(vars0) && Expandable(vars0, t) && rt == Resolve(vars0, t) && rt.Expr?
    requires |ys| == |rt.args|
    requires forall k :: 0 <= k < |ys| ==>
      && Expandable(vars0, rt.args[k])
      && Covered(ExpansionOf(vars0, rt.args[k]), generalize, m.Keys)
      && Expandable(vars1, ys[k])
      && ExpansionOf(vars1, ys[k]) == Subst(ExpansionOf(vars0, rt.args[k]), generalize, m)
    ensures Covered(ExpansionOf(vars0, t), generalize, m.Keys)
    ensures Expandable(vars1, Expr(rt.ctor, ys))
    ensures ExpansionOf(vars1, Expr(rt.ctor, ys)) == Subst(ExpansionOf(vars0, t), generalize, m)
  {
    ExpandResolve(vars0, t);
    ExpandArgs(vars0, rt);
    ExpandExpr(vars1, Expr(rt.ctor, ys));
    var e := ExpansionOf(vars0, t);
    assert Subst(e, generalize, m).args == ExpansionOf(vars1, Expr(rt.ctor, ys)).args;
  }
}
