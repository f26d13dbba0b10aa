/**
 * What unification promises: the case analysis on the resolved pair, and
 * soundness: a run without failures leaves the two types equal under the
 * resulting substitution, to every depth.
 */
module UnificationProperties {
  import opened Wrappers
  import opened Types
  import opened Substitution
  import opened Unification

  /** Same variable index after resolution: no failure and no change. */
  lemma UnifySameVariable(vars: Table, id: nat, a: Type, b: Type, fuel: nat)
    requires StoreValid(vars, id) && Owned(a, id, |vars|) && Owned(b, id, |vars|) && fuel > 0
    requires Resolve(vars, a).Var? && Resolve(vars, b).Var?
    requires Resolve(vars, a).index == Resolve(vars, b).index
    ensures UnifyFuel(vars, id, a, b, fuel) == Some(UnifyResult([], vars))
  {
  }

  /** An unbound variable on the left is bound to the resolved right side, with no failure. */
  lemma UnifyBindsLeft(vars: Table, id: nat, a: Type, b: Type, fuel: nat)
    requires StoreValid(vars, id) && Owned(a, id, |vars|) && Owned(b, id, |vars|) && fuel > 0
    requires Resolve(vars, a).Var?
    requires Resolve(vars, b).Var? ==> Resolve(vars, b).index != Resolve(vars, a).index
    ensures UnifyFuel(vars, id, a, b, fuel) ==
      Some(UnifyResult([], vars[Resolve(vars, a).index := Some(Resolve(vars, b))]))
  {
  }

  /** An expression on the left and an unbound variable on the right binds the right one. */
  lemma UnifyBindsRight(vars: Table, id: nat, a: Type, b: Type, fuel: nat)
    requires StoreValid(vars, id) && Owned(a, id, |vars|) && Owned(b, id, |vars|) && fuel > 0
    requires Resolve(vars, a).Expr? && Resolve(vars, b).Var?
    ensures UnifyFuel(vars, id, a, b, fuel) ==
      Some(UnifyResult([], vars[Resolve(vars, b).index := Some(Resolve(vars, a))]))
  {
  }

  /** Different constructors or argument counts: exactly one failure, on the resolved pair, and no change. */
  lemma UnifyMismatch(vars: Table, id: nat, a: Type, b: Type, fuel: nat)
    requires StoreValid(vars, id) && Owned(a, id, |vars|) && Owned(b, id, |vars|) && fuel > 0
    requires Resolve(vars, a).Expr? && Resolve(vars, b).Expr?
    requires Resolve(vars, a).ctor != Resolve(vars, b).ctor || |Resolve(vars, a).args| != |Resolve(vars, b).args|
    ensures UnifyFuel(vars, id, a, b, fuel) ==
      Some(UnifyResult([UnificationFailure(Resolve(vars, a), Resolve(vars, b))], vars))
  {
  }

  /** Same constructor and argument count: the result is that of unifying the arguments in order. */
  lemma UnifyDescends(vars: Table, id: nat, a: Type, b: Type, fuel: nat)
    requires StoreValid(vars, id) && Owned(a, id, |vars|) && Owned(b, id, |vars|) && fuel > 0
    requires Resolve(vars, a).Expr? && Resolve(vars, b).Expr?
    requires Resolve(vars, a).ctor == Resolve(vars, b).ctor && |Resolve(vars, a).args| == |Resolve(vars, b).args|
    ensures Owned(Resolve(vars, a), id, |vars|) && Owned(Resolve(vars, b), id, |vars|)
    ensures UnifyFuel(vars, id, a, b, fuel) ==
      UnifyArgs(vars, id, Resolve(vars, a).args, Resolve(vars, b).args, fuel - 1)
  {
    ResolveOwned(vars, id, a);
    ResolveOwned(vars, id, b);
  }

  /**
   * `a` and `b` are equal to depth `d` under the table: after resolution
   * they are the same variable, or expressions with the same constructor
   * and argument count whose arguments are equal to depth `d - 1`.
   */
  ghost predicate Agree(vars: Table, id: nat, a: Type, b: Type, d: nat)
    requires StoreValid(vars, id) && Owned(a, id, |vars|) && Owned(b, id, |vars|)
    decreases d
  {
    ResolveOwned(vars, id, a);
    ResolveOwned(vars, id, b);
    var ra := Resolve(vars, a);
    var rb := Resolve(vars, b);
    || d == 0
    || (ra.Var? && rb.Var? && ra.index == rb.index)
    || (&& ra.Expr? && rb.Expr? && ra.ctor == rb.ctor && |ra.args| == |rb.args|
        && forall k :: 0 <= k < |ra.args| ==> Agree(vars, id, ra.args[k], rb.args[k], d - 1))
  }

  lemma {:induction false} AgreeReflexive(vars: Table, id: nat, t: Type, d: nat)
    requires StoreValid(vars, id) && Owned(t, id, |vars|)
    ensures Agree(vars, id, t, t, d)
    decreases d
  {
    ResolveOwned(vars, id, t);
    var r := Resolve(vars, t);
    if d > 0 && r.Expr? {
      forall k | 0 <= k < |r.args| ensures Agree(vars, id, r.args[k], r.args[k], d - 1) {
        AgreeReflexive(vars, id, r.args[k], d - 1);
      }
    }
  }

  /** Types with the same resolution agree to every depth. */
  lemma SameResolutionAgree(vars: Table, id: nat, a: Type, b: Type, d: nat)
    requires StoreValid(vars, id) && Owned(a, id, |vars|) && Owned(b, id, |vars|)
    requires Resolve(vars, a) == Resolve(vars, b)
    ensures Agree(vars, id, a, b, d)
  {
    ResolveOwned(vars, id, a);
    AgreeReflexive(vars, id, Resolve(vars, a), d);
    ResolveIdempotent(vars, a);
  }

  /** Agreement survives further bindings. */
  lemma {:induction false} AgreeExtends(vars: Table, vars2: Table, id: nat, a: Type, b: Type, d: nat)
    requires StoreValid(vars, id) && StoreValid(vars2, id) && Extends(vars, vars2) && |vars2| == |vars|
    requires Owned(a, id, |vars|) && Owned(b, id, |vars|)
    requires Agree(vars, id, a, b, d)
    ensures Agree(vars2, id, a, b, d)
    decreases d
  {
    ResolveOwned(vars, id, a);
    ResolveOwned(vars, id, b);
    var ra := Resolve(vars, a);
    var rb := Resolve(vars, b);
    ResolveExtends(vars, vars2, a);
    ResolveExtends(vars, vars2, b);
    if d == 0 {
    } else if ra.Var? && rb.Var? && ra.index == rb.index {
      if vars2[ra.index].Some? {
        SameResolutionAgree(vars2, id, a, b, d);
      }
    } else {
      forall k | 0 <= k < |ra.args| ensures Agree(vars2, id, ra.args[k], rb.args[k], d - 1) {
        AgreeExtends(vars, vars2, id, ra.args[k], rb.args[k], d - 1);
      }
    }
  }

  /** Binding `v` to the settled `b` makes `v` resolve to `b`, and leaves `b` resolving to itself. */
  lemma BindResolves(vars: Table, id: nat, v: Type, b: Type, t: Type)
    requires StoreValid(vars, id) && v.Var? && v.index < |vars| && vars[v.index].None?
    requires Settled(vars, b) && (b.Var? ==> b.index != v.index) && Owned(b, id, |vars|)
    requires InRange(vars, t) && (Resolve(vars, t) == v || Resolve(vars, t) == b)
    ensures StoreValid(vars[v.index := Some(b)], id)
    ensures Resolve(vars[v.index := Some(b)], t) == b
  {
    var vars2 := vars[v.index := Some(b)];
    BindKeepsValid(vars, id, v.index, b);
    ResolveExtends(vars, vars2, t);
  }

  /** Soundness: a finished run with no failures makes `a` and `b` agree to every depth. */
  lemma {:induction false} UnifySound(vars: Table, id: nat, a: Type, b: Type, fuel: nat, d: nat)
    requires StoreValid(vars, id) && Owned(a, id, |vars|) && Owned(b, id, |vars|)
    requires UnifyFuel(vars, id, a, b, fuel).Some? && UnifyFuel(vars, id, a, b, fuel).value.failures == []
    ensures Agree(UnifyFuel(vars, id, a, b, fuel).value.vars, id, a, b, d)
    decreases fuel, 0
  {
    ResolveOwned(vars, id, a);
    ResolveOwned(vars, id, b);
    var ra := Resolve(vars, a);
    var rb := Resolve(vars, b);
    if ra.Var? && rb.Var? && ra.index == rb.index {
      UnifySameVariable(vars, id, a, b, fuel);
    } else if ra.Var? {
      UnifyBindsLeft(vars, id, a, b, fuel);
      BindSound(vars, id, a, b, ra, rb, d);
    } else if rb.Var? {
      UnifyBindsRight(vars, id, a, b, fuel);
      BindSound(vars, id, a, b, rb, ra, d);
    } else if ra.ctor != rb.ctor || |ra.args| != |rb.args| {
      UnifyMismatch(vars, id, a, b, fuel);
    } else {
      UnifyDescends(vars, id, a, b, fuel);
      if d > 0 {
        UnifyArgsSound(vars, id, ra.args, rb.args, fuel - 1, d - 1);
        DescendSound(vars, UnifyFuel(vars, id, a, b, fuel).value.vars, id, a, b, d);
      }
    }
  }

  /** The binding cases of soundness: both sides now resolve to the bound type. */
  lemma BindSound(vars: Table, id: nat, a: Type, b: Type, v: Type, t: Type, d: nat)
    requires StoreValid(vars, id) && Owned(a, id, |vars|) && Owned(b, id, |vars|)
    requires v.Var? && v.index < |vars| && vars[v.index].None?
    requires Settled(vars, t) && (t.Var? ==> t.index != v.index) && Owned(t, id, |vars|)
    requires (Resolve(vars, a) == v && Resolve(vars, b) == t) || (Resolve(vars, a) == t && Resolve(vars, b) == v)
    ensures StoreValid(vars[v.index := Some(t)], id)
    ensures Agree(vars[v.index := Some(t)], id, a, b, d)
  {
    BindResolves(vars, id, v, t, a);
    BindResolves(vars, id, v, t, b);
    SameResolutionAgree(vars[v.index := Some(t)], id, a, b, d);
  }

  /** The descending case of soundness: the arguments agree, so the expressions do. */
  lemma DescendSound(vars: Table, vars2: Table, id: nat, a: Type, b: Type, d: nat)
    requires StoreValid(vars, id) && StoreValid(vars2, id) && Extends(vars, vars2) && |vars2| == |vars|
    requires Owned(a, id, |vars|) && Owned(b, id, |vars|) && d > 0
    requires Resolve(vars, a).Expr? && Resolve(vars, b).Expr?
    requires Resolve(vars, a).ctor == Resolve(vars, b).ctor && |Resolve(vars, a).args| == |Resolve(vars, b).args|
    requires Owned(Resolve(vars, a), id, |vars|) && Owned(Resolve(vars, b), id, |vars|)
    requires forall k :: 0 <= k < |Resolve(vars, a).args| ==>
      Agree(vars2, id, Resolve(vars, a).args[k], Resolve(vars, b).args[k], d - 1)
    ensures Agree(vars2, id, a, b, d)
  {
    ResolveExtends(vars, vars2, a);
    ResolveExtends(vars, vars2, b);
  }

  lemma {:induction false} UnifyArgsSound(vars: Table, id: nat, ls: seq<Type>, rs: seq<Type>, fuel: nat, d: nat)
    requires StoreValid(vars, id) && |ls| == |rs| && AllOwned(ls, id, |vars|) && AllOwned(rs, id, |vars|)
    requires UnifyArgs(vars, id, ls, rs, fuel).Some? && UnifyArgs(vars, id, ls, rs, fuel).value.failures == []
    ensures forall k :: 0 <= k < |ls| ==> Agree(UnifyArgs(vars, id, ls, rs, fuel).value.vars, id, ls[k], rs[k], d)
    decreases fuel, |ls|
  {
    if ls != [] {
      var first := UnifyFuel(vars, id, ls[0], rs[0], fuel).value;
      var rest := UnifyArgs(first.vars, id, ls[1..], rs[1..], fuel).value;
      UnifySound(vars, id, ls[0], rs[0], fuel, d);
      AgreeExtends(first.vars, rest.vars, id, ls[0], rs[0], d);
      UnifyArgsSound(first.vars, id, ls[1..], rs[1..], fuel, d);
      forall k | 0 <= k < |ls| ensures Agree(rest.vars, id, ls[k], rs[k], d) {
        if k > 0 {
          assert ls[1..][k - 1] == ls[k] && rs[1..][k - 1] == rs[k];
        }
      }
    }
  }
}
