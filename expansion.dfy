/**
 * Full expansion of a type through the substitution table: every bound
 * variable, at any depth, replaced by what it is bound to.  A type has an
 * expansion exactly when no cyclic binding is reachable from it; the
 * pretty-printer and `fresh` recurse into bound expressions and are defined
 * on such types only, with the size of the expansion as their measure.
 */
module Expansion {
  import opened Wrappers
  import opened Types
  import opened Substitution

  /** Expansion with at most `fuel` binding steps along any path; `None` when that is not enough. */
  function ExpandFuel(vars: Table, t: Type, fuel: nat): (r: Option<Type>)
    decreases fuel, t
  {
    match t
    case Var(_, i, _) =>
      if i >= |vars| then None
      else if vars[i].None? then Some(t)
      else if fuel == 0 then None
      else ExpandFuel(vars, vars[i].value, fuel - 1)
    case Expr(c, args) =>
      var es := seq(|args|, k requires 0 <= k < |args| => ExpandFuel(vars, args[k], fuel));
      if forall k :: 0 <= k < |es| ==> es[k].Some? then
        Some(Expr(c, seq(|es|, k requires 0 <= k < |es| => es[k].value)))
      else None
  }

  /** No cyclic binding is reachable from `t`, and every variable reached names a slot. */
  ghost predicate Expandable(vars: Table, t: Type) {
    exists fuel :: ExpandFuel(vars, t, fuel).Some?
  }

  ghost function ExpansionOf(vars: Table, t: Type): (e: Type)
    requires Expandable(vars, t)
  {
    var fuel: nat :| ExpandFuel(vars, t, fuel).Some?; ExpandFuel(vars, t, fuel).value
  }

  /** What the expansion of an expression is made of, at a given fuel. */
  lemma ExpandFuelExpr(vars: Table, t: Type, f: nat)
    requires t.Expr?
    ensures ExpandFuel(vars, t, f).Some? <==> forall k :: 0 <= k < |t.args| ==> ExpandFuel(vars, t.args[k], f).Some?
    ensures ExpandFuel(vars, t, f).Some? ==>
      && ExpandFuel(vars, t, f).value.Expr?
      && ExpandFuel(vars, t, f).value.ctor == t.ctor
      && |ExpandFuel(vars, t, f).value.args| == |t.args|
      && forall k :: 0 <= k < |t.args| ==> ExpandFuel(vars, t, f).value.args[k] == ExpandFuel(vars, t.args[k], f).value
  {
    var es := seq(|t.args|, k requires 0 <= k < |t.args| => ExpandFuel(vars, t.args[k], f));
    assert forall k :: 0 <= k < |t.args| ==> es[k] == ExpandFuel(vars, t.args[k], f);
  }

  /** More fuel never changes a finished expansion. */
  lemma {:induction false} ExpandMono(vars: Table, t: Type, f: nat, g: nat)
    requires ExpandFuel(vars, t, f).Some? && f <= g
    ensures ExpandFuel(vars, t, g) == ExpandFuel(vars, t, f)
    decreases f, t
  {
    match t
    case Var(_, i, _) =>
      if vars[i].Some? {
        ExpandMono(vars, vars[i].value, f - 1, g - 1);
      }
    case Expr(c, args) =>
      ExpandFuelExpr(vars, t, f);
      forall k | 0 <= k < |args| ensures ExpandFuel(vars, args[k], g) == ExpandFuel(vars, args[k], f) {
        ExpandMono(vars, args[k], f, g);
      }
      var ef := seq(|args|, k requires 0 <= k < |args| => ExpandFuel(vars, args[k], f));
      var eg := seq(|args|, k requires 0 <= k < |args| => ExpandFuel(vars, args[k], g));
      assert ef == eg;
  }

  /** Any sufficient fuel gives the expansion. */
  lemma ExpansionAt(vars: Table, t: Type, f: nat)
    requires ExpandFuel(vars, t, f).Some?
    ensures Expandable(vars, t) && ExpansionOf(vars, t) == ExpandFuel(vars, t, f).value
  {
    var f0: nat :| ExpandFuel(vars, t, f0).Some? && ExpansionOf(vars, t) == ExpandFuel(vars, t, f0).value;
    if f0 <= f { ExpandMono(vars, t, f0, f); } else { ExpandMono(vars, t, f, f0); }
  }

  /** A type and its resolution have the same expansion. */
  lemma {:induction false} ExpandResolve(vars: Table, t: Type)
    requires ChainsAcyclic(vars) && Expandable(vars, t)
    ensures InRange(vars, t)
    ensures Expandable(vars, Resolve(vars, t))
    ensures ExpansionOf(vars, Resolve(vars, t)) == ExpansionOf(vars, t)
    decreases if t.Var? then ChainRank(vars)[t.index] + 1 else 0
  {
    if t.Var? && vars[t.index].Some? {
      var f: nat :| ExpandFuel(vars, t, f).Some?;
      ExpansionAt(vars, t, f);
      ExpansionAt(vars, vars[t.index].value, f - 1);
      ExpandResolve(vars, vars[t.index].value);
    }
  }

  /** The expansion of an unbound variable is the variable. */
  lemma ExpandUnbound(vars: Table, t: Type)
    requires t.Var? && t.index < |vars| && vars[t.index].None?
    ensures Expandable(vars, t) && ExpansionOf(vars, t) == t
  {
    ExpansionAt(vars, t, 0);
  }

  /** The arguments of an expandable expression are expandable and expand to the arguments of its expansion. */
  lemma ExpandArgs(vars: Table, t: Type)
    requires t.Expr? && Expandable(vars, t)
    ensures ExpansionOf(vars, t).Expr? && ExpansionOf(vars, t).ctor == t.ctor
    ensures |ExpansionOf(vars, t).args| == |t.args|
    ensures forall k :: 0 <= k < |t.args| ==>
      Expandable(vars, t.args[k]) && ExpansionOf(vars, t).args[k] == ExpansionOf(vars, t.args[k])
    ensures forall k :: 0 <= k < |t.args| ==>
      Size(ExpansionOf(vars, t.args[k])) < Size(ExpansionOf(vars, t))
  {
    var f: nat :| ExpandFuel(vars, t, f).Some? && ExpansionOf(vars, t) == ExpandFuel(vars, t, f).value;
    ExpandFuelExpr(vars, t, f);
    forall k | 0 <= k < |t.args|
      ensures Expandable(vars, t.args[k]) && ExpansionOf(vars, t).args[k] == ExpansionOf(vars, t.args[k])
    {
      ExpansionAt(vars, t.args[k], f);
    }
    forall k | 0 <= k < |t.args| ensures Size(ExpansionOf(vars, t.args[k])) < Size(ExpansionOf(vars, t)) {
      ArgSmaller(ExpansionOf(vars, t).args, k);
    }
  }

  /** One fuel that expands every type of a list. */
  lemma {:induction false} CommonFuel(vars: Table, ts: seq<Type>) returns (f: nat)
    requires forall k :: 0 <= k < |ts| ==> Expandable(vars, ts[k])
    ensures forall k :: 0 <= k < |ts| ==> ExpandFuel(vars, ts[k], f).Some?
  {
    if ts == [] {
      f := 0;
    } else {
      var n := |ts| - 1;
      var f0 := CommonFuel(vars, ts[..n]);
      var g: nat :| ExpandFuel(vars, ts[n], g).Some?;
      f := if f0 <= g then g else f0;
      forall k | 0 <= k < |ts| ensures ExpandFuel(vars, ts[k], f).Some? {
        if k < n {
          assert ts[..n][k] == ts[k];
          ExpandMono(vars, ts[k], f0, f);
        } else {
          ExpandMono(vars, ts[k], g, f);
        }
      }
    }
  }

  /** An expression whose arguments are expandable is expandable, and expands argument-wise. */
  lemma ExpandExpr(vars: Table, t: Type)
    requires t.Expr? && forall k :: 0 <= k < |t.args| ==> Expandable(vars, t.args[k])
    ensures Expandable(vars, t)
    ensures ExpansionOf(vars, t) ==
      Expr(t.ctor, seq(|t.args|, k requires 0 <= k < |t.args| => ExpansionOf(vars, t.args[k])))
  {
    var f := CommonFuel(vars, t.args);
    forall k | 0 <= k < |t.args| ensures ExpansionOf(vars, t.args[k]) == ExpandFuel(vars, t.args[k], f).value {
      ExpansionAt(vars, t.args[k], f);
    }
    ExpandFuelExpr(vars, t, f);
    ExpansionAt(vars, t, f);
  }

  /** Slots appended after the old ones change no expansion. */
  lemma {:induction false} ExpandFuelPrefix(vars: Table, vars2: Table, t: Type, f: nat)
    requires |vars| <= |vars2| && vars2[..|vars|] == vars
    requires ExpandFuel(vars, t, f).Some?
    ensures ExpandFuel(vars2, t, f) == ExpandFuel(vars, t, f)
    decreases f, t
  {
    match t
    case Var(_, i, _) =>
      assert vars2[i] == vars[i];
      if vars[i].Some? {
        ExpandFuelPrefix(vars, vars2, vars[i].value, f - 1);
      }
    case Expr(c, args) =>
      ExpandFuelExpr(vars, t, f);
      forall k | 0 <= k < |args| ensures ExpandFuel(vars2, args[k], f) == ExpandFuel(vars, args[k], f) {
        ExpandFuelPrefix(vars, vars2, args[k], f);
      }
      var e1 := seq(|args|, k requires 0 <= k < |args| => ExpandFuel(vars, args[k], f));
      var e2 := seq(|args|, k requires 0 <= k < |args| => ExpandFuel(vars2, args[k], f));
      assert e1 == e2;
  }

  lemma ExpandPrefix(vars: Table, vars2: Table, t: Type)
    requires |vars| <= |vars2| && vars2[..|vars|] == vars
    requires Expandable(vars, t)
    ensures Expandable(vars2, t) && ExpansionOf(vars2, t) == ExpansionOf(vars, t)
  {
    var f: nat :| ExpandFuel(vars, t, f).Some? && ExpansionOf(vars, t) == ExpandFuel(vars, t, f).value;
    ExpandFuelPrefix(vars, vars2, t, f);
    ExpansionAt(vars2, t, f);
  }
}
