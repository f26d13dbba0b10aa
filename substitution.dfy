/**
 * The substitution table of the type store, as a value: slot `i` holds the
 * type variable `i` is bound to, or nothing.  Resolution, the acyclicity of
 * variable-to-variable chains, and full expansion of a type through the
 * table are defined here.
 */
module Substitution {
  import opened Wrappers
  import opened Types

  type Table = seq<Option<Type>>

  /** A variable names a slot of the table (what `resolve`'s slot access needs). */
  predicate InRange(vars: Table, t: Type) {
    t.Var? ==> t.index < |vars|
  }

  /** `t` is what resolution stops at: a type expression or an unbound variable. */
  predicate Settled(vars: Table, t: Type) {
    t.Expr? || (t.index < |vars| && vars[t.index].None?)
  }

  /** `rank` strictly decreases along every binding of a variable to a variable. */
  ghost predicate Ranked(vars: Table, rank: seq<nat>) {
    && |rank| == |vars|
    && forall i :: 0 <= i < |vars| && vars[i].Some? && vars[i].value.Var? ==>
         vars[i].value.index < |vars| && rank[vars[i].value.index] < rank[i]
  }

  /** Variable-to-variable chains in the table are acyclic. */
  ghost predicate ChainsAcyclic(vars: Table) {
    exists rank :: Ranked(vars, rank)
  }

  ghost function ChainRank(vars: Table): (rank: seq<nat>)
    requires ChainsAcyclic(vars)
    ensures Ranked(vars, rank)
  {
    var rank :| Ranked(vars, rank); rank
  }

  /**
   * The store invariant: chains are acyclic and every variable stored in a
   * slot belongs to store `id` and names a slot of the table.
   */
  ghost predicate StoreValid(vars: Table, id: nat) {
    && ChainsAcyclic(vars)
    && forall i :: 0 <= i < |vars| && vars[i].Some? ==> Owned(vars[i].value, id, |vars|)
  }

  /** The table `vars2` keeps every binding of `vars` (it may have more slots). */
  predicate Extends(vars: Table, vars2: Table) {
    && |vars| <= |vars2|
    && forall i :: 0 <= i < |vars| && vars[i].Some? ==> vars2[i] == vars[i]
  }

  /**
   * Follows variable bindings until an unbound variable or a type expression
   * is reached.
   */
  function Resolve(vars: Table, t: Type): (r: Type)
    requires ChainsAcyclic(vars) && InRange(vars, t)
    ensures Settled(vars, r)
    ensures t.Expr? ==> r == t
    decreases if t.Var? then ChainRank(vars)[t.index] + 1 else 0
  {
    if t.Var? && vars[t.index].Some? then Resolve(vars, vars[t.index].value) else t
  }

  /** Resolving a resolved type changes nothing. */
  lemma ResolveIdempotent(vars: Table, t: Type)
    requires ChainsAcyclic(vars) && InRange(vars, t)
    ensures Resolve(vars, Resolve(vars, t)) == Resolve(vars, t)
  {
  }

  /** A settled type resolves to itself; nothing else does. */
  lemma ResolveFixedPoint(vars: Table, t: Type)
    requires ChainsAcyclic(vars) && InRange(vars, t)
    ensures Resolve(vars, t) == t <==> Settled(vars, t)
  {
  }

  /** Resolution stays inside the store's own variables. */
  lemma {:induction false} ResolveOwned(vars: Table, id: nat, t: Type)
    requires StoreValid(vars, id) && Owned(t, id, |vars|)
    ensures Owned(Resolve(vars, t), id, |vars|)
    decreases if t.Var? then ChainRank(vars)[t.index] + 1 else 0
  {
    if t.Var? && vars[t.index].Some? {
      ResolveOwned(vars, id, vars[t.index].value);
    }
  }

  /** In a table with more bindings, resolution continues from where the old one stopped. */
  lemma {:induction false} ResolveExtends(vars: Table, vars2: Table, t: Type)
    requires ChainsAcyclic(vars) && ChainsAcyclic(vars2) && Extends(vars, vars2)
    requires InRange(vars, t)
    ensures Resolve(vars2, t) == Resolve(vars2, Resolve(vars, t))
    decreases if t.Var? then ChainRank(vars)[t.index] + 1 else 0
  {
    if t.Var? && vars[t.index].Some? {
      ResolveExtends(vars, vars2, vars[t.index].value);
    }
  }

  /**
   * Binding an unbound variable to a settled type other than itself keeps
   * variable chains acyclic.
   */
  lemma BindKeepsAcyclic(vars: Table, v: nat, b: Type)
    requires ChainsAcyclic(vars) && v < |vars| && vars[v].None?
    requires Settled(vars, b) && (b.Var? ==> b.index != v)
    ensures ChainsAcyclic(vars[v := Some(b)])
  {
    var rank := ChainRank(vars);
    var vars2 := vars[v := Some(b)];
    if b.Var? {
      var rank2 := seq(|vars|, j requires 0 <= j < |vars| => if j == b.index then 0 else rank[j] + 1);
      assert Ranked(vars2, rank2);
    } else {
      assert Ranked(vars2, rank);
    }
  }

  /** The same for the full store invariant, when `b` belongs to the store. */
  lemma BindKeepsValid(vars: Table, id: nat, v: nat, b: Type)
    requires StoreValid(vars, id) && v < |vars| && vars[v].None?
    requires Settled(vars, b) && (b.Var? ==> b.index != v) && Owned(b, id, |vars|)
    ensures StoreValid(vars[v := Some(b)], id)
    ensures Extends(vars, vars[v := Some(b)])
  {
    BindKeepsAcyclic(vars, v, b);
  }

  /** Appending unbound slots keeps the store invariant. */
  lemma {:induction false} OwnedGrow(t: Type, id: nat, n: nat, m: nat)
    requires Owned(t, id, n) && n <= m
    ensures Owned(t, id, m)
  {
    match t
    case Var(_, _, _) =>
    case Expr(_, args) =>
      forall k | 0 <= k < |args| ensures Owned(args[k], id, m) {
        OwnedGrow(args[k], id, n, m);
      }
  }

  lemma AppendKeepsValid(vars: Table, id: nat)
    requires StoreValid(vars, id)
    ensures StoreValid(vars + [None], id)
    ensures Extends(vars, vars + [None])
  {
    var rank := ChainRank(vars);
    var vars2 := vars + [None];
    assert Ranked(vars2, rank + [0]);
    forall i | 0 <= i < |vars2| && vars2[i].Some? ensures Owned(vars2[i].value, id, |vars2|) {
      OwnedGrow(vars[i].value, id, |vars|, |vars2|);
    }
  }
}
