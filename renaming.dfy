/**
 * The meaning of `fresh`: the expansion of the copied type is the expansion
 * of the original with every variable that is renamed (all variables when
 * generalizing, otherwise only the generic ones) replaced, through one
 * rename map, by a new generic variable.
 */
module Renaming {
  import opened Types

  /** Replaces each renamed variable `i` of `e` by `m[i]`; other nodes are kept. */
  function Subst(e: Type, generalize: bool, m: map<nat, Type>): (r: Type) {
    match e
    case Var(_, i, g) => if (generalize || g) && i in m then m[i] else e
    case Expr(c, args) => Expr(c, seq(|args|, k requires 0 <= k < |args| => Subst(args[k], generalize, m)))
  }

  /** Every variable of `e` that is renamed has an entry in `keys`. */
  predicate Covered(e: Type, generalize: bool, keys: set<nat>) {
    match e
    case Var(_, i, g) => (generalize || g) ==> i in keys
    case Expr(_, args) => forall k :: 0 <= k < |args| ==> Covered(args[k], generalize, keys)
  }

  /**
   * The rename map sends source indices to distinct generic variables of
   * store `id` whose slots lie in [lo, hi).
   */
  ghost predicate FreshMap(m: map<nat, Type>, id: nat, lo: nat, hi: nat) {
    && (forall i :: i in m ==> m[i].Var? && m[i].store == id && m[i].generic && lo <= m[i].index < hi)
    && (forall i, j :: i in m && j in m && i != j ==> m[i] != m[j])
  }

  /** `m2` keeps every entry of `m1`. */
  predicate MapExtends(m1: map<nat, Type>, m2: map<nat, Type>) {
    forall i :: i in m1 ==> i in m2 && m2[i] == m1[i]
  }

  lemma {:induction false} CoveredGrow(e: Type, generalize: bool, k1: set<nat>, k2: set<nat>)
    requires Covered(e, generalize, k1) && k1 <= k2
    ensures Covered(e, generalize, k2)
  {
    match e
    case Var(_, _, _) =>
    case Expr(_, args) =>
      forall k | 0 <= k < |args| ensures Covered(args[k], generalize, k2) {
        CoveredGrow(args[k], generalize, k1, k2);
      }
  }

  /** Entries added later do not change the renaming of a covered type. */
  lemma {:induction false} SubstExtend(e: Type, generalize: bool, m1: map<nat, Type>, m2: map<nat, Type>)
    requires Covered(e, generalize, m1.Keys) && MapExtends(m1, m2)
    ensures Subst(e, generalize, m2) == Subst(e, generalize, m1)
  {
    match e
    case Var(_, _, _) =>
    case Expr(c, args) =>
      forall k | 0 <= k < |args| ensures Subst(args[k], generalize, m2) == Subst(args[k], generalize, m1) {
        SubstExtend(args[k], generalize, m1, m2);
      }
  }

  /** Two types have the same constructors at the same places and variables at the same places. */
  predicate SameSkeleton(a: Type, b: Type) {
    match a
    case Var(_, _, _) => b.Var?
    case Expr(c, args) =>
      && b.Expr? && b.ctor == c && |b.args| == |args|
      && forall k :: 0 <= k < |args| ==> SameSkeleton(args[k], b.args[k])
  }

  /** Renaming keeps the constructor and arity skeleton when the map only holds variables. */
  lemma {:induction false} SubstKeepsSkeleton(e: Type, generalize: bool, m: map<nat, Type>)
    requires forall i :: i in m ==> m[i].Var?
    ensures SameSkeleton(Subst(e, generalize, m), e)
  {
    match e
    case Var(_, _, _) =>
    case Expr(c, args) =>
      forall k | 0 <= k < |args| ensures SameSkeleton(Subst(args[k], generalize, m), args[k]) {
        SubstKeepsSkeleton(args[k], generalize, m);
      }
  }

  /** Two types of the skeleton of `e` have the same skeleton. */
  lemma {:induction false} SkeletonJoin(a: Type, b: Type, e: Type)
    requires SameSkeleton(a, e) && SameSkeleton(b, e)
    ensures SameSkeleton(a, b)
  {
    match a
    case Var(_, _, _) =>
    case Expr(c, args) =>
      forall k | 0 <= k < |args| ensures SameSkeleton(args[k], b.args[k]) {
        SkeletonJoin(args[k], b.args[k], e.args[k]);
      }
  }

  /** Every variable of `e` names a slot in [lo, hi). */
  predicate VarsWithin(e: Type, lo: nat, hi: nat) {
    match e
    case Var(_, i, _) => lo <= i < hi
    case Expr(_, args) => forall k :: 0 <= k < |args| ==> VarsWithin(args[k], lo, hi)
  }

  /** A generalizing renaming that covers `e` puts every variable into the map's slot range. */
  lemma {:induction false} SubstWithin(e: Type, m: map<nat, Type>, id: nat, lo: nat, hi: nat)
    requires Covered(e, true, m.Keys) && FreshMap(m, id, lo, hi)
    ensures VarsWithin(Subst(e, true, m), lo, hi)
  {
    match e
    case Var(_, _, _) =>
    case Expr(c, args) =>
      forall k | 0 <= k < |args| ensures VarsWithin(Subst(args[k], true, m), lo, hi) {
        SubstWithin(args[k], m, id, lo, hi);
      }
  }

  /** Every variable of `e` is non-generic. */
  predicate NoGenericVars(e: Type) {
    match e
    case Var(_, _, g) => !g
    case Expr(_, args) => forall k :: 0 <= k < |args| ==> NoGenericVars(args[k])
  }

  /** Without generalizing, a type with no generic variable is not renamed at all. */
  lemma {:induction false} SubstNonGeneric(e: Type, m: map<nat, Type>)
    requires NoGenericVars(e)
    ensures Subst(e, false, m) == e
  {
    match e
    case Var(_, _, _) =>
    case Expr(c, args) =>
      forall k | 0 <= k < |args| ensures Subst(args[k], false, m) == args[k] {
        SubstNonGeneric(args[k], m);
      }
      assert Subst(e, false, m).args == args;
  }
}
