/**
 * Unification over a substitution table, as a function of the table.  It
 * resolves both sides, binds an unbound variable to the other side, and on
 * two expressions either records one failure (different constructors or
 * argument counts) or unifies the arguments pairwise, threading the table
 * from left to right and collecting the failures of every position.
 *
 * There is no occurs check, so unification can run forever (two variables
 * each bound to a pair containing itself).  `fuel` bounds the recursion
 * depth; `None` means the fuel ran out, and the store's `Unify` method is
 * specified only for runs that finish.
 */
module Unification {
  import opened Wrappers
  import opened Types
  import opened Substitution

  datatype UnifyResult = UnifyResult(failures: seq<UnificationFailure>, vars: Table)

  predicate AllOwned(ts: seq<Type>, id: nat, n: nat) {
    forall k :: 0 <= k < |ts| ==> Owned(ts[k], id, n)
  }

  /** What a finished run leaves behind: a valid store of the same size with every old binding kept. */
  ghost predicate Outcome(vars: Table, id: nat, r: Option<UnifyResult>) {
    r.Some? ==> StoreValid(r.value.vars, id) && |r.value.vars| == |vars| && Extends(vars, r.value.vars)
  }

  function UnifyFuel(vars: Table, id: nat, a: Type, b: Type, fuel: nat): (r: Option<UnifyResult>)
    requires StoreValid(vars, id) && Owned(a, id, |vars|) && Owned(b, id, |vars|)
    ensures Outcome(vars, id, r)
    decreases fuel, 0
  {
    if fuel == 0 then None
    else
      var ra := Resolve(vars, a);
      var rb := Resolve(vars, b);
      ResolveOwned(vars, id, a);
      ResolveOwned(vars, id, b);
      if ra.Var? && rb.Var? then
        if ra.index != rb.index then
          BindKeepsValid(vars, id, ra.index, rb);
          Some(UnifyResult([], vars[ra.index := Some(rb)]))
        else Some(UnifyResult([], vars))
      else if ra.Var? then
        BindKeepsValid(vars, id, ra.index, rb);
        Some(UnifyResult([], vars[ra.index := Some(rb)]))
      else if rb.Var? then
        BindKeepsValid(vars, id, rb.index, ra);
        Some(UnifyResult([], vars[rb.index := Some(ra)]))
      else if ra.ctor != rb.ctor then Some(UnifyResult([UnificationFailure(ra, rb)], vars))
      else if |ra.args| != |rb.args| then Some(UnifyResult([UnificationFailure(ra, rb)], vars))
      else UnifyArgs(vars, id, ra.args, rb.args, fuel - 1)
  }

  /** Unifies `ls[k]` with `rs[k]` for k = 0, 1, ..., concatenating the failures in that order. */
  function UnifyArgs(vars: Table, id: nat, ls: seq<Type>, rs: seq<Type>, fuel: nat): (r: Option<UnifyResult>)
    requires StoreValid(vars, id) && |ls| == |rs| && AllOwned(ls, id, |vars|) && AllOwned(rs, id, |vars|)
    ensures Outcome(vars, id, r)
    decreases fuel, |ls|
  {
    if ls == [] then Some(UnifyResult([], vars))
    else
      match UnifyFuel(vars, id, ls[0], rs[0], fuel)
      case None => None
      case Some(first) =>
        match UnifyArgs(first.vars, id, ls[1..], rs[1..], fuel)
        case None => None
        case Some(rest) =>
          assert Extends(vars, rest.vars) by {
            assert Extends(first.vars, rest.vars);
          }
          Some(UnifyResult(first.failures + rest.failures, rest.vars))
  }
}
