/** Concrete runs of unification over small stores. */
module UnificationScenarios {
  import opened Wrappers
  import opened Types
  import opened Substitution
  import opened Unification

  function IntegerType(): (t: Type) { Expr(Builtin(Integer), []) }
  function UnitType(): (t: Type) { Expr(Builtin(Unit), []) }
  function PairOf(a: Type, b: Type): (t: Type) { Expr(Builtin(Pair), [a, b]) }
  function FunctionOf(a: Type, b: Type): (t: Type) { Expr(Builtin(Function), [a, b]) }

  /** Two unbound variables, slots 0 and 1. */
  lemma TwoUnbound(id: nat)
    ensures StoreValid([None, None], id)
  {
    assert Ranked([None, None], [0, 0]);
  }

  /** One step of the argument loop, with the first position's run and the rest's run known. */
  lemma UnifyArgsStep(vars: Table, id: nat, ls: seq<Type>, rs: seq<Type>, f: nat,
                      first: UnifyResult, rest: UnifyResult)
    requires StoreValid(vars, id) && |ls| == |rs| >= 1 && AllOwned(ls, id, |vars|) && AllOwned(rs, id, |vars|)
    requires UnifyFuel(vars, id, ls[0], rs[0], f) == Some(first)
    requires UnifyArgs(first.vars, id, ls[1..], rs[1..], f) == Some(rest)
    ensures UnifyArgs(vars, id, ls, rs, f) == Some(UnifyResult(first.failures + rest.failures, rest.vars))
  {
  }

  /**
   * `Pair(Integer, Unit)` against `Pair(Unit, Integer)` reports one failure
   * per position, in order, and binds nothing.
   */
  lemma UnifyPairsMismatchTwice(vars: Table, id: nat, fuel: nat)
    requires StoreValid(vars, id) && fuel >= 2
    ensures var a := PairOf(IntegerType(), UnitType());
      var b := PairOf(UnitType(), IntegerType());
      UnifyFuel(vars, id, a, b, fuel) == Some(UnifyResult(
        [UnificationFailure(IntegerType(), UnitType()), UnificationFailure(UnitType(), IntegerType())], vars))
  {
    var ls := [IntegerType(), UnitType()];
    var rs := [UnitType(), IntegerType()];
    var f := fuel - 1;
    var u := UnificationFailure(UnitType(), IntegerType());
    var i := UnificationFailure(IntegerType(), UnitType());
    assert UnifyArgs(vars, id, [], [], f) == Some(UnifyResult([], vars));
    assert [UnitType()][1..] == [] && [IntegerType()][1..] == [];
    UnifyArgsStep(vars, id, [UnitType()], [IntegerType()], f, UnifyResult([u], vars), UnifyResult([], vars));
    assert [u] + [] == [u] && [i] + [u] == [i, u];
    assert ls[1..] == [UnitType()] && rs[1..] == [IntegerType()];
    UnifyArgsStep(vars, id, ls, rs, f, UnifyResult([i], vars), UnifyResult([u], vars));
    assert PairOf(IntegerType(), UnitType()).args == ls;
    assert PairOf(UnitType(), IntegerType()).args == rs;
  }

  /**
   * `Function(v0, Integer)` against `Function(Integer, v1)` over two unbound
   * variables succeeds and leaves both resolving to `Integer`.
   */
  lemma UnifyFunctionsBindsBoth(id: nat, fuel: nat)
    requires fuel >= 2
    ensures StoreValid([None, None], id)
    ensures var v0 := Var(id, 0, false);
      var v1 := Var(id, 1, false);
      var r := UnifyFuel([None, None], id, FunctionOf(v0, IntegerType()), FunctionOf(IntegerType(), v1), fuel);
      && r == Some(UnifyResult([], [Some(IntegerType()), Some(IntegerType())]))
      && StoreValid(r.value.vars, id)
      && Resolve(r.value.vars, v0) == IntegerType() && Resolve(r.value.vars, v1) == IntegerType()
  {
    TwoUnbound(id);
    var vars: Table := [None, None];
    var v0 := Var(id, 0, false);
    var v1 := Var(id, 1, false);
    var vars1: Table := [Some(IntegerType()), None];
    var vars2: Table := [Some(IntegerType()), Some(IntegerType())];
    assert vars[0 := Some(IntegerType())] == vars1;
    assert vars1[1 := Some(IntegerType())] == vars2;
    assert UnifyFuel(vars, id, v0, IntegerType(), fuel - 1) == Some(UnifyResult([], vars1));
    assert StoreValid(vars1, id);
    assert UnifyFuel(vars1, id, IntegerType(), v1, fuel - 1) == Some(UnifyResult([], vars2));
    assert StoreValid(vars2, id);
    assert UnifyArgs(vars2, id, [], [], fuel - 1) == Some(UnifyResult([], vars2));
    assert [IntegerType()][1..] == [] && [v1][1..] == [];
    UnifyArgsStep(vars1, id, [IntegerType()], [v1], fuel - 1, UnifyResult([], vars2), UnifyResult([], vars2));
    var none: seq<UnificationFailure> := [];
    assert none + none == none;
    var ls := FunctionOf(v0, IntegerType()).args;
    var rs := FunctionOf(IntegerType(), v1).args;
    assert ls[1..] == [IntegerType()] && rs[1..] == [v1];
    UnifyArgsStep(vars, id, ls, rs, fuel - 1, UnifyResult([], vars1), UnifyResult([], vars2));
    assert Resolve(vars2, v0) == IntegerType();
  }

  /** Without an occurs check, a variable unifies with a pair containing itself and gets bound to it. */
  lemma UnifyBindsCycle(id: nat, fuel: nat)
    requires fuel >= 1
    ensures StoreValid([None, None], id)
    ensures var v0 := Var(id, 0, false);
      UnifyFuel([None, None], id, v0, PairOf(v0, IntegerType()), fuel)
        == Some(UnifyResult([], [Some(PairOf(v0, IntegerType())), None]))
  {
    TwoUnbound(id);
    var v0 := Var(id, 0, false);
    assert [None, None][0 := Some(PairOf(v0, IntegerType()))] == [Some(PairOf(v0, IntegerType())), None];
  }

  /** The store where each of two variables is bound to a pair containing itself. */
  function SelfPairs(id: nat): (vars: Table) {
    [Some(PairOf(Var(id, 0, false), IntegerType())), Some(PairOf(Var(id, 1, false), IntegerType()))]
  }

  lemma SelfPairsValid(id: nat)
    ensures StoreValid(SelfPairs(id), id)
  {
    assert Ranked(SelfPairs(id), [0, 0]);
  }

  /** Unifying the two self-referencing variables never finishes, whatever the fuel. */
  lemma {:induction false} UnifySelfPairsDiverges(id: nat, fuel: nat)
    ensures StoreValid(SelfPairs(id), id)
    ensures UnifyFuel(SelfPairs(id), id, Var(id, 0, false), Var(id, 1, false), fuel) == None
  {
    SelfPairsValid(id);
    if fuel > 0 {
      var vars := SelfPairs(id);
      var ls := [Var(id, 0, false), IntegerType()];
      var rs := [Var(id, 1, false), IntegerType()];
      assert Resolve(vars, Var(id, 0, false)) == PairOf(ls[0], ls[1]);
      assert Resolve(vars, Var(id, 1, false)) == PairOf(rs[0], rs[1]);
      UnifySelfPairsDiverges(id, fuel - 1);
      assert UnifyArgs(vars, id, ls, rs, fuel - 1) == None;
    }
  }
}
