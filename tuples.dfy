/**
 * Tuple types as values.  A tuple of two or more elements is a right-nested
 * chain of `Pair` expressions, the empty tuple is `Unit`, and a one-element
 * tuple is the element itself.
 */
module Tuples {
  import opened Types

  predicate IsPair(t: Type) {
    t.Expr? && t.ctor == Builtin(Pair)
  }

  /** The tuple type of `xs`, nested to the right. */
  function TupleOf(xs: seq<Type>): (r: Type)
    ensures |xs| == 0 ==> r == Expr(Builtin(Unit), [])
    ensures |xs| == 1 ==> r == xs[0]
    ensures |xs| >= 2 ==> IsPair(r) && |r.args| == 2 && r.args[0] == xs[0]
    decreases |xs|
  {
    if |xs| == 0 then Expr(Builtin(Unit), [])
    else if |xs| == 1 then xs[0]
    else Expr(Builtin(Pair), [xs[0], TupleOf(xs[1..])])
  }

  /** Every `Pair` met along the right spine has exactly two arguments. */
  predicate PairChainOk(t: Type) {
    IsPair(t) ==> |t.args| == 2 && PairChainOk(t.args[1])
  }

  /** The elements along the right spine, the first non-`Pair` tail included. */
  function PairTail(t: Type): (r: seq<Type>)
    requires PairChainOk(t)
    ensures |r| >= 1 && !IsPair(r[|r| - 1])
    ensures IsPair(t) <==> |r| >= 2
    ensures !IsPair(t) ==> r == [t]
  {
    if IsPair(t) then [t.args[0]] + PairTail(t.args[1]) else [t]
  }

  /**
   * The elements of a tuple type: none for `Unit`, the type itself for any
   * other constructor than `Pair`, and the spine of a `Pair` chain.  Only the
   * spine as written is followed: a tail that is a variable is an element
   * even when the store binds it to a pair.
   */
  function DestTupleOf(t: Type): (r: seq<Type>)
    requires t.Expr? && PairChainOk(t)
    ensures t.ctor == Builtin(Unit) <==> r == []
    ensures r != [] ==> !IsPair(r[|r| - 1])
    ensures !IsPair(t) && t.ctor != Builtin(Unit) ==> r == [t]
  {
    if t.ctor == Builtin(Unit) then [] else PairTail(t)
  }

  /** The tuple of the spine elements of `t` is `t` again. */
  lemma {:induction false} PairTailInverse(t: Type)
    requires PairChainOk(t)
    ensures TupleOf(PairTail(t)) == t
  {
    if IsPair(t) {
      PairTailInverse(t.args[1]);
      var r := PairTail(t);
      assert r[1..] == PairTail(t.args[1]);
      assert t == Expr(Builtin(Pair), [t.args[0], t.args[1]]);
    }
  }

  /** Rebuilding a decomposed tuple type gives it back (a `Unit` must carry no arguments). */
  lemma DestTupleInverse(t: Type)
    requires t.Expr? && PairChainOk(t)
    requires t.ctor == Builtin(Unit) ==> t.args == []
    ensures TupleOf(DestTupleOf(t)) == t
  {
    if t.ctor != Builtin(Unit) {
      PairTailInverse(t);
    }
  }

  /** The spine of a tuple of at least one element whose last element is not a pair. */
  lemma {:induction false} PairTailOfTuple(xs: seq<Type>)
    requires |xs| >= 1 && !IsPair(xs[|xs| - 1])
    ensures PairChainOk(TupleOf(xs)) && PairTail(TupleOf(xs)) == xs
    decreases |xs|
  {
    if |xs| >= 2 {
      PairTailOfTuple(xs[1..]);
      assert [xs[0]] + xs[1..] == xs;
    }
  }

  /**
   * Decomposing a built tuple type gives back its elements, provided the
   * shapes do not collide: a one-element tuple must be a type expression
   * other than `Unit`, and the last element must not itself be a pair.
   */
  lemma TupleRoundTrip(xs: seq<Type>)
    requires |xs| == 1 ==> xs[0].Expr? && xs[0].ctor != Builtin(Unit)
    requires |xs| >= 1 ==> !IsPair(xs[|xs| - 1])
    ensures TupleOf(xs).Expr? && PairChainOk(TupleOf(xs))
    ensures DestTupleOf(TupleOf(xs)) == xs
  {
    if |xs| >= 1 {
      PairTailOfTuple(xs);
    }
  }

  /** The one-element tuple of the unit type decomposes to no elements. */
  lemma UnitElementLost()
    ensures var u := Expr(Builtin(Unit), []);
      DestTupleOf(TupleOf([u])) == [] != [u]
  {
  }

  /** A pair as last element is flattened into the enclosing tuple. */
  lemma LastPairFlattened(a: Type, b: Type, c: Type)
    requires !IsPair(c)
    ensures var p := Expr(Builtin(Pair), [b, c]);
      DestTupleOf(TupleOf([a, p])) == [a, b, c] != [a, p]
  {
    var p := Expr(Builtin(Pair), [b, c]);
    assert TupleOf([a, p]) == Expr(Builtin(Pair), [a, p]);
    assert PairTail(p) == [b, c];
    assert [a, b, c][1] != p;
  }
}
