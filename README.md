# Experimental type store and Yul name database, in Dafny

This project models two cores of the Solidity compiler.

**The type store of the experimental type system** is in
`libsolidity/ast/experimental/TypeSystem.cpp`. A type is either a type
variable or a type expression. A variable is owned by one store and has a
slot index and a generic flag. An expression is a constructor applied to
argument types. The constructor is a user declaration or a builtin tag:
`Void`, `Function`, `Unit`, `Pair`, `Word` or `Integer`.

The store is the class `TypeStore.TypeSystem`. Its `typeVariables` table
maps each slot to an optional binding, and its `builtinTypes` registry
records name and arity per tag. Its operations are:

- allocating a variable (`FreshTypeVariable`);
- binding a variable once (`Instantiate`);
- following bindings (`Resolve`);
- unifying two types, binding variables in place and collecting failures (`Unify`);
- copying a type with new generic variables (`Fresh`);
- registering and applying builtins (`DeclareBuiltinType`, `BuiltinType`);
- printing a type (`Printing.TypeToString`).

The helper object `Helpers.TypeSystemHelpers` builds and takes apart tuple
and function types. A tuple of two or more elements is a right-nested chain
of `Pair`s. The empty tuple is `Unit`, and a one-element tuple is the
element itself.

The methods are proved against functions of the table:

- `Substitution.Resolve`.
- `Unification.UnifyFuel`. This is unification as a function of the table,
  with a fuel bound, because runs need not end.
- `Renaming.Subst`, applied to `Expansion.ExpansionOf`, the type with every
  binding substituted.
- `Printing.TypeString`.
- `Tuples.TupleOf` and `Tuples.DestTupleOf`.

The main properties proved are:

- Resolution is idempotent.
- A unification run with no failures makes both sides equal under the new
  bindings, to every depth (`UnifySound`).
- `Fresh` renames exactly the variables it should and leaves the
  constructor shape alone.
- The tuple and function helpers invert each other where the code allows it.
- Printing distinguishes variables.

**The name database of the Yul name repository** is in `libyul/YulName.h`.
A Yul name is a number. A *defined* name carries a label. A *derived* name
carries only a parent name, and chains of parents end at a defined name.
Name 0 is the empty name, with the empty label.

`YulNames.YulNameRepository` keeps the label table `definedLabels` and the
name table `names` (`(ref, state)` per name). It defines names
idempotently per label, derives new names, and answers these queries:
label of a name, base name, base label, derived or not, and name of a
label. `GenerateLabels` turns the derived names of a set into defined ones,
in ascending order. Each gets a fresh label, unique among all labels and
outside an illegal set. The label is based on the base label of its parent
at that moment, so a parent relabelled in the same call passes on its new
label.

## Model

| member | source | states |
|---|---|---|
| Substitution.Resolve | libsolidity/ast/experimental/TypeSystem.cpp:144-153 | following bindings ends at an unbound variable or an expression; an expression resolves to itself |
| Substitution.ResolveIdempotent | libsolidity/ast/experimental/TypeSystem.cpp:144-153 | resolving a resolved type changes nothing |
| Substitution.ResolveFixedPoint | libsolidity/ast/experimental/TypeSystem.cpp:144-153 | a type is its own resolution exactly when it is an unbound variable or an expression |
| Substitution.ResolveOwned | libsolidity/ast/experimental/TypeSystem.cpp:144-153 | resolution stays within the variables of the store |
| Substitution.ResolveExtends | libsolidity/ast/experimental/TypeSystem.cpp:144-153 | after more bindings are added, resolving from an old resolution gives the same result as resolving from scratch |
| Substitution.BindKeepsAcyclic | libsolidity/ast/experimental/TypeSystem.cpp:136-142 | binding an unbound variable to a resolved type other than itself keeps every binding chain finite |
| Substitution.BindKeepsValid | libsolidity/ast/experimental/TypeSystem.cpp:136-142 | such a binding keeps the store valid and keeps every earlier binding |
| Substitution.AppendKeepsValid | libsolidity/ast/experimental/TypeSystem.cpp:129-134 | appending an unbound slot keeps the store valid and keeps every binding |
| TypeStore.TypeSystem.Validate | libsolidity/ast/experimental/TypeSystem.cpp:171-175 | a variable is valid exactly when it belongs to this store and its index is below the table size |
| TypeStore.TypeSystem.FreshTypeVariable | libsolidity/ast/experimental/TypeSystem.cpp:129-134 | appends one unbound slot and returns the variable naming it, with the requested generic flag |
| TypeStore.TypeSystem.Instantiate | libsolidity/ast/experimental/TypeSystem.cpp:136-142 | the variable must belong to the store and be unbound; only its slot changes, to the given type |
| TypeStore.TypeSystem.Resolve | libsolidity/ast/experimental/TypeSystem.cpp:144-153 | the loop computes `Substitution.Resolve` of the table |
| TypeStore.TypeSystem.DeclareBuiltinType | libsolidity/ast/experimental/TypeSystem.cpp:155-162 | a tag is registered once, with its name and arity; the table is untouched |
| TypeStore.TypeSystem.BuiltinType | libsolidity/ast/experimental/TypeSystem.cpp:164-169 | the tag must be registered with the arity of the arguments; the result is that builtin applied to exactly those arguments |
| TypeStore.TypeSystem.Unify | libsolidity/ast/experimental/TypeSystem.cpp:93-127 | returns the failures and leaves the table that `UnifyFuel` computes, and the store stays valid |
| TypeStore.TypeSystem.UnifyArguments | libsolidity/ast/experimental/TypeSystem.cpp:119-120 | unifies the arguments pairwise from left to right through the changing table and concatenates the failures in order, as `UnifyArgs` does |
| Unification.UnifyFuel | libsolidity/ast/experimental/TypeSystem.cpp:93-127 | a finished run leaves a valid store of the same size that keeps every old binding |
| Unification.UnifyArgs | libsolidity/ast/experimental/TypeSystem.cpp:114-121 | a finished run over argument lists keeps the store valid, of the same size, with every old binding kept |
| UnificationProperties.UnifySameVariable | libsolidity/ast/experimental/TypeSystem.cpp:102-107 | two sides resolving to the same variable unify with no failure and no binding |
| UnificationProperties.UnifyBindsLeft | libsolidity/ast/experimental/TypeSystem.cpp:102-110 | a left side resolving to a variable, against a different variable or an expression, gets bound to the resolved right side, with no failure |
| UnificationProperties.UnifyBindsRight | libsolidity/ast/experimental/TypeSystem.cpp:111-113 | an expression against a variable binds the variable to the resolved expression, with no failure |
| UnificationProperties.UnifyMismatch | libsolidity/ast/experimental/TypeSystem.cpp:114-118 | different constructors or argument counts give exactly one failure, recording the resolved pair, and no binding |
| UnificationProperties.UnifyDescends | libsolidity/ast/experimental/TypeSystem.cpp:119-120 | matching expressions unify through their arguments |
| UnificationProperties.UnifySound | libsolidity/ast/experimental/TypeSystem.cpp:93-127 | a finished run without failures makes both sides agree, to every depth, under the new table |
| UnificationProperties.UnifyArgsSound | libsolidity/ast/experimental/TypeSystem.cpp:119-120 | a finished argument run without failures makes every argument pair agree under the final table |
| UnificationProperties.AgreeExtends | libsolidity/ast/experimental/TypeSystem.cpp:93-127 | agreement survives further bindings, so later positions do not undo earlier ones |
| UnificationScenarios.UnifyPairsMismatchTwice | libsolidity/ast/experimental/TypeSystem.cpp:114-121 | `Pair(Integer, Unit)` against `Pair(Unit, Integer)` reports both positions in order and binds nothing |
| UnificationScenarios.UnifyFunctionsBindsBoth | libsolidity/ast/experimental/TypeSystem.cpp:102-121 | `Function(v0, Integer)` against `Function(Integer, v1)` succeeds and both variables resolve to `Integer` |
| UnificationScenarios.UnifyBindsCycle | libsolidity/ast/experimental/TypeSystem.cpp:108-110 | with no occurs check, `v0` against `Pair(v0, Integer)` binds `v0` to a pair containing itself |
| UnificationScenarios.UnifySelfPairsDiverges | libsolidity/ast/experimental/TypeSystem.cpp:114-121 | two variables each bound to a pair containing itself make unification recurse forever: no fuel is enough |
| TypeStore.TypeSystem.Fresh | libsolidity/ast/experimental/TypeSystem.cpp:177-204 | only new unbound generic slots are added; the expansion of the copy is the old expansion with each renamed variable replaced by its own new variable, one per index; a non-generic variable without generalizing is returned as given with the store unchanged |
| TypeStore.TypeSystem.FreshImpl | libsolidity/ast/experimental/TypeSystem.cpp:180-202 | one recursive step, with the rename map grown but never changed on existing keys |
| TypeStore.TypeSystem.FreshArgs | libsolidity/ast/experimental/TypeSystem.cpp:182-189 | copies the arguments in order through one shared rename map, each copy renaming its argument's expansion |
| TypeStore.FreshTwice | libsolidity/ast/experimental/TypeSystem.cpp:177-204 | two generalizing copies of one type have the same constructor skeleton; the first copy's variables lie in the slots the first call added and the second's in the slots the second call added, so they share no variable |
| TypeStore.ExpandRenamedExpr | libsolidity/ast/experimental/TypeSystem.cpp:182-189 | rebuilding an expression from renamed arguments renames the expression |
| Renaming.SubstKeepsSkeleton | libsolidity/ast/experimental/TypeSystem.cpp:177-204 | a renaming to variables keeps every constructor and every argument count |
| Renaming.SubstNonGeneric | libsolidity/ast/experimental/TypeSystem.cpp:190-199 | without generalizing, a type with no generic variables is copied unchanged |
| Renaming.SubstWithin | libsolidity/ast/experimental/TypeSystem.cpp:190-199 | a generalizing copy has only new variables, from the slot range of its rename map |
| Renaming.SkeletonJoin | libsolidity/ast/experimental/TypeSystem.cpp:177-204 | two copies of one type's skeleton have the same skeleton |
| Renaming.SubstExtend | libsolidity/ast/experimental/TypeSystem.cpp:194-196 | entries added to the rename map later do not change the copy of a type it already covered |
| Tuples.TupleOf | libsolidity/ast/experimental/TypeSystem.cpp:213-223 | no elements give `Unit`, one element gives itself, more give a `Pair` whose first argument is the first element |
| Tuples.PairTail | libsolidity/ast/experimental/TypeSystem.cpp:239-256 | the spine has at least one element and its last one is not a `Pair`; it has two or more exactly when the type is a `Pair` |
| Tuples.DestTupleOf | libsolidity/ast/experimental/TypeSystem.cpp:225-258 | empty exactly for `Unit`; any other non-`Pair` type is its own single element; the last element is never a `Pair` |
| Tuples.TupleRoundTrip | libsolidity/ast/experimental/TypeSystem.cpp:213-258 | decomposing a built tuple gives back its elements, unless it has one element that is a variable or `Unit`, or its last element is a pair |
| Tuples.DestTupleInverse | libsolidity/ast/experimental/TypeSystem.cpp:213-258 | rebuilding a decomposed tuple type gives it back |
| Tuples.PairTailInverse | libsolidity/ast/experimental/TypeSystem.cpp:239-256 | rebuilding the spine elements gives the spine back |
| Tuples.UnitElementLost | libsolidity/ast/experimental/TypeSystem.cpp:213-231 | the one-element tuple `[Unit]` decomposes to no elements |
| Tuples.LastPairFlattened | libsolidity/ast/experimental/TypeSystem.cpp:239-256 | a pair as last element is flattened into the enclosing tuple |
| Helpers.TypeSystemHelpers.TupleType | libsolidity/ast/experimental/TypeSystem.cpp:213-223 | the backward fold computes `TupleOf`; `Unit` and `Pair` must be registered with arities 0 and 2 when used |
| Helpers.TypeSystemHelpers.DestTupleType | libsolidity/ast/experimental/TypeSystem.cpp:225-258 | the spine walk computes `DestTupleOf`; a variable is rejected |
| Helpers.TypeSystemHelpers.FunctionType | libsolidity/ast/experimental/TypeSystem.cpp:260-263 | a two-argument `Function` expression that `DestFunctionType` takes back apart to the given pair |
| Helpers.TypeSystemHelpers.DestTypeExpression | libsolidity/ast/experimental/TypeSystem.cpp:265-276 | constructor and arguments rebuild the expression; a variable is rejected |
| Helpers.TypeSystemHelpers.DestFunctionType | libsolidity/ast/experimental/TypeSystem.cpp:278-285 | only a two-argument `Function` is accepted; domain and codomain rebuild it |
| Helpers.TypeSystemHelpers.FunctionTypeInverse | libsolidity/ast/experimental/TypeSystem.cpp:260-285 | rebuilding a decomposed function type gives it back |
| Helpers.TypeSystemHelpers.BuiltinTypeInverse | libsolidity/ast/experimental/TypeSystem.cpp:265-276 | decomposing a builtin type gives its tag and its arguments |
| Printing.VarName | libsolidity/ast/experimental/TypeSystem.cpp:87-89 | `?varN` for a generic variable and `'varN` otherwise |
| Printing.ArgumentList | libsolidity/ast/experimental/TypeSystem.cpp:43-52 | empty exactly when there are no arguments |
| Printing.TypeStringUnfold | libsolidity/ast/experimental/TypeSystem.cpp:38-91 | per resolved constructor: argument list and name, `d -> c`, `()`, or the tuple elements in parentheses |
| Printing.TypeToString | libsolidity/ast/experimental/TypeSystem.cpp:38-91 | the streaming printer computes `TypeString` |
| Printing.PrintFunctionType | libsolidity/ast/experimental/TypeSystem.cpp:61-64 | prints the domain's text, ` -> `, and the codomain's text |
| Printing.PrintTupleType | libsolidity/ast/experimental/TypeSystem.cpp:69-77 | prints the texts of the pair chain's elements in parentheses, joined by `, ` |
| Printing.PrintTypeArguments | libsolidity/ast/experimental/TypeSystem.cpp:43-52 | prints `(a, b) ` with a trailing space, or nothing for no arguments |
| Printing.PrintJoined | libsolidity/ast/experimental/TypeSystem.cpp:47-49 | each item but the last followed by `, `, then the last item |
| Printing.PrintableParts | libsolidity/ast/experimental/TypeSystem.cpp:62-75 | every argument and every spine element of a printable expression is printable and smaller, so the arity assertions hold |
| Printing.VarNamesDistinct | libsolidity/ast/experimental/TypeSystem.cpp:87-89 | variables with different indices or generic flags print differently |
| Printing.PrintResolved | libsolidity/ast/experimental/TypeSystem.cpp:90 | a type prints as its resolution |
| Printing.PrintFunction | libsolidity/ast/experimental/TypeSystem.cpp:61-64 | a function type prints as domain, ` -> `, codomain |
| Printing.PrintTuple | libsolidity/ast/experimental/TypeSystem.cpp:69-77 | a built tuple of at least two elements whose last element is not a pair prints its elements in parentheses, separated by `, ` |
| Printing.PrintIntegerFunction | libsolidity/ast/experimental/TypeSystem.cpp:61-64 | `Function(Integer, Integer)` prints as `Integer -> Integer` |
| Printing.PrintGenericVariable | libsolidity/ast/experimental/TypeSystem.cpp:87-89 | an unbound generic variable with index 3 prints as `?var3` |
| Strings.NatToStringInjective | libsolidity/ast/experimental/TypeSystem.cpp:88 | distinct indices are rendered as distinct digit strings |
| YulNames.YulNameRepository.LabelOf | libyul/YulName.h:122-124 | a label exactly for defined names, the one in the label table |
| YulNames.YulNameRepository.RequiredLabelOf | libyul/YulName.h:126-128 | for a name known to be defined, the label `LabelOf` yields |
| YulNames.YulNameRepository.IsDerivedName | libyul/YulName.h:136-137 | derived exactly when there is no label |
| YulNames.YulNameRepository.BaseNameOf | libyul/YulName.h:130-131 | a defined name at or below the given one; the name itself exactly when it is defined |
| YulNames.YulNameRepository.BaseLabelOf | libyul/YulName.h:133-134 | always exists: the label of the base name |
| YulNames.YulNameRepository.FindDefined | libyul/YulName.h:159-160 | the first name at or after the start position with the label, or the empty name when no name from there on has it |
| YulNames.YulNameRepository.NameOfLabel | libyul/YulName.h:159-160 | a defined name carrying the label, or the empty name when no defined name carries it |
| YulNames.YulNameRepository.LabelsIdentifyNames | libyul/YulName.h:220-221 | two defined names with the same label are the same name |
| YulNames.YulNameRepository.NameOfLabelInverse | libyul/YulName.h:159-160 | looking up the label of a defined name gives that name |
| YulNames.YulNameRepository.NameOfLabelFinds | libyul/YulName.h:159-160 | every label in the table is found |
| YulNames.YulNameRepository.EmptyNameIsEmptyLabel | libyul/YulName.h:119-120 | the empty name 0 has the empty label, and the empty label finds name 0 |
| YulNames.YulNameRepository.DefineName | libyul/YulName.h:111-113 | the existing name when a defined name has the label, with nothing changed; otherwise one new defined name with one new label |
| YulNames.DefineNameTwice | libyul/YulName.h:111-113 | `defineName(l) == defineName(l)`, and the second call adds no name or label |
| YulNames.YulNameRepository.DeriveName | libyul/YulName.h:115-117 | one new derived name, with the given parent, numbered after every existing name |
| YulNames.DeriveNameTwice | libyul/YulName.h:115-117 | `deriveName(b) != deriveName(b)`, and both have the base name of `b` |
| YulNames.YulNameRepository.FreshLabel | libyul/YulName.h:182-184 | the first of `base`, `base_1`, `base_2`, ... that is neither a defined label nor illegal |
| YulNames.YulNameRepository.DerivedAmong | libyul/YulName.h:182-184 | exactly the derived names of the set, in ascending order |
| YulNames.BaseNameUnchanged | libyul/YulName.h:49-52 | changing one name's entry does not change the base name of any earlier name, because parent chains go down |
| YulNames.YulNameRepository.GenerateLabels | libyul/YulName.h:182-184 | every name of the set has a label; each label generated for a derived name is new and not illegal; it is based on the base label of the name's parent after the call, which is the parent's new label when the parent is in the set; all labels stay distinct; names outside the set and defined names keep their entries |
| YulNames.YulNameRepository.Relabel | libyul/YulName.h:182-184 | relabels the pending names one by one, in order, each from its parent's base label at that moment |
| YulNames.YulNameRepository.GenerateStep | libyul/YulName.h:182-184 | turns one derived name into a defined name with one appended label |

## Notes on the code

- `destTupleType` does not undo `tupleType` for every list. By the code, `tupleType([Unit])` is `Unit`, which decomposes to no
  elements (`Tuples.UnitElementLost`). A pair as last element is also
  flattened into the enclosing tuple (`Tuples.LastPairFlattened`). The
  model follows the code, and `Tuples.TupleRoundTrip` states the round
  trip under the conditions where it holds.
- The lambda that records a unification failure captures `_a` and `_b` by
  reference. Both are resolved before any failure is recorded, so a
  failure holds the resolved pair. The model records that pair.
- `destTupleType` follows the spine of pairs as written. It does not
  resolve a tail that is a variable: such a tail is printed as one
  element, even when it is bound to a pair.

## Left out

- TypeSystem.h is not part of this model. The class declaration, the
  store's constructor with the builtins it registers, and the body of
  `builtinTypeName` are not modelled. The modelled store starts empty, and
  builtins are registered with `DeclareBuiltinType`.
- Printing.TypeString: `builtinTypeName` and `Declaration::name()` are
  parameters (`builtinName`, `declName`).
- Printing.TypeToString: requires every binding reachable from the type
  to expand to a finite type. On a type that reaches a cyclic binding, the
  source's recursion does not end.
- TypeStore.TypeSystem.Fresh: requires a finite expansion, which the
  source's recursion also needs in order to end.
- TypeStore.TypeSystem.Unify: specified only for runs that finish within
  a ghost fuel bound. There is no occurs check, so some runs never end
  (`UnificationScenarios.UnifySelfPairsDiverges`).
- Internal assertions (`solAssert`) and `.at()` range checks are preconditions. The reference to
  the owning store (`m_parent`) is the number `store`. Indices are
  unbounded, so `uint64_t` overflow is not modelled.
- `instantiateClass` is not modelled, because its body ignores its
  arguments and does nothing.
- The type inference pass is not modelled.
- TypeStore.TypeSystem.Unify: no symmetry property is proved. Whether
  `unify(a, b)` and `unify(b, a)` both succeed or both fail needs a
  correspondence between two stores whose variable-to-variable bindings
  point in opposite directions. That proof was not attempted.
- YulName.cpp is not part of this model. The bodies of the name
  operations are derived from the header's documentation.
- YulNames.YulNameRepository.FreshLabel: the suffix scheme `base_k` is this
  model's own. The header only promises unique labels based on the
  parents.
- YulNames.YulNameRepository.GenerateLabels: the illegal set is an explicit
  parameter. The source's default argument, the empty set, is not
  modelled. A caller passes `{}` for it.
- The dialect half of the Yul name repository is not modelled. This covers
  builtins, types, verbatim functions, the predefined handles other than
  the empty name, and the typed helper functions. It needs the dialect,
  which is not part of this model.
- YulNames.YulNameRepository.LabelOf: builtin names have no labels here.
