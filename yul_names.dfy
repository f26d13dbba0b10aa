/**
 * The name database of the Yul name repository.  A Yul name is a number.
 * A defined name carries a label; a derived name carries no label but a
 * parent name, and chains of parents end at a defined name.  Generating
 * labels turns derived names into defined ones with fresh labels based on
 * their parents' labels.
 */
module YulNames {
  import opened Wrappers
  import opened Strings

  datatype YulNameState = Derived | Defined

  /** For a defined name, `ref` indexes the label table; for a derived one, it is the parent name. */
  datatype NameEntry = NameEntry(ref: nat, state: YulNameState)

  /** The empty name, whose label is the empty string. */
  const EmptyName: nat := 0

  /** The label tried after `k` clashes: the base itself, then `base_1`, `base_2`, and so on. */
  function Candidate(base: string, k: nat): (text: string)
    ensures k > 0 ==> |text| == |base| + 1 + |NatToString(k)| && text[..|base| + 1] == base + "_"
  {
    if k == 0 then base else base + "_" + NatToString(k)
  }

  /** Either the base label itself or the base label followed by `_` and a suffix. */
  predicate BasedOn(text: string, base: string) {
    text == base || (|base| + 1 < |text| && text[..|base| + 1] == base + "_")
  }

  /** Some length bounds every string of a finite set. */
  lemma {:induction false} LengthBound(strings: set<string>) returns (bound: nat)
    ensures forall s :: s in strings ==> |s| <= bound
    decreases |strings|
  {
    if strings == {} {
      return 0;
    }
    var s :| s in strings;
    var rest := LengthBound(strings - {s});
    bound := if |s| > rest then |s| else rest;
  }

  lemma {:induction false} Pow10Mono(a: nat, b: nat)
    requires a <= b
    ensures Pow10(a) <= Pow10(b)
    decreases b
  {
    if a < b {
      Pow10Mono(a, b - 1);
    }
  }

  /** A label of the table or an illegal one: a candidate that must be skipped. */
  predicate Taken(text: string, labels: seq<string>, illegal: set<string>) {
    text in labels || text in illegal
  }

  /** Some length bounds every taken label. */
  lemma TakenBound(labels: seq<string>, illegal: set<string>) returns (bound: nat)
    ensures forall text :: Taken(text, labels, illegal) ==> |text| <= bound
  {
    bound := LengthBound(illegal + set i | 0 <= i < |labels| :: labels[i]);
    forall text | Taken(text, labels, illegal)
      ensures |text| <= bound
    {
      if text in labels {
        var i :| 0 <= i < |labels| && labels[i] == text;
      }
    }
  }

  /** A candidate no longer than `bound` has a suffix below ten to the power of `bound`. */
  lemma SuffixBelowBound(base: string, k: nat, bound: nat)
    requires k >= 1 && |Candidate(base, k)| <= bound
    ensures k < Pow10(bound)
  {
    NatToStringBound(k);
    Pow10Mono(|NatToString(k)|, bound);
  }

  /** Every derived name has an earlier parent, and every defined name indexes a table of `labelCount` labels. */
  predicate WellFormed(names: seq<NameEntry>, labelCount: nat) {
    forall n :: 0 <= n < |names| ==>
      if names[n].state == Defined then names[n].ref < labelCount else names[n].ref < n
  }

  /** Follows parents from `n` until a defined name. */
  function BaseNameIn(names: seq<NameEntry>, labelCount: nat, n: nat): (b: nat)
    requires WellFormed(names, labelCount) && n < |names|
    ensures b <= n && names[b].state == Defined
    ensures b == n <==> names[n].state == Defined
    decreases n
  {
    if names[n].state == Derived then BaseNameIn(names, labelCount, names[n].ref) else n
  }

  /** The label of the base name of `n`. */
  function BaseLabelIn(names: seq<NameEntry>, labels: seq<string>, n: nat): (text: string)
    requires WellFormed(names, |labels|) && n < |names|
    ensures text == labels[names[BaseNameIn(names, |labels|, n)].ref]
  {
    labels[names[BaseNameIn(names, |labels|, n)].ref]
  }

  /**
   * Changing the entry of a name `m` does not change the base name of any
   * earlier name: parent chains only go down.
   */
  lemma {:induction false} BaseNameUnchanged(names: seq<NameEntry>, labelCount: nat, m: nat, e: NameEntry,
                                             labelCount2: nat, p: nat)
    requires p < m < |names| && WellFormed(names, labelCount) && WellFormed(names[m := e], labelCount2)
    ensures BaseNameIn(names[m := e], labelCount2, p) == BaseNameIn(names, labelCount, p)
    decreases p
  {
    if names[p].state == Derived {
      BaseNameUnchanged(names, labelCount, m, e, labelCount2, names[p].ref);
    }
  }

  /**
   * How far the relabelling loop has got: the first `k` pending names are
   * defined with the `k` labels appended after `labels0`, each based on the
   * current base label of its parent and not illegal; every other name is
   * as it was.
   */
  ghost predicate Progress(names: seq<NameEntry>, labels: seq<string>, pending: seq<nat>, k: nat,
                           names0: seq<NameEntry>, labels0: seq<string>, illegal: set<string>)
  {
    && k <= |pending|
    && (forall j :: 0 <= j < |pending| ==> pending[j] < |names0| && names0[pending[j]].state == Derived)
    && WellFormed(names0, |labels0|)
    && |names| == |names0| && |labels| == |labels0| + k && labels[..|labels0|] == labels0
    && WellFormed(names, |labels|)
    && (forall j :: k <= j < |pending| ==> names[pending[j]] == names0[pending[j]])
    && (forall j :: 0 <= j < k ==> Relabelled(names, labels, pending[j], |labels0| + j, names0, illegal))
    && (forall n :: 0 <= n < |names| && n !in pending ==> names[n] == names0[n])
  }

  /**
   * Name `n`, derived in `names0`, is now defined with label `i`, which is
   * based on the current base label of its parent and is not illegal.
   */
  ghost predicate Relabelled(names: seq<NameEntry>, labels: seq<string>, n: nat, i: nat,
                             names0: seq<NameEntry>, illegal: set<string>)
  {
    && n < |names| && n < |names0| && names0[n].ref < |names| && i < |labels| && WellFormed(names, |labels|)
    && names[n] == NameEntry(i, Defined)
    && BasedOn(labels[i], BaseLabelIn(names, labels, names0[n].ref))
    && labels[i] !in illegal
  }

  /** The base label of a name below `m` survives defining `m` with one appended label. */
  lemma BaseLabelUnchanged(names: seq<NameEntry>, labels: seq<string>, m: nat, text: string, p: nat)
    requires WellFormed(names, |labels|) && p < m < |names|
    requires WellFormed(names[m := NameEntry(|labels|, Defined)], |labels| + 1)
    ensures BaseLabelIn(names[m := NameEntry(|labels|, Defined)], labels + [text], p) == BaseLabelIn(names, labels, p)
  {
    BaseNameUnchanged(names, |labels|, m, NameEntry(|labels|, Defined), |labels| + 1, p);
  }

  /** Relabelling the next pending name, with a label based on its parent's base label, keeps `Progress`. */
  lemma ProgressStep(names: seq<NameEntry>, labels: seq<string>, pending: seq<nat>, k: nat,
                     names0: seq<NameEntry>, labels0: seq<string>, illegal: set<string>, text: string)
    requires Progress(names, labels, pending, k, names0, labels0, illegal) && k < |pending|
    requires forall a, b :: 0 <= a < b < |pending| ==> pending[a] < pending[b]
    requires BasedOn(text, BaseLabelIn(names, labels, names0[pending[k]].ref)) && text !in illegal
    ensures Progress(names[pending[k] := NameEntry(|labels|, Defined)], labels + [text],
                     pending, k + 1, names0, labels0, illegal)
  {
    var m := pending[k];
    var names2 := names[m := NameEntry(|labels|, Defined)];
    var labels2 := labels + [text];
    assert WellFormed(names2, |labels2|);
    assert labels2[..|labels0|] == labels0 by {
      assert labels2[..|labels0|] == labels[..|labels0|];
    }
    forall j | 0 <= j <= k
      ensures Relabelled(names2, labels2, pending[j], |labels0| + j, names0, illegal)
    {
      StepKeepsLabel(names, labels, pending, k, names0, labels0, illegal, text, j);
    }
    forall j | k + 1 <= j < |pending|
      ensures names2[pending[j]] == names0[pending[j]]
    {
      assert pending[j] != m;
    }
    forall n | 0 <= n < |names2| && n !in pending
      ensures names2[n] == names0[n]
    {
      assert n != m;
    }
  }

  /** After one more relabelling, the `j`th relabelled name still carries a label based on its parent's base label. */
  lemma StepKeepsLabel(names: seq<NameEntry>, labels: seq<string>, pending: seq<nat>, k: nat,
                       names0: seq<NameEntry>, labels0: seq<string>, illegal: set<string>, text: string, j: nat)
    requires Progress(names, labels, pending, k, names0, labels0, illegal) && k < |pending| && j <= k
    requires forall a, b :: 0 <= a < b < |pending| ==> pending[a] < pending[b]
    requires BasedOn(text, BaseLabelIn(names, labels, names0[pending[k]].ref)) && text !in illegal
    requires WellFormed(names[pending[k] := NameEntry(|labels|, Defined)], |labels| + 1)
    ensures Relabelled(names[pending[k] := NameEntry(|labels|, Defined)], labels + [text],
                       pending[j], |labels0| + j, names0, illegal)
  {
    var parent := names0[pending[j]].ref;
    assert parent < pending[j] <= pending[k];
    BaseLabelUnchanged(names, labels, pending[k], text, parent);
    if j < k {
      assert pending[j] < pending[k];
      assert Relabelled(names, labels, pending[j], |labels0| + j, names0, illegal);
    }
  }

  /** What a finished relabelling loop leaves behind, in terms of the tables before it. */
  lemma ProgressDone(names: seq<NameEntry>, labels: seq<string>, pending: seq<nat>,
                     names0: seq<NameEntry>, labels0: seq<string>, illegal: set<string>, used: set<nat>)
    requires Progress(names, labels, pending, |pending|, names0, labels0, illegal)
    requires forall n :: 0 <= n < |names0| ==> (n in used && names0[n].state == Derived <==> n in pending)
    ensures forall n :: 0 <= n < |names| && n in used ==> names[n].state == Defined
    ensures forall n :: 0 <= n < |names| && n in used && names0[n].state == Derived ==>
      |labels0| <= names[n].ref < |labels| && BasedOn(labels[names[n].ref], BaseLabelIn(names, labels, names0[n].ref))
    ensures forall n :: 0 <= n < |names| && (n !in used || names0[n].state == Defined) ==> names[n] == names0[n]
    ensures forall i :: |labels0| <= i < |labels| ==> labels[i] !in illegal
  {
    forall n | 0 <= n < |names| && n in used && names0[n].state == Derived
      ensures names[n].state == Defined && |labels0| <= names[n].ref < |labels|
      ensures BasedOn(labels[names[n].ref], BaseLabelIn(names, labels, names0[n].ref))
    {
      var j :| 0 <= j < |pending| && pending[j] == n;
      assert Relabelled(names, labels, pending[j], |labels0| + j, names0, illegal);
    }
    forall i | |labels0| <= i < |labels|
      ensures labels[i] !in illegal
    {
      var j := i - |labels0|;
      assert Relabelled(names, labels, pending[j], |labels0| + j, names0, illegal);
    }
  }

  class YulNameRepository {
    /** Label `i` of the defined names. */
    var definedLabels: seq<string>
    /** Entry of each name, indexed by the name. */
    var names: seq<NameEntry>
    /** The name owning each label: kept with the tables for the proofs. */
    ghost var owner: seq<nat>

    ghost predicate Valid()
      reads this
    {
      && |names| >= 1 && names[EmptyName] == NameEntry(0, Defined)
      && |definedLabels| >= 1 && definedLabels[0] == ""
      && WellFormed(names, |definedLabels|)
      && (forall i, j :: 0 <= i < j < |definedLabels| ==> definedLabels[i] != definedLabels[j])
      && |owner| == |definedLabels|
      && (forall i :: 0 <= i < |owner| ==> owner[i] < |names| && names[owner[i]] == NameEntry(i, Defined))
      && (forall n :: 0 <= n < |names| && names[n].state == Defined ==> owner[names[n].ref] == n)
    }

    /** The repository starts with the empty name only. */
    constructor ()
      ensures Valid()
      ensures names == [NameEntry(0, Defined)] && definedLabels == [""]
    {
      definedLabels := [""];
      names := [NameEntry(0, Defined)];
      owner := [0];
    }

    /** The label of a defined name; none for a derived name. */
    function LabelOf(n: nat): (r: Option<string>)
      reads this
      requires Valid() && n < |names|
      ensures r.Some? <==> names[n].state == Defined
      ensures r.Some? ==> names[n].ref < |definedLabels| && r.value == definedLabels[names[n].ref]
    {
      if names[n].state == Defined then Some(definedLabels[names[n].ref]) else None
    }

    /** The label of a name known to be defined. */
    function RequiredLabelOf(n: nat): (text: string)
      reads this
      requires Valid() && n < |names| && names[n].state == Defined
      ensures LabelOf(n) == Some(text)
    {
      LabelOf(n).value
    }

    predicate IsDerivedName(n: nat)
      reads this
      requires Valid() && n < |names|
      ensures IsDerivedName(n) <==> LabelOf(n).None?
    {
      names[n].state == Derived
    }

    /** Follows parents until a defined name. */
    function BaseNameOf(n: nat): (b: nat)
      reads this
      requires Valid() && n < |names|
      ensures b <= n && names[b].state == Defined && LabelOf(b).Some?
      ensures b == n <==> names[n].state == Defined
    {
      BaseNameIn(names, |definedLabels|, n)
    }

    /** The label of the base name: it always exists. */
    function BaseLabelOf(n: nat): (text: string)
      reads this
      requires Valid() && n < |names|
      ensures LabelOf(BaseNameOf(n)) == Some(text)
    {
      BaseLabelIn(names, definedLabels, n)
    }

    /** The first defined name at or after `from` whose label is `text`, or the empty name if there is none. */
    function FindDefined(text: string, from: nat): (n: nat)
      reads this
      requires Valid() && from <= |names|
      ensures n < |names|
      ensures || (from <= n && LabelOf(n) == Some(text) && forall m :: from <= m < n ==> LabelOf(m) != Some(text))
              || (n == EmptyName && forall m :: from <= m < |names| ==> LabelOf(m) != Some(text))
      decreases |names| - from
    {
      if from == |names| then EmptyName
      else if LabelOf(from) == Some(text) then from
      else FindDefined(text, from + 1)
    }

    /** The defined name whose label is `text`, or the empty name if no defined name has it. */
    function NameOfLabel(text: string): (n: nat)
      reads this
      requires Valid()
      ensures n < |names|
      ensures LabelOf(n) == Some(text) || (n == EmptyName && forall m :: 0 <= m < |names| ==> LabelOf(m) != Some(text))
    {
      FindDefined(text, 0)
    }

    /** Two defined names with the same label are the same name. */
    lemma LabelsIdentifyNames(m: nat, n: nat)
      requires Valid() && m < |names| && n < |names|
      requires LabelOf(m).Some? && LabelOf(m) == LabelOf(n)
      ensures m == n
    {
      assert names[m].ref == names[n].ref;
      assert owner[names[m].ref] == m && owner[names[n].ref] == n;
    }

    /** Looking up the label of a defined name gives the name back. */
    lemma NameOfLabelInverse(n: nat)
      requires Valid() && n < |names| && LabelOf(n).Some?
      ensures NameOfLabel(LabelOf(n).value) == n
    {
      var r := NameOfLabel(LabelOf(n).value);
      LabelsIdentifyNames(r, n);
    }

    /** The empty name is defined with the empty label, and looking up the empty label finds it. */
    lemma EmptyNameIsEmptyLabel()
      requires Valid()
      ensures LabelOf(EmptyName) == Some("") && NameOfLabel("") == EmptyName
    {
      NameOfLabelInverse(EmptyName);
    }

    /** A label that is in the table is found by `NameOfLabel`. */
    lemma NameOfLabelFinds(text: string)
      requires Valid() && text in definedLabels
      ensures LabelOf(NameOfLabel(text)) == Some(text)
    {
      var i :| 0 <= i < |definedLabels| && definedLabels[i] == text;
      assert LabelOf(owner[i]) == Some(text);
    }

    /**
     * The name labelled `text`: the existing one if a defined name has it,
     * otherwise a new defined name appended with a new label.
     */
    method DefineName(text: string) returns (n: nat)
      requires Valid()
      modifies this
      ensures Valid()
      ensures n < |names| && LabelOf(n) == Some(text) && NameOfLabel(text) == n
      ensures old(LabelOf(NameOfLabel(text))) == Some(text) ==>
        n == old(NameOfLabel(text)) && names == old(names) && definedLabels == old(definedLabels)
      ensures old(LabelOf(NameOfLabel(text))) != Some(text) ==>
        && n == |old(names)|
        && names == old(names) + [NameEntry(|old(definedLabels)|, Defined)]
        && definedLabels == old(definedLabels) + [text]
    {
      var existing := NameOfLabel(text);
      if LabelOf(existing) == Some(text) {
        NameOfLabelInverse(existing);
        return existing;
      }
      if text in definedLabels {
        NameOfLabelFinds(text);
        assert false;
      }
      n := |names|;
      owner := owner + [n];
      names := names + [NameEntry(|definedLabels|, Defined)];
      definedLabels := definedLabels + [text];
      NameOfLabelInverse(n);
    }

    /** A new derived name with parent `baseName`, different from every existing name. */
    method DeriveName(baseName: nat) returns (n: nat)
      requires Valid() && baseName < |names|
      modifies this
      ensures Valid()
      ensures n == |old(names)| && names == old(names) + [NameEntry(baseName, Derived)]
      ensures definedLabels == old(definedLabels)
    {
      n := |names|;
      names := names + [NameEntry(baseName, Derived)];
    }

    /**
     * The first of `base`, `base_1`, `base_2`, ... that is neither a defined
     * label nor in `illegal`.
     */
    method FreshLabel(base: string, illegal: set<string>) returns (text: string)
      ensures text !in definedLabels && text !in illegal
      ensures BasedOn(text, base)
      ensures exists k: nat :: (text == Candidate(base, k)
        && forall j :: 0 <= j < k ==> Taken(Candidate(base, j), definedLabels, illegal))
    {
      ghost var bound := TakenBound(definedLabels, illegal);
      text := base;
      var suffix: nat := 1;
      while text in definedLabels || text in illegal
        invariant suffix >= 1 && text == Candidate(base, suffix - 1)
        invariant forall j :: 0 <= j < suffix - 1 ==> Taken(Candidate(base, j), definedLabels, illegal)
        decreases Pow10(bound) + 1 - suffix
      {
        assert Taken(text, definedLabels, illegal);
        if suffix >= 2 {
          SuffixBelowBound(base, suffix - 1, bound);
        }
        text := Candidate(base, suffix);
        suffix := suffix + 1;
      }
    }

    /** The derived names among `used`, in ascending order. */
    method DerivedAmong(used: set<nat>) returns (pending: seq<nat>)
      requires Valid()
      ensures forall k :: 0 <= k < |pending| ==>
        pending[k] < |names| && pending[k] in used && names[pending[k]].state == Derived
      ensures forall a, b :: 0 <= a < b < |pending| ==> pending[a] < pending[b]
      ensures forall n :: 0 <= n < |names| ==> (n in used && names[n].state == Derived <==> n in pending)
    {
      pending := [];
      var n := 0;
      while n < |names|
        invariant 0 <= n <= |names|
        invariant forall k :: 0 <= k < |pending| ==>
          pending[k] < n && pending[k] in used && names[pending[k]].state == Derived
        invariant forall a, b :: 0 <= a < b < |pending| ==> pending[a] < pending[b]
        invariant forall m :: 0 <= m < n ==> (m in used && names[m].state == Derived <==> m in pending)
      {
        if n in used && names[n].state == Derived {
          pending := pending + [n];
        }
        n := n + 1;
      }
    }

    /**
     * Gives every derived name in `used` a label of its own, clashing with no
     * defined label and with nothing in `illegal`.  The names are relabelled
     * in ascending order, so a parent relabelled in the same call comes first
     * and the new label is based on the parent's new label; otherwise it is
     * based on the label the parent's chain ends at.  Every other name keeps
     * its entry.
     */
    method GenerateLabels(used: set<nat>, illegal: set<string>)
      requires Valid()
      modifies this
      ensures Valid()
      ensures |names| == |old(names)|
      ensures |old(definedLabels)| <= |definedLabels| && definedLabels[..|old(definedLabels)|] == old(definedLabels)
      ensures forall n :: 0 <= n < |names| && n in used ==> LabelOf(n).Some?
      ensures forall n :: 0 <= n < |names| && (n !in used || old(names[n]).state == Defined) ==> names[n] == old(names[n])
      ensures forall n :: 0 <= n < |names| && n in used && old(names[n]).state == Derived ==>
        && old(names[n]).ref < n && names[n].ref >= |old(definedLabels)| && LabelOf(n).Some?
        && BasedOn(LabelOf(n).value, BaseLabelOf(old(names[n]).ref))
        && (old(names[n]).ref in used ==> BasedOn(LabelOf(n).value, LabelOf(old(names[n]).ref).value))
      ensures forall i :: |old(definedLabels)| <= i < |definedLabels| ==> definedLabels[i] !in illegal
      ensures forall i, j :: 0 <= i < j < |definedLabels| ==> definedLabels[i] != definedLabels[j]
    {
      var pending := DerivedAmong(used);
      ghost var names0 := names;
      ghost var labels0 := definedLabels;
      Relabel(pending, illegal);
      ProgressDone(names, definedLabels, pending, names0, labels0, illegal, used);
    }

    /** Relabels the pending names one by one, in order, each from its parent's base label at that moment. */
    method Relabel(pending: seq<nat>, illegal: set<string>)
      requires Valid()
      requires forall j :: 0 <= j < |pending| ==> pending[j] < |names| && names[pending[j]].state == Derived
      requires forall a, b :: 0 <= a < b < |pending| ==> pending[a] < pending[b]
      modifies this
      ensures Valid()
      ensures Progress(names, definedLabels, pending, |pending|, old(names), old(definedLabels), illegal)
    {
      ghost var names0 := names;
      ghost var labels0 := definedLabels;
      assert Progress(names, definedLabels, pending, 0, names0, labels0, illegal);
      var k := 0;
      while k < |pending|
        invariant 0 <= k <= |pending|
        invariant Valid()
        invariant Progress(names, definedLabels, pending, k, names0, labels0, illegal)
      {
        var name := pending[k];
        var parent := names[name].ref;
        ghost var namesBefore := names;
        ghost var labelsBefore := definedLabels;
        assert parent == names0[pending[k]].ref;
        var text := FreshLabel(BaseLabelOf(parent), illegal);
        ProgressStep(namesBefore, labelsBefore, pending, k, names0, labels0, illegal, text);
        GenerateStep(name, text);
        assert names == namesBefore[pending[k] := NameEntry(|labelsBefore|, Defined)];
        assert definedLabels == labelsBefore + [text];
        k := k + 1;
      }
    }

    /** Turns the derived name `name` into a defined one with the new label `text`. */
    method GenerateStep(name: nat, text: string)
      requires Valid() && name < |names| && names[name].state == Derived && text !in definedLabels
      modifies this
      ensures Valid()
      ensures names == old(names)[name := NameEntry(|old(definedLabels)|, Defined)]
      ensures definedLabels == old(definedLabels) + [text]
    {
      owner := owner + [name];
      names := names[name := NameEntry(|definedLabels|, Defined)];
      definedLabels := definedLabels + [text];
    }
  }

  /**
   * Defining the same label twice yields the same name, and at most one entry is
   * added over both calls: the second call adds nothing.
   */
  method DefineNameTwice(repository: YulNameRepository, text: string) returns (first: nat, second: nat)
    requires repository.Valid()
    modifies repository
    ensures repository.Valid()
    ensures first == second && first < |repository.names| && repository.LabelOf(first) == Some(text)
    ensures || (repository.names == old(repository.names) && repository.definedLabels == old(repository.definedLabels))
            || (&& repository.names == old(repository.names) + [NameEntry(|old(repository.definedLabels)|, Defined)]
                && repository.definedLabels == old(repository.definedLabels) + [text])
  {
    first := repository.DefineName(text);
    ghost var names1 := repository.names;
    second := repository.DefineName(text);
    assert repository.names == names1;
  }

  /** Deriving twice from the same base yields two different names. */
  method DeriveNameTwice(repository: YulNameRepository, baseName: nat) returns (first: nat, second: nat)
    requires repository.Valid() && baseName < |repository.names|
    modifies repository
    ensures repository.Valid()
    ensures first != second && first < |repository.names| && second < |repository.names|
    ensures baseName < |repository.names|
    ensures repository.BaseNameOf(first) == repository.BaseNameOf(second) == repository.BaseNameOf(baseName)
  {
    first := repository.DeriveName(baseName);
    second := repository.DeriveName(baseName);
  }
}
