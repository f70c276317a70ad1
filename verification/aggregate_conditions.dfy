/**
 States with a condition, and the names that keep states apart.

 -IfMerge hands the condition type of the state to the base rule as if it were data.
 Whether that shows in the result is decided here exactly.
 */
module AggregateConditions {
  import opened Wrappers
  import opened ChTypes
  import opened AggregatePlan
  import opened AggregateStates
  import opened AggregateStatesProofs
  import G = AggregateGrammar

  /** A rule that looks at leading arguments only, and accepts no call without any. */
  ghost predicate IgnoresLast(rule: BaseRule) {
    && (rule.arity(0) ==> rule.independent)
    && forall ts, c: CHType :: ts != [] ==> IgnoresLastAt(rule, ts, c)
  }

  predicate IgnoresLastAt(rule: BaseRule, ts: seq<CHType>, c: CHType) {
    rule.evaluate(ts + [c]) == rule.evaluate(ts)
  }

  /** The condition counts as a data argument and can be NULL. */
  predicate ConditionShows(base: G.Base, n: nat, condition: CHType) {
    DataCount(base, n + 1) == n + 1 && SplitWrappers(condition).nullable
  }

  function Weakened(rule: BaseRule, r: Option<CHType>, shows: bool): Option<CHType> {
    if r.None? || rule.fixedWrappers || !shows then r else Some(WrapNullable(r.value))
  }

  lemma WrapTwice(t: CHType, nullable: bool)
    ensures WrapNullable(ApplyWrappers(t, nullable, false)) == ApplyWrappers(t, true, false)
  {
  }

  lemma CountWithCondition(base: G.Base, n: nat)
    ensures DataCount(base, n + 1) == (if DataCount(base, n + 1) == n + 1 then n + 1 else DataCount(base, n))
    ensures DataCount(base, n + 1) == n + 1 ==> DataCount(base, n) == n
  {
  }

  lemma NullableWithCondition(values: seq<Split>, c: Split, base: G.Base)
    ensures var n := |values|;
            AnyNullable(values + [c], DataCount(base, n + 1)) ==
            (AnyNullable(values, DataCount(base, n)) || (DataCount(base, n + 1) == n + 1 && c.nullable))
  {
    var n := |values|;
    CountWithCondition(base, n);
    var all := values + [c];
    var count := DataCount(base, n + 1);
    hide DataCount;
    if AnyNullable(all, count) {
      var i :| 0 <= i < count && all[i].nullable;
      if i < n {
        assert values[i].nullable;
      }
    }
    if AnyNullable(values, DataCount(base, n)) {
      var i :| 0 <= i < DataCount(base, n) && values[i].nullable;
      assert all[i].nullable;
    }
    if count == n + 1 && c.nullable {
      assert all[n].nullable;
    }
  }

  lemma BasesWithCondition(rule: BaseRule, params: seq<CHType>, condition: CHType)
    ensures var c := SplitWrappers(ReadArgument(rule, condition));
            && ReadAll(rule, params + [condition]) == ReadAll(rule, params) + [c]
            && Bases(ReadAll(rule, params + [condition])) == Bases(ReadAll(rule, params)) + [c.base]
  {
    hide ReadArgument;
  }

  /** Over the recorded arguments, the condition weakens the result where it shows. */
  lemma ResultWithCondition(base: G.Base, rule: BaseRule, params: seq<CHType>, condition: CHType)
    requires IgnoresLast(rule) && (params != [] || rule.independent)
    requires ReadArgument(rule, condition) == condition
    ensures BaseResult(base, rule, params + [condition]) ==
            Weakened(rule, BaseResult(base, rule, params), ConditionShows(base, |params|, condition))
  {
    var c := SplitWrappers(condition);
    BasesWithCondition(rule, params, condition);
    var was := ReadAll(rule, params);
    NullableWithCondition(was, c, base);
    if !rule.independent {
      assert IgnoresLastAt(rule, Bases(was), c.base);
    }
    var result := rule.evaluate(if rule.independent then [] else Bases(was));
    Weakening(base, rule, params, params + [condition], result);
  }

  /** The last step, on the results of the rule alone. */
  lemma Weakening(base: G.Base, rule: BaseRule, args: seq<CHType>, params: seq<CHType>, now: Option<CHType>)
    requires |params| == |args| + 1
    requires now == rule.evaluate(if rule.independent then [] else Bases(ReadAll(rule, params)))
    requires now == rule.evaluate(if rule.independent then [] else Bases(ReadAll(rule, args)))
    requires ReadArgument(rule, params[|args|]) == params[|args|]
    requires AnyNullable(ReadAll(rule, params), DataCount(base, |params|)) ==
             (AnyNullable(ReadAll(rule, args), DataCount(base, |args|)) || ConditionShows(base, |args|, params[|args|]))
    ensures BaseResult(base, rule, params) ==
            Weakened(rule, BaseResult(base, rule, args), ConditionShows(base, |args|, params[|args|]))
  {
    hide AnyNullable, ReadAll, Bases, Strip, DataCount, ReadArgument, ConditionShows, ApplyWrappers, WrapNullable;
    if now.Some? && !rule.fixedWrappers {
      var value := if rule.independent then now.value else Strip(now.value);
      WrapTwice(value, AnyNullable(ReadAll(rule, args), DataCount(base, |args|)));
    }
  }

  // ----- -IfState, then -IfMerge -----

  lemma ConditionPlans()
    ensures PlanOf([G.If]) ==
            Plan(true, false, false, false, false, false, false, false, false, false, false)
    ensures PlanOf([G.If, G.State]) ==
            Plan(true, false, false, false, false, true, false, true, true, false, false)
    ensures PlanOf([G.If, G.Merge]) ==
            Plan(false, false, false, true, true, false, false, false, false, false, false)
  {
    hide IsLast;
    Pair(G.State);
    Pair(G.Merge);
    assert !Precedes([G.If], G.If, G.Merge) && !Precedes([G.If], G.If, G.State) && !Precedes([G.If], G.State, G.If);
  }

  lemma Pair(q: G.Primitive)
    requires q != G.If
    ensures Precedes([G.If, q], G.If, q) && !Precedes([G.If, q], q, G.If)
    ensures forall p :: p != G.If && p != q ==> !Precedes([G.If, q], G.If, p) && !Precedes([G.If, q], p, G.If)
  {
    var chain := [G.If, q];
    assert IsLast(chain, 0, G.If) && IsLast(chain, 1, q);
  }

  predicate IsCondition(t: CHType) {
    IsConditionType(SplitWrappers(t).base)
  }

  lemma ConditionRecorded(rule: BaseRule, t: CHType)
    requires IsCondition(t)
    ensures var r := Recorded(t, false, false);
            && ReadArgument(rule, r) == r && SplitWrappers(r).nullable == SplitWrappers(t).nullable
            && IsConditionType(WithoutWrappers(r))
  {
    var s := SplitWrappers(t);
    assert SplitWrappers(Recorded(t, false, false)) == Split(Strip(s.base), s.nullable, false) by {
      hide Strip;
    }
    assert Recorded(t, false, false) == ApplyWrappers(Strip(s.base), s.nullable, false);
    hide Strip;
    var r := Recorded(t, false, false);
    assert WithoutWrappers(r) == Strip(s.base);
  }

  /**
   Main result: -IfMerge over what -IfState built is the type that the base gives to the
   recorded arguments, weakened to Nullable when the condition shows.
   */
  lemma IfStateThenIfMerge(base: G.Base, rule: BaseRule, call: Call, merge: Call)
    requires IgnoresLast(rule)
    requires Infer(base, rule, PlanOf([G.If, G.State]), call).Some?
    requires merge.args == [Infer(base, rule, PlanOf([G.If, G.State]), call).value]
    ensures call.args != []
    ensures var n := |call.args| - 1;
            var data := call.args[..n];
            && Infer(base, rule, PlanOf([G.If]), call) == BaseResult(base, rule, data)
            && Infer(base, rule, PlanOf([G.If, G.Merge]), merge) ==
                 Weakened(rule, BaseResult(base, rule, RecordAll(data, false, false)), ConditionShows(base, n, call.args[n]))
            && (data != [] || rule.independent) && rule.arity(n)
  {
    hide PlanOf, BaseResult, Recorded, IgnoresLast, ReadArgument, WithoutWrappers, SplitWrappers, StateName, DataCount;
    ConditionPlans();
    var n := |call.args| - 1;
    var data, condition := call.args[..n], call.args[n];
    var params, recorded := RecordAll(data, false, false), Recorded(condition, false, false);
    ConditionRecorded(rule, condition);
    var stored := RecordAll(data + [condition], false, false);
    assert stored == params + [recorded];
    assert merge.args[0] == StateOf(StateName(base) + "if", call, stored);
    assert merge.args[0].params[1..] == stored;
    DataNeeded(rule, data);
    ResultWithCondition(base, rule, params, recorded);
  }

  lemma DataNeeded(rule: BaseRule, data: seq<CHType>)
    requires IgnoresLast(rule) && rule.arity(|data|)
    ensures data != [] || rule.independent
  {
  }

  predicate HidesNone(rule: BaseRule, ts: seq<CHType>) {
    forall i :: 0 <= i < |ts| ==> !HidesScalar(rule, ts[i])
  }

  lemma RecordedVerbatimKept(rule: BaseRule, data: seq<CHType>)
    requires AllWellformed(data) && HidesNone(rule, data)
    ensures AllKept(rule, data, RecordAll(data, false, false))
  {
    hide Recorded, Wellformed, KeptBy, HidesScalar;
    var params := RecordAll(data, false, false);
    forall i | 0 <= i < |data| ensures KeptBy(rule, data[i], params[i]) {
      VerbatimKeptIff(rule, data[i]);
    }
  }

  /**
   For any rule, when no marker hides a LowCardinality scalar: the two agree for a condition
   without NULL, and for a result that no wrapper can change.
   */
  lemma IfMergeAgreesIff(base: G.Base, rule: BaseRule, call: Call, merge: Call)
    requires Commutes(rule) && IgnoresLast(rule)
    requires Infer(base, rule, PlanOf([G.If, G.State]), call).Some?
    requires merge.args == [Infer(base, rule, PlanOf([G.If, G.State]), call).value]
    requires call.args != [] && AllWellformed(call.args[..|call.args| - 1])
    requires HidesNone(rule, call.args[..|call.args| - 1])
    ensures var (n, plain) := (|call.args| - 1, Infer(base, rule, PlanOf([G.If]), call));
            Infer(base, rule, PlanOf([G.If, G.Merge]), merge) == plain <==>
            || !ConditionShows(base, n, call.args[n]) || rule.fixedWrappers || plain.None?
            || plain.value.kind == Nullable || !CanBeInsideNullable(plain.value)
  {
    hide PlanOf, Infer, Commutes, IgnoresLast, AllWellformed, HidesNone, ConditionShows, BaseResult, AllKept;
    ConditionPlans();
    IfStateThenIfMerge(base, rule, call, merge);
    var data := call.args[..|call.args| - 1];
    RecordedVerbatimKept(rule, data);
    ResultKept(base, rule, data, RecordAll(data, false, false));
    var plain := Infer(base, rule, PlanOf([G.If]), call);
    if plain.Some? && WrapNullable(plain.value) != plain.value {
      assert WrapNullable(plain.value) == Of(Nullable, plain.value);
    }
  }

  // ----- names keep states apart -----

  function Canonical(base: G.Base): G.Base {
    if base == G.Median then G.Quantile else base
  }

  /** What -If and -OrNull add to the name of a state. */
  datatype Tag = NoTag | IfTag | OrNullTag

  function TagText(tag: Tag): string {
    match tag
    case NoTag => ""
    case IfTag => "if"
    case OrNullTag => "ornull"
  }

  function TagChain(tag: Tag): seq<G.Primitive> {
    match tag
    case NoTag => []
    case IfTag => [G.If]
    case OrNullTag => [G.OrNull]
  }

  lemma TagIsSuffix(tag: Tag)
    ensures TagText(tag) == G.Suffix(TagChain(tag))
  {
    if tag != NoTag {
      var p := TagChain(tag)[0];
      assert TagChain(tag)[1..] == [];
      assert G.Suffix([]) == "";
      assert G.Suffix([p]) == G.Spelling(p) + "";
      assert G.Spelling(p) + "" == G.Spelling(p);
    }
  }

  lemma SuffixLength(chain: seq<G.Primitive>)
    requires chain != []
    ensures |G.Suffix(chain)| >= 2
  {
    hide G.Spelling;
    G.SpellingLength(chain[0]);
  }

  /** No base is another base followed by a chain. */
  lemma BaseIsNoChain(a: G.Base, split: G.Split)
    requires split.chain != []
    ensures G.BaseName(a) != G.NameOf(split)
  {
    var name := G.BaseName(a);
    SuffixLength(split.chain);
    if name == G.NameOf(split) {
      G.SplitIsRead(name, split);
      G.NameDecidesRoot(name, a);
      G.NameDecidesRoot(name, split.base);
      hide G.Read, G.BaseName, G.Root, G.Suffix;
      if G.RootOf(a) == split.base && a != split.base {
        G.LongerIsNoChain(name, a);
      } else if G.RootOf(split.base) == a {
        SameLength(split.base, a);
      } else if a != split.base {
        G.SiblingsDiffer(name, a, split.base);
      }
    }
  }

  /** A longer base is no head of its own root. */
  lemma SameLength(a: G.Base, root: G.Base)
    requires root == G.RootOf(a) && G.BaseName(a) <= G.BaseName(root)
    ensures a == root
  {
  }

  lemma StateNamesDiffer(a: G.Base, tag: Tag, b: G.Base, other: Tag)
    ensures StateName(a) + TagText(tag) == StateName(b) + TagText(other) <==> Canonical(a) == Canonical(b) && tag == other
  {
    TagIsSuffix(tag);
    TagIsSuffix(other);
    hide G.BaseName, G.Suffix, TagText;
    var x, y := G.Split(Canonical(a), TagChain(tag)), G.Split(Canonical(b), TagChain(other));
    var name := G.NameOf(x);
    if name == G.NameOf(y) {
      if tag == NoTag && other == NoTag {
        OneBase(x.base, y.base);
      } else if tag == NoTag {
        assert G.BaseName(x.base) + G.Suffix([]) == G.BaseName(x.base) by { NoSuffix(); }
        BaseIsNoChain(x.base, y);
      } else if other == NoTag {
        assert G.BaseName(y.base) + G.Suffix([]) == G.BaseName(y.base) by { NoSuffix(); }
        BaseIsNoChain(y.base, x);
      } else {
        G.OneSplit(name, x, y);
      }
    }
  }

  lemma NoSuffix()
    ensures G.Suffix([]) == ""
  {
  }

  lemma OneBase(a: G.Base, b: G.Base)
    requires G.BaseName(a) + G.Suffix([]) == G.BaseName(b) + G.Suffix([])
    ensures a == b
  {
    NoSuffix();
    assert G.BaseName(a) + "" == G.BaseName(a) && G.BaseName(b) + "" == G.BaseName(b);
    G.NameDecidesRoot(G.BaseName(a), a);
    G.NameDecidesRoot(G.BaseName(b), b);
    var longer := |G.BaseName(a)|;
    SameName(a, b);
  }

  lemma SameName(a: G.Base, b: G.Base)
    requires G.BaseName(a) == G.BaseName(b) && G.RootOf(a) == G.RootOf(b)
    ensures a == b
  {
  }

  /** The chains that build a state, and those that read one. */
  predicate Builds(chain: seq<G.Primitive>) {
    chain in {[G.State], [G.State, G.If], [G.If, G.State], [G.State, G.OrNull]}
  }

  predicate Reads(chain: seq<G.Primitive>) {
    chain in {[G.Merge], [G.Merge, G.State], [G.If, G.Merge], [G.If, G.Merge, G.State]}
  }

  function TagBuilt(chain: seq<G.Primitive>): Tag {
    if PlanOf(chain).stateStoresCondition then IfTag
    else if PlanOf(chain).orNullResult then OrNullTag else NoTag
  }

  function TagRead(chain: seq<G.Primitive>): Tag {
    if PlanOf(chain).stateHasCondition then IfTag else NoTag
  }

  lemma BuiltName(base: G.Base, rule: BaseRule, chain: seq<G.Primitive>, call: Call)
    requires Builds(chain) && Infer(base, rule, PlanOf(chain), call).Some?
    ensures var t := Infer(base, rule, PlanOf(chain), call).value;
            t.params != [] && t.params[0].kind == Named(StateName(base) + TagText(TagBuilt(chain)))
  {
    RolesExclude(chain);
    NoSimpleState(chain);
    hide PlanOf, Builds, Reads, StateName, RecordAll, BaseResult, SimpleState, MergeResult, Shaped, DataTypes, TagText;
    TagTexts();
    assert StateName(base) + "" == StateName(base);
  }

  lemma NoSimpleState(chain: seq<G.Primitive>)
    requires Builds(chain) || Reads(chain)
    ensures !PlanOf(chain).simpleStateResult
    ensures Builds(chain) ==> PlanOf(chain).buildsAggregateState
    ensures Reads(chain) ==> PlanOf(chain).stateArgument
  {
    hide Precedes;
  }

  lemma ReadName(base: G.Base, rule: BaseRule, chain: seq<G.Primitive>, call: Call)
    requires Reads(chain) && Infer(base, rule, PlanOf(chain), call).Some?
    ensures |call.args| == 1
    ensures var state := call.args[0];
            state.params != [] && state.params[0].kind == Named(StateName(base) + TagText(TagRead(chain)))
  {
    RolesExclude(chain);
    NoSimpleState(chain);
    hide PlanOf, Builds, Reads, StateName, RecordAll, BaseResult, SimpleState, DataTypes, ElementsOf, TagText, WithoutWrappers;
    TagTexts();
    ReadsData(chain, call);
  }

  lemma ReadsData(chain: seq<G.Primitive>, call: Call)
    requires Reads(chain)
    ensures PlanOf(chain).stateArgument && !PlanOf(chain).arrayDataArguments
    ensures DataTypes(PlanOf(chain), call) == Some(call.args)
  {
    hide Precedes, ElementsOf;
  }

  lemma TagTexts()
    ensures TagText(NoTag) == "" && TagText(IfTag) == "if" && TagText(OrNullTag) == "ornull"
  {
  }

  /** Main result: a state is merged only by the aggregate, and the form, that built it. */
  lemma WrongStateIsRefused(a: G.Base, rule: BaseRule, built: seq<G.Primitive>, call: Call,
                            b: G.Base, other: BaseRule, merged: seq<G.Primitive>, merge: Call)
    requires Builds(built) && Infer(a, rule, PlanOf(built), call).Some?
    requires Reads(merged) && merge.args == [Infer(a, rule, PlanOf(built), call).value]
    requires Infer(b, other, PlanOf(merged), merge).Some?
    ensures Canonical(a) == Canonical(b) && TagBuilt(built) == TagRead(merged)
  {
    RolesExclude(built);
    RolesExclude(merged);
    hide Infer, PlanOf, Builds, Reads, StateName, TagText, TagBuilt, TagRead;
    BuiltName(a, rule, built, call);
    ReadName(b, other, merged, merge);
    StateNamesDiffer(a, TagBuilt(built), b, TagRead(merged));
  }
}
