/**
 Every measured form that computes a value, against the plain call of its base: what it
 takes from the arguments, and what it does to the result.
 */
module AggregateForms {
  import opened Wrappers
  import opened ChTypes
  import opened AggregatePlan
  import opened AggregateStates
  import opened AggregateStatesProofs
  import opened AggregateConditions
  import opened AggregateRules
  import G = AggregateGrammar

  /** The type of the base aggregate itself, with its arity and domain. */
  function PlainType(base: G.Base, rule: BaseRule, args: seq<CHType>): Option<CHType> {
    if rule.arity(|args|) && rule.domain(args) then BaseResult(base, rule, args) else None
  }

  lemma FormPlans()
    ensures PlanOf([G.OrNull]) ==
            Plan(false, false, false, false, false, false, false, false, false, false, true)
    ensures PlanOf([G.Resample]) ==
            Plan(false, false, true, false, false, false, false, false, false, false, false)
    ensures PlanOf([G.Array]) ==
            Plan(false, true, false, false, false, false, false, false, false, false, false)
    ensures PlanOf([G.SimpleState]) ==
            Plan(false, false, false, false, false, false, false, false, false, true, false)
  {
    hide IsLast;
    NotBefore([G.OrNull]);
    NotBefore([G.Resample]);
    NotBefore([G.Array]);
    NotBefore([G.SimpleState]);
  }

  lemma OrDefaultForm(base: G.Base, rule: BaseRule, call: Call)
    ensures Infer(base, rule, PlanOf([G.OrDefault]), call) == PlainType(base, rule, call.args)
  {
    hide PlanOf, BaseResult, SplitWrappers, WithoutWrappers;
    SimplePlans();
    assert call.args[..|call.args|] == call.args;
  }

  lemma {:induction false} ElementsKeepLength(ts: seq<CHType>)
    ensures ElementsOf(ts).Some? ==> |ElementsOf(ts).value| == |ts|
  {
    if ts != [] {
      ElementsKeepLength(ts[1..]);
    }
  }

  /** -Array computes the base over the elements of its arguments. */
  lemma ArrayForm(base: G.Base, rule: BaseRule, call: Call)
    ensures Infer(base, rule, PlanOf([G.Array]), call) ==
            var elements := ElementsOf(call.args);
            if call.args == [] || elements.None? then None else PlainType(base, rule, elements.value)
  {
    hide PlanOf, BaseResult, SplitWrappers, WithoutWrappers, ElementsOf;
    FormPlans();
    ElementsKeepLength(call.args);
    assert call.args[..|call.args|] == call.args;
  }

  /** -OrNull is always Nullable, over the bare type of the base; it refuses what cannot be. */
  lemma OrNullForm(base: G.Base, rule: BaseRule, call: Call)
    ensures var (form, plain) := (Infer(base, rule, PlanOf([G.OrNull]), call), PlainType(base, rule, call.args));
            && (form.Some? <==> plain.Some? && CanBeInsideNullable(SplitWrappers(plain.value).base))
            && (form.Some? ==> form.value.kind == Nullable)
            && (form.Some? && Bare(SplitWrappers(plain.value).base) ==>
                  form.value == Of(Nullable, SplitWrappers(plain.value).base))
  {
    hide PlanOf, BaseResult, SplitWrappers, WithoutWrappers;
    FormPlans();
    assert call.args[..|call.args|] == call.args;
  }

  /** -SimpleState marks the type of the base; the Nullable of a CASE without ELSE goes outside. */
  lemma SimpleStateForm(base: G.Base, rule: BaseRule, call: Call)
    ensures var (form, plain) := (Infer(base, rule, PlanOf([G.SimpleState]), call), PlainType(base, rule, call.args));
            var outside := base == G.Sum && |call.args| == 1 && call.caseAddsNull;
            && (form.Some? <==> plain.Some? && base in SIMPLE_STATE_BASES)
            && (form.Some? ==>
                  if outside && SplitWrappers(plain.value).nullable then
                    IsOf(form.value, Nullable) && IsMarker(form.value.params[0])
                    && form.value.params[0].params[1] == SplitWrappers(plain.value).base
                  else IsMarker(form.value) && form.value.params[1] == plain.value)
  {
    hide PlanOf, BaseResult, SplitWrappers, WithoutWrappers, SIMPLE_STATE_BASES, StateName;
    FormPlans();
    assert call.args[..|call.args|] == call.args;
  }

  // ----- every form that computes a value, with its condition and its resample key -----

  /** UInt8 or Bool, under any LowCardinality and Nullable. */
  predicate FitsCondition(t: CHType) {
    match Unwrapped(t).kind
    case UInt(size) => size == 1
    case Bool => true
    case other => false
  }

  function Unwrapped(t: CHType): CHType {
    var inner := if t.kind == LowCardinality && |t.params| == 1 then t.params[0] else t;
    if inner.kind == Nullable && |inner.params| == 1 then inner.params[0] else inner
  }

  /** A native integer, Bool, an Enum, Date or DateTime, under any wrappers. */
  predicate FitsKey(t: CHType)
    decreases t
  {
    if (t.kind == Nullable || t.kind == LowCardinality) && |t.params| == 1 then FitsKey(t.params[0])
    else match t.kind
      case Int(size) => size in {1, 2, 4, 8}
      case UInt(size) => size in {1, 2, 4, 8}
      case Bool => true
      case Enum(_) => true
      case Date => true
      case DateTime => true
      case other => false
  }

  const VALUE_FORMS: set<seq<G.Primitive>> :=
    {[G.If], [G.OrDefault], [G.If, G.OrDefault], [G.OrNull], [G.If, G.OrNull], [G.Array], [G.Array, G.If],
     [G.Resample], [G.Resample, G.If]}

  /** The condition is the last argument, the key the one before it; -Array reads elements. */
  function DataOf(condition: bool, key: bool, arrays: bool, args: seq<CHType>): Option<seq<CHType>> {
    var c := if condition then 1 else 0;
    var k := if key then 1 else 0;
    if |args| < c + k then None
    else
      var n := |args| - c - k;
      if condition && !FitsCondition(args[|args| - 1]) then None
      else if key && !FitsKey(args[n]) then None
      else if !arrays then Some(args[..n])
      else if n == 0 then None
      else AllElements(args[..n])
  }

  /** The elements of an array under any wrappers; a Nullable around the array goes to them. */
  function ElementIn(t: CHType): Option<CHType> {
    var outer := Unwrapped(t);
    var inner := if t.kind == LowCardinality && |t.params| == 1 then t.params[0] else t;
    if outer.kind != Array || |outer.params| != 1 then None
    else if inner.kind == Nullable && |inner.params| == 1 then Some(WrapNullable(outer.params[0]))
    else Some(outer.params[0])
  }

  function AllElements(ts: seq<CHType>): Option<seq<CHType>> {
    if exists i :: 0 <= i < |ts| && ElementIn(ts[i]).None? then None
    else Some(seq(|ts|, i requires 0 <= i < |ts| && ElementIn(ts[i]).Some? => ElementIn(ts[i]).value))
  }

  lemma ElementIs(t: CHType)
    ensures ElementIn(t) == ElementOf(t)
  {
    hide CanBeInsideNullable;
  }

  lemma {:induction false} ElementsAre(ts: seq<CHType>)
    ensures ElementsOf(ts) == AllElements(ts)
  {
    hide ElementIn, ElementOf;
    if ts != [] {
      var rest := ts[1..];
      ElementsAre(rest);
      ElementIs(ts[0]);
      assert forall i :: 0 <= i < |rest| ==> rest[i] == ts[i + 1];
      assert forall i :: 1 <= i < |ts| ==> ts[i] == rest[i - 1];
      if AllElements(rest).Some? && ElementIn(ts[0]).Some? {
        assert [ElementIn(ts[0]).value] + AllElements(rest).value == AllElements(ts).value;
      }
    }
  }

  function ValueForm(orNull: bool, resample: bool, plain: Option<CHType>): Option<CHType> {
    if plain.None? then None
    else
      var bare := SplitWrappers(plain.value).base;
      if orNull then if CanBeInsideNullable(bare) then Some(ApplyWrappers(bare, true, false)) else None
      else if resample then Some(CHType(Array, [bare], []))
      else plain
  }

  lemma ConditionIs(t: CHType)
    ensures FitsCondition(t) <==> IsConditionType(SplitWrappers(t).base)
  {
  }

  lemma {:induction false} KeyIs(t: CHType)
    ensures FitsKey(t) <==> IsResampleKey(WithoutWrappers(t))
    decreases t
  {
    if IsOf(t, Nullable) || IsOf(t, LowCardinality) {
      KeyIs(t.params[0]);
    }
  }

  predicate InForm(chain: seq<G.Primitive>) {
    chain in VALUE_FORMS
  }

  /** What the plan of such a form says. */
  lemma ValuePlan(chain: seq<G.Primitive>)
    requires InForm(chain)
    ensures var plan := PlanOf(chain);
            && plan.conditionArgument == (G.If in chain) && plan.arrayDataArguments == (G.Array in chain)
            && plan.resampleKeyArgument == (G.Resample in chain) && plan.orNullResult == (G.OrNull in chain)
            && !plan.stateArgument && !plan.stateStoresCondition && !plan.buildsAggregateState && !plan.simpleStateResult
    ensures !(G.Resample in chain && G.OrNull in chain)
  {
    NoState(chain);
    hide Precedes;
  }

  lemma NoState(chain: seq<G.Primitive>)
    requires InForm(chain)
    ensures G.State !in chain && G.Merge !in chain && G.SimpleState !in chain
    ensures !(G.Resample in chain && G.OrNull in chain)
    ensures !Precedes(chain, G.If, G.State)
  {
    hide Precedes;
    assert chain in VALUE_FORMS;
    if Precedes(chain, G.If, G.State) {
      NeedsBoth(chain);
    }
  }

  lemma NeedsBoth(chain: seq<G.Primitive>)
    requires Precedes(chain, G.If, G.State)
    ensures G.State in chain
  {
    hide IsLast;
  }

  /** The plan takes the data from the call and nothing from a state. */
  predicate IsValuePlan(plan: Plan) {
    !plan.stateArgument && !plan.stateStoresCondition && !plan.buildsAggregateState && !plan.simpleStateResult
  }

  /** The data of an accepted shape. */
  function Taken(rule: BaseRule, plan: Plan, call: Call): Option<seq<CHType>> {
    if Shaped(rule, plan, call) then DataTypes(plan, call) else None
  }

  lemma InferIs(base: G.Base, rule: BaseRule, plan: Plan, call: Call)
    requires IsValuePlan(plan)
    ensures Infer(base, rule, plan, call) ==
            var data := Taken(rule, plan, call);
            if data.None? || !rule.domain(data.value) then None else ResultOf(base, rule, plan, call, data.value)
  {
    hide SplitWrappers, WithoutWrappers, ResultOf, IsConditionType, IsResampleKey, ElementsOf;
  }

  lemma DataIs(rule: BaseRule, plan: Plan, call: Call)
    requires IsValuePlan(plan)
    ensures Taken(rule, plan, call) ==
            var data := DataOf(plan.conditionArgument, plan.resampleKeyArgument, plan.arrayDataArguments, call.args);
            if data.Some? && rule.arity(|data.value|) then data else None
  {
    hide SplitWrappers, WithoutWrappers, ElementsOf, AllElements, FitsCondition, FitsKey, IsConditionType, IsResampleKey;
    var n := |call.args| - Trailing(plan);
    if n >= 0 {
      ElementsKeepLength(call.args[..n]);
      ElementsAre(call.args[..n]);
      if call.args != [] {
        ConditionIs(call.args[|call.args| - 1]);
      }
      if n < |call.args| {
        KeyIs(call.args[n]);
      }
    }
  }

  lemma ValueIs(base: G.Base, rule: BaseRule, plan: Plan, call: Call, data: seq<CHType>)
    requires IsValuePlan(plan) && !(plan.orNullResult && plan.resampleKeyArgument)
    ensures ResultOf(base, rule, plan, call, data) ==
            ValueForm(plan.orNullResult, plan.resampleKeyArgument, BaseResult(base, rule, data))
  {
    hide BaseResult, SplitWrappers, CanBeInsideNullable, ApplyWrappers;
  }

  /**
   Main result: each of these forms is the base aggregate over its data arguments, and accepts
   exactly when the base does, the condition and the key fit, and the result can hold its wrapper.
   */
  lemma ValueFormIs(base: G.Base, rule: BaseRule, chain: seq<G.Primitive>, call: Call)
    requires InForm(chain)
    ensures Infer(base, rule, PlanOf(chain), call) ==
            var data := DataOf(G.If in chain, G.Resample in chain, G.Array in chain, call.args);
            if data.None? then None
            else ValueForm(G.OrNull in chain, G.Resample in chain, PlainType(base, rule, data.value))
  {
    ValuePlan(chain);
    var plan := PlanOf(chain);
    hide PlanOf, BaseResult, Taken, DataOf, ResultOf, InForm, Infer, ValueForm;
    InferIs(base, rule, plan, call);
    DataIs(rule, plan, call);
    var data := Taken(rule, plan, call);
    if data.Some? {
      ValueIs(base, rule, plan, call, data.value);
    }
    NothingStays(plan.orNullResult, plan.resampleKeyArgument);
  }

  lemma NothingStays(orNull: bool, resample: bool)
    ensures ValueForm(orNull, resample, None) == None
  {
  }

  // ----- every form that builds a state -----

  /** Nullable and LowCardinality have no literals. */
  predicate PlainWrappers(t: CHType) {
    && (IsOf(t, Nullable) ==> t.literals == [])
    && (IsOf(t, LowCardinality) && IsOf(t.params[0], Nullable) ==> t.params[0].literals == [])
    && (IsMarker(t) && IsOf(t.params[1], LowCardinality) && IsOf(t.params[1].params[0], Nullable) ==>
          t.params[1].params[0].literals == [])
  }

  /** What a state holds of an argument that the server can hold. */
  lemma RecordedTypes(t: CHType)
    requires Wellformed(t) && PlainWrappers(t)
    ensures Recorded(t, false, false) == Strip(t)
    ensures Recorded(t, false, true) == Strip(if IsMarker(t) && t.params[1].kind == LowCardinality then t.params[1] else t)
    ensures Recorded(t, true, true) == Strip(SplitWrappers(ReadValue(t)).base)
  {
    if IsMarker(t) && t.params[1].kind == LowCardinality {
      RecordedHidden(t);
    }
    RecordedDropped(t);
    StripOnce(t);
    hide Strip, CanBeInsideNullable, ReadValue, ApplyWrappers, SplitWrappers;
  }

  lemma RecordedHidden(t: CHType)
    requires Wellformed(t) && PlainWrappers(t) && IsMarker(t) && t.params[1].kind == LowCardinality
    ensures Recorded(t, false, true) == Strip(t.params[1])
  {
    StripOnce(t.params[1]);
    hide Strip, CanBeInsideNullable;
  }

  lemma RecordedDropped(t: CHType)
    ensures Recorded(t, true, true) == Strip(SplitWrappers(ReadValue(t)).base)
  {
    BareStays(SplitWrappers(ReadValue(t)).base);
    hide Strip, CanBeInsideNullable;
  }

  lemma BareStays(t: CHType)
    ensures ApplyWrappers(Strip(t), false, false) == Strip(t)
  {
  }

  /** Stripping a type is stripping its base, with the Nullable put back. */
  lemma StripOnce(t: CHType)
    requires Bare(SplitWrappers(t).base) && (SplitWrappers(t).nullable ==> CanBeInsideNullable(SplitWrappers(t).base))
    requires (IsOf(t, Nullable) ==> t.literals == [])
    requires (IsOf(t, LowCardinality) && IsOf(t.params[0], Nullable) ==> t.params[0].literals == [])
    ensures Strip(t) == ApplyWrappers(Strip(SplitWrappers(t).base), SplitWrappers(t).nullable, false)
  {
    var inner := if IsOf(t, LowCardinality) then t.params[0] else t;
    LowIsTakenOff(t);
    var base := SplitWrappers(t).base;
    LowIsTakenOff(base);
    SameKindFits(base, Strip(base));
    if IsOf(inner, Nullable) {
      NullableStays(inner);
    }
    hide Strip, CanBeInsideNullable;
  }

  lemma LowIsTakenOff(t: CHType)
    ensures IsOf(t, LowCardinality) ==> Strip(t) == Strip(t.params[0])
    ensures Bare(t) ==> Strip(t).kind == t.kind
  {
  }

  lemma NullableStays(t: CHType)
    requires IsOf(t, Nullable) && t.literals == []
    ensures Strip(t) == Of(Nullable, Strip(t.params[0]))
  {
  }

  const STATE_FORMS: set<seq<G.Primitive>> := {[G.State], [G.State, G.If], [G.If, G.State], [G.State, G.OrNull]}

  predicate InStateForm(chain: seq<G.Primitive>) {
    chain in STATE_FORMS
  }

  /** No OrNull state for the bases whose state cannot be Nullable. */
  predicate HasStateForm(base: G.Base, chain: seq<G.Primitive>) {
    G.OrNull !in chain ||
    base !in {G.Count, G.Uniq, G.UniqExact, G.GroupArray, G.GroupUniqArray, G.GroupArraySorted}
  }

  function StateTag(chain: seq<G.Primitive>): string {
    if chain == [G.If, G.State] then "if" else if chain == [G.State, G.OrNull] then "ornull" else ""
  }

  /** -IfState keeps the condition as well, and -StateIf leaves it out with every Nullable. */
  function HeldTypes(chain: seq<G.Primitive>, args: seq<CHType>, data: seq<CHType>): seq<CHType> {
    if chain == [G.If, G.State] then RecordAll(args, false, false)
    else if chain == [G.State, G.OrNull] then RecordAll(data, false, false)
    else RecordAll(data, chain == [G.State, G.If], true)
  }

  lemma StatePlans()
    ensures PlanOf([G.State, G.If]) ==
            Plan(true, false, false, false, false, false, true, true, true, false, false)
    ensures PlanOf([G.State, G.OrNull]) ==
            Plan(false, false, false, false, false, false, false, true, true, false, true)
  {
    hide IsLast;
    var chain := [G.State, G.If];
    assert IsLast(chain, 0, G.State) && IsLast(chain, 1, G.If) by { LastsOf(); }
    assert Precedes(chain, G.State, G.If);
    NotTheOther();
    NotBefore([G.State, G.OrNull]);
  }

  lemma LastsOf()
    ensures IsLast([G.State, G.If], 0, G.State) && IsLast([G.State, G.If], 1, G.If)
  {
  }

  lemma NotTheOther()
    ensures !Precedes([G.State, G.If], G.If, G.State) && !Precedes([G.State, G.If], G.If, G.Merge)
  {
  }

  lemma StatePlan(chain: seq<G.Primitive>)
    requires InStateForm(chain)
    ensures var plan := PlanOf(chain);
            && plan.conditionArgument == (G.If in chain) && !plan.arrayDataArguments && !plan.resampleKeyArgument
            && !plan.stateArgument && plan.buildsAggregateState && !plan.simpleStateResult
            && plan.orNullResult == (G.OrNull in chain)
            && plan.stateStoresCondition == (chain == [G.If, G.State])
            && plan.dropsTopLevelNullable == (chain == [G.State, G.If])
  {
    SimplePlans();
    ConditionPlans();
    StatePlans();
    hide PlanOf;
    assert chain in STATE_FORMS;
  }

  lemma StateBasesAre(base: G.Base)
    ensures base in STATE_OR_NULL_BASES <==>
            base !in {G.Count, G.Uniq, G.UniqExact, G.GroupArray, G.GroupUniqArray, G.GroupArraySorted}
    ensures base in SIMPLE_STATE_BASES <==>
            base !in {G.Avg, G.BaseArgMax, G.BaseArgMin, G.Quantile, G.Median, G.UniqCombined} &&
            base !in {G.Count, G.Uniq, G.UniqExact, G.GroupArray, G.GroupUniqArray, G.GroupArraySorted}
  {
  }

  /** The data of a call without arrays and without a key. */
  lemma PlainData(rule: BaseRule, plan: Plan, call: Call)
    requires !plan.stateArgument && !plan.arrayDataArguments && !plan.resampleKeyArgument
    ensures Taken(rule, plan, call) ==
            var data := DataOf(plan.conditionArgument, false, false, call.args);
            if data.Some? && rule.arity(|data.value|) then data else None
  {
    hide SplitWrappers, WithoutWrappers, FitsCondition, FitsKey, IsConditionType, IsResampleKey;
    if call.args != [] {
      ConditionIs(call.args[|call.args| - 1]);
    }
  }

  lemma StateInferIs(base: G.Base, rule: BaseRule, plan: Plan, call: Call)
    requires !plan.stateArgument && (plan.stateStoresCondition ==> plan.conditionArgument)
    ensures Infer(base, rule, plan, call) ==
            var data := Taken(rule, plan, call);
            if data.None? || !rule.domain(data.value) then None else ResultOf(base, rule, plan, call, data.value)
  {
    hide SplitWrappers, WithoutWrappers, ResultOf, IsConditionType, IsResampleKey, ElementsOf;
  }

  lemma ConditionIsLast(args: seq<CHType>)
    requires DataOf(true, false, false, args).Some?
    ensures args != [] && DataOf(true, false, false, args).value + [args[|args| - 1]] == args
  {
  }

  /** Main result: the type of the state, and when there is one. */
  lemma StateFormIs(base: G.Base, rule: BaseRule, chain: seq<G.Primitive>, call: Call)
    requires InStateForm(chain)
    ensures Infer(base, rule, PlanOf(chain), call) ==
            var data := DataOf(G.If in chain, false, false, call.args);
            if data.None? || !rule.arity(|data.value|) || !rule.domain(data.value) || !HasStateForm(base, chain) then None
            else
              var name := CHType(Named(StateName(base) + StateTag(chain)), [], call.literals);
              Some(CHType(AggregateFunction, [name] + HeldTypes(chain, call.args, data.value), []))
  {
    StatePlan(chain);
    StateBasesAre(base);
    var plan := PlanOf(chain);
    hide PlanOf, Taken, DataOf, StateName, RecordAll, Infer, InStateForm, STATE_OR_NULL_BASES, SIMPLE_STATE_BASES;
    StateInferIs(base, rule, plan, call);
    PlainData(rule, plan, call);
    assert StateName(base) + "" == StateName(base);
    var data := Taken(rule, plan, call);
    if data.Some? && G.If in chain {
      ConditionIsLast(call.args);
    }
    ChainsAre(chain);
  }

  lemma ChainsAre(chain: seq<G.Primitive>)
    requires InStateForm(chain)
    ensures G.OrNull in chain <==> chain == [G.State, G.OrNull]
    ensures chain == [G.If, G.State] || chain == [G.State, G.If] <==> G.If in chain
  {
    assert chain in STATE_FORMS;
  }

  // ----- every form that reads a state -----

  const MERGE_FORMS: set<seq<G.Primitive>> := {[G.Merge], [G.Merge, G.State], [G.If, G.Merge], [G.If, G.Merge, G.State]}

  predicate InMergeForm(chain: seq<G.Primitive>) {
    chain in MERGE_FORMS
  }

  lemma MergePlan(chain: seq<G.Primitive>)
    requires InMergeForm(chain)
    ensures var plan := PlanOf(chain);
            && plan.stateArgument && plan.stateHasCondition == (G.If in chain)
            && plan.returnsAggregateState == (G.State in chain)
            && !plan.conditionArgument && !plan.arrayDataArguments && !plan.resampleKeyArgument
            && !plan.stateStoresCondition && !plan.buildsAggregateState && !plan.simpleStateResult && !plan.orNullResult
  {
    SimplePlans();
    ConditionPlans();
    IfMergeStatePlan();
    hide PlanOf;
    assert chain in MERGE_FORMS;
  }

  lemma IfMergeStatePlan()
    ensures PlanOf([G.If, G.Merge, G.State]) ==
            Plan(false, false, false, true, true, false, false, false, true, false, false)
  {
    var chain := [G.If, G.Merge, G.State];
    LastInThree();
    hide IsLast;
    assert Precedes(chain, G.If, G.Merge);
    NoStateFirst();
  }

  lemma LastInThree()
    ensures IsLast([G.If, G.Merge, G.State], 0, G.If) && IsLast([G.If, G.Merge, G.State], 1, G.Merge)
  {
  }

  lemma NoStateFirst()
    ensures !Precedes([G.If, G.Merge, G.State], G.State, G.If)
  {
  }

  /** UInt8 or Bool, under any number of wrappers. */
  predicate HeldCondition(t: CHType)
    decreases t
  {
    if (t.kind == Nullable || t.kind == LowCardinality) && |t.params| == 1 then HeldCondition(t.params[0])
    else match t.kind
      case UInt(size) => size == 1
      case Bool => true
      case other => false
  }

  lemma {:induction false} HeldConditionIs(t: CHType)
    ensures HeldCondition(t) <==> IsConditionType(WithoutWrappers(t))
    decreases t
  {
    if IsOf(t, Nullable) || IsOf(t, LowCardinality) {
      HeldConditionIs(t.params[0]);
    }
  }

  /** The types that a state of this aggregate and form holds, when it is such a state. */
  function HeldBy(base: G.Base, rule: BaseRule, conditional: bool, state: CHType): Option<seq<CHType>> {
    var name := StateName(base) + if conditional then "if" else "";
    if state.kind != AggregateFunction || state.params == [] || state.params[0].kind != Named(name) then None
    else
      var held := state.params[1..];
      if !conditional then if rule.arity(|held|) then Some(held) else None
      else if held == [] || !HeldCondition(held[|held| - 1]) || !rule.arity(|held| - 1) then None
      else Some(held)
  }

  /**
   Main result: a merge reads one state of its own aggregate and form.  It gives the type of the
   base over all that the state holds, or the state again, with the parameters of this call.
   */
  lemma MergeFormIs(base: G.Base, rule: BaseRule, chain: seq<G.Primitive>, call: Call)
    requires InMergeForm(chain)
    ensures Infer(base, rule, PlanOf(chain), call) ==
            if |call.args| != 1 then None
            else
              var held := HeldBy(base, rule, G.If in chain, call.args[0]);
              if held.None? then None
              else if G.State !in chain then BaseResult(base, rule, held.value)
              else
                var name := CHType(call.args[0].params[0].kind, [], call.literals);
                Some(CHType(AggregateFunction, [name] + held.value, []))
  {
    MergePlan(chain);
    var plan := PlanOf(chain);
    hide PlanOf, BaseResult, InMergeForm, HeldBy, Infer, MergeResult;
    MergeInfer(base, rule, plan, call);
    if |call.args| == 1 {
      MergeResultIs(base, rule, plan, call, call.args[0]);
      assert call.args == [call.args[0]];
    }
  }

  predicate IsMergePlan(plan: Plan) {
    && plan.stateArgument && !plan.arrayDataArguments && !plan.stateStoresCondition && !plan.buildsAggregateState
    && !plan.simpleStateResult
  }

  lemma MergeInfer(base: G.Base, rule: BaseRule, plan: Plan, call: Call)
    requires IsMergePlan(plan)
    ensures Infer(base, rule, plan, call) ==
            if |call.args| != 1 then None else MergeResult(base, rule, plan, call, call.args)
  {
    hide MergeResult, ElementsOf, BaseResult, IsConditionType, IsResampleKey;
  }

  lemma MergeResultIs(base: G.Base, rule: BaseRule, plan: Plan, call: Call, state: CHType)
    ensures MergeResult(base, rule, plan, call, [state]) ==
            var held := HeldBy(base, rule, plan.stateHasCondition, state);
            if held.None? then None
            else if !plan.returnsAggregateState then BaseResult(base, rule, held.value)
            else Some(CHType(AggregateFunction, [CHType(state.params[0].kind, [], call.literals)] + held.value, []))
    ensures HeldBy(base, rule, plan.stateHasCondition, state).Some? ==> state.params != []
  {
    hide BaseResult, StateName, IsConditionType, WithoutWrappers, HeldCondition;
    if state.params != [] && state.params[1..] != [] {
      HeldConditionIs(state.params[1..][|state.params[1..]| - 1]);
    }
  }

  // ----- states of the concrete bases -----

  /** The rules that look at the first argument. */
  datatype FirstRule = FirstIs | SumIs | GroupBitIs | QuantileIs

  function Evaluator(which: FirstRule): seq<CHType> -> Option<CHType> {
    match which
    case FirstIs => FirstArgument
    case SumIs => Sum
    case GroupBitIs => GroupBit
    case QuantileIs => Quantile
  }

  function ConcreteRule(which: FirstRule, computing: bool, count: nat, domain: seq<CHType> -> bool): BaseRule
    requires count > 0
  {
    OnFirst(Evaluator(which), computing, count, domain)
  }

  lemma ConcreteCommutes(which: FirstRule, computing: bool, count: nat, domain: seq<CHType> -> bool)
    requires count > 0
    ensures Commutes(ConcreteRule(which, computing, count, domain))
    ensures IgnoresLast(ConcreteRule(which, computing, count, domain))
  {
    hide FirstArgument, Sum, GroupBit, Quantile, OneArgument, StripsThrough, Commutes, IgnoresLast, OnFirst;
    FirstArgumentStrips();
    SumStrips();
    GroupBitStrips();
    QuantileStrips();
    OnFirstCommutes(Evaluator(which), computing, count, domain);
  }

  /**
   Main result: a state of any, min, max, argMin, argMax, sum, groupBit*, quantile or median
   merges to the type of the plain call.
   */
  lemma ConcreteStateThenMerge(base: G.Base, which: FirstRule, computing: bool, count: nat, domain: seq<CHType> -> bool,
                               call: Call, merge: Call)
    requires count > 0 && AllWellformed(call.args)
    requires var rule := ConcreteRule(which, computing, count, domain);
             && Infer(base, rule, PlanOf([G.State]), call).Some?
             && merge.args == [Infer(base, rule, PlanOf([G.State]), call).value]
    ensures var rule := ConcreteRule(which, computing, count, domain);
            Infer(base, rule, PlanOf([G.Merge]), merge) == PlainType(base, rule, call.args)
  {
    SimplePlans();
    hide PlanOf, Infer, PlainType, ConcreteRule, AllWellformed, Commutes, IgnoresLast;
    var rule := ConcreteRule(which, computing, count, domain);
    ConcreteCommutes(which, computing, count, domain);
    StateThenMerge(base, rule, call, merge);
    OrDefaultForm(base, rule, call);
  }
}
