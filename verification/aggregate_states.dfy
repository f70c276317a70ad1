/**
 Result types of aggregate calls under a chain of combinators.

 A -State call records the aggregate and its argument types in the type of the state, and
 a -Merge call computes the result from that record.  The rule of a base aggregate is a
 parameter of this module.
 */
module AggregateStates {
  import opened Wrappers
  import opened ChTypes
  import opened AggregatePlan
  import G = AggregateGrammar

  /** What the registry says of a base aggregate. */
  datatype BaseRule = BaseRule(
    evaluate: seq<CHType> -> Option<CHType>,
    arity: nat -> bool,
    domain: seq<CHType> -> bool,
    computing: bool,         // a constrained domain, and a result that is not an argument
    independent: bool,       // the rule looks at no argument
    fixedWrappers: bool)     // the result is taken as the rule gives it

  /** The lower-case name inside an AggregateFunction type; median is an alias there. */
  function StateName(base: G.Base): string {
    G.BaseName(if base == G.Median then G.Quantile else base)
  }

  /** aggregateDataArgCount, for the bases of combinators. */
  function DataCount(base: G.Base, n: nat): (count: nat)
    ensures count <= n
  {
    if base in {G.UniqCombined, G.BaseArgMax, G.BaseArgMin} then n else if n > 1 then 1 else n
  }

  // ----- the ordinary result of a base aggregate -----

  /** The value that the rule sees in place of an argument. */
  function ReadArgument(rule: BaseRule, t: CHType): CHType {
    var value := ReadValue(t);
    var split := SplitWrappers(value);
    if rule.computing && IsMarker(split.base) then
      ApplyWrappers(split.base.params[1], split.nullable, split.lowCardinality)
    else value
  }

  function ReadAll(rule: BaseRule, ts: seq<CHType>): (r: seq<Split>)
    ensures |r| == |ts|
    ensures forall i :: 0 <= i < |ts| ==> r[i] == SplitWrappers(ReadArgument(rule, ts[i]))
  {
    seq(|ts|, i requires 0 <= i < |ts| => SplitWrappers(ReadArgument(rule, ts[i])))
  }

  function Bases(values: seq<Split>): (r: seq<CHType>)
    ensures |r| == |values| && forall i :: 0 <= i < |r| ==> r[i] == values[i].base
  {
    seq(|values|, i requires 0 <= i < |values| => values[i].base)
  }

  predicate AnyNullable(values: seq<Split>, n: nat)
    requires n <= |values|
  {
    exists i :: 0 <= i < n && values[i].nullable
  }

  /** baseAggregateResultType */
  function BaseResult(base: G.Base, rule: BaseRule, args: seq<CHType>): Option<CHType> {
    var values := ReadAll(rule, args);
    var nullable := AnyNullable(values, DataCount(base, |args|));
    var result := rule.evaluate(if rule.independent then [] else Bases(values));
    if result.None? then None
    else if rule.fixedWrappers then result
    else if rule.independent then Some(ApplyWrappers(result.value, nullable, false))
    else Some(ApplyWrappers(Strip(result.value), nullable, false))
  }

  // ----- a call under a plan -----

  /** A resolved call: argument types, parameter literals, and a single CASE without ELSE. */
  datatype Call = Call(args: seq<CHType>, literals: seq<Literal>, caseAddsNull: bool)

  const SIMPLE_STATE_BASES: set<G.Base> :=
    {G.AnyValue, G.AnyLast, G.Min, G.Max, G.Sum, G.GroupBitAnd, G.GroupBitOr, G.GroupBitXor}

  const STATE_OR_NULL_BASES: set<G.Base> :=
    {G.Sum, G.Min, G.Max, G.AnyValue, G.AnyLast, G.Avg, G.BaseArgMin, G.BaseArgMax, G.UniqCombined,
     G.Quantile, G.Median, G.GroupBitAnd, G.GroupBitOr, G.GroupBitXor}

  predicate IsConditionType(t: CHType) {
    t.kind == UInt(1) || t.kind == Bool
  }

  predicate IsResampleKey(t: CHType) {
    match t.kind
    case Int(size) => size <= 8
    case UInt(size) => size <= 8
    case Bool => true
    case Enum(_) => true
    case Date => true
    case DateTime => true
    case other => false
  }

  function Trailing(plan: Plan): nat {
    (if plan.conditionArgument then 1 else 0) + (if plan.resampleKeyArgument then 1 else 0)
  }

  /** The data argument of an -Array form is the element; an outer Nullable moves inside. */
  function ElementOf(t: CHType): Option<CHType> {
    var split := SplitWrappers(t);
    if !IsOf(split.base, Array) then None
    else if split.nullable then Some(ApplyWrappers(split.base.params[0], true, false))
    else Some(split.base.params[0])
  }

  function ElementsOf(ts: seq<CHType>): Option<seq<CHType>> {
    if ts == [] then Some([])
    else
      var first, rest := ElementOf(ts[0]), ElementsOf(ts[1..]);
      if first.None? || rest.None? then None else Some([first.value] + rest.value)
  }

  function WithoutWrappers(t: CHType): CHType
    decreases t
  {
    if IsOf(t, Nullable) || IsOf(t, LowCardinality) then WithoutWrappers(t.params[0]) else t
  }

  /** The shape of the call: its arity, its condition and its resample key. */
  predicate Shaped(rule: BaseRule, plan: Plan, call: Call) {
    if plan.stateArgument then |call.args| == 1
    else
      && |call.args| >= Trailing(plan)
      && rule.arity(|call.args| - Trailing(plan))
      && (plan.conditionArgument ==> IsConditionType(SplitWrappers(call.args[|call.args| - 1]).base))
      && (plan.resampleKeyArgument ==> IsResampleKey(WithoutWrappers(call.args[|call.args| - Trailing(plan)])))
      && (plan.arrayDataArguments ==> |call.args| > Trailing(plan))
  }

  /** The types that reach the rule of the base. */
  function DataTypes(plan: Plan, call: Call): Option<seq<CHType>>
    requires plan.stateArgument || |call.args| >= Trailing(plan)
  {
    var data := if plan.stateArgument then call.args else call.args[..|call.args| - Trailing(plan)];
    if plan.arrayDataArguments then ElementsOf(data) else Some(data)
  }

  function StateOf(name: string, call: Call, params: seq<CHType>): CHType {
    CHType(AggregateFunction, [CHType(Named(name), [], call.literals)] + params, [])
  }

  /**
   What a state records of an argument.  LowCardinality goes at every depth; a marker that
   hides it is read through when `readsMarker`, and -StateIf drops the Nullable as well.
   */
  function Recorded(t: CHType, drops: bool, readsMarker: bool): CHType {
    var hidden := IsMarker(t) && t.params[1].kind == LowCardinality;
    var split := SplitWrappers(if drops || (readsMarker && hidden) then ReadValue(t) else t);
    ApplyWrappers(Strip(split.base), split.nullable && !drops, false)
  }

  function RecordAll(ts: seq<CHType>, drops: bool, readsMarker: bool): (r: seq<CHType>)
    ensures |r| == |ts| && forall i :: 0 <= i < |ts| ==> r[i] == Recorded(ts[i], drops, readsMarker)
  {
    seq(|ts|, i requires 0 <= i < |ts| => Recorded(ts[i], drops, readsMarker))
  }

  /** inferAggregateCombinatorType, once name and plan are known. */
  function Infer(base: G.Base, rule: BaseRule, plan: Plan, call: Call): Option<CHType>
    requires plan.stateStoresCondition ==> plan.conditionArgument && !plan.stateArgument
  {
    if !Shaped(rule, plan, call) then None
    else
      var data := DataTypes(plan, call);
      if data.None? then None
      else if !plan.stateArgument && !rule.domain(data.value) then None
      else ResultOf(base, rule, plan, call, data.value)
  }

  function ResultOf(base: G.Base, rule: BaseRule, plan: Plan, call: Call, data: seq<CHType>): Option<CHType>
    requires plan.stateStoresCondition ==> call.args != []
  {
    if plan.stateStoresCondition then
      Some(StateOf(StateName(base) + "if", call, RecordAll(data + [call.args[|call.args| - 1]], false, false)))
    else if plan.buildsAggregateState && !plan.orNullResult then
      Some(StateOf(StateName(base), call, RecordAll(data, plan.dropsTopLevelNullable, true)))
    else if plan.simpleStateResult then SimpleState(base, rule, call, data)
    else if plan.stateArgument then MergeResult(base, rule, plan, call, data)
    else if plan.buildsAggregateState then
      if base !in STATE_OR_NULL_BASES then None
      else Some(StateOf(StateName(base) + "ornull", call, RecordAll(data, false, false)))
    else
      var result := BaseResult(base, rule, data);
      if result.None? then None
      else if plan.orNullResult then
        var bare := SplitWrappers(result.value).base;
        if CanBeInsideNullable(bare) then Some(ApplyWrappers(bare, true, false)) else None
      else if plan.resampleKeyArgument then Some(Of(Array, SplitWrappers(result.value).base))
      else result
  }

  function SimpleState(base: G.Base, rule: BaseRule, call: Call, data: seq<CHType>): Option<CHType> {
    if base !in SIMPLE_STATE_BASES then None
    else
      var result := BaseResult(base, rule, data);
      if result.None? then None
      else
        var outer := base == G.Sum && |data| == 1 && call.caseAddsNull && SplitWrappers(result.value).nullable;
        var value := if outer then SplitWrappers(result.value).base else result.value;
        var name := CHType(Named(StateName(base)), [], call.literals);
        Some(ApplyWrappers(CHType(SimpleAggregateFunction, [name, value], []), outer, false))
  }

  function MergeResult(base: G.Base, rule: BaseRule, plan: Plan, call: Call, data: seq<CHType>): Option<CHType> {
    if data == [] then None
    else
      var state := data[0];
      var wanted := StateName(base) + if plan.stateHasCondition then "if" else "";
      if state.kind != AggregateFunction || state.params == [] || state.params[0].kind != Named(wanted) then None
      else
        var stored := state.params[1..];
        if plan.stateHasCondition && (stored == [] || !IsConditionType(WithoutWrappers(stored[|stored| - 1]))) then None
        else if !rule.arity(if plan.stateHasCondition then |stored| - 1 else |stored|) then None
        else if plan.returnsAggregateState then Some(StateOf(wanted, call, stored))
        else BaseResult(base, rule, stored)
  }
}
