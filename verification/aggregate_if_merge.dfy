/**
 When -IfMerge over a state of -IfState agrees with -If, for the concrete bases and all
 well-formed arguments: a condition on the argument types alone.
 */
module AggregateIfMerge {
  import opened Wrappers
  import opened ChTypes
  import opened AggregatePlan
  import opened AggregateStates
  import opened AggregateStatesProofs
  import opened AggregateConditions
  import opened AggregateRules
  import opened AggregateForms
  import G = AggregateGrammar

  // ----- what a state keeps of one argument -----

  /** A marker around a LowCardinality scalar is recorded as a marker, and read as one. */
  lemma HiddenReads(rule: BaseRule, t: CHType)
    requires Wellformed(t) && HidesScalar(rule, t)
    ensures var (r, v) := (Recorded(t, false, false), SplitWrappers(t.params[1]));
            && SplitWrappers(ReadArgument(rule, t)) == Split(v.base, false, true)
            && SplitWrappers(ReadArgument(rule, r)) == Split(r, false, false)
            && IsMarker(r) && r.params[1] == Strip(v.base) && Bare(v.base)
  {
    var inner := t.params[1];
    StripMarker(t);
    StripLow(inner);
    hide Strip;
    NotMarker(inner);
    assert Recorded(t, false, false) == Strip(t);
  }

  lemma NullableKept(rule: BaseRule, t: CHType)
    requires Wellformed(t)
    ensures SplitWrappers(ReadArgument(rule, Recorded(t, false, false))).nullable == SplitWrappers(ReadArgument(rule, t)).nullable
    ensures Bare(SplitWrappers(ReadArgument(rule, t)).base)
  {
    hide Recorded, Wellformed, ReadArgument, SplitWrappers;
    VerbatimKeptIff(rule, t);
    if HidesScalar(rule, t) {
      HiddenReads(rule, t);
    }
  }

  lemma NullablesKept(rule: BaseRule, data: seq<CHType>, n: nat)
    requires AllWellformed(data) && n <= |data|
    ensures AnyNullable(ReadAll(rule, RecordAll(data, false, false)), n) == AnyNullable(ReadAll(rule, data), n)
  {
    hide Recorded, Wellformed, ReadArgument, SplitWrappers;
    var was, now := ReadAll(rule, data), ReadAll(rule, RecordAll(data, false, false));
    forall i | 0 <= i < |data| ensures now[i].nullable == was[i].nullable {
      NullableKept(rule, data[i]);
    }
    if AnyNullable(now, n) {
      var i :| 0 <= i < n && now[i].nullable;
      assert was[i].nullable;
    }
    if AnyNullable(was, n) {
      var i :| 0 <= i < n && was[i].nullable;
      assert now[i].nullable;
    }
  }

  /** The data arguments of the call have a Nullable that the result takes over. */
  predicate DataNullable(base: G.Base, rule: BaseRule, data: seq<CHType>) {
    AnyNullable(ReadAll(rule, data), DataCount(base, |data|))
  }

  predicate IsIfPair(base: G.Base, rule: BaseRule, call: Call, merge: Call) {
    && Infer(base, rule, PlanOf([G.If, G.State]), call).Some?
    && merge.args == [Infer(base, rule, PlanOf([G.If, G.State]), call).value]
    && call.args != [] && AllWellformed(call.args[..|call.args| - 1])
  }

  /** Both calls, once the state is built. */
  lemma PairIs(base: G.Base, rule: BaseRule, call: Call, merge: Call)
    requires IgnoresLast(rule) && IsIfPair(base, rule, call, merge)
    ensures call.args != []
    ensures var n := |call.args| - 1;
            var data := call.args[..n];
            && Infer(base, rule, PlanOf([G.If]), call) == BaseResult(base, rule, data)
            && Infer(base, rule, PlanOf([G.If, G.Merge]), merge) ==
                 Weakened(rule, BaseResult(base, rule, RecordAll(data, false, false)), ConditionShows(base, n, call.args[n]))
            && (data != [] || rule.independent) && AllWellformed(data) && rule.arity(n)
  {
    hide Infer, PlanOf, IgnoresLast, BaseResult, RecordAll, ConditionShows;
    ConditionPlans();
    IfStateThenIfMerge(base, rule, call, merge);
  }

  // ----- any, min, max, argMin and argMax -----

  function FirstBase(rule: BaseRule, data: seq<CHType>): CHType
    requires data != []
  {
    SplitWrappers(ReadArgument(rule, data[0])).base
  }

  /** The result of a rule that gives back its first argument. */
  lemma FirstResult(base: G.Base, rule: BaseRule, data: seq<CHType>)
    requires data != [] && rule.evaluate == FirstArgument && !rule.independent && !rule.fixedWrappers
    ensures BaseResult(base, rule, data) ==
            Some(ApplyWrappers(Strip(Structural(FirstBase(rule, data))), DataNullable(base, rule, data), false))
  {
    hide Strip, Structural, ApplyWrappers, AnyNullable;
  }

  /** The type under one Nullable. */
  function Core(t: CHType): CHType {
    if IsOf(t, Nullable) then t.params[0] else t
  }

  lemma CoreApplied(t: CHType, nullable: bool)
    requires Bare(t)
    ensures Core(ApplyWrappers(t, nullable, false)) == t
    ensures Core(WrapNullable(ApplyWrappers(t, nullable, false))) == t
    ensures WrapNullable(ApplyWrappers(t, nullable, false)) == ApplyWrappers(t, nullable, false) <==> nullable || !CanBeInsideNullable(t)
  {
  }

  lemma StrippedIsBare(t: CHType)
    requires Bare(t)
    ensures Bare(Strip(Structural(t))) && CanBeInsideNullable(Strip(Structural(t))) == CanBeInsideNullable(t)
    ensures Strip(Structural(Strip(t))) == Strip(Structural(t))
  {
    hide Strip, Structural, CanBeInsideNullable;
    BareAlias(t);
    AliasInside(t);
    SameKindFits(Structural(t), Strip(Structural(t)));
    StripAndStructural(t);
    StripTwice(Structural(t));
  }

  lemma AliasInside(t: CHType)
    ensures CanBeInsideNullable(Structural(t)) == CanBeInsideNullable(t)
  {
  }

  /** A marker of the state around a type stays around it. */
  lemma MarkerStays(r: CHType, v: CHType)
    requires IsMarker(r) && r.params[1] == Strip(v) && Bare(v)
    ensures Strip(Structural(r)) != Strip(Structural(v)) && Bare(Strip(Structural(r)))
  {
    var q := Strip(Structural(r));
    assert Structural(r).params[1] == Structural(Strip(v));
    StrippedIsBare(v);
    assert q.params[1] == Strip(Structural(v));
    assert q.params[1] < q;
  }

  /**
   Main result: for a base that gives back its first argument, the two agree exactly when that
   argument is no marker around a LowCardinality scalar, and a condition that shows finds a
   Nullable argument already, or a type that cannot be Nullable.
   */
  lemma FirstIfMergeIff(base: G.Base, rule: BaseRule, call: Call, merge: Call)
    requires rule.evaluate == FirstArgument && !rule.independent && !rule.fixedWrappers
    requires IgnoresLast(rule) && IsIfPair(base, rule, call, merge)
    ensures |call.args| > 1
    ensures var n := |call.args| - 1;
            var data := call.args[..n];
            Infer(base, rule, PlanOf([G.If, G.Merge]), merge) == Infer(base, rule, PlanOf([G.If]), call) <==>
              && !HidesScalar(rule, data[0])
              && (ConditionShows(base, n, call.args[n]) ==>
                    DataNullable(base, rule, data) || !CanBeInsideNullable(FirstBase(rule, data)))
  {
    hide *;
    PairIs(base, rule, call, merge);
    var n := |call.args| - 1;
    var data := call.args[..n];
    var params := RecordAll(data, false, false);
    FirstResult(base, rule, data);
    FirstResult(base, rule, params);
    NullablesKept(rule, data, DataCount(base, n));
    DataNullableIs(base, rule, data);
    DataNullableIs(base, rule, params);
    FirstKept(rule, data);
    var p, q := Strip(Structural(FirstBase(rule, data))), Strip(Structural(FirstBase(rule, params)));
    CoreApplied(p, DataNullable(base, rule, data));
    CoreApplied(q, DataNullable(base, rule, data));
    WeakenedIs(rule, ApplyWrappers(q, DataNullable(base, rule, data), false), ConditionShows(base, n, call.args[n]));
  }

  lemma DataNullableIs(base: G.Base, rule: BaseRule, data: seq<CHType>)
    ensures DataNullable(base, rule, data) == AnyNullable(ReadAll(rule, data), DataCount(base, |data|))
  {
  }

  lemma WeakenedIs(rule: BaseRule, t: CHType, shows: bool)
    requires !rule.fixedWrappers
    ensures Weakened(rule, Some(t), shows) == Some(if shows then WrapNullable(t) else t)
  {
  }

  /** The first argument as the rule sees it, before and after it was recorded. */
  lemma FirstKept(rule: BaseRule, data: seq<CHType>)
    requires data != [] && AllWellformed(data)
    ensures var params := RecordAll(data, false, false);
            var (p, q) := (Strip(Structural(FirstBase(rule, data))), Strip(Structural(FirstBase(rule, params))));
            && Bare(p) && Bare(q) && (p == q <==> !HidesScalar(rule, data[0]))
            && CanBeInsideNullable(p) == CanBeInsideNullable(FirstBase(rule, data))
  {
    hide Recorded, Wellformed, ReadArgument, SplitWrappers, Strip, Structural, HidesScalar, CanBeInsideNullable;
    assert Wellformed(data[0]);
    NullableKept(rule, data[0]);
    VerbatimKeptIff(rule, data[0]);
    var b := FirstBase(rule, data);
    StrippedIsBare(b);
    if HidesScalar(rule, data[0]) {
      HiddenReads(rule, data[0]);
      MarkerStays(Recorded(data[0], false, false), b);
    }
  }

  /** anyIf of a marker around LowCardinality(String). */
  function MarkedCall(): Call {
    Call([CHType(SimpleAggregateFunction, [Plain(Named("any")), Of(LowCardinality, Plain(String))], []), Plain(UInt(1))], [], false)
  }

  lemma MarkedFits(rule: BaseRule)
    requires !rule.computing
    ensures AllWellformed(MarkedCall().args[..1]) && HidesScalar(rule, MarkedCall().args[0])
  {
  }

  lemma MarkedState(rule: BaseRule)
    requires rule.arity(1) && forall ts :: rule.domain(ts)
    ensures Infer(G.AnyValue, rule, PlanOf([G.If, G.State]), MarkedCall()).Some?
  {
    hide PlanOf, RecordAll, StateName;
    ConditionPlans();
  }

  /** anyIfMerge over its state is not the type of anyIf. */
  lemma MarkerShows(domain: seq<CHType> -> bool, merge: Call)
    requires forall ts :: domain(ts)
    requires Infer(G.AnyValue, ConcreteRule(FirstIs, false, 1, domain), PlanOf([G.If, G.State]), MarkedCall()).Some?
    requires merge.args ==
             [Infer(G.AnyValue, ConcreteRule(FirstIs, false, 1, domain), PlanOf([G.If, G.State]), MarkedCall()).value]
    ensures var rule := ConcreteRule(FirstIs, false, 1, domain);
            Infer(G.AnyValue, rule, PlanOf([G.If, G.Merge]), merge) != Infer(G.AnyValue, rule, PlanOf([G.If]), MarkedCall())
  {
    hide Infer, PlanOf, HidesScalar, ConditionShows, IgnoresLast, DataNullable, CanBeInsideNullable, FirstBase, AllWellformed;
    var rule := ConcreteRule(FirstIs, false, 1, domain);
    ConditionPlans();
    MarkedFits(rule);
    MarkedState(rule);
    ConcreteCommutes(FirstIs, false, 1, domain);
    FirstIfMergeIff(G.AnyValue, rule, MarkedCall(), merge);
  }

  // ----- sum, groupBit*, quantile and median -----

  /** A base that computes its result from one argument: the two always agree. */
  lemma ComputedIfMerge(base: G.Base, rule: BaseRule, call: Call, merge: Call)
    requires base !in {G.UniqCombined, G.BaseArgMin, G.BaseArgMax} && rule.computing && !rule.independent
    requires Commutes(rule) && IgnoresLast(rule) && IsIfPair(base, rule, call, merge)
    ensures Infer(base, rule, PlanOf([G.If, G.Merge]), merge) == Infer(base, rule, PlanOf([G.If]), call)
  {
    hide Infer, PlanOf, Commutes, IgnoresLast, AllWellformed, BaseResult, RecordAll;
    ConditionPlans();
    PairIs(base, rule, call, merge);
    IfMergeAgreesIff(base, rule, call, merge);
  }

  // ----- count, uniq, uniqCombined and avg -----

  lemma FixedResult(base: G.Base, kind: Kind, rule: BaseRule, data: seq<CHType>)
    requires rule.evaluate([]) == Some(Plain(kind)) && rule.independent
    ensures BaseResult(base, rule, data) ==
            Some(if rule.fixedWrappers then Plain(kind) else ApplyWrappers(Plain(kind), DataNullable(base, rule, data), false))
  {
    hide ApplyWrappers, AnyNullable;
  }

  /** A base with a fixed result: they differ exactly when the condition alone makes it Nullable. */
  lemma FixedIfMergeIff(base: G.Base, kind: Kind, rule: BaseRule, call: Call, merge: Call)
    requires rule.evaluate([]) == Some(Plain(kind)) && rule.independent && kind !in {Nullable, LowCardinality}
    requires IgnoresLast(rule) && IsIfPair(base, rule, call, merge)
    ensures var n := |call.args| - 1;
            Infer(base, rule, PlanOf([G.If, G.Merge]), merge) == Infer(base, rule, PlanOf([G.If]), call) <==>
              (ConditionShows(base, n, call.args[n]) ==>
                 rule.fixedWrappers || DataNullable(base, rule, call.args[..n]) || !CanBeInsideNullable(Plain(kind)))
  {
    hide *;
    PairIs(base, rule, call, merge);
    var n := |call.args| - 1;
    var data := call.args[..n];
    var params := RecordAll(data, false, false);
    FixedResult(base, kind, rule, data);
    FixedResult(base, kind, rule, params);
    NullablesKept(rule, data, DataCount(base, n));
    DataNullableIs(base, rule, data);
    DataNullableIs(base, rule, params);
    PlainIsBare(kind);
    CoreApplied(Plain(kind), DataNullable(base, rule, data));
    if rule.fixedWrappers {
      FixedStays(rule, Some(Plain(kind)), ConditionShows(base, n, call.args[n]));
    } else {
      WeakenedIs(rule, ApplyWrappers(Plain(kind), DataNullable(base, rule, data), false), ConditionShows(base, n, call.args[n]));
    }
  }

  lemma PlainIsBare(kind: Kind)
    requires kind !in {Nullable, LowCardinality}
    ensures Bare(Plain(kind))
  {
  }

  lemma FixedStays(rule: BaseRule, r: Option<CHType>, shows: bool)
    requires rule.fixedWrappers
    ensures Weakened(rule, r, shows) == r
  {
  }
}
