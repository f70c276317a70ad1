/** The rules of some base aggregates, and that states of them merge back. */
module AggregateRules {
  import opened Wrappers
  import opened ChTypes
  import opened AggregatePlan
  import opened AggregateStates
  import opened AggregateStatesProofs
  import opened AggregateConditions
  import G = AggregateGrammar

  /** firstFunctionArgument: any, anyLast, min, max, argMin and argMax give it back. */
  function FirstArgument(ts: seq<CHType>): Option<CHType> {
    if ts == [] then None else Some(Structural(ts[0]))
  }

  function DecimalScale(t: CHType): Option<Literal> {
    var scale :=
      if t.kind.SizedDecimal? && |t.literals| == 1 then Some(t.literals[0])
      else if t.kind.Decimal? && |t.literals| >= 2 then Some(t.literals[1]) else None;
    if scale == Some(Text("")) then None else scale
  }

  function SumPrecision(t: CHType): int {
    if t.kind == SizedDecimal(76) then 76
    else if t.kind == Decimal && t.literals != [] && t.literals[0].Number? && t.literals[0].value > 38 then 76
    else 38
  }

  function SumOf(t: CHType): Option<CHType> {
    match t.kind
    case UInt(size) => Some(if size <= 8 then Plain(UInt(8)) else Plain(UInt(size)))
    case Int(size) => Some(if size <= 8 then Plain(Int(8)) else Plain(Int(size)))
    case Bool => Some(Plain(UInt(8)))
    case Enum(_) => Some(Plain(Int(8)))
    case Float32 => Some(Plain(Float64))
    case Float64 => Some(Plain(Float64))
    case _ =>
      if !IsDecimal(t) then Some(t)
      else
        var scale := DecimalScale(t);
        if scale.None? then None else Some(CHType(Decimal, [], [Number(SumPrecision(t)), scale.value]))
  }

  /** A rule on the first argument that goes under one Nullable. */
  function UnderNullable(t: CHType, f: CHType -> Option<CHType>): Option<CHType> {
    if t.kind != Nullable then f(t)
    else if |t.params| != 1 then None
    else
      var inner := f(t.params[0]);
      if inner.None? then None else Some(Of(Nullable, inner.value))
  }

  function Sum(ts: seq<CHType>): Option<CHType> {
    if ts == [] then None else UnderNullable(Structural(ts[0]), SumOf)
  }

  function GroupBitOf(t: CHType): Option<CHType> {
    match t.kind
    case Bool => Some(Plain(UInt(1)))
    case Int(_) => Some(t)
    case UInt(_) => Some(t)
    case _ => None
  }

  function GroupBit(ts: seq<CHType>): Option<CHType> {
    if ts == [] then None else GroupBitWrapped(Structural(ts[0]))
  }

  function GroupBitWrapped(t: CHType): Option<CHType> {
    var s := SplitWrappers(t);
    var result := GroupBitOf(s.base);
    if result.None? then None else Some(ApplyWrappers(result.value, s.nullable, s.lowCardinality))
  }

  predicate IsNumber(t: CHType) {
    t.params == [] && (t.kind.UInt? || t.kind.Int? || t.kind.Bool? || t.kind.Float32? || t.kind.Float64?)
  }

  function QuantileOf(t: CHType): CHType
    decreases t
  {
    if t.kind == Nullable then
      if |t.params| != 1 then t else Of(Nullable, QuantileOf(t.params[0]))
    else if IsDecimal(t) then CanonicalDecimal(t)
    else if IsNumber(t) then Plain(Float64)
    else t
  }

  function Quantile(ts: seq<CHType>): Option<CHType> {
    if ts == [] then None else Some(QuantileOf(Structural(ts[0])))
  }

  /** A base whose rule looks at its first argument. */
  function OnFirst(evaluate: seq<CHType> -> Option<CHType>, computing: bool, count: nat, domain: seq<CHType> -> bool): BaseRule
    requires count > 0
  {
    BaseRule(evaluate, n => n == count, domain, computing, false, false)
  }

  /** A base with a fixed result, like count, uniq, uniqCombined and avg. */
  function Fixed(kind: Kind, arity: nat -> bool, domain: seq<CHType> -> bool, computing: bool, fixedWrappers: bool): BaseRule {
    BaseRule(_ => Some(Plain(kind)), arity, domain, computing, true, fixedWrappers)
  }

  lemma FixedCommutes(kind: Kind, arity: nat -> bool, domain: seq<CHType> -> bool, computing: bool, fixedWrappers: bool)
    ensures Commutes(Fixed(kind, arity, domain, computing, fixedWrappers))
    ensures IgnoresLast(Fixed(kind, arity, domain, computing, fixedWrappers))
  {
  }

  /** What a rule on the first argument has to meet. */
  ghost predicate OneArgument(evaluate: seq<CHType> -> Option<CHType>) {
    && evaluate([]) == None
    && forall ts: seq<CHType>, c: CHType :: ts != [] ==> evaluate(ts + [c]) == evaluate(ts)
  }

  predicate SameStripped(a: Option<CHType>, b: Option<CHType>) {
    if a.None? then b.None? else b.Some? && Strip(a.value) == Strip(b.value)
  }

  ghost predicate StripsThrough(evaluate: seq<CHType> -> Option<CHType>) {
    forall ts: seq<CHType> :: ts != [] && Bare(ts[0]) ==> SameStripped(evaluate(StripAll(ts)), evaluate(ts))
  }

  lemma OnFirstCommutes(evaluate: seq<CHType> -> Option<CHType>, computing: bool, count: nat, domain: seq<CHType> -> bool)
    requires count > 0 && OneArgument(evaluate) && StripsThrough(evaluate)
    ensures Commutes(OnFirst(evaluate, computing, count, domain))
    ensures IgnoresLast(OnFirst(evaluate, computing, count, domain))
  {
    hide Strip;
    var rule := OnFirst(evaluate, computing, count, domain);
    forall ts | AllBare(ts) ensures CommutesAt(rule, ts) {
      if ts != [] {
        assert Bare(ts[0]);
        assert SameStripped(evaluate(StripAll(ts)), evaluate(ts));
      } else {
        assert StripAll(ts) == ts;
      }
    }
  }

  lemma FirstArgumentStrips()
    ensures OneArgument(FirstArgument) && StripsThrough(FirstArgument)
  {
    forall ts: seq<CHType> | ts != [] && Bare(ts[0])
      ensures SameStripped(FirstArgument(StripAll(ts)), FirstArgument(ts))
    {
      StripAndStructural(ts[0]);
      StripTwice(ts[0]);
      StripAndStructural(Strip(ts[0]));
    }
  }

  /** The first argument that the rule sees, with and without LowCardinality. */
  lemma SameHead(t: CHType)
    requires Bare(t)
    ensures var a, b := Structural(Strip(t)), Structural(t);
            && a == Strip(b) && a.kind == b.kind && Bare(a)
            && |a.params| == |b.params| && a.literals == b.literals
  {
    StripAndStructural(t);
    BareAlias(t);
  }

  lemma BareAlias(t: CHType)
    requires Bare(t)
    ensures Bare(Structural(t))
  {
  }

  lemma SumStrips()
    ensures OneArgument(Sum) && StripsThrough(Sum)
  {
    hide Structural, SumOf;
    forall ts: seq<CHType> | ts != [] && Bare(ts[0]) ensures SameStripped(Sum(StripAll(ts)), Sum(ts)) {
      SameHead(ts[0]);
      SumOfStrips(Structural(ts[0]));
    }
  }

  lemma SumOfStrips(t: CHType)
    requires Bare(t)
    ensures SameStripped(SumOf(Strip(t)), SumOf(t))
  {
    StripTwice(t);
    hide Strip;
  }

  lemma GroupBitStrips()
    ensures OneArgument(GroupBit) && StripsThrough(GroupBit)
  {
    hide Structural;
    hide GroupBitWrapped;
    forall ts: seq<CHType> | ts != [] && Bare(ts[0]) ensures SameStripped(GroupBit(StripAll(ts)), GroupBit(ts)) {
      SameHead(ts[0]);
      GroupBitWrappedStrips(Structural(ts[0]));
    }
  }

  lemma GroupBitWrappedStrips(t: CHType)
    requires Bare(t)
    ensures SameStripped(GroupBitWrapped(Strip(t)), GroupBitWrapped(t))
  {
    StripTwice(t);
    hide Strip;
  }

  lemma QuantileStrips()
    ensures OneArgument(Quantile) && StripsThrough(Quantile)
  {
    hide Structural, QuantileOf;
    forall ts: seq<CHType> | ts != [] && Bare(ts[0]) ensures SameStripped(Quantile(StripAll(ts)), Quantile(ts)) {
      SameHead(ts[0]);
      QuantileOfStrips(Structural(ts[0]));
    }
  }

  lemma QuantileOfStrips(t: CHType)
    requires Bare(t)
    ensures Strip(QuantileOf(Strip(t))) == Strip(QuantileOf(t))
  {
    StripTwice(t);
    hide Strip;
  }

  function UniqCombinedRule(): BaseRule {
    Fixed(UInt(8), n => n >= 1, _ => true, false, false)
  }

  /** uniqCombinedIf(String, Nullable(UInt8)) */
  function NullableConditionCall(): Call {
    Call([Plain(String), Of(Nullable, Plain(UInt(1)))], [], false)
  }

  lemma PlainUniqCombined()
    ensures Infer(G.UniqCombined, UniqCombinedRule(), PlanOf([G.If]), NullableConditionCall()) == Some(Plain(UInt(8)))
  {
    hide PlanOf;
    ConditionPlans();
    assert NullableConditionCall().args[..1] == [Plain(String)];
  }

  lemma UniqCombinedState()
    ensures Infer(G.UniqCombined, UniqCombinedRule(), PlanOf([G.If, G.State]), NullableConditionCall()).Some?
  {
    hide PlanOf, RecordAll, StateName;
    ConditionPlans();
  }

  lemma UniqCombinedCommutes()
    ensures Commutes(UniqCombinedRule()) && IgnoresLast(UniqCombinedRule())
    ensures !UniqCombinedRule().fixedWrappers
  {
  }

  lemma NullableConditionFits()
    ensures var call := NullableConditionCall();
            && call.args[..1] == [Plain(String)]
            && BaseResult(G.UniqCombined, UniqCombinedRule(), RecordAll(call.args[..1], false, false)) == Some(Plain(UInt(8)))
            && ConditionShows(G.UniqCombined, 1, call.args[1])
  {
    assert NullableConditionCall().args[..1] == [Plain(String)];
  }

  /**
   uniqCombined counts every argument of a state as data, so a Nullable condition makes
   uniqCombinedIfMerge Nullable where uniqCombinedIf is not.
   */
  lemma UniqCombinedShows(merge: Call)
    requires merge.args ==
             [Infer(G.UniqCombined, UniqCombinedRule(), PlanOf([G.If, G.State]), NullableConditionCall()).value]
    ensures Infer(G.UniqCombined, UniqCombinedRule(), PlanOf([G.If]), NullableConditionCall()) == Some(Plain(UInt(8)))
    ensures Infer(G.UniqCombined, UniqCombinedRule(), PlanOf([G.If, G.Merge]), merge) == Some(Of(Nullable, Plain(UInt(8))))
  {
    var call := NullableConditionCall();
    PlainUniqCombined();
    UniqCombinedState();
    UniqCombinedCommutes();
    ConditionPlans();
    NullableConditionFits();
    hide PlanOf, Infer, Commutes, IgnoresLast, ConditionShows, UniqCombinedRule, BaseResult, RecordAll;
    IfStateThenIfMerge(G.UniqCombined, UniqCombinedRule(), call, merge);
  }
}
