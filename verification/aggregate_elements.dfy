/**
 groupArray, groupArraySorted and groupUniqArray: the element type that they compute, what a
 state of theirs merges to, and when -IfMerge agrees with -If.
 */
module AggregateElements {
  import opened Wrappers
  import opened ChTypes
  import opened AggregatePlan
  import opened AggregateStates
  import opened AggregateStatesProofs
  import opened AggregateConditions
  import opened AggregateRules
  import opened AggregateForms
  import opened AggregateIfMerge
  import G = AggregateGrammar

  /** groupArrayElementType: the value without its wrappers, and without LowCardinality inside. */
  function Element(t: CHType): CHType {
    Strip(SplitWrappers(ReadValue(t)).base)
  }

  /**
   The parameters that groupUniqArray keeps.  A bare DateTime loses its time zone, and a
   family of which nothing was measured is refused.
   */
  function Measured(element: CHType): Option<CHType> {
    if element.params == [] && element.literals == [] then Some(element)
    else
      match element.kind
      case DateTime => Some(Plain(DateTime))
      case DateTime64 => Some(element)
      case Decimal => Some(element)
      case SizedDecimal(_) => Some(element)
      case FixedString => Some(element)
      case Enum(_) => Some(element)
      case Array => Some(element)
      case Map => Some(element)
      case Tuple => Some(element)
      case AggregateFunction => Some(element)
      case SimpleAggregateFunction => Some(element)
      case other => None
  }

  function GroupArrayOf(ts: seq<CHType>): Option<CHType> {
    if ts == [] then None else Some(Of(Array, Element(ts[0])))
  }

  function GroupUniqArrayOf(ts: seq<CHType>): Option<CHType> {
    if ts == [] || Measured(Element(ts[0])).None? then None
    else Some(Of(Array, Measured(Element(ts[0])).value))
  }

  /** One argument of any type; the result is an Array, and no wrapper goes around it. */
  function ElementRule(unique: bool): BaseRule {
    BaseRule(if unique then GroupUniqArrayOf else GroupArrayOf, n => n == 1, _ => true, false, false, true)
  }

  /** On what reaches the rule, the element is the argument without LowCardinality. */
  lemma ElementIs(t: CHType)
    requires Bare(t) && Settled(ElementRule(false), t)
    ensures Element(t) == Strip(t)
  {
    hide Strip;
  }

  lemma StrippedIsSettled(t: CHType)
    requires Bare(t) && Settled(ElementRule(false), t)
    ensures Bare(Strip(t)) && Settled(ElementRule(false), Strip(t))
  {
    if IsMarker(t) {
      StripMarker(t);
    }
  }

  lemma ElementStrips(t: CHType)
    requires Bare(t) && Settled(ElementRule(false), t)
    ensures Element(Strip(t)) == Element(t)
  {
    StrippedIsSettled(t);
    ElementIs(t);
    ElementIs(Strip(t));
    StripTwice(t);
  }

  lemma ElementCommutes(unique: bool)
    ensures Commutes(ElementRule(unique)) && IgnoresLast(ElementRule(unique))
  {
    var rule := ElementRule(unique);
    hide Strip, Element, Measured, Settled, Bare;
    forall ts | AllBare(ts) && AllSettled(rule, ts) ensures CommutesAt(rule, ts) {
      if ts == [] {
        assert StripAll(ts) == ts;
      } else {
        SettledAlike(unique, ts[0]);
        ElementStrips(ts[0]);
      }
    }
  }

  lemma SettledAlike(unique: bool, t: CHType)
    requires Settled(ElementRule(unique), t)
    ensures Settled(ElementRule(false), t)
  {
  }

  /** Main result: a state of one of these aggregates merges to the type of the plain call. */
  lemma ElementStateThenMerge(base: G.Base, unique: bool, call: Call, merge: Call)
    requires AllWellformed(call.args)
    requires Infer(base, ElementRule(unique), PlanOf([G.State]), call).Some?
    requires merge.args == [Infer(base, ElementRule(unique), PlanOf([G.State]), call).value]
    ensures Infer(base, ElementRule(unique), PlanOf([G.Merge]), merge) == PlainType(base, ElementRule(unique), call.args)
  {
    SimplePlans();
    hide PlanOf, Infer, PlainType, ElementRule, AllWellformed, Commutes, IgnoresLast;
    ElementCommutes(unique);
    StateThenMerge(base, ElementRule(unique), call, merge);
    OrDefaultForm(base, ElementRule(unique), call);
  }

  /** The result over one argument. */
  lemma ElementResult(base: G.Base, unique: bool, data: seq<CHType>)
    requires |data| == 1
    ensures BaseResult(base, ElementRule(unique), data) ==
            ElementRule(unique).evaluate([SplitWrappers(ReadArgument(ElementRule(unique), data[0])).base])
  {
    var rule := ElementRule(unique);
    hide ReadArgument, AnyNullable, SplitWrappers, Element, Measured;
    assert Bases(ReadAll(rule, data)) == [SplitWrappers(ReadArgument(rule, data[0])).base];
  }

  /** A marker kept around a type is not what that type gives. */
  lemma MarkerDiffers(unique: bool, r: CHType, v: CHType)
    requires IsMarker(r) && MarkerSurvives(r.params[1]) && r.params[1] == Strip(v) && Bare(v) && MarkerSurvives(v)
    requires !IsMarker(v)
    ensures ElementRule(unique).evaluate([r]) != ElementRule(unique).evaluate([v])
  {
    MarkerElement(r, v);
    MeasuredIs(Element(r));
    MeasuredIs(Element(v));
    hide Element, Measured, MarkerSurvives, Bare, Strip, ElementRule;
    ResultOn(unique, r);
    ResultOn(unique, v);
  }

  function Finished(unique: bool, element: CHType): Option<CHType> {
    if unique then Measured(element) else Some(element)
  }

  lemma ResultOn(unique: bool, t: CHType)
    ensures var (r, e) := (ElementRule(unique).evaluate([t]), Finished(unique, Element(t)));
            r.Some? == e.Some? && (r.Some? ==> r.value.params == [e.value])
  {
    hide Element, Measured;
  }

  lemma MeasuredIs(element: CHType)
    ensures Measured(element).Some? ==> Measured(element).value in [element, Plain(DateTime)]
    ensures IsMarker(element) ==> Measured(element) == Some(element)
  {
  }

  lemma MarkerElement(r: CHType, v: CHType)
    requires IsMarker(r) && MarkerSurvives(r.params[1]) && r.params[1] == Strip(v) && Bare(v) && !IsMarker(v)
    ensures IsMarker(Element(r)) && Element(r) != Element(v) && Element(r) != Plain(DateTime)
  {
    ElementIs(v);
    ElementIs(r);
    StripMarker(r);
    StripTwice(v);
    hide Strip, Element;
    assert Strip(r).params[1] == Strip(v);
  }

  lemma HiddenDiffers(base: G.Base, unique: bool, data: seq<CHType>)
    requires |data| == 1 && AllWellformed(data) && HidesScalar(ElementRule(unique), data[0])
    ensures BaseResult(base, ElementRule(unique), RecordAll(data, false, false)) != BaseResult(base, ElementRule(unique), data)
  {
    var rule := ElementRule(unique);
    var r, v := Recorded(data[0], false, false), SplitWrappers(data[0].params[1]).base;
    assert Wellformed(data[0]);
    HiddenReads(rule, data[0]);
    HiddenScalar(unique, data[0]);
    hide *;
    ElementResult(base, unique, data);
    ElementResult(base, unique, RecordAll(data, false, false));
    MarkerDiffers(unique, r, v);
  }

  lemma HiddenScalar(unique: bool, t: CHType)
    requires Wellformed(t) && HidesScalar(ElementRule(unique), t)
    ensures var v := SplitWrappers(t.params[1]).base; MarkerSurvives(v) && !IsMarker(v) && MarkerSurvives(Strip(v))
  {
  }

  /**
   Main result: -IfMerge agrees with -If exactly when the argument is no marker around a
   LowCardinality scalar.  A condition that can be NULL never shows.
   */
  lemma ElementIfMergeIff(base: G.Base, unique: bool, call: Call, merge: Call)
    requires IsIfPair(base, ElementRule(unique), call, merge)
    ensures |call.args| == 2
    ensures Infer(base, ElementRule(unique), PlanOf([G.If, G.Merge]), merge) ==
            Infer(base, ElementRule(unique), PlanOf([G.If]), call) <==>
            !HidesScalar(ElementRule(unique), call.args[0])
  {
    hide *;
    var rule := ElementRule(unique);
    ElementCommutes(unique);
    PairIs(base, rule, call, merge);
    ElementArity(unique, |call.args| - 1);
    var data := call.args[..|call.args| - 1];
    FixedStays(rule, BaseResult(base, rule, RecordAll(data, false, false)), ConditionShows(base, 1, call.args[1]));
    if HidesScalar(rule, data[0]) {
      HiddenDiffers(base, unique, data);
    } else {
      OneIsNone(rule, data);
      RecordedVerbatimKept(rule, data);
      ResultKept(base, rule, data, RecordAll(data, false, false));
    }
  }

  lemma ElementArity(unique: bool, n: nat)
    ensures ElementRule(unique).arity(n) <==> n == 1
    ensures ElementRule(unique).fixedWrappers && !ElementRule(unique).independent
  {
  }

  lemma OneIsNone(rule: BaseRule, data: seq<CHType>)
    requires |data| == 1 && !HidesScalar(rule, data[0])
    ensures HidesNone(rule, data)
  {
  }

  /** The time zone of a DateTime under any wrappers: groupUniqArray loses it, groupArray keeps it. */
  lemma ZoneIsLost(zone: Literal, nullable: bool, low: bool)
    ensures var (t, kept) := (CHType(DateTime, [], [zone]), ApplyWrappers(CHType(DateTime, [], [zone]), nullable, low));
            && BaseResult(G.GroupUniqArray, ElementRule(true), [kept]) == Some(Of(Array, Plain(DateTime)))
            && BaseResult(G.GroupArray, ElementRule(false), [kept]) == Some(Of(Array, t))
  {
    var t := CHType(DateTime, [], [zone]);
    var kept := ApplyWrappers(t, nullable, low);
    ZoneReads(zone, nullable, low);
    ElementResult(G.GroupUniqArray, true, [kept]);
    ElementResult(G.GroupArray, false, [kept]);
    hide ReadArgument, SplitWrappers, ApplyWrappers, BaseResult, Element;
    assert [kept][0] == kept;
  }

  lemma ZoneReads(zone: Literal, nullable: bool, low: bool)
    ensures var t := CHType(DateTime, [], [zone]);
            && (forall unique :: SplitWrappers(ReadArgument(ElementRule(unique), ApplyWrappers(t, nullable, low))).base == t)
            && Element(t) == t && Measured(t) == Some(Plain(DateTime))
  {
  }
}
