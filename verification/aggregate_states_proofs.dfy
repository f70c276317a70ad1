/** What a state remembers: merging it gives the type of the plain call. */
module AggregateStatesProofs {
  import opened Wrappers
  import opened ChTypes
  import opened AggregatePlan
  import opened AggregateStates
  import G = AggregateGrammar

  /** A type with no wrapper left to take off. */
  predicate Bare(t: CHType) {
    t.kind != Nullable && t.kind != LowCardinality
  }

  /** A type that the server can hold: wrappers in their order, once, on what they may hold. */
  predicate Wellformed(t: CHType) {
    var s := SplitWrappers(t);
    && Bare(s.base) && (s.nullable ==> CanBeInsideNullable(s.base))
    && (IsMarker(s.base) ==>
          var inner := s.base.params[1];
          if s.nullable || s.lowCardinality then MarkerSurvives(inner)
          else
            var v := SplitWrappers(inner);
            Bare(v.base) && (v.nullable ==> CanBeInsideNullable(v.base)) && (!MarkerSurvives(inner) ==> !IsMarker(v.base)))
  }

  predicate AllWellformed(ts: seq<CHType>) {
    forall i :: 0 <= i < |ts| ==> Wellformed(ts[i])
  }

  predicate AllBare(ts: seq<CHType>) {
    forall i :: 0 <= i < |ts| ==> Bare(ts[i])
  }

  function StripResult(rule: BaseRule, r: Option<CHType>): Option<CHType> {
    if r.None? || rule.fixedWrappers then r else Some(Strip(r.value))
  }

  /** A marker that reaches a rule which keeps markers is one that a read leaves in place. */
  predicate Settled(rule: BaseRule, t: CHType) {
    rule.computing || (IsMarker(t) ==> MarkerSurvives(t.params[1]))
  }

  predicate AllSettled(rule: BaseRule, ts: seq<CHType>) {
    forall i :: 0 <= i < |ts| ==> Settled(rule, ts[i])
  }

  /** The rule of the base does not depend on a LowCardinality inside its arguments. */
  ghost predicate Commutes(rule: BaseRule) {
    forall ts :: AllBare(ts) && AllSettled(rule, ts) ==> CommutesAt(rule, ts)
  }

  predicate CommutesAt(rule: BaseRule, ts: seq<CHType>) {
    StripResult(rule, rule.evaluate(StripAll(ts))) == StripResult(rule, rule.evaluate(ts))
  }

  // ----- one argument -----

  /** What a state records reads back as the argument did, without LowCardinality inside. */
  predicate KeptBy(rule: BaseRule, t: CHType, recorded: CHType) {
    var was, now := SplitWrappers(ReadArgument(rule, t)), SplitWrappers(ReadArgument(rule, recorded));
    Bare(was.base) && Settled(rule, was.base) && now.base == Strip(was.base) && now.nullable == was.nullable
  }

  lemma SplitApplied(t: CHType, nullable: bool)
    requires Bare(t) && (nullable ==> CanBeInsideNullable(t))
    ensures SplitWrappers(ApplyWrappers(t, nullable, false)) == Split(t, nullable, false)
  {
  }

  lemma SplitAppliedLow(t: CHType, nullable: bool, low: bool)
    requires Bare(t)
    ensures var s := SplitWrappers(ApplyWrappers(t, nullable, low));
            s.base == t && s.nullable == (nullable && CanBeInsideNullable(t))
  {
  }

  lemma RecordedIs(t: CHType)
    requires Wellformed(t) && !(IsMarker(t) && t.params[1].kind == LowCardinality)
    ensures var s := SplitWrappers(t);
            && Recorded(t, false, true) == Recorded(t, false, false) == ApplyWrappers(Strip(s.base), s.nullable, false)
            && SplitWrappers(Recorded(t, false, true)) == Split(Strip(s.base), s.nullable, false)
  {
    hide Strip;
    SplitApplied(Strip(SplitWrappers(t).base), SplitWrappers(t).nullable);
  }

  /** No marker in the argument. */
  lemma PlainKept(rule: BaseRule, t: CHType)
    requires Wellformed(t) && !IsMarker(SplitWrappers(t).base)
    ensures KeptBy(rule, t, Recorded(t, false, true)) && Recorded(t, false, true) == Recorded(t, false, false)
  {
    RecordedIs(t);
    hide Strip;
    var s := SplitWrappers(t);
    var r := Recorded(t, false, true);
    NotMarker(t);
    assert !IsMarker(SplitWrappers(r).base);
    NotMarker(r);
  }

  lemma NotMarker(t: CHType)
    requires !IsMarker(SplitWrappers(t).base)
    ensures !IsMarker(t)
  {
  }

  /** A marker under a wrapper; its inner type is a bare scalar. */
  lemma WrappedMarkerKept(rule: BaseRule, t: CHType)
    requires Wellformed(t) && IsMarker(SplitWrappers(t).base) && t != SplitWrappers(t).base
    ensures KeptBy(rule, t, Recorded(t, false, true)) && Recorded(t, false, true) == Recorded(t, false, false)
  {
    var s := SplitWrappers(t);
    var inner := s.base.params[1];
    assert !IsMarker(t);
    RecordedIs(t);
    var r := Recorded(t, false, true);
    StripMarker(s.base);
    hide Strip;
    SplitAppliedLow(inner, s.nullable, s.lowCardinality);
    SplitAppliedLow(Strip(inner), s.nullable, false);
    SameKindFits(inner, Strip(inner));
    hide CanBeInsideNullable;
  }

  lemma SameKindFits(a: CHType, b: CHType)
    requires a.kind == b.kind
    ensures CanBeInsideNullable(a) == CanBeInsideNullable(b)
  {
  }

  lemma StripMarker(t: CHType)
    requires IsMarker(t)
    ensures IsMarker(Strip(t)) && Strip(t).params[1] == Strip(t.params[1])
  {
  }

  /** A bare marker. */
  lemma MarkerKept(rule: BaseRule, t: CHType)
    requires Wellformed(t) && IsMarker(t)
    ensures KeptBy(rule, t, Recorded(t, false, true))
    ensures t.params[1].kind != LowCardinality ==> Recorded(t, false, true) == Recorded(t, false, false)
  {
    hide Recorded, KeptBy, Wellformed;
    if t.params[1].kind == LowCardinality {
      HiddenKept(rule, t);
    } else if MarkerSurvives(t.params[1]) {
      SurvivorKept(rule, t);
    } else {
      ReadMarkerKept(rule, t);
    }
  }

  lemma SurvivorKept(rule: BaseRule, t: CHType)
    requires Wellformed(t) && IsMarker(t) && MarkerSurvives(t.params[1])
    ensures KeptBy(rule, t, Recorded(t, false, true)) && Recorded(t, false, true) == Recorded(t, false, false)
  {
    StripMarker(t);
    RecordedIs(t);
    hide Strip;
    assert Recorded(t, false, true) == Strip(t);
    assert MarkerSurvives(Strip(t.params[1]));
  }

  lemma ReadMarkerKept(rule: BaseRule, t: CHType)
    requires Wellformed(t) && IsMarker(t) && !MarkerSurvives(t.params[1]) && t.params[1].kind != LowCardinality
    ensures KeptBy(rule, t, Recorded(t, false, true)) && Recorded(t, false, true) == Recorded(t, false, false)
  {
    var inner := t.params[1];
    var v := SplitWrappers(inner);
    StripMarker(t);
    RecordedIs(t);
    StripNullable(inner);
    hide Strip;
    assert Recorded(t, false, true) == Strip(t);
    assert !MarkerSurvives(Strip(inner));
    SplitApplied(Strip(v.base), v.nullable);
  }

  lemma StripNullable(t: CHType)
    requires t.kind != LowCardinality && Bare(SplitWrappers(t).base)
    ensures SplitWrappers(Strip(t)) == Split(Strip(SplitWrappers(t).base), SplitWrappers(t).nullable, false)
  {
  }

  lemma HiddenKept(rule: BaseRule, t: CHType)
    requires Wellformed(t) && IsMarker(t) && t.params[1].kind == LowCardinality
    ensures KeptBy(rule, t, Recorded(t, false, true))
  {
    hide Strip;
    var inner := t.params[1];
    var v := SplitWrappers(inner);
    assert ReadValue(t) == inner;
    assert !IsMarker(v.base);
    SplitApplied(Strip(v.base), v.nullable);
    var r := Recorded(t, false, true);
    assert r == ApplyWrappers(Strip(v.base), v.nullable, false);
    assert SplitWrappers(r) == Split(Strip(v.base), v.nullable, false);
    NotMarker(r);
  }

  lemma ArgumentKept(rule: BaseRule, t: CHType)
    requires Wellformed(t)
    ensures KeptBy(rule, t, Recorded(t, false, true))
    ensures !(IsMarker(t) && t.params[1].kind == LowCardinality) ==> Recorded(t, false, true) == Recorded(t, false, false)
  {
    hide Recorded, KeptBy;
    if IsMarker(t) {
      MarkerKept(rule, t);
    } else if IsMarker(SplitWrappers(t).base) {
      WrappedMarkerKept(rule, t);
    } else {
      PlainKept(rule, t);
    }
  }

  /** A marker around a LowCardinality scalar, which a value-preserving base would keep. */
  predicate HidesScalar(rule: BaseRule, t: CHType) {
    && IsMarker(t) && t.params[1].kind == LowCardinality && !rule.computing
    && var v := SplitWrappers(t.params[1]); !v.nullable && MarkerSurvives(v.base)
  }

  /** -IfState and -StateOrNull keep every argument but that one, exactly. */
  lemma VerbatimKeptIff(rule: BaseRule, t: CHType)
    requires Wellformed(t)
    ensures KeptBy(rule, t, Recorded(t, false, false)) <==> !HidesScalar(rule, t)
  {
    hide Recorded, KeptBy;
    ArgumentKept(rule, t);
    if IsMarker(t) && t.params[1].kind == LowCardinality {
      HiddenVerbatim(rule, t);
    }
  }

  lemma HiddenVerbatim(rule: BaseRule, t: CHType)
    requires Wellformed(t) && IsMarker(t) && t.params[1].kind == LowCardinality
    ensures KeptBy(rule, t, Recorded(t, false, false)) <==> !HidesScalar(rule, t)
  {
    var inner := t.params[1];
    var v := SplitWrappers(inner);
    StripMarker(t);
    StripLow(inner);
    hide Strip;
    var r := Recorded(t, false, false);
    assert r == Strip(t);
    assert ReadValue(t) == inner;
    if v.nullable || !MarkerSurvives(v.base) {
      assert ReadValue(r) == Strip(inner);
      NotMarker(inner);
      NotMarker(Strip(inner));
    } else {
      assert ReadValue(r) == r;
      assert r.params[1] < r;
    }
  }

  /** What is left of LowCardinality(T) or LowCardinality(Nullable(T)). */
  lemma StripLow(t: CHType)
    requires t.kind == LowCardinality && Bare(SplitWrappers(t).base)
    ensures var v := SplitWrappers(t);
            && SplitWrappers(Strip(t)) == Split(Strip(v.base), v.nullable, false)
            && (!v.nullable ==> Strip(t) == Strip(v.base))
  {
  }

  // ----- all arguments -----

  predicate AllKept(rule: BaseRule, args: seq<CHType>, params: seq<CHType>) {
    |params| == |args| && forall i :: 0 <= i < |args| ==> KeptBy(rule, args[i], params[i])
  }

  lemma BasesKept(rule: BaseRule, args: seq<CHType>, params: seq<CHType>)
    requires AllKept(rule, args, params)
    ensures AllBare(Bases(ReadAll(rule, args))) && AllSettled(rule, Bases(ReadAll(rule, args)))
    ensures Bases(ReadAll(rule, params)) == StripAll(Bases(ReadAll(rule, args)))
    ensures forall n :: 0 <= n <= |args| ==>
              AnyNullable(ReadAll(rule, params), n) == AnyNullable(ReadAll(rule, args), n)
  {
    hide Strip, ReadArgument, Settled;
    var was, now := ReadAll(rule, args), ReadAll(rule, params);
    forall i | 0 <= i < |args|
      ensures Bare(was[i].base) && Settled(rule, was[i].base) && now[i].base == Strip(was[i].base) && now[i].nullable == was[i].nullable
    {
      assert KeptBy(rule, args[i], params[i]);
    }
    forall n | 0 <= n <= |args| ensures AnyNullable(now, n) == AnyNullable(was, n) {
      assert AnyNullable(now, n) ==> exists i :: 0 <= i < n && was[i].nullable;
      assert AnyNullable(was, n) ==> exists i :: 0 <= i < n && now[i].nullable;
    }
  }

  lemma ResultKept(base: G.Base, rule: BaseRule, args: seq<CHType>, params: seq<CHType>)
    requires Commutes(rule) && AllKept(rule, args, params)
    ensures BaseResult(base, rule, params) == BaseResult(base, rule, args)
  {
    BasesKept(rule, args, params);
    hide Strip, ReadArgument, AllKept, AllBare, AllSettled;
    assert CommutesAt(rule, Bases(ReadAll(rule, args)));
  }

  // ----- -State, then -Merge -----

  lemma SimplePlans()
    ensures PlanOf([G.State]) ==
            Plan(false, false, false, false, false, false, false, true, true, false, false)
    ensures PlanOf([G.Merge]) ==
            Plan(false, false, false, true, false, false, false, false, false, false, false)
    ensures PlanOf([G.Merge, G.State]) ==
            Plan(false, false, false, true, false, false, false, false, true, false, false)
    ensures PlanOf([G.OrDefault]) ==
            Plan(false, false, false, false, false, false, false, false, false, false, false)
  {
    hide IsLast;
    NotBefore([G.State]);
    NotBefore([G.Merge]);
    NotBefore([G.Merge, G.State]);
    NotBefore([G.OrDefault]);
  }

  /** Nothing stands before or after a condition that is not there. */
  lemma NotBefore(chain: seq<G.Primitive>)
    requires G.If !in chain
    ensures !Precedes(chain, G.If, G.Merge) && !Precedes(chain, G.If, G.State) && !Precedes(chain, G.State, G.If)
  {
  }

  /** Main result: merging a state gives the type of the plain call on the same arguments. */
  lemma StateThenMerge(base: G.Base, rule: BaseRule, call: Call, merge: Call)
    requires Commutes(rule) && AllWellformed(call.args)
    requires Infer(base, rule, PlanOf([G.State]), call).Some?
    requires merge.args == [Infer(base, rule, PlanOf([G.State]), call).value]
    ensures Infer(base, rule, PlanOf([G.Merge]), merge) == Infer(base, rule, PlanOf([G.OrDefault]), call)
  {
    hide PlanOf, BaseResult, Recorded, Wellformed, Commutes, KeptBy, StateName;
    SimplePlans();
    var params := RecordAll(call.args, false, true);
    RecordedArgumentsKept(rule, call.args);
    ResultKept(base, rule, call.args, params);
    hide RecordAll, AllKept, AllWellformed;
    assert call.args[..|call.args|] == call.args;
    assert merge.args[0] == StateOf(StateName(base), call, params);
    assert merge.args[0].params[1..] == params;
    assert StateName(base) + "" == StateName(base);
  }

  lemma RecordedArgumentsKept(rule: BaseRule, args: seq<CHType>)
    requires AllWellformed(args)
    ensures AllKept(rule, args, RecordAll(args, false, true))
  {
    hide Recorded, Wellformed, KeptBy;
    var params := RecordAll(args, false, true);
    forall i | 0 <= i < |params| ensures KeptBy(rule, args[i], params[i]) {
      ArgumentKept(rule, args[i]);
    }
  }

  /** A state is refused exactly when the plain call has no accepted arguments. */
  lemma StateIsAccepted(base: G.Base, rule: BaseRule, call: Call)
    ensures Infer(base, rule, PlanOf([G.State]), call).Some? <==> rule.arity(|call.args|) && rule.domain(call.args)
    ensures Infer(base, rule, PlanOf([G.OrDefault]), call).Some? ==> Infer(base, rule, PlanOf([G.State]), call).Some?
  {
    hide PlanOf, BaseResult, Recorded;
    SimplePlans();
    assert call.args[..|call.args|] == call.args;
  }

  /** -MergeState gives the state back, with the parameters of the new call. */
  lemma MergeStateKeeps(base: G.Base, rule: BaseRule, call: Call, merge: Call)
    requires Infer(base, rule, PlanOf([G.State]), call).Some?
    requires merge.args == [Infer(base, rule, PlanOf([G.State]), call).value]
    ensures Infer(base, rule, PlanOf([G.Merge, G.State]), merge) ==
            Infer(base, rule, PlanOf([G.State]), call.(literals := merge.literals))
  {
    hide PlanOf, Infer, RecordAll, StateName;
    StateIs(base, rule, call);
    StateIs(base, rule, call.(literals := merge.literals));
    var params := RecordAll(call.args, false, true);
    var state := StateOf(StateName(base), call, params);
    assert state.params[1..] == params;
    MergeStateIs(base, rule, merge, params);
  }

  lemma StateIs(base: G.Base, rule: BaseRule, call: Call)
    ensures Infer(base, rule, PlanOf([G.State]), call) ==
            if rule.arity(|call.args|) && rule.domain(call.args)
            then Some(StateOf(StateName(base), call, RecordAll(call.args, false, true))) else None
  {
    hide PlanOf, BaseResult, Recorded, StateName, RecordAll;
    SimplePlans();
    assert call.args[..|call.args|] == call.args;
  }

  lemma MergeStateIs(base: G.Base, rule: BaseRule, merge: Call, stored: seq<CHType>)
    requires |merge.args| == 1 && rule.arity(|stored|)
    requires var state := merge.args[0];
             && state.kind == AggregateFunction && state.params != [] && state.params[1..] == stored
             && state.params[0].kind == Named(StateName(base))
    ensures Infer(base, rule, PlanOf([G.Merge, G.State]), merge) == Some(StateOf(StateName(base), merge, stored))
  {
    hide PlanOf, BaseResult, Recorded, StateName;
    SimplePlans();
    assert StateName(base) + "" == StateName(base);
  }
}
