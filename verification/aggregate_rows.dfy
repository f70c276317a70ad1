/** Measured rows of the documentation: the types that the base aggregates give. */
module AggregateRows {
  import opened Wrappers
  import opened ChTypes
  import opened AggregateStates
  import opened AggregateStatesProofs
  import opened AggregateConditions
  import opened AggregateRules
  import opened AggregateForms
  import G = AggregateGrammar

  /** One argument of any type, with the rule of the base. */
  function RuleOf(which: FirstRule, computing: bool): BaseRule {
    ConcreteRule(which, computing, 1, _ => true)
  }

  function I32(): CHType { Plain(Int(4)) }

  /** The type under one Nullable. */
  function N(t: CHType): CHType { Of(Nullable, t) }

  function L(t: CHType): CHType { Of(LowCardinality, t) }

  function Marked(t: CHType): CHType {
    CHType(SimpleAggregateFunction, [Plain(Named("anyLast")), t], [])
  }

  /** The result over one argument, which the rule reads without its wrappers. */
  lemma OneArgument(base: G.Base, rule: BaseRule, t: CHType)
    requires !rule.independent && !rule.fixedWrappers
    ensures var read := SplitWrappers(ReadArgument(rule, t));
            var result := rule.evaluate([read.base]);
            BaseResult(base, rule, [t]) ==
            if result.None? then None else Some(ApplyWrappers(Strip(result.value), read.nullable, false))
  {
    hide ReadArgument, SplitWrappers, ApplyWrappers, Strip;
    var values := ReadAll(rule, [t]);
    assert Bases(values) == [values[0].base];
    assert AnyNullable(values, 1) <==> values[0].nullable;
  }

  lemma WrappersAre()
    ensures SplitWrappers(I32()) == Split(I32(), false, false)
    ensures SplitWrappers(N(I32())) == Split(I32(), true, false)
    ensures SplitWrappers(L(N(I32()))) == Split(I32(), true, true)
    ensures SplitWrappers(L(Plain(String))) == Split(Plain(String), false, true)
    ensures SplitWrappers(Marked(I32())) == Split(Marked(I32()), false, false)
  {
  }

  /** What the rule reads of an argument: a marker that hides wrappers or members is read through. */
  lemma ReadIs(rule: BaseRule, t: CHType)
    ensures !IsMarker(SplitWrappers(t).base) ==> ReadArgument(rule, t) == t
    ensures IsMarker(t) && t.params[1].kind !in {Nullable, LowCardinality, Array, Map, Tuple} ==>
              ReadArgument(rule, t) == if rule.computing then t.params[1] else t
    ensures (IsMarker(t) && t.params[1].kind in {Nullable, LowCardinality, Array, Map, Tuple}
             && !IsMarker(SplitWrappers(t.params[1]).base)) ==> ReadArgument(rule, t) == t.params[1]
  {
    if !IsMarker(SplitWrappers(t).base) {
      NotMarker(t);
    }
    hide WrapNullable, WrapLowCardinality;
  }

  lemma ReadsAre(rule: BaseRule)
    ensures ReadArgument(rule, I32()) == I32() && ReadArgument(rule, N(I32())) == N(I32())
    ensures ReadArgument(rule, L(N(I32()))) == L(N(I32())) && ReadArgument(rule, L(Plain(String))) == L(Plain(String))
    ensures ReadArgument(rule, Marked(I32())) == if rule.computing then I32() else Marked(I32())
  {
    WrappersAre();
    ReadIs(rule, I32());
    ReadIs(rule, N(I32()));
    ReadIs(rule, L(N(I32())));
    ReadIs(rule, L(Plain(String)));
    ReadIs(rule, Marked(I32()));
    hide ReadArgument, SplitWrappers;
  }

  lemma SumOfInt()
    ensures Sum([I32()]) == Some(Plain(Int(8))) && Strip(Plain(Int(8))) == Plain(Int(8))
  {
  }

  lemma Wrapped(k: Kind)
    requires k == Int(8) || k == Int(4) || k == Float64
    ensures ApplyWrappers(Plain(k), false, false) == Plain(k) && ApplyWrappers(Plain(k), true, false) == N(Plain(k))
  {
  }

  /** sum widens, keeps a Nullable, loses LowCardinality and reads a marker through. */
  lemma SumRows()
    ensures BaseResult(G.Sum, RuleOf(SumIs, true), [I32()]) == Some(Plain(Int(8)))
    ensures BaseResult(G.Sum, RuleOf(SumIs, true), [N(I32())]) == Some(N(Plain(Int(8))))
    ensures BaseResult(G.Sum, RuleOf(SumIs, true), [L(N(I32()))]) == Some(N(Plain(Int(8))))
    ensures BaseResult(G.Sum, RuleOf(SumIs, true), [Marked(I32())]) == Some(Plain(Int(8)))
  {
    var rule := RuleOf(SumIs, true);
    hide BaseResult, ReadArgument, SplitWrappers, ApplyWrappers, Strip, Sum, I32, N, L, Marked;
    WrappersAre();
    ReadsAre(rule);
    SumOfInt();
    Wrapped(Int(8));
    OneArgument(G.Sum, rule, I32());
    OneArgument(G.Sum, rule, N(I32()));
    OneArgument(G.Sum, rule, L(N(I32())));
    OneArgument(G.Sum, rule, Marked(I32()));
  }

  lemma FirstIsKept(t: CHType)
    requires t in [I32(), Plain(String), Marked(I32())]
    ensures FirstArgument([t]) == Some(t) && Strip(t) == t
    ensures ApplyWrappers(t, false, false) == t
  {
    assert IsStructural(t) && IsStripped(t) by { MarkedIsPlain(); }
    StructuralIsFixed(t);
    StrippedIsFixed(t);
    hide Structural, Strip;
  }

  lemma MarkedIsPlain()
    ensures IsStructural(Marked(I32())) && IsStripped(Marked(I32()))
  {
    var params := Marked(I32()).params;
    assert params == [Plain(Named("anyLast")), I32()];
    NamedIsPlain();
    hide IsStructural, IsStripped, I32;
    MarkerIsPlain(params[0], params[1]);
  }

  lemma NamedIsPlain()
    ensures IsStructural(Plain(Named("anyLast"))) && IsStripped(Plain(Named("anyLast")))
    ensures IsStructural(I32()) && IsStripped(I32())
  {
  }

  lemma MarkerIsPlain(f: CHType, t: CHType)
    requires IsStructural(f) && IsStripped(f) && IsStructural(t) && IsStripped(t)
    ensures var m := CHType(SimpleAggregateFunction, [f, t], []); IsStructural(m) && IsStripped(m)
  {
  }

  /** any, min and max keep the type and a marker, lose LowCardinality, and keep a Nullable. */
  lemma FirstRows(base: G.Base)
    ensures BaseResult(base, RuleOf(FirstIs, false), [N(I32())]) == Some(N(I32()))
    ensures BaseResult(base, RuleOf(FirstIs, false), [L(Plain(String))]) == Some(Plain(String))
    ensures BaseResult(base, RuleOf(FirstIs, false), [Marked(I32())]) == Some(Marked(I32()))
  {
    var rule := RuleOf(FirstIs, false);
    Wrapped(Int(4));
    FirstIsKept(I32());
    FirstIsKept(Plain(String));
    FirstIsKept(Marked(I32()));
    WrappersAre();
    ReadsAre(rule);
    OneArgument(base, rule, N(I32()));
    OneArgument(base, rule, L(Plain(String)));
    OneArgument(base, rule, Marked(I32()));
    hide *;
    RuleIsFirst();
  }

  lemma RuleIsFirst()
    ensures RuleOf(FirstIs, false).evaluate == FirstArgument && !RuleOf(FirstIs, false).computing
    ensures Plain(Int(4)) == I32()
  {
  }

  /** A fixed result: Nullable after its argument, unless the base takes it as it is. */
  lemma FixedArgument(base: G.Base, k: Kind, arity: nat -> bool, domain: seq<CHType> -> bool, computing: bool, asItIs: bool, t: CHType)
    ensures var rule := Fixed(k, arity, domain, computing, asItIs);
            BaseResult(base, rule, [t]) ==
            Some(if asItIs then Plain(k) else ApplyWrappers(Plain(k), SplitWrappers(ReadArgument(rule, t)).nullable, false))
  {
    hide ReadArgument, SplitWrappers, ApplyWrappers;
    var values := ReadAll(Fixed(k, arity, domain, computing, asItIs), [t]);
    assert AnyNullable(values, 1) <==> values[0].nullable;
  }

  /** Of two arguments both count for argMin, argMax and uniqCombined, and the first for the others. */
  lemma SecondArgument(base: G.Base, rule: BaseRule, a: CHType, b: CHType)
    requires !rule.independent && !rule.fixedWrappers
    ensures var (l, r) := (SplitWrappers(ReadArgument(rule, a)), SplitWrappers(ReadArgument(rule, b)));
            var result := rule.evaluate([l.base, r.base]);
            var both := base == G.BaseArgMin || base == G.BaseArgMax || base == G.UniqCombined;
            BaseResult(base, rule, [a, b]) ==
            if result.None? then None
            else Some(ApplyWrappers(Strip(result.value), l.nullable || (both && r.nullable), false))
  {
    hide ReadArgument, SplitWrappers, ApplyWrappers, Strip;
    var values := ReadAll(rule, [a, b]);
    assert Bases(values) == [values[0].base, values[1].base];
    assert AnyNullable(values, 1) <==> values[0].nullable;
    assert AnyNullable(values, 2) <==> values[0].nullable || values[1].nullable;
  }
}
