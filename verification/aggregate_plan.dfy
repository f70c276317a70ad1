/**
 What a chain of combinators does with the arguments of a call: the plan folded from the
 chain, and the chains that have a measured rule.
 */
module AggregatePlan {
  import opened Wrappers
  import opened AggregateGrammar

  datatype Plan = Plan(
    conditionArgument: bool,
    arrayDataArguments: bool,
    resampleKeyArgument: bool,
    stateArgument: bool,
    stateHasCondition: bool,
    stateStoresCondition: bool,
    dropsTopLevelNullable: bool,
    buildsAggregateState: bool,
    returnsAggregateState: bool,
    simpleStateResult: bool,
    orNullResult: bool)

  /** A primitive stands before another: the last of the first is left of the last of the second. */
  predicate Precedes(chain: seq<Primitive>, p: Primitive, q: Primitive) {
    && p in chain && q in chain
    && exists i, j :: 0 <= i < j < |chain| && IsLast(chain, i, p) && IsLast(chain, j, q)
  }

  predicate IsLast(chain: seq<Primitive>, i: int, p: Primitive) {
    0 <= i < |chain| && chain[i] == p && forall k :: i < k < |chain| ==> chain[k] != p
  }

  /**
   The role of a chain, stated by what it contains.  A condition is an argument of the
   call unless a merge reads it from the state; a merge keeps no data argument at all.
   */
  function PlanOf(chain: seq<Primitive>): Plan {
    Plan(
      conditionArgument := If in chain && Merge !in chain,
      arrayDataArguments := Array in chain,
      resampleKeyArgument := Resample in chain,
      stateArgument := Merge in chain,
      stateHasCondition := Precedes(chain, If, Merge),
      stateStoresCondition := Precedes(chain, If, State) && Merge !in chain,
      dropsTopLevelNullable := Precedes(chain, State, If),
      buildsAggregateState := State in chain && Merge !in chain,
      returnsAggregateState := State in chain,
      simpleStateResult := SimpleState in chain,
      orNullResult := OrNull in chain)
  }

  /** The index of the last p in chain; -1 when there is none. */
  function Last(chain: seq<Primitive>, p: Primitive): (i: int)
    ensures -1 <= i < |chain|
    ensures i == -1 <==> p !in chain
    ensures i >= 0 ==> IsLast(chain, i, p)
  {
    if chain == [] then -1
    else if chain[|chain| - 1] == p then |chain| - 1 else Last(chain[..|chain| - 1], p)
  }

  lemma OneLast(chain: seq<Primitive>, i: int, j: int, p: Primitive)
    requires IsLast(chain, i, p) && IsLast(chain, j, p)
    ensures i == j
  {
  }

  lemma PrecedesIs(chain: seq<Primitive>, p: Primitive, q: Primitive)
    ensures Precedes(chain, p, q) <==> 0 <= Last(chain, p) < Last(chain, q)
  {
    hide IsLast;
    if Precedes(chain, p, q) {
      var i, j :| 0 <= i < j < |chain| && IsLast(chain, i, p) && IsLast(chain, j, q);
      OneLast(chain, i, Last(chain, p), p);
      OneLast(chain, j, Last(chain, q), q);
    }
  }

  function Where(chain: seq<Primitive>, p: Primitive): int {
    Last(chain, p)
  }

  method AggregatePlanForPrimitives(chain: seq<Primitive>) returns (plan: Plan)
    ensures plan == PlanOf(chain)
  {
    hide PlanOf, Precedes, IsLast, Seen, Noted, Where;
    SeenNothing();
    assert chain[..0] == [];
    NoLast();
    plan := Plan(false, false, false, false, false, false, false, false, false, false, false);
    var mergeIndex, stateIndex, ifIndex := -1, -1, -1;
    for index := 0 to |chain|
      invariant mergeIndex == Where(chain[..index], Merge)
      invariant stateIndex == Where(chain[..index], State)
      invariant ifIndex == Where(chain[..index], If)
      invariant plan == Seen(chain[..index])
    {
      StepLast(chain, index, Merge);
      StepLast(chain, index, State);
      StepLast(chain, index, If);
      SeenStep(chain, index);
      plan := Noted(plan, chain[index]);
      match chain[index] {
        case Merge => mergeIndex := index;
        case State => stateIndex := index;
        case If => ifIndex := index;
        case _ =>
      }
    }
    assert chain[..|chain|] == chain;
    PlanFromLast(chain);
    plan := plan.(
      conditionArgument := ifIndex >= 0 && mergeIndex < 0,
      stateHasCondition := ifIndex >= 0 && mergeIndex >= 0 && ifIndex < mergeIndex,
      stateStoresCondition := ifIndex >= 0 && stateIndex >= 0 && mergeIndex < 0 && ifIndex < stateIndex,
      dropsTopLevelNullable := stateIndex >= 0 && ifIndex > stateIndex,
      buildsAggregateState := stateIndex >= 0 && mergeIndex < 0);
  }

  /** The plan of the loop before its closing assignments. */
  function Seen(chain: seq<Primitive>): Plan {
    Plan(false, Array in chain, Resample in chain, Merge in chain, false, false, false, false,
         State in chain, SimpleState in chain, OrNull in chain)
  }

  function Noted(plan: Plan, p: Primitive): Plan {
    match p
    case Array => plan.(arrayDataArguments := true)
    case Resample => plan.(resampleKeyArgument := true)
    case Merge => plan.(stateArgument := true)
    case State => plan.(returnsAggregateState := true)
    case SimpleState => plan.(simpleStateResult := true)
    case OrNull => plan.(orNullResult := true)
    case _ => plan
  }

  lemma SeenNothing()
    ensures Seen([]) == Plan(false, false, false, false, false, false, false, false, false, false, false)
  {
  }

  lemma MemberStep(before: seq<Primitive>, p: Primitive, q: Primitive)
    ensures q in before + [p] <==> q in before || q == p
  {
  }

  lemma SeenStep(chain: seq<Primitive>, index: nat)
    requires index < |chain|
    ensures Seen(chain[..index + 1]) == Noted(Seen(chain[..index]), chain[index])
  {
    var before, p := chain[..index], chain[index];
    assert chain[..index + 1] == before + [p];
    MemberStep(before, p, Array);
    MemberStep(before, p, Resample);
    MemberStep(before, p, Merge);
    MemberStep(before, p, State);
    MemberStep(before, p, SimpleState);
    MemberStep(before, p, OrNull);
  }

  /** The closing assignments of the loop give the plan. */
  lemma PlanFromLast(chain: seq<Primitive>)
    ensures var (ifIndex, mergeIndex, stateIndex) := (Where(chain, If), Where(chain, Merge), Where(chain, State));
            PlanOf(chain) == Seen(chain).(
              conditionArgument := ifIndex >= 0 && mergeIndex < 0,
              stateHasCondition := ifIndex >= 0 && mergeIndex >= 0 && ifIndex < mergeIndex,
              stateStoresCondition := ifIndex >= 0 && stateIndex >= 0 && mergeIndex < 0 && ifIndex < stateIndex,
              dropsTopLevelNullable := stateIndex >= 0 && ifIndex > stateIndex,
              buildsAggregateState := stateIndex >= 0 && mergeIndex < 0)
  {
    hide Precedes, IsLast;
    PrecedesIs(chain, If, Merge);
    PrecedesIs(chain, If, State);
    PrecedesIs(chain, State, If);
  }

  lemma NoLast()
    ensures Where([], Merge) == Where([], State) == Where([], If) == -1
  {
  }

  lemma StepLast(chain: seq<Primitive>, index: nat, p: Primitive)
    requires index < |chain|
    ensures Where(chain[..index + 1], p) == if chain[index] == p then index else Where(chain[..index], p)
  {
    assert chain[..index + 1][..index] == chain[..index];
  }

  // ----- the chains with a measured rule -----

  datatype Combinator = Combinator(chain: seq<Primitive>, plan: Plan, suffix: string)

  function CombinatorOf(chain: seq<Primitive>): Combinator {
    Combinator(chain, PlanOf(chain), Suffix(chain))
  }

  method BuildMeasuredCombinators(measured: seq<seq<Primitive>>) returns (all: seq<Combinator>)
    ensures |all| == |measured| && forall k :: 0 <= k < |all| ==> all[k] == CombinatorOf(measured[k])
  {
    hide PlanOf, Suffix;
    all := [];
    for k := 0 to |measured|
      invariant |all| == k && forall j :: 0 <= j < k ==> all[j] == CombinatorOf(measured[j])
    {
      var plan := AggregatePlanForPrimitives(measured[k]);
      all := all + [Combinator(measured[k], plan, Suffix(measured[k]))];
    }
  }

  datatype Status = NotFound | Unsupported(base: Base, combinator: Combinator) | Supported(base: Base, combinator: Combinator)

  /**
   The answer is a function of the name alone: neither the order of the bases, nor that
   of the catalog, nor that of the measured list plays a part.
   */
  method ParseAggregateCombinatorChain(name: string, bases: seq<Base>, catalog: seq<Primitive>, all: seq<Combinator>)
      returns (status: Status)
    requires Complete(catalog) && forall b: Base :: b in bases
    requires forall k :: 0 <= k < |all| ==> all[k] == CombinatorOf(all[k].chain)
    ensures status.NotFound? <==> forall split: Split :: !Splits(name, split)
    ensures !status.NotFound? ==>
              && Splits(name, Split(status.base, status.combinator.chain))
              && status.combinator == CombinatorOf(status.combinator.chain)
              && (status.Supported? <==> exists k :: 0 <= k < |all| && all[k].chain == status.combinator.chain)
  {
    hide Splits, PlanOf, Suffix;
    var split := ParseChain(name, bases, catalog);
    if split.None? {
      return NotFound;
    }
    var chain := split.value.chain;
    assert split.value == Split(split.value.base, chain);
    var suffix := Suffix(chain);
    var k := 0;
    while k < |all|
      invariant k <= |all|
      invariant forall j :: 0 <= j < k ==> all[j].chain != chain
    {
      if all[k].suffix == suffix {
        SuffixIsInjective(all[k].chain, chain);
        return Supported(split.value.base, all[k]);
      }
      k := k + 1;
    }
    var plan := AggregatePlanForPrimitives(chain);
    return Unsupported(split.value.base, Combinator(chain, plan, suffix));
  }

  lemma SuffixIsInjective(a: seq<Primitive>, b: seq<Primitive>)
    requires Suffix(a) == Suffix(b)
    ensures a == b
  {
    ReadIsInverse(Suffix(a), a);
    ReadIsInverse(Suffix(a), b);
  }

  /** In every chain, measured or not, the roles of an argument exclude each other. */
  lemma RolesExclude(chain: seq<Primitive>)
    ensures var p := PlanOf(chain);
            && !(p.stateArgument && (p.conditionArgument || p.buildsAggregateState))
            && (p.stateHasCondition ==> p.stateArgument)
            && (p.stateStoresCondition ==> p.buildsAggregateState && p.conditionArgument && !p.dropsTopLevelNullable)
            && (p.buildsAggregateState <==> p.returnsAggregateState && !p.stateArgument)
  {
    hide IsLast, Precedes;
    PrecedesIs(chain, If, Merge);
    PrecedesIs(chain, If, State);
    PrecedesIs(chain, State, If);
  }
}
