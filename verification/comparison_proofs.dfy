/** Comparability does not depend on the order of its operands, and never admits a state. */
module ComparisonProofs {
  import opened ChTypes
  import opened Comparison

  ghost predicate Symmetric(common: (CHType, CHType) -> bool) {
    forall a, b :: common(a, b) == common(b, a)
  }

  lemma RefusalsAreSymmetric(l: CHType, r: CHType)
    ensures RefusedPair(l, r) == RefusedPair(r, l)
    ensures RefusedScalarPair(l, r) == RefusedScalarPair(r, l)
  {
  }

  predicate Named0(t: CHType) {
    t.kind == Named("")
  }

  lemma StepIsSymmetric(l: CHType, r: CHType)
    ensures StepOf(l, r) == StepOf(r, l)
  {
    RefusalsAreSymmetric(l, r);
    hide RefusedPair, RefusedScalarPair, ClassesOf, Known;
  }

  /** Main result: the order of the operands does not matter, at any depth. */
  lemma {:induction false} ComparableIsSymmetric(common: (CHType, CHType) -> bool, left: CHType, right: CHType)
    requires Symmetric(common)
    ensures Comparable(common, left, right) == Comparable(common, right, left)
    decreases Weight(left) + Weight(right)
  {
    if !Named0(left) && !Named0(right) {
      var l, r := Structural(left), Structural(right);
      StructuralIsNoHeavier(left);
      StructuralIsNoHeavier(right);
      StepIsSymmetric(l, r);
      StepShape(l, r);
      hide StepOf, Structural, Member, Weight;
      forall i | 0 <= i < |l.params| && i < |r.params|
        ensures AtMember(common, l, r, i) == AtMember(common, r, l, i)
        ensures Supertype(common, l, r, i) == Supertype(common, r, l, i)
      {
        ComparableIsSymmetric(common, Member(l, i), Member(r, i));
      }
    }
  }

  lemma VerdictIsSymmetric(common: (CHType, CHType) -> bool, l: CHType, r: CHType)
    requires Symmetric(common)
    ensures VerdictOf(common, l, r) == VerdictOf(common, r, l)
  {
    ComparableIsSymmetric(common, l, r);
    hide Comparable, Known;
  }

  // ----- states inside containers -----

  predicate Unwrapped(t: CHType) {
    t.kind != Nullable && t.kind != LowCardinality
  }

  function BaseOf(t: CHType): (b: CHType)
    ensures b == t || b < t
  {
    SplitWrappers(t).base
  }

  /**
   A type that the server can hold, without its wrappers: members in their number, scalars
   without any, and no Dynamic, Variant or marker.
   */
  predicate Built(b: CHType)
    decreases b
  {
    match b.kind
    case Array => |b.params| == 1 && AllBuilt(b)
    case Tuple => AllBuilt(b)
    case Map => |b.params| == 2 && AllBuilt(b)
    case AggregateFunction => true
    case Nullable => false
    case LowCardinality => false
    case Dynamic => false
    case Variant => false
    case SimpleAggregateFunction => false
    case Named(name) => name != "" && b.params == []
    case _ => b.params == []
  }

  predicate AllBuilt(b: CHType)
    decreases b, 0
  {
    forall i :: 0 <= i < |b.params| ==> Built(BaseOf(b.params[i]))
  }

  predicate HoldsState(b: CHType)
    decreases b
  {
    b.kind == AggregateFunction || exists i :: 0 <= i < |b.params| && HoldsState(BaseOf(b.params[i]))
  }

  lemma BaseOfStructural(t: CHType)
    requires Unwrapped(BaseOf(t))
    ensures BaseOf(Structural(t)) == Structural(BaseOf(t))
  {
  }

  lemma {:induction false} StructuralKeeps(b: CHType)
    requires Built(b)
    ensures Built(Structural(b)) && (HoldsState(b) ==> HoldsState(Structural(b)))
    decreases b
  {
    if IsGeometry(b.kind) {
      AliasIsBuilt(b);
    } else if IsContainer(b) {
      var s := Structural(b);
      forall i | 0 <= i < |b.params|
        ensures Built(BaseOf(s.params[i]))
        ensures HoldsState(BaseOf(b.params[i])) ==> HoldsState(BaseOf(s.params[i]))
      {
        StructuralKeeps(BaseOf(b.params[i]));
        BaseOfStructural(b.params[i]);
      }
      ContainerKept(b, s);
      hide *;
    } else {
      ScalarKept(b);
      hide *;
    }
  }

  lemma ContainerKept(b: CHType, s: CHType)
    requires Built(b) && IsContainer(b) && s.kind == b.kind && |s.params| == |b.params|
    requires forall i :: 0 <= i < |b.params| ==> Built(BaseOf(s.params[i]))
    requires forall i :: 0 <= i < |b.params| && HoldsState(BaseOf(b.params[i])) ==> HoldsState(BaseOf(s.params[i]))
    ensures Built(s) && (HoldsState(b) ==> HoldsState(s))
  {
    assert Built(s) by {
      hide BaseOf, HoldsState;
    }
    HolderKept(b, s);
    hide Built, HoldsState, BaseOf;
  }

  lemma HolderKept(b: CHType, s: CHType)
    requires s.kind == b.kind && |s.params| == |b.params|
    requires forall i :: 0 <= i < |b.params| && HoldsState(BaseOf(b.params[i])) ==> HoldsState(BaseOf(s.params[i]))
    ensures HoldsState(b) ==> HoldsState(s)
  {
    hide BaseOf;
  }

  lemma ScalarKept(b: CHType)
    requires Built(b) && !IsGeometry(b.kind) && !IsContainer(b)
    ensures Built(Structural(b)) && (HoldsState(b) ==> HoldsState(Structural(b)))
  {
    hide BaseOf;
  }

  lemma PointIsBuilt()
    ensures Built(PointType()) && BaseOf(PointType()) == PointType()
  {
    assert Built(Plain(Float64)) && BaseOf(Plain(Float64)) == Plain(Float64);
  }

  lemma ArrayIsBuilt(x: CHType)
    requires Built(x) && BaseOf(x) == x
    ensures Built(Of(Array, x)) && BaseOf(Of(Array, x)) == Of(Array, x)
  {
  }

  lemma AliasIsBuilt(b: CHType)
    requires IsGeometry(b.kind) && b.params == []
    ensures Built(Structural(b)) && !HoldsState(b)
  {
    hide Built, BaseOf, PointType;
    PointIsBuilt();
    ArrayIsBuilt(PointType());
    ArrayIsBuilt(Of(Array, PointType()));
    ArrayIsBuilt(Of(Array, Of(Array, PointType())));
  }

  /** No decision on the kinds alone admits a pair with a state in it. */
  lemma StepOfBuilt(l: CHType, r: CHType)
    requires Built(l) && Built(r) && !IsGeometry(l.kind) && !IsGeometry(r.kind)
    requires HoldsState(l) || HoldsState(r)
    ensures StepOf(l, r) != Decided(true)
  {
    HoldersAreContainers(l);
    HoldersAreContainers(r);
    UnknownIsNamed(l);
    UnknownIsNamed(r);
    ClassOfContainer(l, r);
    ClassOfContainer(r, l);
    RefusedState(l, r);
    hide Built, HoldsState, Known, RefusedPair, RefusedScalarPair, ClassesOf, IsGeometry;
  }

  lemma RefusedState(l: CHType, r: CHType)
    ensures l.kind == AggregateFunction || r.kind == AggregateFunction ==> RefusedPair(l, r)
  {
  }

  lemma ClassOfContainer(l: CHType, r: CHType)
    ensures IsContainer(l) ==> ClassesOf(l) != {} && (r.kind != l.kind ==> ClassesOf(l) !! ClassesOf(r))
  {
  }

  lemma HoldersAreContainers(b: CHType)
    requires Built(b)
    ensures HoldsState(b) ==> IsContainer(b) || b.kind.AggregateFunction?
    ensures b.kind == Array ==> |b.params| == 1
    ensures b.kind == Map ==> |b.params| == 2
    ensures b.kind != Variant && b.kind != Dynamic && !Named0(b)
  {
  }

  lemma UnknownIsNamed(b: CHType)
    requires Built(b)
    ensures ClassesOf(b) == {} && b.kind != AggregateFunction && !IsGeometry(b.kind) ==> !Known(b)
  {
  }

  lemma SomeMember(l: CHType) returns (i: nat)
    requires IsContainer(l) && HoldsState(l)
    ensures i < |l.params| && HoldsState(Member(l, i))
  {
    i :| 0 <= i < |l.params| && HoldsState(BaseOf(l.params[i]));
    assert Member(l, i) == BaseOf(l.params[i]);
  }

  lemma MemberIsBuilt(l: CHType, i: nat)
    requires Built(l) && i < |l.params| && IsContainer(l)
    ensures Built(Member(l, i)) && Weight(Member(l, i)) < Weight(l)
  {
    assert Member(l, i) == BaseOf(l.params[i]);
  }

  /** Main result: no pair with an aggregate state in it, however deep, is comparable. */
  lemma {:induction false} NoStateIsComparable(common: (CHType, CHType) -> bool, left: CHType, right: CHType)
    requires Built(left) && Built(right) && (HoldsState(left) || HoldsState(right))
    ensures !Comparable(common, left, right)
    decreases Weight(left) + Weight(right)
  {
    hide *;
    var l, r := Structural(left), Structural(right);
    StructuralKeeps(left);
    StructuralKeeps(right);
    StructuralIsNoHeavier(left);
    StructuralIsNoHeavier(right);
    HoldersAreContainers(left);
    HoldersAreContainers(right);
    StepOfBuilt(l, r);
    StepShape(l, r);
    if StepOf(l, r).Decided? {
      Refused(common, left, right);
    } else {
      var i := SomeMember(if HoldsState(l) then l else r);
      MemberIsBuilt(l, i);
      MemberIsBuilt(r, i);
      NoStateIsComparable(common, Member(l, i), Member(r, i));
      AtMemberIs(common, l, r, i);
      MemberDecides(common, left, right, i);
    }
  }

  lemma Refused(common: (CHType, CHType) -> bool, left: CHType, right: CHType)
    requires !Named0(left) && !Named0(right) && StepOf(Structural(left), Structural(right)) == Decided(false)
    ensures !Comparable(common, left, right)
  {
    hide StepOf, Structural;
  }

  lemma MemberDecides(common: (CHType, CHType) -> bool, left: CHType, right: CHType, i: nat)
    requires !Named0(left) && !Named0(right) && !StepOf(Structural(left), Structural(right)).Decided?
    requires i < |Structural(left).params| && i < |Structural(right).params|
    requires !AtMember(common, Structural(left), Structural(right), i)
    ensures !Comparable(common, left, right)
  {
    var l, r := Structural(left), Structural(right);
    StepShape(l, r);
    hide StepOf, Structural, Member, AtMember, Supertype, Weight, IsContainer;
  }

  lemma AtMemberIs(common: (CHType, CHType) -> bool, l: CHType, r: CHType, i: nat)
    requires i < |l.params| && i < |r.params|
    ensures AtMember(common, l, r, i) == Comparable(common, Member(l, i), Member(r, i))
  {
    hide Comparable, Member;
  }

  /** Such a pair is refused, or unknown when the other side has no measured domain. */
  lemma NoStateIsConfirmed(common: (CHType, CHType) -> bool, l: CHType, r: CHType)
    requires Built(l) && Built(r) && (HoldsState(l) || HoldsState(r))
    ensures VerdictOf(common, l, r) != Confirmed
  {
    NoStateIsComparable(common, l, r);
    hide Comparable;
  }

  /**
   Why Dynamic is left out: against it the members of a type are never looked at.  It takes
   every known type but five kinds, and so an array of aggregate states.
   */
  lemma DynamicTakesIff(common: (CHType, CHType) -> bool, t: CHType)
    ensures VerdictOf(common, Plain(Dynamic), t) == Confirmed <==>
            Known(t) && Structural(t).kind !in {AggregateFunction, JSON, Tuple, Map, Variant}
  {
    hide StepOf, Known, Structural, Comparable;
    DynamicIsKnown();
    StructuralKnown(t);
    UnnamedIsUnknown(t);
    DynamicStep(Structural(t));
    SameState(t);
    if t.kind != Named("") {
      DecidedCompares(common, Plain(Dynamic), t);
    }
  }

  lemma DecidedCompares(common: (CHType, CHType) -> bool, l: CHType, r: CHType)
    requires l.kind != Named("") && r.kind != Named("") && StepOf(Structural(l), Structural(r)).Decided?
    ensures Comparable(common, l, r) == StepOf(Structural(l), Structural(r)).answer
  {
    hide StepOf, Known, Structural, Weight;
  }

  /**
   Against a Variant no member is looked at either: it takes itself, states inside and all, and
   the known types without a class but states and Dynamic.
   */
  lemma VariantTakesIff(common: (CHType, CHType) -> bool, v: CHType, t: CHType)
    requires v.kind == Variant
    ensures VerdictOf(common, v, t) == Confirmed <==>
            && Known(v) && Known(t)
            && (Structural(t) == Structural(v)
                || (ClassesOf(Structural(t)) == {} && Structural(t).kind !in {AggregateFunction, Dynamic}))
  {
    hide StepOf, Known, Structural, Comparable, ClassesOf;
    StructuralKnown(v);
    StructuralKnown(t);
    UnnamedIsUnknown(t);
    SameState(t);
    KindStays(v);
    VariantStep(Structural(v), Structural(t));
    if t.kind != Named("") {
      DecidedCompares(common, v, t);
    }
  }

  /** A marker has no class, so what it marks is never compared: it takes every known type but states and JSON. */
  lemma MarkerTakesIff(common: (CHType, CHType) -> bool, m: CHType, t: CHType)
    requires IsMarker(m)
    ensures VerdictOf(common, m, t) == Confirmed <==>
            Known(m) && Known(t) && Structural(t).kind !in {AggregateFunction, JSON}
  {
    hide StepOf, Known, Structural, Comparable;
    StructuralKnown(m);
    StructuralKnown(t);
    UnnamedIsUnknown(t);
    SameState(t);
    KindStays(m);
    MarkerStep(Structural(m), Structural(t));
    if t.kind != Named("") {
      DecidedCompares(common, m, t);
    }
  }

  lemma KindStays(t: CHType)
    requires !IsGeometry(t.kind)
    ensures Structural(t).kind == t.kind
  {
  }

  lemma VariantStep(v: CHType, t: CHType)
    requires v.kind == Variant
    ensures StepOf(v, t) ==
            Decided(if t.kind in {AggregateFunction, Dynamic} then false
                    else if ClassesOf(t) == {} then Known(v) && Known(t)
                    else v == t)
  {
    hide Known;
  }

  lemma MarkerStep(m: CHType, t: CHType)
    requires m.kind == SimpleAggregateFunction
    ensures StepOf(m, t) == Decided(Known(m) && Known(t) && t.kind !in {AggregateFunction, JSON})
  {
    hide Known;
  }

  /**
   Dynamic compares with an array of states, a Variant of a state with itself, and a marker
   around an array of states with a number.
   */
  lemma HiddenStatesCompare(common: (CHType, CHType) -> bool)
    ensures VerdictOf(common, Plain(Dynamic), Of(Array, Plain(AggregateFunction))) == Confirmed
    ensures var v := Of(Variant, Plain(AggregateFunction)); VerdictOf(common, v, v) == Confirmed
    ensures var m := CHType(SimpleAggregateFunction, [Plain(Named("any")), Of(Array, Plain(AggregateFunction))], []);
            VerdictOf(common, m, Plain(Int(8))) == Confirmed
  {
    var v := Of(Variant, Plain(AggregateFunction));
    var m := CHType(SimpleAggregateFunction, [Plain(Named("any")), Of(Array, Plain(AggregateFunction))], []);
    DynamicTakesStates(common);
    HiddenStatesKnown();
    VariantTakesIff(common, v, v);
    KindStays(Plain(Int(8)));
    hide VerdictOf, Known, Structural;
    MarkerTakesIff(common, m, Plain(Int(8)));
  }

  lemma HiddenStatesKnown()
    ensures Known(Of(Variant, Plain(AggregateFunction))) && Known(Plain(Int(8)))
    ensures Known(CHType(SimpleAggregateFunction, [Plain(Named("any")), Of(Array, Plain(AggregateFunction))], []))
  {
    StatesAreKnown();
    PlainsAreKnown();
    hide Known, Structural, IsStructural;
    VariantIsKnown(Plain(AggregateFunction));
    MarkerIsKnown(Plain(Named("any")), Of(Array, Plain(AggregateFunction)));
  }

  lemma PlainsAreKnown()
    ensures Known(Plain(Int(8))) && Known(Plain(AggregateFunction))
    ensures IsStructural(Plain(AggregateFunction)) && IsStructural(Plain(Named("any")))
  {
    StructuralIsFixed(Plain(AggregateFunction));
    StructuralIsFixed(Plain(Int(8)));
    hide Structural;
  }

  lemma VariantIsKnown(x: CHType)
    requires Known(x) && IsStructural(x)
    ensures Known(Of(Variant, x))
  {
    hide Structural, Weight, IsStructural, AllKnown;
    VariantIsStructural(x);
    OneKnown(Of(Variant, x));
  }

  lemma VariantIsStructural(x: CHType)
    requires IsStructural(x)
    ensures IsStructural(Of(Variant, x)) && Structural(Of(Variant, x)) == Of(Variant, x)
  {
    StructuralIsFixed(Of(Variant, x));
    hide Structural;
  }

  lemma MarkerIsKnown(f: CHType, x: CHType)
    requires Known(x) && IsStructural(x) && IsStructural(f)
    ensures Known(CHType(SimpleAggregateFunction, [f, x], []))
  {
    hide Structural, Weight, IsStructural, AllKnown, ClassesOf;
    MarkerIsStructural(f, x);
  }

  lemma MarkerIsStructural(f: CHType, x: CHType)
    requires IsStructural(x) && IsStructural(f)
    ensures var m := CHType(SimpleAggregateFunction, [f, x], []); Structural(m) == m
  {
    StructuralIsFixed(CHType(SimpleAggregateFunction, [f, x], []));
    hide Structural;
  }

  lemma StructuralKnown(t: CHType)
    ensures Known(Structural(t)) == Known(t)
  {
    hide Structural, IsStructural, ClassesOf, AllKnown, SplitWrappers, Weight;
    StructuralIs(t);
    StructuralIsFixed(Structural(t));
  }

  lemma UnnamedIsUnknown(t: CHType)
    ensures t.kind == Named("") ==> !Known(t)
  {
    hide Weight, AllKnown;
  }

  lemma SameState(t: CHType)
    ensures Structural(t).kind == AggregateFunction <==> t.kind == AggregateFunction
  {
  }

  lemma DynamicIsKnown()
    ensures Known(Plain(Dynamic)) && Structural(Plain(Dynamic)) == Plain(Dynamic)
  {
  }

  lemma DynamicStep(t: CHType)
    requires Known(Plain(Dynamic))
    ensures StepOf(Plain(Dynamic), t) ==
            Decided(Known(t) && t.kind !in {AggregateFunction, JSON, Tuple, Map, Variant})
  {
    hide Known;
  }

  lemma DynamicTakesStates(common: (CHType, CHType) -> bool)
    ensures VerdictOf(common, Plain(Dynamic), Of(Array, Plain(AggregateFunction))) == Confirmed
  {
    StatesAreKnown();
    StructuralIsFixed(Of(Array, Plain(AggregateFunction)));
    hide VerdictOf, Known, Structural, IsStructural;
    DynamicTakesIff(common, Of(Array, Plain(AggregateFunction)));
  }

  lemma StatesAreKnown()
    ensures var t := Of(Array, Plain(AggregateFunction)); t.kind == Array && IsStructural(t) && Known(t)
  {
    var state := Plain(AggregateFunction);
    assert IsStructural(state);
    StructuralIsFixed(state);
    ArrayIsKnown(state);
  }

  lemma OneKnown(t: CHType)
    requires |t.params| == 1 && Known(t.params[0])
    ensures AllKnown(t)
  {
    hide Known, Structural, Weight;
  }

  lemma ArrayIsStructural(x: CHType)
    requires IsStructural(x)
    ensures IsStructural(Of(Array, x)) && Structural(Of(Array, x)) == Of(Array, x)
  {
    StructuralIsFixed(Of(Array, x));
    hide Structural;
  }

  lemma ArrayIsKnown(x: CHType)
    requires Known(x) && IsStructural(x)
    ensures Known(Of(Array, x)) && IsStructural(Of(Array, x))
  {
    hide Structural, Weight, IsStructural, AllKnown;
    ArrayIsStructural(x);
    OneKnown(Of(Array, x));
  }

  // ----- a type compares with itself -----

  /** A built type with a measured class at every depth, and no state. */
  predicate Measured(b: CHType)
    decreases b
  {
    match b.kind
    case Array => |b.params| == 1 && AllMeasured(b)
    case Tuple => AllMeasured(b)
    case Map => |b.params| == 2 && AllMeasured(b)
    case AggregateFunction => false
    case Nullable => false
    case LowCardinality => false
    case Dynamic => false
    case Variant => false
    case SimpleAggregateFunction => false
    case Named(_) => false
    case _ => b.params == []
  }

  predicate AllMeasured(b: CHType)
    decreases b, 0
  {
    forall i :: 0 <= i < |b.params| ==> Measured(BaseOf(b.params[i]))
  }

  lemma {:induction false} StructuralKeepsMeasured(b: CHType)
    requires Measured(b)
    ensures Measured(Structural(b)) && !IsGeometry(Structural(b).kind)
    decreases b
  {
    if IsGeometry(b.kind) {
      AliasIsMeasured(b);
    } else if IsContainer(b) {
      var s := Structural(b);
      forall i | 0 <= i < |b.params| ensures Measured(BaseOf(s.params[i])) {
        MeasuredIsUnwrapped(BaseOf(b.params[i]));
        StructuralKeepsMeasured(BaseOf(b.params[i]));
        BaseOfStructural(b.params[i]);
      }
      ContainerMeasured(b, s);
      hide *;
    } else {
      ScalarMeasured(b);
      hide *;
    }
  }

  lemma ContainerMeasured(b: CHType, s: CHType)
    requires Measured(b) && IsContainer(b) && s.kind == b.kind && |s.params| == |b.params|
    requires forall i :: 0 <= i < |s.params| ==> Measured(BaseOf(s.params[i]))
    ensures Measured(s) && !IsGeometry(s.kind)
  {
    hide BaseOf;
  }

  lemma ScalarMeasured(b: CHType)
    requires Measured(b) && !IsContainer(b) && !IsGeometry(b.kind)
    ensures Measured(Structural(b)) && !IsGeometry(Structural(b).kind)
  {
    hide BaseOf;
  }

  lemma MeasuredIsUnwrapped(b: CHType)
    requires Measured(b)
    ensures Unwrapped(b) && !Named0(b)
  {
  }

  lemma PointIsMeasured()
    ensures Measured(PointType()) && BaseOf(PointType()) == PointType()
  {
    assert Measured(Plain(Float64)) && BaseOf(Plain(Float64)) == Plain(Float64);
  }

  lemma ArrayIsMeasured(x: CHType)
    requires Measured(x) && BaseOf(x) == x
    ensures Measured(Of(Array, x)) && BaseOf(Of(Array, x)) == Of(Array, x)
  {
  }

  lemma AliasIsMeasured(b: CHType)
    requires IsGeometry(b.kind)
    ensures Measured(Structural(b))
  {
    hide Measured, BaseOf, PointType;
    PointIsMeasured();
    ArrayIsMeasured(PointType());
    ArrayIsMeasured(Of(Array, PointType()));
    ArrayIsMeasured(Of(Array, Of(Array, PointType())));
  }

  lemma SelfStep(l: CHType)
    requires Measured(l) && !IsGeometry(l.kind)
    ensures StepOf(l, l) != Decided(false)
  {
    hide Measured, Known;
    MeasuredHasClass(l);
  }

  lemma MeasuredHasClass(l: CHType)
    requires Measured(l) && !IsGeometry(l.kind)
    ensures ClassesOf(l) != {} && l.kind != AggregateFunction && l.kind != Dynamic
    ensures l.kind == Tuple || l.kind == Array || l.kind == Map ==> AllMeasured(l)
  {
  }

  /** Every measured type compares with itself, where a supertype of a type with itself exists. */
  lemma {:induction false} MeasuredComparesWithItself(common: (CHType, CHType) -> bool, t: CHType)
    requires Measured(t) && forall a :: common(a, a)
    ensures Comparable(common, t, t)
    decreases Weight(t)
  {
    hide *;
    var l := Structural(t);
    MeasuredIsUnwrapped(t);
    StructuralKeepsMeasured(t);
    StructuralIsNoHeavier(t);
    SelfStep(l);
    StepShape(l, l);
    if !StepOf(l, l).Decided? {
      forall i | 0 <= i < |l.params| ensures AtMember(common, l, l, i) && Supertype(common, l, l, i) {
        MemberIsMeasured(l, i);
        MeasuredComparesWithItself(common, Member(l, i));
        AtMemberIs(common, l, l, i);
        SupertypeIs(common, l, l, i);
      }
    }
    MembersDecide(common, t);
  }

  lemma MemberIsMeasured(l: CHType, i: nat)
    requires Measured(l) && i < |l.params| && IsContainer(l)
    ensures Measured(Member(l, i)) && Weight(Member(l, i)) < Weight(l)
  {
    assert Member(l, i) == BaseOf(l.params[i]);
  }

  lemma SupertypeIs(common: (CHType, CHType) -> bool, l: CHType, r: CHType, i: nat)
    requires i < |l.params| && i < |r.params|
    ensures Supertype(common, l, r, i) == common(Member(l, i), Member(r, i))
  {
    hide Member;
  }

  lemma MembersDecide(common: (CHType, CHType) -> bool, t: CHType)
    requires !Named0(t) && StepOf(Structural(t), Structural(t)) != Decided(false)
    requires var l := Structural(t);
             !StepOf(l, l).Decided? ==> forall i :: 0 <= i < |l.params| ==> AtMember(common, l, l, i) && Supertype(common, l, l, i)
    ensures Comparable(common, t, t)
  {
    StepShape(Structural(t), Structural(t));
    hide StepOf, Structural, Member, AtMember, Supertype, Weight, IsContainer;
  }

  /** Comparable containers match: arrays and maps by supertype, tuples by arity and member. */
  lemma ContainersMatch(common: (CHType, CHType) -> bool, l: CHType, r: CHType)
    requires Comparable(common, l, r) && IsStructural(l) && IsStructural(r)
    requires IsContainer(l) && !Named0(r) && r.kind != Dynamic && ClassesOf(r) != {}
    ensures r.kind == l.kind
    ensures l.kind == Tuple ==> |l.params| == |r.params|
    ensures l.kind == Tuple || (l.kind == Array && |l.params| == |r.params| == 1) || (l.kind == Map && |l.params| == |r.params| == 2) ==>
              forall i :: 0 <= i < |l.params| && i < |r.params| ==>
                AtMember(common, l, r, i) && (l.kind != Tuple ==> Supertype(common, l, r, i))
  {
    hide *;
    ContainerIsNamed(l);
    ContainerStep(l, r);
    StepShape(l, r);
    ComparableStep(common, l, r);
  }

  lemma ContainerIsNamed(l: CHType)
    ensures IsContainer(l) ==> !Named0(l)
  {
  }

  lemma ComparableStep(common: (CHType, CHType) -> bool, l: CHType, r: CHType)
    requires !Named0(l) && !Named0(r) && IsStructural(l) && IsStructural(r) && Comparable(common, l, r)
    ensures StepOf(l, r) != Decided(false)
    ensures StepOf(l, r) == Elements ==>
              |l.params| == |r.params| == 1 && Supertype(common, l, r, 0) && AtMember(common, l, r, 0)
    ensures StepOf(l, r) == Members ==>
              |l.params| == |r.params| && forall i :: 0 <= i < |l.params| ==> AtMember(common, l, r, i)
    ensures StepOf(l, r) == Entries ==>
              |l.params| == |r.params| == 2
              && Supertype(common, l, r, 0) && AtMember(common, l, r, 0)
              && Supertype(common, l, r, 1) && AtMember(common, l, r, 1)
  {
    StructuralIsFixed(l);
    StructuralIsFixed(r);
    StepShape(l, r);
    hide StepOf, Structural, IsStructural, Member, AtMember, Supertype, Weight, IsContainer;
  }

  lemma ContainerStep(l: CHType, r: CHType)
    requires IsContainer(l) && r.kind != Dynamic && ClassesOf(r) != {}
    ensures StepOf(l, r) == Decided(false) || r.kind == l.kind
    ensures r.kind == l.kind == Tuple ==>
              StepOf(l, r) == if |l.params| == |r.params| then Members else Decided(false)
    ensures r.kind == l.kind == Array && |l.params| == |r.params| == 1 ==> StepOf(l, r) == Elements
    ensures r.kind == l.kind == Map && |l.params| == |r.params| == 2 ==> StepOf(l, r) == Entries
  {
    ClassOfContainer(l, r);
    SameClass(l, r);
    hide ClassesOf, Known;
  }

  lemma SameClass(l: CHType, r: CHType)
    ensures l.kind == r.kind ==> ClassesOf(l) == ClassesOf(r)
  {
  }
}
