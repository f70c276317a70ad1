/**
 Which pairs of types ClickHouse compares.  The common supertype of two types is a
 parameter: only whether it exists matters here.
 */
module Comparison {
  import opened ChTypes

  datatype Class = Numeric | StringLike | Temporal | Uuid | Ip | ArrayClass | TupleClass | MapClass | VariantClass | JsonClass

  /** comparisonClassesOf; the empty set stands for a type that no measurement covers. */
  function ClassesOf(t: CHType): set<Class> {
    match t.kind
    case Interval => {Numeric}
    case Int(_) => {Numeric}
    case UInt(_) => {Numeric}
    case Float32 => {Numeric}
    case Float64 => {Numeric}
    case Bool => {Numeric}
    case Decimal => {Numeric}
    case SizedDecimal(_) => {Numeric}
    case Enum(_) => {Numeric, StringLike}
    case String => {StringLike}
    case FixedString => {StringLike}
    case Date => {Temporal}
    case Date32 => {Temporal}
    case DateTime => {Temporal, Numeric}
    case DateTime64 => {Temporal, Numeric}
    case UUID => {Uuid}
    case IPv4 => {Ip}
    case IPv6 => {Ip}
    case Array => {ArrayClass}
    case Tuple => {TupleClass}
    case Map => {MapClass}
    case Variant => {VariantClass}
    case JSON => {JsonClass}
    case _ => {}
  }

  // ----- a measure for the recursion through element types -----

  function Weight(t: CHType): nat
    decreases t
  {
    1 + (if IsGeometry(t.kind) then 6 else 0) + WeightAll(t.params)
  }

  function WeightAll(ts: seq<CHType>): nat
    decreases ts
  {
    if ts == [] then 0 else Weight(ts[0]) + WeightAll(ts[1..])
  }

  lemma {:induction false} ParamIsLighter(ts: seq<CHType>, i: nat)
    requires i < |ts|
    ensures Weight(ts[i]) <= WeightAll(ts)
  {
    if i > 0 {
      ParamIsLighter(ts[1..], i - 1);
    }
  }

  lemma {:induction false} StructuralIsNoHeavier(t: CHType)
    ensures Weight(Structural(t)) <= Weight(t)
    decreases t
  {
    if IsGeometry(t.kind) {
      AliasWeight(t);
    } else {
      StructuralAllIsNoHeavier(t.params);
    }
  }

  lemma AliasWeight(t: CHType)
    requires IsGeometry(t.kind)
    ensures Weight(Structural(t)) <= 6
  {
    PairWeight(Plain(Float64), Plain(Float64));
    OfWeight(PointType());
    OfWeight(Of(Array, PointType()));
    OfWeight(Of(Array, Of(Array, PointType())));
    assert Weight(Plain(Float64)) == 1;
    hide Weight;
  }

  lemma PairWeight(a: CHType, b: CHType)
    ensures Weight(CHType(Tuple, [a, b], [])) == 1 + Weight(a) + Weight(b)
  {
    hide Weight;
    assert [a, b][1..] == [b] && [b][1..] == [];
    assert WeightAll([a, b]) == Weight(a) + WeightAll([b]);
    WeightIs(CHType(Tuple, [a, b], []));
  }

  lemma OfWeight(t: CHType)
    ensures Weight(Of(Array, t)) == 1 + Weight(t)
  {
    hide Weight;
    assert [t][1..] == [];
    assert WeightAll([t]) == Weight(t) + WeightAll([]);
    WeightIs(Of(Array, t));
  }

  lemma WeightIs(t: CHType)
    requires !IsGeometry(t.kind)
    ensures Weight(t) == 1 + WeightAll(t.params)
  {
  }

  lemma {:induction false} StructuralAllIsNoHeavier(ts: seq<CHType>)
    ensures WeightAll(StructuralAll(ts)) <= WeightAll(ts)
    decreases ts
  {
    if ts != [] {
      StructuralIsNoHeavier(ts[0]);
      StructuralAllIsNoHeavier(ts[1..]);
      var all := StructuralAll(ts);
      assert all == [Structural(ts[0])] + StructuralAll(ts[1..]);
      assert all[1..] == StructuralAll(ts[1..]);
    }
  }

  /** The type of a member, without its wrappers. */
  function Member(t: CHType, i: nat): (m: CHType)
    requires i < |t.params|
    ensures Weight(m) < Weight(t)
  {
    ParamIsLighter(t.params, i);
    SplitIsNoHeavier(t.params[i]);
    SplitWrappers(t.params[i]).base
  }

  lemma SplitIsNoHeavier(t: CHType)
    ensures Weight(SplitWrappers(t).base) <= Weight(t)
  {
    if IsOf(t, LowCardinality) {
      ParamIsLighter(t.params, 0);
      if IsOf(t.params[0], Nullable) {
        ParamIsLighter(t.params[0].params, 0);
      }
    } else if IsOf(t, Nullable) {
      ParamIsLighter(t.params, 0);
    }
  }

  // ----- the pair rules -----

  /** comparisonTypeKnown */
  predicate Known(t: CHType)
    decreases Weight(t)
  {
    StructuralIsNoHeavier(t);
    SplitIsNoHeavier(Structural(t));
    var base := SplitWrappers(Structural(t)).base;
    if IsMarker(base) then
      ParamIsLighter(base.params, 1);
      Known(base.params[1])
    else
      || base.kind == Dynamic || base.kind == AggregateFunction
      || (ClassesOf(base) != {} && (base.kind in {Array, Tuple, Map, Variant} ==> AllKnown(base)))
  }

  predicate AllKnown(t: CHType)
    decreases Weight(t), 0
  {
    forall i :: 0 <= i < |t.params| ==>
      (ParamIsLighter(t.params, i); Known(t.params[i]))
  }

  predicate NotWithInterval(t: CHType) {
    t.kind.Date? || t.kind.Date32? || t.kind.DateTime64? || IsDecimal(t)
  }

  predicate NotWithDynamic(t: CHType) {
    t.kind.Tuple? || t.kind.Map? || t.kind.Variant?
  }

  predicate NotWithDecimal(t: CHType) {
    t.kind.DateTime? || t.kind.Enum?
  }

  /** The refusals that do not depend on the classes. */
  predicate RefusedPair(l: CHType, r: CHType) {
    || (l.kind.Interval? && NotWithInterval(r)) || (r.kind.Interval? && NotWithInterval(l))
    || l.kind.AggregateFunction? || r.kind.AggregateFunction?
  }

  predicate RefusedScalarPair(l: CHType, r: CHType) {
    || (NotWithDecimal(l) && IsDecimal(r)) || (NotWithDecimal(r) && IsDecimal(l))
    || (l.kind.Dynamic? && NotWithDynamic(r)) || (r.kind.Dynamic? && NotWithDynamic(l))
  }

  predicate IsContainer(t: CHType) {
    t.kind.Array? || t.kind.Tuple? || t.kind.Map?
  }

  /** What the rules say of a pair before its members are looked at. */
  datatype Step = Decided(answer: bool) | Elements | Members | Entries

  function StepOf(l: CHType, r: CHType): Step {
    if RefusedPair(l, r) then Decided(false)
    else if l.kind == JSON || r.kind == JSON then Decided(l == r)
    else if RefusedScalarPair(l, r) then Decided(false)
    else if ClassesOf(l) == {} || ClassesOf(r) == {} then Decided(Known(l) && Known(r))
    else if ClassesOf(l) !! ClassesOf(r) then Decided(false)
    else if l.kind == Variant && r.kind == Variant then Decided(l == r)
    else if l.kind == Array && r.kind == Array then
      if |l.params| != 1 || |r.params| != 1 then Decided(true) else Elements
    else if l.kind == Tuple && r.kind == Tuple then
      if |l.params| != |r.params| then Decided(false) else Members
    else if l.kind == Map && r.kind == Map then
      if |l.params| != 2 || |r.params| != 2 then Decided(true) else Entries
    else Decided(true)
  }

  lemma StepShape(l: CHType, r: CHType)
    ensures StepOf(l, r) == Elements ==> |l.params| == 1 && |r.params| == 1
    ensures StepOf(l, r) == Members ==> |l.params| == |r.params|
    ensures StepOf(l, r) == Entries ==> |l.params| == 2 && |r.params| == 2
    ensures !StepOf(l, r).Decided? ==> l.kind == r.kind && IsContainer(l) && IsContainer(r)
  {
    hide RefusedPair, RefusedScalarPair, ClassesOf, Known;
  }

  predicate Supertype(common: (CHType, CHType) -> bool, l: CHType, r: CHType, i: nat)
    requires i < |l.params| && i < |r.params|
  {
    common(Member(l, i), Member(r, i))
  }

  predicate AtMember(common: (CHType, CHType) -> bool, l: CHType, r: CHType, i: nat)
    requires i < |l.params| && i < |r.params|
    decreases Weight(l) + Weight(r), 0
  {
    Comparable(common, Member(l, i), Member(r, i))
  }

  /** comparableBaseTypes: arrays and maps need a common supertype, tuples do not. */
  predicate Comparable(common: (CHType, CHType) -> bool, left: CHType, right: CHType)
    decreases Weight(left) + Weight(right), 1
  {
    if left.kind == Named("") || right.kind == Named("") then true
    else
      var l, r := Structural(left), Structural(right);
      StructuralIsNoHeavier(left);
      StructuralIsNoHeavier(right);
      StepShape(l, r);
      match StepOf(l, r)
      case Decided(answer) => answer
      case Elements => Supertype(common, l, r, 0) && AtMember(common, l, r, 0)
      case Members => forall i :: 0 <= i < |l.params| ==> AtMember(common, l, r, i)
      case Entries =>
        && Supertype(common, l, r, 0) && AtMember(common, l, r, 0)
        && Supertype(common, l, r, 1) && AtMember(common, l, r, 1)
  }

  datatype Verdict = Invalid | Unknown | Confirmed

  /** comparisonVerdict */
  function VerdictOf(common: (CHType, CHType) -> bool, l: CHType, r: CHType): Verdict {
    if l.kind == AggregateFunction || r.kind == AggregateFunction then Invalid
    else if !Known(l) || !Known(r) then Unknown
    else if Comparable(common, l, r) then Confirmed
    else Invalid
  }
}
