/**
 ClickHouse types as trees, and the two transport wrappers Nullable and LowCardinality.
 Names are the canonical ones.
 */
module ChTypes {
  import opened Wrappers

  /** Bytes of an integer. */
  type Size = n: nat | n == 1 || n == 2 || n == 4 || n == 8 || n == 16 || n == 32 witness 1

  datatype Kind =
    | UInt(size: Size) | Int(size: Size) | Bool | Float32 | Float64
    | Decimal
    | SizedDecimal(digits: nat)
    | Date | Date32 | DateTime | DateTime64 | Interval
    | String | FixedString | Enum(size: Size) | UUID | IPv4 | IPv6 | JSON
    | Nullable | LowCardinality | Array | Tuple | Map | Variant | Dynamic
    | AggregateFunction | SimpleAggregateFunction
    | Point | Ring | LineString | Polygon | MultiLineString | MultiPolygon
    | Named(name: string)

  datatype Literal = Number(value: int) | Text(text: string)

  datatype CHType = CHType(kind: Kind, params: seq<CHType>, literals: seq<Literal>)

  function Plain(kind: Kind): CHType {
    CHType(kind, [], [])
  }

  function Of(kind: Kind, inner: CHType): CHType {
    CHType(kind, [inner], [])
  }

  predicate IsOf(t: CHType, kind: Kind) {
    t.kind == kind && |t.params| == 1
  }

  datatype Split = Split(base: CHType, nullable: bool, lowCardinality: bool)

  /** splitCHWrappers: LowCardinality outside, Nullable inside. */
  function SplitWrappers(t: CHType): Split {
    var low := IsOf(t, LowCardinality);
    var inner := if low then t.params[0] else t;
    if IsOf(inner, Nullable) then Split(inner.params[0], true, low) else Split(inner, false, low)
  }

  predicate CanBeInsideNullable(t: CHType) {
    match t.kind
    case Array => false
    case Map => false
    case Tuple => false
    case AggregateFunction => false
    case Dynamic => false
    case Variant => false
    case other => !IsGeometry(other)
  }

  predicate IsGeometry(kind: Kind) {
    kind.Point? || kind.Ring? || kind.LineString? || kind.Polygon? || kind.MultiLineString? || kind.MultiPolygon?
  }

  function WrapNullable(t: CHType): CHType {
    if t.kind == Nullable || !CanBeInsideNullable(t) then t else Of(Nullable, t)
  }

  /** A family that the server refuses inside LowCardinality, seen through one Nullable. */
  predicate RejectsLowCardinality(t: CHType) {
    match (if IsOf(t, Nullable) then t.params[0] else t).kind
    case Decimal => true
    case DateTime64 => true
    case Enum(_) => true
    case Array => true
    case Tuple => true
    case Map => true
    case other => false
  }

  function WrapLowCardinality(t: CHType): CHType {
    if t.kind == LowCardinality || RejectsLowCardinality(t) then t else Of(LowCardinality, t)
  }

  function ApplyWrappers(t: CHType, nullable: bool, lowCardinality: bool): CHType {
    var inner := if nullable then WrapNullable(t) else t;
    if lowCardinality then WrapLowCardinality(inner) else inner
  }

  /** stripNestedLowCardinality */
  function Strip(t: CHType): (r: CHType)
    ensures t.kind != LowCardinality ==> r.kind == t.kind && |r.params| == |t.params| && r.literals == t.literals
    decreases t
  {
    if IsOf(t, LowCardinality) then Strip(t.params[0])
    else CHType(t.kind, StripAll(t.params), t.literals)
  }

  function StripAll(ts: seq<CHType>): (r: seq<CHType>)
    ensures |r| == |ts|
    ensures forall i :: 0 <= i < |ts| ==> r[i] == Strip(ts[i])
    decreases ts
  {
    if ts == [] then [] else [Strip(ts[0])] + StripAll(ts[1..])
  }

  /** No LowCardinality around one type is left anywhere. */
  predicate IsStripped(t: CHType)
    decreases t
  {
    !IsOf(t, LowCardinality) && forall i :: 0 <= i < |t.params| ==> IsStripped(t.params[i])
  }

  lemma {:induction false} StripStrips(t: CHType)
    ensures IsStripped(Strip(t))
    decreases t
  {
    if IsOf(t, LowCardinality) {
      StripStrips(t.params[0]);
    } else {
      forall i | 0 <= i < |t.params| ensures IsStripped(Strip(t.params[i])) {
        StripStrips(t.params[i]);
      }
    }
  }

  lemma {:induction false} StrippedIsFixed(t: CHType)
    requires IsStripped(t)
    ensures Strip(t) == t
    decreases t
  {
    forall i | 0 <= i < |t.params| ensures Strip(t.params[i]) == t.params[i] {
      StrippedIsFixed(t.params[i]);
    }
    assert StripAll(t.params) == t.params;
  }

  lemma StripTwice(t: CHType)
    ensures Strip(Strip(t)) == Strip(t)
  {
    StripStrips(t);
    StrippedIsFixed(Strip(t));
  }

  // ----- geometry aliases -----

  function PointType(): CHType {
    CHType(Tuple, [Plain(Float64), Plain(Float64)], [])
  }

  /** withoutGeometryAliases: the arrays and tuples that an alias names. */
  function Structural(t: CHType): (r: CHType)
    ensures !IsGeometry(t.kind) ==> r.kind == t.kind && |r.params| == |t.params| && r.literals == t.literals
    ensures !IsGeometry(r.kind)
    decreases t
  {
    match t.kind
    case Point => PointType()
    case Ring => Of(Array, PointType())
    case LineString => Of(Array, PointType())
    case Polygon => Of(Array, Of(Array, PointType()))
    case MultiLineString => Of(Array, Of(Array, PointType()))
    case MultiPolygon => Of(Array, Of(Array, Of(Array, PointType())))
    case _ => CHType(t.kind, StructuralAll(t.params), t.literals)
  }

  function StructuralAll(ts: seq<CHType>): (r: seq<CHType>)
    ensures |r| == |ts|
    ensures forall i :: 0 <= i < |ts| ==> r[i] == Structural(ts[i])
    decreases ts
  {
    if ts == [] then [] else [Structural(ts[0])] + StructuralAll(ts[1..])
  }

  predicate IsStructural(t: CHType)
    decreases t
  {
    !IsGeometry(t.kind) && forall i :: 0 <= i < |t.params| ==> IsStructural(t.params[i])
  }

  lemma {:induction false} StructuralIs(t: CHType)
    ensures IsStructural(Structural(t))
    decreases t
  {
    if IsGeometry(t.kind) {
      hide Structural;
      assert IsStructural(PointType());
      assert IsStructural(Of(Array, PointType()));
      assert IsStructural(Of(Array, Of(Array, PointType())));
      AliasIsStructural(t);
    } else {
      forall i | 0 <= i < |t.params| ensures IsStructural(Structural(t.params[i])) {
        StructuralIs(t.params[i]);
      }
    }
  }

  lemma AliasIsStructural(t: CHType)
    requires IsGeometry(t.kind)
    requires IsStructural(PointType()) && IsStructural(Of(Array, PointType()))
    requires IsStructural(Of(Array, Of(Array, PointType())))
    ensures IsStructural(Structural(t))
  {
    hide PointType;
  }

  lemma {:induction false} StructuralIsFixed(t: CHType)
    requires IsStructural(t)
    ensures Structural(t) == t
    decreases t
  {
    forall i | 0 <= i < |t.params| ensures Structural(t.params[i]) == t.params[i] {
      StructuralIsFixed(t.params[i]);
    }
    assert StructuralAll(t.params) == t.params;
  }

  /** An alias holds no LowCardinality, so the two rewritings commute. */
  lemma {:induction false} StripAndStructural(t: CHType)
    ensures Strip(Structural(t)) == Structural(Strip(t))
    decreases t
  {
    if IsGeometry(t.kind) {
      hide Strip;
      AliasIsStripped(t);
      StrippedIsFixed(Structural(t));
      StripKeepsAlias(t);
    } else {
      forall i | 0 <= i < |t.params| ensures Strip(Structural(t.params[i])) == Structural(Strip(t.params[i])) {
        StripAndStructural(t.params[i]);
      }
      StripStructuralAll(t.params);
    }
  }

  lemma StripStructuralAll(ts: seq<CHType>)
    requires forall i :: 0 <= i < |ts| ==> Strip(Structural(ts[i])) == Structural(Strip(ts[i]))
    ensures StripAll(StructuralAll(ts)) == StructuralAll(StripAll(ts))
  {
    hide Strip, Structural;
  }

  lemma ArrayIsStripped(x: CHType)
    requires IsStripped(x)
    ensures IsStripped(Of(Array, x))
  {
  }

  lemma AliasIsStripped(t: CHType)
    requires IsGeometry(t.kind)
    ensures IsStripped(Structural(t))
  {
    assert IsStripped(PointType());
    hide PointType, IsStripped;
    ArrayIsStripped(PointType());
    ArrayIsStripped(Of(Array, PointType()));
    ArrayIsStripped(Of(Array, Of(Array, PointType())));
  }

  lemma StripKeepsAlias(t: CHType)
    requires IsGeometry(t.kind)
    ensures Structural(Strip(t)) == Structural(t)
  {
  }

  // ----- SimpleAggregateFunction -----

  predicate IsMarker(t: CHType) {
    t.kind == SimpleAggregateFunction && |t.params| == 2
  }

  /** simpleAggregateMarkerSurvives */
  predicate MarkerSurvives(inner: CHType) {
    inner.kind !in {Nullable, LowCardinality, Array, Map, Tuple}
  }

  /** readSimpleAggregateValue */
  function ReadValue(t: CHType): CHType {
    if IsMarker(t) && !MarkerSurvives(t.params[1]) then t.params[1] else t
  }

  // ----- decimals -----

  predicate IsDecimal(t: CHType) {
    t.kind.Decimal? || t.kind.SizedDecimal?
  }

  /** canonicalDecimalType: Decimal32(S) and its kin spelled as Decimal(P, S). */
  function CanonicalDecimal(t: CHType): CHType {
    if t.kind.SizedDecimal? && |t.literals| == 1
    then CHType(Decimal, [], [Number(t.kind.digits), t.literals[0]]) else t
  }
}
