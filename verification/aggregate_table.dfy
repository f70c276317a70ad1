/**
 The measured tables of sum, groupBit* and quantile, by the argument type, and which types
 the wrappers may hold.
 */
module AggregateTable {
  import opened Wrappers
  import opened ChTypes
  import opened AggregateRules

  // ----- which types the wrappers hold -----

  lemma NullableHoldsIff(t: CHType)
    ensures CanBeInsideNullable(t) <==>
            t.kind !in {Array, Map, Tuple, AggregateFunction, Dynamic, Variant,
                        Point, Ring, LineString, Polygon, MultiLineString, MultiPolygon}
  {
  }

  /** Nullable goes around once, and LowCardinality around that, where the server has such a type. */
  lemma WrappersAre(t: CHType, nullable: bool, low: bool)
    requires t.kind !in {Nullable, LowCardinality}
    ensures var inner := if nullable && CanBeInsideNullable(t) then CHType(Nullable, [t], []) else t;
            ApplyWrappers(t, nullable, low) ==
            if low && t.kind !in {Decimal, DateTime64, Array, Tuple, Map} && !t.kind.Enum?
            then CHType(LowCardinality, [inner], []) else inner
  {
    hide CanBeInsideNullable;
  }

  /** What the aliases of geometry name. */
  lemma AliasesAre(t: CHType)
    ensures var point := CHType(Tuple, [Plain(Float64), Plain(Float64)], []);
            var line := CHType(Array, [point], []);
            var lines := CHType(Array, [line], []);
            && (t.kind == Point ==> Structural(t) == point)
            && (t.kind == Ring || t.kind == LineString ==> Structural(t) == line)
            && (t.kind == Polygon || t.kind == MultiLineString ==> Structural(t) == lines)
            && (t.kind == MultiPolygon ==> Structural(t) == CHType(Array, [lines], []))
  {
  }

  // ----- the tables -----

  /** The sum of a decimal keeps its scale, and has 38 digits, or 76 when it has more than 38 already. */
  function SumOfDecimal(t: CHType): Option<CHType> {
    var scale :=
      if t.kind.SizedDecimal? then if |t.literals| == 1 then Some(t.literals[0]) else None
      else if |t.literals| >= 2 then Some(t.literals[1]) else None;
    var large :=
      if t.kind.SizedDecimal? then t.kind.digits == 76
      else t.literals != [] && t.literals[0].Number? && t.literals[0].value >= 39;
    if scale.None? || scale == Some(Text("")) then None
    else Some(CHType(Decimal, [], [Number(if large then 76 else 38), scale.value]))
  }

  function SumTable(t: CHType): Option<CHType> {
    match t.kind
    case Bool => Some(CHType(UInt(8), [], []))
    case UInt(n) => Some(CHType(UInt(if n in {1, 2, 4} then 8 else n), [], []))
    case Int(n) => Some(CHType(Int(if n in {1, 2, 4} then 8 else n), [], []))
    case Enum(_) => Some(CHType(Int(8), [], []))
    case Float32 => Some(CHType(Float64, [], []))
    case Float64 => Some(CHType(Float64, [], []))
    case Decimal => SumOfDecimal(t)
    case SizedDecimal(_) => SumOfDecimal(t)
    case other => Some(t)
  }

  /** sum by its table, under one Nullable. */
  lemma SumIs(t: CHType)
    requires IsStructural(t)
    ensures t.kind != Nullable ==> Sum([t]) == SumTable(t)
    ensures t.kind != Nullable ==>
              Sum([CHType(Nullable, [t], [])]) ==
              if SumTable(t).None? then None else Some(CHType(Nullable, [SumTable(t).value], []))
    ensures Sum([]) == None
  {
    StructuralIsFixed(t);
    NullableIsFixed(t);
    SumOfIs(t);
    hide Structural, SumOf, SumTable;
  }

  lemma NullableIsFixed(t: CHType)
    requires IsStructural(t)
    ensures Structural(CHType(Nullable, [t], [])) == CHType(Nullable, [t], [])
  {
    assert IsStructural(CHType(Nullable, [t], []));
    StructuralIsFixed(CHType(Nullable, [t], []));
  }

  lemma SumOfIs(t: CHType)
    ensures SumOf(t) == SumTable(t)
  {
  }

  /** groupBitAnd, groupBitOr and groupBitXor keep whole numbers, take Bool as UInt8, refuse all else. */
  lemma GroupBitIs(t: CHType)
    requires IsStructural(t) && t.kind !in {Nullable, LowCardinality}
    ensures GroupBit([t]) ==
            if t.kind.UInt? || t.kind.Int? then Some(t)
            else if t.kind.Bool? then Some(CHType(UInt(1), [], []))
            else None
    ensures GroupBit([]) == None
  {
    StructuralIsFixed(t);
    hide Structural;
  }

  /** quantile and median: numbers become Float64, decimals their canonical spelling, dates stay. */
  lemma QuantileIs(t: CHType)
    requires IsStructural(t) && t.params == [] && t.kind != Nullable
    ensures Quantile([t]) ==
            match t.kind
            case UInt(_) => Some(CHType(Float64, [], []))
            case Int(_) => Some(CHType(Float64, [], []))
            case Bool => Some(CHType(Float64, [], []))
            case Float32 => Some(CHType(Float64, [], []))
            case Float64 => Some(CHType(Float64, [], []))
            case SizedDecimal(digits) =>
              Some(if |t.literals| == 1 then CHType(Decimal, [], [Number(digits), t.literals[0]]) else t)
            case other => Some(t)
    ensures Quantile([]) == None
  {
    StructuralIsFixed(t);
    hide Structural;
  }

  lemma QuantileUnderNullable(t: CHType)
    requires IsStructural(t) && Quantile([t]).Some?
    ensures Quantile([CHType(Nullable, [t], [])]) == Some(CHType(Nullable, [Quantile([t]).value], []))
  {
    StructuralIsFixed(t);
    NullableIsFixed(t);
    hide Structural;
  }
}
