/**
 The measured tables of the binary operators, by families of types: whole numbers by their
 bits, floats, decimals, dates and times.  The rules of the code give exactly these results.
 */
module ArithmeticTable {
  import opened Wrappers
  import opened ChTypes
  import opened Arithmetic

  datatype Family =
    | Whole(signed: bool, bits: nat)
    | Real
    | Fixed(digits: int, scale: int)
    | Day | Day32 | Second
    | Fraction(scale: int)
    | Other

  function FamilyOf(t: CHType): Family {
    match t.kind
    case Bool => if Bare(t) then Whole(false, 8) else Other
    case UInt(n) => if Bare(t) then Whole(false, Bits(n)) else Other
    case Int(n) => if Bare(t) then Whole(true, Bits(n)) else Other
    case Float32 => Real
    case Float64 => Real
    case Decimal => if |t.literals| == 2 then FixedOf(t.literals[0], t.literals[1]) else Other
    case SizedDecimal(digits) => if |t.literals| == 1 then FixedOf(Number(digits), t.literals[0]) else Other
    case Date => Day
    case Date32 => Day32
    case DateTime => Second
    case DateTime64 => if t.literals != [] && t.literals[0].Number? then Fraction(t.literals[0].value) else Fraction(3)
    case other => Other
  }

  predicate Bare(t: CHType) {
    t.params == [] && t.literals == []
  }

  function Bits(n: Size): nat {
    if n == 1 then 8 else if n == 2 then 16 else if n == 4 then 32
    else if n == 8 then 64 else if n == 16 then 128 else 256
  }

  function FixedOf(digits: Literal, scale: Literal): Family {
    if digits.Number? && scale.Number? then Fixed(digits.value, scale.value) else Other
  }

  // ----- results -----

  function WholeType(signed: bool, bits: nat): Option<CHType> {
    match bits
    case 8 => Some(Plain(if signed then Int(1) else UInt(1)))
    case 16 => Some(Plain(if signed then Int(2) else UInt(2)))
    case 32 => Some(Plain(if signed then Int(4) else UInt(4)))
    case 64 => Some(Plain(if signed then Int(8) else UInt(8)))
    case 128 => Some(Plain(if signed then Int(16) else UInt(16)))
    case 256 => Some(Plain(if signed then Int(32) else UInt(32)))
    case _ => None
  }

  /** The next bigger size below 64 bits. */
  function Next(bits: nat): nat {
    if bits in {8, 16, 32} then bits + bits else bits
  }

  function Most(a: int, b: int): int {
    if b < a then a else b
  }

  function WholeTable(op: Operator, a: Family, b: Family): Option<CHType>
    requires a.Whole? && b.Whole?
  {
    match op
    case Add => WholeType(a.signed || b.signed, Next(Most(a.bits, b.bits)))
    case Mul => WholeType(a.signed || b.signed, Next(Most(a.bits, b.bits)))
    case Sub => WholeType(true, Next(Most(a.bits, b.bits)))
    case Div => Some(Plain(Float64))
    case Mod => if a.signed then WholeType(true, Next(b.bits)) else WholeType(false, b.bits)
  }

  /** A 128 or 256 bit number meets a float under / and % only. */
  function RealTable(op: Operator, a: Family, b: Family): Option<CHType> {
    var wide := (a.Whole? && a.bits >= 128) || (b.Whole? && b.bits >= 128);
    if wide && op != Div && op != Mod then None else Some(Plain(Float64))
  }

  /** Decimal32 holds 9 digits, Decimal64 18, Decimal128 38 and Decimal256 76. */
  function Storage(digits: int): int {
    if digits < 10 then 9 else if digits < 19 then 18 else if digits < 39 then 38 else 76
  }

  function FixedTable(op: Operator, a: Family, b: Family): Option<CHType>
    requires a.Fixed? && b.Fixed?
  {
    var scale := match op
      case Add => Most(a.scale, b.scale)
      case Sub => Most(a.scale, b.scale)
      case Mul => a.scale + b.scale
      case Div => a.scale
      case Mod => a.scale;
    Some(CHType(Decimal, [], [Number(Storage(Most(a.digits, b.digits))), Number(scale)]))
  }

  /** A sized decimal in its canonical spelling. */
  function Spelled(t: CHType): CHType {
    if t.kind.SizedDecimal? && |t.literals| == 1
    then CHType(Decimal, [], [Number(t.kind.digits), t.literals[0]]) else t
  }

  predicate IsTime(f: Family) {
    f.Day? || f.Day32? || f.Second? || f.Fraction?
  }

  predicate Moves(f: Family) {
    f.Real? || (f.Whole? && f.bits <= 64)
  }

  function TimeTable(op: Operator, l: CHType, r: CHType): Option<CHType> {
    var (a, b) := (FamilyOf(l), FamilyOf(r));
    match op
    case Add =>
      if IsTime(a) && Moves(b) then Some(l) else if Moves(a) && IsTime(b) then Some(r) else None
    case Sub =>
      if IsTime(a) && Moves(b) then Some(l)
      else if (a.Day? && b.Day?) || (a.Second? && b.Second?) then Some(Plain(Int(4)))
      else if a.Fraction? && b.Fraction? then Some(CHType(Decimal, [], [Number(18), Number(Most(a.scale, b.scale))]))
      else if a.Fraction? && b.Second? then Some(CHType(Decimal, [], [Number(18), Number(Most(a.scale, 0))]))
      else if a.Second? && b.Fraction? then Some(CHType(Decimal, [], [Number(18), Number(Most(0, b.scale))]))
      else None
    case Mod =>
      if (a.Day? || a.Second?) && Moves(b) then Some(if b.Real? then Plain(Float64) else r) else None
    case _ => None
  }

  function Table(op: Operator, l: CHType, r: CHType): Option<CHType> {
    var (a, b) := (FamilyOf(l), FamilyOf(r));
    if IsTime(a) || IsTime(b) then TimeTable(op, l, r)
    else if a.Other? || b.Other? then None
    else if a.Fixed? && b.Fixed? then FixedTable(op, a, b)
    else if a.Fixed? then if b.Whole? then Some(Spelled(l)) else Some(Plain(Float64))
    else if b.Fixed? then if a.Whole? then Some(Spelled(r)) else Some(Plain(Float64))
    else if a.Real? || b.Real? then RealTable(op, a, b)
    else WholeTable(op, a, b)
  }

  // ----- the rules are these tables -----

  lemma ClassIs(t: CHType)
    ensures ClassOf(t).Some? <==> FamilyOf(t).Whole?
    ensures ClassOf(t).Some? ==>
              ClassOf(t).value.signed == FamilyOf(t).signed && Bits(ClassOf(t).value.size) == FamilyOf(t).bits
    ensures ClassOf(t).Some? ==> (IsWide(t) <==> FamilyOf(t).bits >= 128)
    ensures FamilyOf(t).Whole? ==> FamilyOf(t).bits in {8, 16, 32, 64, 128, 256}
  {
  }

  lemma PrecisionIs(t: CHType)
    ensures PrecisionOf(t).Some? <==> FamilyOf(t).Fixed?
    ensures PrecisionOf(t).Some? ==>
              PrecisionOf(t).value.digits == FamilyOf(t).digits && PrecisionOf(t).value.scale == FamilyOf(t).scale
    ensures CanonicalDecimal(t) == Spelled(t)
  {
  }

  lemma KindsAre(t: CHType)
    ensures IsFloat(t) <==> FamilyOf(t).Real?
    ensures IsDate(t) <==> IsTime(FamilyOf(t))
    ensures IsDecimal(t) ==> FamilyOf(t).Fixed? || FamilyOf(t).Other?
    ensures FamilyOf(t).Fixed? ==> IsDecimal(t)
    ensures t.kind.Date? <==> FamilyOf(t).Day?
    ensures t.kind.Date32? <==> FamilyOf(t).Day32?
    ensures t.kind.DateTime? <==> FamilyOf(t).Second?
    ensures t.kind.DateTime64? <==> FamilyOf(t).Fraction?
    ensures FamilyOf(t).Second? ==> SubSecondScale(t) == Some(0)
    ensures FamilyOf(t).Fraction? ==> SubSecondScale(t) == Some(FamilyOf(t).scale)
    ensures !FamilyOf(t).Second? && !FamilyOf(t).Fraction? ==> SubSecondScale(t) == None
  {
  }

  lemma TypeOfClassIs(c: IntegerClass)
    ensures WholeType(c.signed, Bits(c.size)) == Some(TypeOfClass(c))
  {
  }

  lemma SizesAre(a: Size, b: Size)
    ensures Bits(LargerSize(a, b)) == Most(Bits(a), Bits(b)) && Bits(Promoted(a)) == Next(Bits(a))
  {
  }

  lemma WholeRule(op: Operator, l: CHType, r: CHType)
    requires FamilyOf(l).Whole? && FamilyOf(r).Whole?
    ensures IntegerRule(op, l, r) == WholeTable(op, FamilyOf(l), FamilyOf(r))
  {
    ClassIs(l);
    ClassIs(r);
    hide ClassOf, FamilyOf, Bits, WholeType, Promoted, LargerSize, TypeOfClass, Next, Most;
    var a, b := ClassOf(l).value, ClassOf(r).value;
    SizesAre(a.size, b.size);
    SizesAre(b.size, b.size);
    SizesAre(LargerSize(a.size, b.size), b.size);
    if op != Div {
      TypeOfClassIs(IntegerResult(op, a, b));
    }
  }

  lemma TimeRule(op: Operator, l: CHType, r: CHType)
    requires IsTime(FamilyOf(l)) || IsTime(FamilyOf(r))
    ensures DateRule(op, l, r) == TimeTable(op, l, r)
  {
    ClassIs(l);
    ClassIs(r);
    KindsAre(l);
    KindsAre(r);
    hide ClassOf, FamilyOf, IsWide, IsFloat, IsDate, SubSecondScale;
  }

  lemma FixedRule(op: Operator, l: CHType, r: CHType)
    requires IsDecimal(l) || IsDecimal(r)
    requires !IsTime(FamilyOf(l)) && !IsTime(FamilyOf(r))
    ensures DecimalRule(op, l, r) == Table(op, l, r)
  {
    ClassIs(l);
    ClassIs(r);
    KindsAre(l);
    KindsAre(r);
    PrecisionIs(l);
    PrecisionIs(r);
    hide ClassOf, FamilyOf, IsFloat, IsDate, IsDecimal, PrecisionOf, CanonicalDecimal, Spelled, TimeTable, WholeTable, RealTable;
  }

  /** Main result: for all operand types that are no arrays. */
  lemma ScalarRuleIsTable(op: Operator, l: CHType, r: CHType)
    ensures ScalarRule(op, l, r) == Table(op, l, r)
  {
    ClassIs(l);
    ClassIs(r);
    KindsAre(l);
    KindsAre(r);
    hide ClassOf, FamilyOf, IsFloat, IsDate, IsDecimal, DecimalRule, DateRule, IntegerRule, TimeTable, FixedTable, WholeTable, Spelled, IsWide;
    RealIsNarrow(l);
    RealIsNarrow(r);
    if IsTime(FamilyOf(l)) || IsTime(FamilyOf(r)) {
      TimeRule(op, l, r);
    } else if IsDecimal(l) || IsDecimal(r) {
      FixedRule(op, l, r);
    } else if !IsFloat(l) && !IsFloat(r) {
      NoClass(op, l, r);
      if FamilyOf(l).Whole? && FamilyOf(r).Whole? {
        WholeRule(op, l, r);
      }
    }
  }

  lemma RealIsNarrow(t: CHType)
    ensures FamilyOf(t).Real? ==> !IsWide(t)
  {
  }

  lemma NoClass(op: Operator, l: CHType, r: CHType)
    ensures ClassOf(l).None? || ClassOf(r).None? ==> IntegerRule(op, l, r) == None
  {
    hide ClassOf;
  }

  // ----- arrays and wrappers -----

  /** One marker, and then one Nullable, is taken off an operand. */
  function Plainly(t: CHType): CHType {
    var inner := if t.kind == SimpleAggregateFunction && |t.params| == 2 then t.params[1] else t;
    if MayBeNull(t) then inner.params[0] else inner
  }

  predicate MayBeNull(t: CHType) {
    var inner := if t.kind == SimpleAggregateFunction && |t.params| == 2 then t.params[1] else t;
    inner.kind == Nullable && |inner.params| == 1
  }

  predicate IsArray(t: CHType) {
    t.kind == Array && |t.params| == 1
  }

  /** + and - take two arrays, the other operators one; no operand and no element may be Nullable. */
  predicate ArraysFit(op: Operator, l: CHType, r: CHType) {
    var (a, b) := (Plainly(l), Plainly(r));
    && !MayBeNull(l) && !MayBeNull(r)
    && (if op == Add || op == Sub then IsArray(a) && IsArray(b) else IsArray(a) != IsArray(b))
    && (IsArray(a) ==> a.params[0].kind != Nullable) && (IsArray(b) ==> b.params[0].kind != Nullable)
    && a.kind != Nullable && b.kind != Nullable
  }

  function ElementIn(t: CHType): CHType {
    if IsArray(t) then t.params[0] else t
  }

  function ArrayOf(fits: bool, element: Option<CHType>): Option<CHType> {
    if !fits || element.None? then None else Some(CHType(Array, [element.value], []))
  }

  function NullableOf(nullable: bool, t: Option<CHType>): Option<CHType> {
    if t.Some? && nullable then Some(WrapNullable(t.value)) else t
  }

  /** Main result: the result of any operands from that of scalars or of elements. */
  lemma ResultIsTable(op: Operator, l: CHType, r: CHType)
    ensures var (a, b) := (Plainly(l), Plainly(r));
            ResultType(op, l, r) ==
            if IsArray(a) || IsArray(b) then
              ArrayOf(ArraysFit(op, l, r), ResultType(op, ElementIn(a), ElementIn(b)))
            else NullableOf(MayBeNull(l) || MayBeNull(r), Table(op, a, b))
  {
    var a, b := Plainly(l), Plainly(r);
    ScalarRuleIsTable(op, a, b);
    Unfold(op, l, r);
    hide ScalarRule, Table, NullableOf, Plainly, MayBeNull;
    if IsArray(a) || IsArray(b) {
      var pair := Elements(op, a, b);
      assert pair.Some? ==> pair.value == (ElementIn(a), ElementIn(b));
    }
  }

  /** One step of the code, over the operands without marker and Nullable. */
  lemma Unfold(op: Operator, l: CHType, r: CHType)
    ensures var (a, b, nullable) := (Plainly(l), Plainly(r), MayBeNull(l) || MayBeNull(r));
            ResultType(op, l, r) ==
            if IsOf(a, Array) || IsOf(b, Array) then
              var pair := Elements(op, a, b);
              if nullable || pair.None? || pair.value.0.kind == Nullable || pair.value.1.kind == Nullable then None
              else ArrayOf(true, ResultType(op, pair.value.0, pair.value.1))
            else NullableOf(nullable, ScalarRule(op, a, b))
  {
    hide ScalarRule, Elements;
    assert OperandOf(l) == Operand(Plainly(l), MayBeNull(l)) && OperandOf(r) == Operand(Plainly(r), MayBeNull(r));
  }
}
