/** Result types of the binary operators +, -, *, / and %. */
module Arithmetic {
  import opened Wrappers
  import opened ChTypes

  datatype Operator = Add | Sub | Mul | Div | Mod

  /** An integer operand: its sign and its width in bytes. */
  datatype IntegerClass = IntegerClass(signed: bool, size: Size)

  function ClassOf(t: CHType): Option<IntegerClass> {
    if t.params != [] || t.literals != [] then None
    else match t.kind
      case Bool => Some(IntegerClass(false, 1))
      case UInt(size) => Some(IntegerClass(false, size))
      case Int(size) => Some(IntegerClass(true, size))
      case _ => None
  }

  function TypeOfClass(c: IntegerClass): CHType {
    Plain(if c.signed then Int(c.size) else UInt(c.size))
  }

  predicate IsWide(t: CHType) {
    (t.kind.Int? || t.kind.UInt?) && t.kind.size >= 16
  }

  predicate IsFloat(t: CHType) {
    t.kind.Float32? || t.kind.Float64?
  }

  predicate IsDate(t: CHType) {
    t.kind.Date? || t.kind.Date32? || t.kind.DateTime? || t.kind.DateTime64?
  }

  /** Double the size below 64 bits. */
  function Promoted(size: Size): Size {
    if size >= 8 then size else size * 2
  }

  function Larger(a: int, b: int): int {
    if a > b then a else b
  }

  function LargerSize(a: Size, b: Size): Size {
    if a > b then a else b
  }

  // ----- integers -----

  function IntegerResult(op: Operator, l: IntegerClass, r: IntegerClass): IntegerClass
    requires op != Div
  {
    match op
    case Mod => if l.signed then IntegerClass(true, Promoted(r.size)) else IntegerClass(false, r.size)
    case Sub => IntegerClass(true, Promoted(LargerSize(l.size, r.size)))
    case _ => IntegerClass(l.signed || r.signed, Promoted(LargerSize(l.size, r.size)))
  }

  function IntegerRule(op: Operator, l: CHType, r: CHType): Option<CHType> {
    var left, right := ClassOf(l), ClassOf(r);
    if left.None? || right.None? then None
    else if op == Div then Some(Plain(Float64))
    else Some(TypeOfClass(IntegerResult(op, left.value, right.value)))
  }

  // ----- floats -----

  function FloatRule(op: Operator, l: CHType, r: CHType): Option<CHType> {
    if !((IsFloat(l) || ClassOf(l).Some?) && (IsFloat(r) || ClassOf(r).Some?)) then None
    else if op in {Add, Sub, Mul} && (IsWide(l) || IsWide(r)) then None
    else Some(Plain(Float64))
  }

  // ----- decimals -----

  datatype Precision = Precision(digits: int, scale: int)

  function PrecisionOf(t: CHType): Option<Precision> {
    var d := CanonicalDecimal(t);
    if d.kind != Decimal || |d.literals| != 2 || !d.literals[0].Number? || !d.literals[1].Number? then None
    else Some(Precision(d.literals[0].value, d.literals[1].value))
  }

  /** The full precision of a storage class. */
  function ClassDigits(digits: int): int {
    if digits <= 9 then 9 else if digits <= 18 then 18 else if digits <= 38 then 38 else 76
  }

  function DecimalRule(op: Operator, l: CHType, r: CHType): Option<CHType> {
    var left, right := PrecisionOf(l), PrecisionOf(r);
    if left.Some? && right.Some? then
      var scale := match op
        case Add => Larger(left.value.scale, right.value.scale)
        case Sub => Larger(left.value.scale, right.value.scale)
        case Mul => left.value.scale + right.value.scale
        case Div => left.value.scale
        case Mod => left.value.scale;
      Some(CHType(Decimal, [], [Number(ClassDigits(Larger(left.value.digits, right.value.digits))), Number(scale)]))
    else if left.Some? && ClassOf(r).Some? then Some(CanonicalDecimal(l))
    else if right.Some? && ClassOf(l).Some? then Some(CanonicalDecimal(r))
    else if (left.Some? && IsFloat(r)) || (right.Some? && IsFloat(l)) then Some(Plain(Float64))
    else None
  }

  // ----- dates -----

  function SubSecondScale(t: CHType): Option<int> {
    match t.kind
    case DateTime => Some(0)
    case DateTime64 => Some(if t.literals != [] && t.literals[0].Number? then t.literals[0].value else 3)
    case _ => None
  }

  /** dateTime64DifferenceType */
  function DateTime64Difference(l: CHType, r: CHType): Option<CHType> {
    var left, right := SubSecondScale(l), SubSecondScale(r);
    if left.None? || right.None? || !(l.kind.DateTime64? || r.kind.DateTime64?) then None
    else Some(CHType(Decimal, [], [Number(18), Number(Larger(left.value, right.value))]))
  }

  /** What may move a date: a narrow integer or a float. */
  predicate IsOffset(t: CHType) {
    if ClassOf(t).Some? then !IsWide(t) else IsFloat(t)
  }

  function DateRule(op: Operator, l: CHType, r: CHType): Option<CHType> {
    match op
    case Mod =>
      if IsDate(l) && !IsDate(r) && (l.kind.Date? || l.kind.DateTime?) then
        if ClassOf(r).Some? && !IsWide(r) then Some(r)
        else if IsFloat(r) then Some(Plain(Float64)) else None
      else None
    case Add =>
      if IsDate(l) && IsDate(r) then None
      else if IsDate(l) && IsOffset(r) then Some(l)
      else if IsDate(r) && IsOffset(l) then Some(r)
      else None
    case Sub =>
      if IsDate(l) && IsDate(r) then
        if DateTime64Difference(l, r).Some? then DateTime64Difference(l, r)
        else if l.kind == r.kind && !l.kind.Date32? then Some(Plain(Int(4)))
        else None
      else if IsDate(l) && IsOffset(r) then Some(l)
      else None
    case _ => None
  }

  // ----- all operands -----

  function ScalarRule(op: Operator, l: CHType, r: CHType): Option<CHType> {
    if IsDate(l) || IsDate(r) then DateRule(op, l, r)
    else if IsDecimal(l) || IsDecimal(r) then DecimalRule(op, l, r)
    else if IsFloat(l) || IsFloat(r) then FloatRule(op, l, r)
    else IntegerRule(op, l, r)
  }

  /** An operand: simpleAggregateInnerType, then one Nullable. */
  datatype Operand = Operand(base: CHType, nullable: bool)

  function OperandOf(t: CHType): Operand {
    var inner := if IsMarker(t) then t.params[1] else t;
    if IsOf(inner, Nullable) then Operand(inner.params[0], true) else Operand(inner, false)
  }

  function Levels(t: CHType): nat
    decreases t
  {
    if IsMarker(t) then 1 + Levels(t.params[1])
    else if IsOf(t, Nullable) || IsOf(t, Array) then 1 + Levels(t.params[0])
    else 0
  }

  lemma OperandLevels(t: CHType)
    ensures Levels(OperandOf(t).base) <= Levels(t)
    ensures IsOf(OperandOf(t).base, Array) ==> Levels(OperandOf(t).base.params[0]) < Levels(t)
  {
    var inner := if IsMarker(t) then t.params[1] else t;
    assert Levels(inner) <= Levels(t);
  }

  /** The operands one array level down; None when the operator has no rule for these arrays. */
  function Elements(op: Operator, l: CHType, r: CHType): (pair: Option<(CHType, CHType)>)
    requires IsOf(l, Array) || IsOf(r, Array)
  {
    if IsOf(l, Array) && IsOf(r, Array) then
      if op in {Add, Sub} then Some((l.params[0], r.params[0])) else None
    else if op in {Add, Sub} then None
    else if IsOf(l, Array) then Some((l.params[0], r))
    else Some((l, r.params[0]))
  }

  /** inferArithmeticResultType */
  function ResultType(op: Operator, left: CHType, right: CHType): Option<CHType>
    decreases Levels(left) + Levels(right)
  {
    var l, r := OperandOf(left), OperandOf(right);
    OperandLevels(left);
    OperandLevels(right);
    var nullable := l.nullable || r.nullable;
    if IsOf(l.base, Array) || IsOf(r.base, Array) then
      var pair := Elements(op, l.base, r.base);
      if nullable || pair.None? || pair.value.0.kind == Nullable || pair.value.1.kind == Nullable then None
      else
        var element := ResultType(op, pair.value.0, pair.value.1);
        if element.None? then None else Some(Of(Array, element.value))
    else
      var result := ScalarRule(op, l.base, r.base);
      if result.None? then None else Some(if nullable then WrapNullable(result.value) else result.value)
  }
}
