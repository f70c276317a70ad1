/** The order of operands, the shape of results, and the range of integer arithmetic. */
module ArithmeticProofs {
  import opened Wrappers
  import opened ChTypes
  import opened Arithmetic

  predicate Commutative(op: Operator) {
    op == Add || op == Mul
  }

  // ----- both orders agree -----

  lemma DateCommutes(op: Operator, l: CHType, r: CHType)
    requires Commutative(op) && (IsDate(l) || IsDate(r))
    ensures DateRule(op, l, r) == DateRule(op, r, l)
  {
  }

  lemma DecimalCommutes(op: Operator, l: CHType, r: CHType)
    requires Commutative(op)
    ensures DecimalRule(op, l, r) == DecimalRule(op, r, l)
  {
    DecimalIsNoInteger(l);
    DecimalIsNoInteger(r);
    hide PrecisionOf, ClassOf, CanonicalDecimal, ClassDigits, IsFloat;
  }

  lemma DecimalIsNoInteger(t: CHType)
    ensures PrecisionOf(t).Some? ==> ClassOf(t).None? && !IsFloat(t)
  {
  }

  lemma FloatCommutes(op: Operator, l: CHType, r: CHType)
    ensures FloatRule(op, l, r) == FloatRule(op, r, l)
  {
    hide ClassOf, IsFloat, IsWide;
  }

  lemma IntegerCommutes(op: Operator, l: CHType, r: CHType)
    requires Commutative(op)
    ensures IntegerRule(op, l, r) == IntegerRule(op, r, l)
  {
    hide ClassOf, TypeOfClass, Promoted;
  }

  lemma ScalarCommutes(op: Operator, l: CHType, r: CHType)
    requires Commutative(op)
    ensures ScalarRule(op, l, r) == ScalarRule(op, r, l)
  {
    if IsDate(l) || IsDate(r) {
      DateCommutes(op, l, r);
    }
    DecimalCommutes(op, l, r);
    FloatCommutes(op, l, r);
    IntegerCommutes(op, l, r);
    hide DateRule, DecimalRule, FloatRule, IntegerRule, IsDate, IsDecimal, IsFloat;
  }

  function Swapped(pair: Option<(CHType, CHType)>): Option<(CHType, CHType)> {
    if pair.None? then None else Some((pair.value.1, pair.value.0))
  }

  lemma ElementsCommute(op: Operator, l: CHType, r: CHType)
    requires IsOf(l, Array) || IsOf(r, Array)
    ensures Elements(op, r, l) == Swapped(Elements(op, l, r))
  {
  }

  /** Main result: + and * do not depend on the order of their operands, whatever these are. */
  lemma {:induction false} ResultCommutes(op: Operator, left: CHType, right: CHType)
    requires Commutative(op)
    ensures ResultType(op, left, right) == ResultType(op, right, left)
    decreases Levels(left) + Levels(right)
  {
    hide *;
    var l, r := OperandOf(left), OperandOf(right);
    if IsOf(l.base, Array) || IsOf(r.base, Array) {
      ElementsCommute(op, l.base, r.base);
      ElementLevels(op, left, right);
      var pair := Elements(op, l.base, r.base);
      SwappedIs(pair);
      if pair.Some? {
        ResultCommutes(op, pair.value.0, pair.value.1);
      }
      ArrayResult(op, left, right);
      ArrayResult(op, right, left);
    } else {
      ScalarCommutes(op, l.base, r.base);
      ScalarResult(op, left, right);
      ScalarResult(op, right, left);
    }
  }

  lemma SwappedIs(pair: Option<(CHType, CHType)>)
    ensures Swapped(pair) == if pair.None? then None else Some((pair.value.1, pair.value.0))
  {
  }

  lemma ArrayResult(op: Operator, left: CHType, right: CHType)
    requires IsOf(OperandOf(left).base, Array) || IsOf(OperandOf(right).base, Array)
    ensures var (l, r) := (OperandOf(left), OperandOf(right));
            var pair := Elements(op, l.base, r.base);
            ResultType(op, left, right) ==
            if l.nullable || r.nullable || pair.None? || pair.value.0.kind == Nullable || pair.value.1.kind == Nullable then None
            else
              var element := ResultType(op, pair.value.0, pair.value.1);
              if element.None? then None else Some(Of(Array, element.value))
  {
    hide Elements, OperandOf, Levels, ScalarRule;
  }

  lemma ScalarResult(op: Operator, left: CHType, right: CHType)
    requires !IsOf(OperandOf(left).base, Array) && !IsOf(OperandOf(right).base, Array)
    ensures var (l, r) := (OperandOf(left), OperandOf(right));
            var result := ScalarRule(op, l.base, r.base);
            ResultType(op, left, right) ==
            if result.None? then None else Some(if l.nullable || r.nullable then WrapNullable(result.value) else result.value)
  {
    hide Elements, OperandOf, Levels, ScalarRule;
  }

  lemma ElementLevels(op: Operator, left: CHType, right: CHType)
    requires IsOf(OperandOf(left).base, Array) || IsOf(OperandOf(right).base, Array)
    ensures var pair := Elements(op, OperandOf(left).base, OperandOf(right).base);
            pair.Some? ==> Levels(pair.value.0) + Levels(pair.value.1) < Levels(left) + Levels(right)
  {
    OperandLevels(left);
    OperandLevels(right);
    hide OperandOf, Levels;
  }

  // ----- the shape of a result -----

  predicate IsScalarResult(t: CHType) {
    t.kind.Int? || t.kind.UInt? || t.kind.Float32? || t.kind.Float64? || t.kind.Bool? || IsDate(t) || IsDecimal(t)
  }

  /** Arrays around a scalar, or around a Nullable scalar; no Nullable holds an array. */
  predicate IsArithmeticResult(t: CHType)
    decreases t
  {
    if t.kind == Array then |t.params| == 1 && IsArithmeticResult(t.params[0])
    else if t.kind == Nullable then |t.params| == 1 && IsScalarResult(t.params[0])
    else IsScalarResult(t)
  }

  lemma ScalarGivesScalar(op: Operator, l: CHType, r: CHType)
    ensures var result := ScalarRule(op, l, r); result.Some? ==> IsScalarResult(result.value)
  {
    hide IntegerResult, ClassDigits, Promoted, Larger, SubSecondScale;
  }

  /** Main result: no result holds a Nullable around an array, whatever the operands are. */
  lemma {:induction false} ResultShape(op: Operator, left: CHType, right: CHType)
    requires ResultType(op, left, right).Some?
    ensures IsArithmeticResult(ResultType(op, left, right).value)
    decreases Levels(left) + Levels(right)
  {
    var l, r := OperandOf(left), OperandOf(right);
    if IsOf(l.base, Array) || IsOf(r.base, Array) {
      ElementLevels(op, left, right);
      var pair := Elements(op, l.base, r.base);
      hide Elements, Levels, OperandOf;
      ResultShape(op, pair.value.0, pair.value.1);
    } else {
      ScalarGivesScalar(op, l.base, r.base);
      hide ScalarRule, Levels;
    }
  }

  // ----- how deep a result is -----

  /** An operand one array level down: its element, or the scalar without its marker and Nullable. */
  function Step(t: CHType): CHType {
    var base := OperandOf(t).base;
    if IsOf(base, Array) then base.params[0] else base
  }

  predicate HasArray(l: CHType, r: CHType) {
    IsOf(OperandOf(l).base, Array) || IsOf(OperandOf(r).base, Array)
  }

  lemma StepLevels(l: CHType, r: CHType)
    ensures Levels(Step(l)) <= Levels(l) && Levels(Step(r)) <= Levels(r)
    ensures HasArray(l, r) ==> Levels(Step(l)) + Levels(Step(r)) < Levels(l) + Levels(r)
  {
    OperandLevels(l);
    OperandLevels(r);
  }

  /** The array levels of a pair of operands. */
  function Rounds(l: CHType, r: CHType): nat
    decreases Levels(l) + Levels(r)
  {
    StepLevels(l, r);
    if HasArray(l, r) then 1 + Rounds(Step(l), Step(r)) else 0
  }

  /** The operand that the scalar rule sees after n array levels. */
  function Down(t: CHType, n: nat): CHType {
    if n == 0 then t else Down(Step(t), n - 1)
  }

  function ArrayDepth(t: CHType): nat
    decreases t
  {
    if IsOf(t, Array) then 1 + ArrayDepth(t.params[0]) else 0
  }

  /** An accepted array operation steps down on both sides, and on no Nullable. */
  lemma AcceptedSteps(op: Operator, l: CHType, r: CHType)
    requires HasArray(l, r) && ResultType(op, l, r).Some?
    ensures ResultType(op, Step(l), Step(r)).Some?
    ensures ResultType(op, l, r) == Some(Of(Array, ResultType(op, Step(l), Step(r)).value))
    ensures Step(l).kind != Nullable && Step(r).kind != Nullable
    ensures !OperandOf(l).nullable && !OperandOf(r).nullable
    ensures op in {Add, Sub} <==> IsOf(OperandOf(l).base, Array) && IsOf(OperandOf(r).base, Array)
  {
    hide Levels, OperandOf, ScalarRule;
  }

  lemma ScalarSteps(op: Operator, l: CHType, r: CHType)
    requires !HasArray(l, r) && ResultType(op, l, r).Some?
    ensures var t := ResultType(op, l, r).value;
            && !t.kind.Array?
            && (t.kind.Nullable? <==> OperandOf(l).nullable || OperandOf(r).nullable)
  {
    ScalarGivesScalar(op, OperandOf(l).base, OperandOf(r).base);
    hide Levels, OperandOf, ScalarRule;
  }

  /** An array that holds a Nullable, at any depth. */
  predicate HoldsNullable(t: CHType)
    decreases t
  {
    IsOf(t, Array) && (t.params[0].kind == Nullable || HoldsNullable(t.params[0]))
  }

  /** A marker around a Nullable: the guard against Nullable elements does not look into it. */
  predicate HidesNullable(t: CHType) {
    IsMarker(t) && IsOf(t.params[1], Nullable)
  }

  predicate BothArrays(l: CHType, r: CHType) {
    IsOf(OperandOf(l).base, Array) && IsOf(OperandOf(r).base, Array)
  }

  /**
   A result has as many array levels as its operands.  At each of them both operands of + and -
   are arrays, and exactly one operand of the other operators.
   */
  lemma {:induction false} ResultRounds(op: Operator, l: CHType, r: CHType)
    requires ResultType(op, l, r).Some?
    ensures ArrayDepth(ResultType(op, l, r).value) == Rounds(l, r)
    ensures forall n :: 0 <= n < Rounds(l, r) ==> HasArray(Down(l, n), Down(r, n))
    ensures forall n :: 0 <= n < Rounds(l, r) ==> (BothArrays(Down(l, n), Down(r, n)) <==> op in {Add, Sub})
    decreases Levels(l) + Levels(r)
  {
    hide *;
    StepLevels(l, r);
    RoundsUnfold(l, r);
    if HasArray(l, r) {
      AcceptedSteps(op, l, r);
      BothIs(l, r);
      ResultRounds(op, Step(l), Step(r));
      DepthUnfold(ResultType(op, Step(l), Step(r)).value);
      forall n | 0 <= n < Rounds(l, r)
        ensures HasArray(Down(l, n), Down(r, n)) && (BothArrays(Down(l, n), Down(r, n)) <==> op in {Add, Sub})
      {
        DownUnfold(l, n);
        DownUnfold(r, n);
      }
    } else {
      ScalarSteps(op, l, r);
      ScalarIsFlat(ResultType(op, l, r).value);
    }
  }

  lemma BothIs(l: CHType, r: CHType)
    ensures BothArrays(l, r) <==> IsOf(OperandOf(l).base, Array) && IsOf(OperandOf(r).base, Array)
  {
  }

  lemma DepthUnfold(e: CHType)
    ensures ArrayDepth(Of(Array, e)) == 1 + ArrayDepth(e)
  {
  }

  lemma ScalarIsFlat(t: CHType)
    requires !t.kind.Array?
    ensures ArrayDepth(t) == 0
  {
  }

  /**
   Main result: an array result holds a Nullable exactly when, at the innermost level, an
   operand is a marker around a Nullable.
   */
  lemma {:induction false} NullableInArrayIff(op: Operator, l: CHType, r: CHType)
    requires ResultType(op, l, r).Some?
    ensures var n := Rounds(l, r);
            HoldsNullable(ResultType(op, l, r).value) <==>
              n > 0 && (HidesNullable(Down(l, n)) || HidesNullable(Down(r, n)))
    decreases Levels(l) + Levels(r)
  {
    hide *;
    StepLevels(l, r);
    RoundsUnfold(l, r);
    if HasArray(l, r) {
      AcceptedSteps(op, l, r);
      var n, e := Rounds(l, r), ResultType(op, Step(l), Step(r)).value;
      ElementHides(op, Step(l), Step(r));
      NullableInArrayIff(op, Step(l), Step(r));
      HoldsUnfold(e);
      DownUnfold(l, n);
      DownUnfold(r, n);
      DownUnfold(Step(l), n - 1);
      DownUnfold(Step(r), n - 1);
    } else {
      ScalarSteps(op, l, r);
      ScalarHoldsNone(ResultType(op, l, r).value);
    }
  }

  lemma RoundsUnfold(l: CHType, r: CHType)
    ensures Rounds(l, r) == if HasArray(l, r) then 1 + Rounds(Step(l), Step(r)) else 0
  {
    hide Levels, Step, HasArray;
  }

  lemma DownUnfold(t: CHType, n: nat)
    ensures Down(t, n) == if n == 0 then t else Down(Step(t), n - 1)
  {
  }

  lemma HoldsUnfold(e: CHType)
    ensures HoldsNullable(Of(Array, e)) <==> e.kind == Nullable || HoldsNullable(e)
  {
  }

  lemma ScalarHoldsNone(t: CHType)
    requires !t.kind.Array?
    ensures !HoldsNullable(t)
  {
  }

  lemma ElementHides(op: Operator, l: CHType, r: CHType)
    requires ResultType(op, l, r).Some? && l.kind != Nullable && r.kind != Nullable
    ensures ResultType(op, l, r).value.kind == Nullable <==>
            Rounds(l, r) == 0 && (HidesNullable(l) || HidesNullable(r))
  {
    hide ResultType, Levels, Step, HasArray;
    if HasArray(l, r) {
      AcceptedSteps(op, l, r);
    } else {
      ScalarSteps(op, l, r);
    }
  }

  /** The refusal of an array of Nullable elements, and what a marker around the element does to it. */
  lemma MarkerHidesNullable(op: Operator, f: CHType, x: CHType, y: CHType)
    requires op !in {Add, Sub} && !IsOf(x, Array) && !IsMarker(y) && y.kind !in {Nullable, Array}
    ensures ResultType(op, Of(Array, Of(Nullable, x)), y).None?
    ensures var marked := CHType(SimpleAggregateFunction, [f, Of(Nullable, x)], []);
            var result := ScalarRule(op, x, y);
            ResultType(op, Of(Array, marked), y) ==
              if result.None? then None else Some(Of(Array, WrapNullable(result.value)))
  {
    hide ScalarRule, WrapNullable, Levels;
    var marked := CHType(SimpleAggregateFunction, [f, Of(Nullable, x)], []);
    assert OperandOf(marked) == Operand(x, true);
    assert OperandOf(y) == Operand(y, false);
  }

  // ----- dates and decimals -----

  /** An offset moves a date in both directions and keeps its type; only plus takes it first. */
  lemma OffsetsMoveDates(d: CHType, offset: CHType)
    requires IsDate(d) && IsOffset(offset)
    ensures ScalarRule(Add, d, offset) == ScalarRule(Add, offset, d) == ScalarRule(Sub, d, offset) == Some(d)
    ensures ScalarRule(Sub, offset, d).None?
    ensures ScalarRule(Mul, d, offset).None? && ScalarRule(Div, d, offset).None?
  {
  }

  /** A difference of dates has the same type in both orders, and loses no sub-second digit. */
  lemma DateDifference(l: CHType, r: CHType)
    requires IsDate(l) && IsDate(r)
    ensures ScalarRule(Sub, l, r) == ScalarRule(Sub, r, l) && ScalarRule(Add, l, r).None?
    ensures var d := ScalarRule(Sub, l, r);
            && (d.Some? <==>
                  || (l.kind == r.kind && !l.kind.Date32?)
                  || (SubSecondScale(l).Some? && SubSecondScale(r).Some? && (l.kind.DateTime64? || r.kind.DateTime64?)))
            && (d.Some? && (l.kind.DateTime64? || r.kind.DateTime64?) ==>
                  PrecisionOf(d.value).Some? && PrecisionOf(d.value).value.digits == 18
                  && PrecisionOf(d.value).value.scale >= SubSecondScale(l).value
                  && PrecisionOf(d.value).value.scale >= SubSecondScale(r).value)
  {
  }

  /** A sum or difference of decimals has room for the digits and the scale of both. */
  lemma DecimalsHaveRoom(op: Operator, l: CHType, r: CHType)
    requires op in {Add, Sub} && PrecisionOf(l).Some? && PrecisionOf(r).Some?
    requires PrecisionOf(l).value.digits <= 76 && PrecisionOf(r).value.digits <= 76
    ensures var (p, q, sum) := (PrecisionOf(l).value, PrecisionOf(r).value, ScalarRule(op, l, r));
            && sum.Some? && PrecisionOf(sum.value).Some?
            && var s := PrecisionOf(sum.value).value;
               p.digits <= s.digits && q.digits <= s.digits && p.scale <= s.scale && q.scale <= s.scale
               && (s.scale == p.scale || s.scale == q.scale)
  {
  }

  /** A decimal with an integer keeps its precision and scale, whatever its spelling. */
  lemma DecimalKeepsType(op: Operator, l: CHType, r: CHType)
    requires PrecisionOf(l).Some? && ClassOf(r).Some?
    ensures ScalarRule(op, l, r).Some? && PrecisionOf(ScalarRule(op, l, r).value) == PrecisionOf(l)
    ensures ScalarRule(op, r, l) == ScalarRule(op, l, r)
  {
  }
}
