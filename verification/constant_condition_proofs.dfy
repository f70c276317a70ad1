/**
 The folder against a three-valued evaluator.  Whenever the folder reports a truth for
 a condition inside the exact fragment, the server takes that branch in every row.
 The fragment excludes the four families where the folder's arithmetic differs from
 the server's; for each of them the last section says exactly when it still agrees.
 */
module ConstantConditionProofs {
  import opened Wrappers
  import opened SqlLexer
  import opened ConstantCondition
  import opened StringLiterals

  // ----- the evaluator -----

  /** Err is a refused evaluation. */
  datatype Value = Err | Null | Num(n: int) | Str(s: string)

  /** One row: columns and scalars, everything outside the fragment, and number printing. */
  datatype Row = Row(names: string -> Value, opaque_: Expr -> Value, print_: int -> string)

  /** A printed number is never empty. */
  ghost predicate Legal(row: Row) {
    forall n: int :: row.print_(n) != ""
  }

  function Wrap(n: int, low: int, size: int): int
    requires size > 0
  {
    low + (n - low) % size
  }

  /** Distance between neighbouring 24-bit floating point numbers at magnitude m. */
  function Ulp(m: nat): (u: nat)
    ensures u >= 1
  {
    if m < 0x100_0000 then 1 else 2 * Ulp(m / 2)
  }

  /** Round half to even at the precision of Float32. */
  function RoundFloat32(n: int): int {
    var m: nat := if n < 0 then -n else n;
    var u := Ulp(m);
    var q, r := m / u, m % u;
    var rounded := if 2 * r < u || (2 * r == u && q % 2 == 0) then q * u else (q + 1) * u;
    if n < 0 then -rounded else rounded
  }

  function Converted(t: TypeName, n: int): Value {
    match t
    case Int8 => Num(Wrap(n, -128, 0x100))
    case Int16 => Num(Wrap(n, -0x8000, 0x1_0000))
    case Int32 => Num(Wrap(n, -0x8000_0000, 0x1_0000_0000))
    case Int64 => Num(Wrap(n, -0x8000_0000_0000_0000, 0x1_0000_0000_0000_0000))
    case UInt8 => Num(Wrap(n, 0, 0x100))
    case UInt16 => Num(Wrap(n, 0, 0x1_0000))
    case UInt32 => Num(Wrap(n, 0, 0x1_0000_0000))
    case UInt64 => Num(Wrap(n, 0, 0x1_0000_0000_0000_0000))
    case Float32 => Num(RoundFloat32(n))
    case Float64 => Num(n)
    case Bool => Num(Flag(n != 0))
    case OtherType => Err
  }

  function Numeric(v: Value): Value {
    if v.Str? then Err else v
  }

  function Not3(v: Value): Value {
    match v
    case Num(n) => Num(Flag(n == 0))
    case _ => Numeric(v)
  }

  function And3(a: Value, b: Value): Value {
    var x, y := Numeric(a), Numeric(b);
    if x.Err? || y.Err? then Err
    else if x == Num(0) || y == Num(0) then Num(0)
    else if x.Null? || y.Null? then Null
    else Num(1)
  }

  function Or3(a: Value, b: Value): Value {
    Not3(And3(Not3(a), Not3(b)))
  }

  function Compare3(op: Comparison, a: Value, b: Value): Value {
    match (a, b)
    case (Num(m), Num(n)) => Num(Flag(Ordered(op, m - n)))
    case (Str(s), Str(t)) => Num(Flag(Ordered(op, OrderText(s, t))))
    case _ => if a.Err? || b.Err? then Err else if a.Null? || b.Null? then Null else Err
  }

  function Concat3(a: Value, b: Value): Value {
    match (a, b)
    case (Str(s), Str(t)) => Str(s + t)
    case _ => if a.Err? || b.Err? || a.Num? || b.Num? then Err else Null
  }

  function Eval(e: Expr, scope: set<string>, row: Row): Value
    decreases Size(e), 0
  {
    match e
    case Column(x) => Eval(x, scope, row)
    case Params(items, list) =>
      if list || |items| != 1 then row.opaque_(e) else SizesBound(items); Eval(items[0], scope, row)
    case Ident(word) =>
      if word in scope then row.names(word)
      else if EqualFold(word, "true") then Num(1)
      else if EqualFold(word, "false") then Num(0)
      else Err
    case BoolLiteral(Some(t)) => Num(Flag(t))
    case Number(Some(n)) => Num(n)
    case Text(raw) => (match Decode(raw) case Some(s) => Str(s) case None => Err)
    case Unary(NotOp, x) => Not3(Eval(x, scope, row))
    case Unary(Negate, x) => (match Eval(x, scope, row) case Num(n) => Num(-n) case v => Numeric(v))
    case Binary(AndOp, l, r) => And3(Eval(l, scope, row), Eval(r, scope, row))
    case Binary(OrOp, l, r) => Or3(Eval(l, scope, row), Eval(r, scope, row))
    case Binary(CompareOp(c), l, r) => Compare3(c, Eval(l, scope, row), Eval(r, scope, row))
    case Call(f, params, columnCall, _) =>
      if columnCall then Err
      else
        var args := Arguments(e);
        if f == Concat then EvalConcat(e, args, scope, row)
        else if |args| == 1 then Apply1(f, Eval(args[0], scope, row), e, row)
        else if |args| == 2 then Apply2(f, Eval(args[0], scope, row), Eval(args[1], scope, row), e, row)
        else row.opaque_(e)
    case Cast(x, Some(t)) =>
      (match Eval(x, scope, row)
       case Num(n) => Converted(t, n)
       case _ => Err)
    case _ => row.opaque_(e)
  }

  function EvalConcat(ghost call: Expr, args: seq<Expr>, scope: set<string>, row: Row): Value
    requires forall a :: a in args ==> Size(a) < Size(call)
    decreases Size(call), 0, |args|
  {
    if args == [] then Str("")
    else Concat3(Eval(args[0], scope, row), EvalConcat(call, args[1..], scope, row))
  }

  function Apply1(f: Function, v: Value, call: Expr, row: Row): Value {
    match f
    case Empty => (match v case Str(s) => Num(Flag(s == "")) case Null => Null case _ => Err)
    case NotEmpty => (match v case Str(s) => Num(Flag(s != "")) case Null => Null case _ => Err)
    case IsNull => if v.Err? then Err else Num(Flag(v.Null?))
    case IsNotNull => if v.Err? then Err else Num(Flag(!v.Null?))
    case Not => Not3(v)
    case ToBool => (match v case Num(n) => Num(Flag(n != 0)) case _ => Numeric(v))
    case Convert(t) => (match v case Num(n) => Converted(t, n) case _ => Numeric(v))
    case ToString => (match v case Num(n) => Str(row.print_(n)) case _ => v)
    case _ => row.opaque_(call)
  }

  function Apply2(f: Function, a: Value, b: Value, call: Expr, row: Row): Value {
    match f
    case NullIf =>
      (match Compare3(Eq, a, b)
       case Err => Err
       case Num(n) => if n == 1 then Null else a
       case _ => a)
    case IfNull => if a.Err? || b.Err? then Err else if a.Null? then b else a
    case And => And3(a, b)
    case Or => Or3(a, b)
    case Compare(c) => Compare3(c, a, b)
    case _ => row.opaque_(call)
  }

  // ----- the exact fragment -----

  predicate InFloat64(n: int) {
    -0x20_0000_0000_0000 <= n <= 0x20_0000_0000_0000
  }

  /** No literal inside e is made of quotes alone. */
  predicate EmptyExact(e: Expr)
    decreases Size(e)
  {
    var u := Unwrap(e);
    match u
    case Text(raw) => !OnlyQuotes(raw)
    case Call(Concat, _, _, _) => forall a :: a in Arguments(u) ==> EmptyExact(a)
    case _ => true
  }

  /** The comparison of two literals is left open: both, or one beside a text, could be a printed number. */
  predicate IsOpen(a: string, b: string) {
    || (TrimQuotes(a) == RENDERED && TrimQuotes(b) != "")
    || (TrimQuotes(b) == RENDERED && TrimQuotes(a) != "")
  }

  /** The trimmed texts compare as the decoded texts do. */
  predicate SameVerdict(op: Comparison, a: string, b: string) {
    Decode(a).Some? && Decode(b).Some? && !IsOpen(a, b) ==>
      Ordered(op, OrderText(TrimQuotes(a), TrimQuotes(b))) == Ordered(op, OrderText(Decode(a).value, Decode(b).value))
  }

  /** A cast to Bool of a folded n: its truth, or its value, is that of the low byte. */
  predicate BoolCastExact(n: int, value: bool) {
    n == 0 || (if value then n % 256 == 1 else n % 256 != 0)
  }

  /**
   Where the folder computes what the server computes.  strict: a NULL here would not
   mean false.  value: the number itself is read, not only its truth.
   */
  predicate Exact(e: Expr, scope: set<string>, strict: bool, value: bool)
    decreases Size(e)
  {
    var u := Unwrap(e);
    match u
    case Number(Some(n)) => InFloat64(n)
    case Text(raw) => IsFaithful(raw)
    case Unary(NotOp, x) => Exact(x, scope, true, false)
    case Unary(Negate, x) => Exact(x, scope, true, true)
    case Binary(op, l, r) => PairExact(op, l, r, scope, strict)
    case Cast(x, Some(t)) =>
      && Exact(x, scope, strict, true)
      && (t == Bool && OperandValue(x, scope).Some? ==> BoolCastExact(OperandValue(x, scope).value, value))
      && (t == Float32 && ComparisonNumber(x).Some? ==>
            RoundFloat32(ComparisonNumber(x).value) == ComparisonNumber(x).value)
    case Call(f, _, _, _) =>
      var args := Arguments(u);
      if |args| == 1 then
        match f
        case Empty => EmptyExact(args[0])
        case NotEmpty => EmptyExact(args[0])
        case Not => Exact(args[0], scope, true, false)
        case IsNull => Exact(args[0], scope, true, false)
        case IsNotNull => Exact(args[0], scope, true, false)
        case ToBool => Exact(args[0], scope, strict, false)
        case Convert(t) =>
          && Exact(args[0], scope, strict, true)
          && (t == Float32 && ComparisonNumber(args[0]).Some? ==>
                RoundFloat32(ComparisonNumber(args[0]).value) == ComparisonNumber(args[0]).value)
        case _ => forall a :: a in args ==> Exact(a, scope, true, true)
      else if |args| == 2 then
        match f
        case NullIf =>
          && Exact(args[0], scope, strict, true) && Exact(args[1], scope, false, true)
          && (strict && OperandValue(args[0], scope).Some? ==>
                OperandValue(args[0], scope) != OperandValue(args[1], scope))
        case IfNull => Exact(args[0], scope, true, value)
        case And => PairExact(AndOp, args[0], args[1], scope, strict)
        case Or => PairExact(OrOp, args[0], args[1], scope, strict)
        case Compare(c) => PairExact(CompareOp(c), args[0], args[1], scope, strict)
        case _ => forall a :: a in args ==> Exact(a, scope, true, true)
      else forall a :: a in args ==> Exact(a, scope, true, true)
    case _ => true
  }

  /** A side of AND or OR that does not fold is never read. */
  predicate PairExact(op: BinaryOp, l: Expr, r: Expr, scope: set<string>, strict: bool)
    decreases Size(l) + Size(r) + 1, 0
  {
    match op
    case CompareOp(c) =>
      if Unwrap(l).Text? && Unwrap(r).Text? then SameVerdict(c, Unwrap(l).raw, Unwrap(r).raw)
      else Exact(l, scope, true, true) && Exact(r, scope, true, true)
    case OtherBinary => true
    case _ =>
      && (Truth(l, scope).Some? ==> Exact(l, scope, strict, false))
      && (Truth(r, scope).Some? ==> Exact(r, scope, strict, false))
  }

  // ----- what a folded result stands for -----

  /** v is the server's value where the folder has n. */
  predicate Stands(n: int, v: Value, strict: bool, value: bool) {
    match v
    case Err => true
    case Null => !strict && n == 0
    case Num(m) => if value then m == n else (m == 0 <==> n == 0)
    case Str(_) => false
  }

  predicate StandsTruth(t: bool, v: Value, strict: bool) {
    Stands(Flag(t), v, strict, false)
  }

  lemma {:induction false} UnwrapEval(e: Expr, scope: set<string>, row: Row)
    ensures Eval(Unwrap(e), scope, row) == Eval(e, scope, row)
    decreases Size(e)
  {
    match e
    case Column(x) => UnwrapEval(x, scope, row);
    case Params(items, list) =>
      if !list && |items| == 1 {
        SizesBound(items);
        UnwrapEval(items[0], scope, row);
      }
    case _ =>
  }

  lemma {:induction false} LiteralEval(e: Expr, scope: set<string>, row: Row)
    requires Literal(e).Some?
    ensures Eval(e, scope, row) == Num(Literal(e).value)
    decreases Size(e)
  {
    UnwrapEval(e, scope, row);
    match Unwrap(e)
    case Unary(Negate, x) => LiteralEval(x, scope, row);
    case _ =>
  }

  // ----- texts -----

  /** The text of v where the folder has t. */
  predicate StandsText(t: string, v: Value) {
    match v
    case Err => true
    case Str(s) => if t == RENDERED then s != "" else s == t
    case _ => false
  }

  lemma {:induction false} TextStands(e: Expr, scope: set<string>, row: Row)
    requires Legal(row) && ConstantText(e).Some? && Exact(e, scope, true, true)
    ensures StandsText(ConstantText(e).value, Eval(e, scope, row))
    decreases Size(e), 0
  {
    UnwrapEval(e, scope, row);
    var u := Unwrap(e);
    match u
    case Text(raw) => FaithfulReads(raw);
    case Call(Concat, _, _, _) =>
      ConcatStands(u, Arguments(u), scope, row);
    case Call(ToString, params, columnCall, _) =>
      if !columnCall {
        assert Arguments(u)[0] == Shelled(params[0]);
        ShelledEval(params[0], scope, row);
        LiteralEval(params[0], scope, row);
      }
    case _ =>
  }

  lemma ShelledEval(e: Expr, scope: set<string>, row: Row)
    ensures Eval(Shelled(e), scope, row) == Eval(e, scope, row)
  {
  }

  lemma {:induction false} ConcatStands(call: Expr, args: seq<Expr>, scope: set<string>, row: Row)
    requires forall a :: a in args ==> Size(a) < Size(call) && Exact(a, scope, true, true)
    requires Legal(row) && ConcatText(call, args).Some?
    ensures EvalConcat(call, args, scope, row) in {Err, Str(ConcatText(call, args).value)}
    decreases Size(call), 0, |args|
  {
    if args != [] {
      assert args[0] in args && forall a :: a in args[1..] ==> a in args;
      TextStands(args[0], scope, row);
      ConcatStands(call, args[1..], scope, row);
    }
  }

  /** The emptiness of a folded text is that of the server's. */
  lemma {:induction false} EmptyTextStands(e: Expr, scope: set<string>, row: Row)
    requires Legal(row) && ConstantText(e).Some? && EmptyExact(e)
    ensures var v := Eval(e, scope, row);
            v.Err? || (v.Str? && (v.s == "" <==> ConstantText(e).value == ""))
    decreases Size(e), 0
  {
    hide OnlyQuotes, Decode, TrimQuotes;
    UnwrapEval(e, scope, row);
    var u := Unwrap(e);
    match u
    case Text(raw) => EmptyReadings(raw);
    case Call(Concat, _, _, _) =>
      EmptyConcatStands(u, Arguments(u), scope, row);
    case Call(ToString, params, columnCall, _) =>
      if !columnCall {
        assert Arguments(u)[0] == Shelled(params[0]);
        ShelledEval(params[0], scope, row);
        LiteralEval(params[0], scope, row);
      }
    case _ =>
  }

  lemma {:induction false} EmptyConcatStands(call: Expr, args: seq<Expr>, scope: set<string>, row: Row)
    requires forall a :: a in args ==> Size(a) < Size(call) && EmptyExact(a)
    requires Legal(row) && ConcatText(call, args).Some?
    ensures var v := EvalConcat(call, args, scope, row);
            v.Err? || (v.Str? && (v.s == "" <==> ConcatText(call, args).value == ""))
    decreases Size(call), 0, |args|
  {
    if args != [] {
      assert args[0] in args && forall a :: a in args[1..] ==> a in args;
      EmptyTextStands(args[0], scope, row);
      EmptyConcatStands(call, args[1..], scope, row);
    }
  }

  // ----- comparisons -----

  lemma {:induction false} NumberStands(e: Expr, scope: set<string>, row: Row, strict: bool, value: bool)
    requires ComparisonNumber(e).Some? && Exact(e, scope, strict, value)
    ensures Eval(e, scope, row) in {Err, Num(ComparisonNumber(e).value)}
    decreases Size(e)
  {
    if Literal(e).Some? {
      LiteralEval(e, scope, row);
    } else {
      UnwrapEval(e, scope, row);
      var u := Unwrap(e);
      match u
      case Cast(x, Some(t)) =>
        NumberStands(x, scope, row, strict, true);
        KeptIsConverted(t, ComparisonNumber(x).value);
      case Call(NullIf, _, _, _) =>
        var args := Arguments(u);
        NumberStands(args[0], scope, row, strict, true);
        NumberStands(args[1], scope, row, false, true);
      case Call(IfNull, _, _, _) =>
        var args := Arguments(u);
        NumberStands(args[0], scope, row, true, value);
      case Call(Convert(t), _, _, _) =>
        var args := Arguments(u);
        NumberStands(args[0], scope, row, strict, true);
        KeptIsConverted(t, ComparisonNumber(args[0]).value);
      case _ =>
    }
  }

  /** A kept value is what the conversion gives, when Float32 holds it. */
  lemma KeptIsConverted(t: TypeName, n: int)
    requires CastKeepsValue(t, n) && (t == Float32 ==> RoundFloat32(n) == n)
    ensures Converted(t, n) == Num(n)
  {
    hide RoundFloat32;
  }

  lemma OrderWithEmpty(s: string)
    requires s != ""
    ensures OrderText(s, "") == 1 && OrderText("", s) == -1
  {
  }

  lemma ComparisonStands(op: Comparison, l: Expr, r: Expr, scope: set<string>, row: Row, strict: bool)
    requires Legal(row) && PairExact(CompareOp(op), l, r, scope, strict)
    requires ComparisonTruth(op, l, r).Some?
    ensures Compare3(op, Eval(l, scope, row), Eval(r, scope, row))
              in {Err, Num(Flag(ComparisonTruth(op, l, r).value))}
  {
    hide Exact, Eval, ConstantText, ComparisonNumber, SameVerdict, Unwrap, Compare3;
    if Unwrap(l).Text? && Unwrap(r).Text? {
      hide ComparisonTruth;
      LiteralsStand(op, l, r, scope, row);
    } else if ComparisonNumber(l).Some? {
      NumbersStand(op, l, r, scope, row);
    } else {
      TextsStand(op, l, r, scope, row);
    }
  }

  lemma NumbersStand(op: Comparison, l: Expr, r: Expr, scope: set<string>, row: Row)
    requires Exact(l, scope, true, true) && Exact(r, scope, true, true)
    requires ComparisonNumber(l).Some? && ComparisonTruth(op, l, r).Some?
    ensures Compare3(op, Eval(l, scope, row), Eval(r, scope, row))
              in {Err, Num(Flag(ComparisonTruth(op, l, r).value))}
  {
    hide Exact, Eval, ConstantText, ComparisonNumber;
    NumberStands(l, scope, row, true, true);
    NumberStands(r, scope, row, true, true);
  }

  lemma TextsStand(op: Comparison, l: Expr, r: Expr, scope: set<string>, row: Row)
    requires Legal(row) && Exact(l, scope, true, true) && Exact(r, scope, true, true)
    requires ComparisonNumber(l).None? && ComparisonTruth(op, l, r).Some?
    ensures Compare3(op, Eval(l, scope, row), Eval(r, scope, row))
              in {Err, Num(Flag(ComparisonTruth(op, l, r).value))}
  {
    hide Exact, Eval, ConstantText, ComparisonNumber, RENDERED, StandsText, OrderText, Ordered, Compare3;
    TextStands(l, scope, row);
    TextStands(r, scope, row);
    OrdersStand(op, ConstantText(l).value, ConstantText(r).value, Eval(l, scope, row), Eval(r, scope, row));
    RenderedIsNotEmpty();
    if ConstantText(l) == Some(RENDERED) {
      OrderWithEmpty(RENDERED);
    } else if ConstantText(r) == Some(RENDERED) {
      OrderWithEmpty(RENDERED);
    }
  }

  /** The order of two folded texts is that of the server's, unless a printed number meets a text. */
  lemma OrdersStand(op: Comparison, s: string, t: string, a: Value, b: Value)
    requires StandsText(s, a) && StandsText(t, b)
    requires (s == RENDERED ==> t == "") && (t == RENDERED ==> s == "")
    ensures Compare3(op, a, b) in {Err, Num(Flag(Ordered(op, OrderText(s, t))))}
  {
    hide RENDERED;
    RenderedIsNotEmpty();
    if a.Str? && b.Str? {
      if s == RENDERED {
        OrderWithEmpty(a.s);
        OrderWithEmpty(s);
      } else if t == RENDERED {
        OrderWithEmpty(b.s);
        OrderWithEmpty(t);
      }
    }
  }

  lemma RenderedIsNotEmpty()
    ensures RENDERED != ""
  {
  }

  /** A pair of literals folds to the order of the trimmed texts, when it is not left open. */
  lemma LiteralsFold(op: Comparison, a: string, b: string)
    ensures ComparisonTruth(op, Text(a), Text(b)) ==
            if IsOpen(a, b) then None else Some(Ordered(op, OrderText(TrimQuotes(a), TrimQuotes(b))))
  {
    hide TrimQuotes, RENDERED;
    RenderedIsNotEmpty();
    OrderWithEmpty(RENDERED);
  }

  lemma LiteralReads(e: Expr, scope: set<string>, row: Row)
    requires Unwrap(e).Text?
    ensures ComparisonNumber(e).None? && ConstantText(e) == Some(TrimQuotes(Unwrap(e).raw))
    ensures Eval(e, scope, row) == match Decode(Unwrap(e).raw) case Some(s) => Str(s) case None => Err
  {
    UnwrapEval(e, scope, row);
  }

  lemma LiteralsStand(op: Comparison, l: Expr, r: Expr, scope: set<string>, row: Row)
    requires Unwrap(l).Text? && Unwrap(r).Text? && SameVerdict(op, Unwrap(l).raw, Unwrap(r).raw)
    requires ComparisonTruth(op, l, r).Some?
    ensures Compare3(op, Eval(l, scope, row), Eval(r, scope, row))
              in {Err, Num(Flag(ComparisonTruth(op, l, r).value))}
  {
    hide Eval, ConstantText, ComparisonNumber, Decode, TrimQuotes, IsOpen, OrderText, RENDERED;
    LiteralReads(l, scope, row);
    LiteralReads(r, scope, row);
    var a, b := Unwrap(l).raw, Unwrap(r).raw;
    LiteralReads(Text(a), scope, row);
    LiteralReads(Text(b), scope, row);
    assert ComparisonTruth(op, l, r) == ComparisonTruth(op, Text(a), Text(b));
    LiteralsFold(op, a, b);
  }

  // ----- conditions, operands and calls -----

  /** Shells and redundant parentheses change nothing. */
  lemma UnwrapSame(e: Expr, scope: set<string>, row: Row)
    ensures var u := Unwrap(e);
            && Unwrap(u) == u && Size(u) <= Size(e)
            && Eval(u, scope, row) == Eval(e, scope, row)
            && Truth(u, scope) == Truth(e, scope) && CallValue(u, scope) == CallValue(e, scope)
            && forall strict, value :: Exact(e, scope, strict, value) ==> Exact(u, scope, strict, value)
  {
    hide ConstantText, ComparisonNumber, ComparisonTruth, OperandValue, BinaryTruth, EqualFold, Size, Arguments;
    UnwrapEval(e, scope, row);
    hide Eval;
  }

  lemma {:induction false} TruthStands(e: Expr, scope: set<string>, row: Row, strict: bool, value: bool)
    requires Legal(row) && Exact(e, scope, strict, value) && Truth(e, scope).Some?
    ensures StandsTruth(Truth(e, scope).value, Eval(e, scope, row), strict)
    decreases Size(e), 3
  {
    UnwrapSame(e, scope, row);
    var u := Unwrap(e);
    if u.Call? || u.Cast? {
      hide Exact, Eval, CallValue, Size;
      CallStands(u, scope, row, strict, value);
    } else {
      hide ConstantText, ComparisonNumber, ComparisonTruth, CallValue, BinaryTruth, EqualFold;
      match u
      case Unary(NotOp, x) => TruthStands(x, scope, row, true, false);
      case Unary(Negate, x) => LiteralEval(x, scope, row);
      case Binary(op, l, r) => BinaryStands(u, op, l, r, scope, row, strict);
      case _ =>
    }
  }

  function Pair3(op: BinaryOp, a: Value, b: Value): Value {
    match op
    case AndOp => And3(a, b)
    case OrOp => Or3(a, b)
    case CompareOp(c) => Compare3(c, a, b)
    case OtherBinary => Err
  }

  predicate StandsIfFolded(t: Option<bool>, v: Value, strict: bool) {
    t.Some? ==> StandsTruth(t.value, v, strict)
  }

  lemma AndStands(lt: Option<bool>, rt: Option<bool>, a: Value, b: Value, strict: bool)
    requires StandsIfFolded(lt, a, strict) && StandsIfFolded(rt, b, strict)
    ensures lt == Some(false) || rt == Some(false) ==> StandsTruth(false, And3(a, b), strict)
    ensures lt == rt == Some(true) ==> StandsTruth(true, And3(a, b), strict)
  {
  }

  lemma OrStands(lt: Option<bool>, rt: Option<bool>, a: Value, b: Value, strict: bool)
    requires StandsIfFolded(lt, a, strict) && StandsIfFolded(rt, b, strict)
    ensures lt == Some(true) || rt == Some(true) ==> StandsTruth(true, Or3(a, b), strict)
    ensures lt == rt == Some(false) ==> StandsTruth(false, Or3(a, b), strict)
  {
  }

  lemma {:induction false} BinaryStands(e: Expr, op: BinaryOp, l: Expr, r: Expr, scope: set<string>, row: Row, strict: bool)
    requires Size(l) + Size(r) < Size(e)
    requires Legal(row) && PairExact(op, l, r, scope, strict) && BinaryTruth(op, l, r, scope).Some?
    ensures StandsTruth(BinaryTruth(op, l, r, scope).value, Pair3(op, Eval(l, scope, row), Eval(r, scope, row)), strict)
    ensures op != OtherBinary
    decreases Size(l) + Size(r) + 1, 0
  {
    hide ComparisonTruth, Truth, Exact, Eval, Size, StandsTruth, Legal;
    if op.CompareOp? {
      CompareStands(op, l, r, scope, row, strict);
    } else if op.AndOp? || op.OrOp? {
      if Truth(l, scope).Some? {
        TruthStands(l, scope, row, strict, false);
      }
      if Truth(r, scope).Some? {
        TruthStands(r, scope, row, strict, false);
      }
      LogicStands(op, l, r, scope, row, strict);
    }
    hide BinaryTruth, PairExact, Pair3;
    NoOther(op, l, r, scope);
  }

  lemma NoOther(op: BinaryOp, l: Expr, r: Expr, scope: set<string>)
    requires BinaryTruth(op, l, r, scope).Some?
    ensures op != OtherBinary
  {
    hide ComparisonTruth, Truth;
  }

  lemma ThreeCases(t: Option<bool>)
    ensures t == None || t == Some(true) || t == Some(false)
  {
    if t.Some? {
      var b := t.value;
      if b {
        assert t == Some(true);
      } else {
        assert t == Some(false);
      }
    }
  }

  lemma LogicStands(op: BinaryOp, l: Expr, r: Expr, scope: set<string>, row: Row, strict: bool)
    requires op.AndOp? || op.OrOp?
    requires StandsIfFolded(Truth(l, scope), Eval(l, scope, row), strict)
    requires StandsIfFolded(Truth(r, scope), Eval(r, scope, row), strict)
    requires BinaryTruth(op, l, r, scope).Some?
    ensures StandsTruth(BinaryTruth(op, l, r, scope).value, Pair3(op, Eval(l, scope, row), Eval(r, scope, row)), strict)
  {
    hide ComparisonTruth, Truth, Eval, And3, Or3, Compare3, StandsTruth, StandsIfFolded;
    ThreeCases(Truth(l, scope));
    ThreeCases(Truth(r, scope));
    if op.AndOp? {
      AndStands(Truth(l, scope), Truth(r, scope), Eval(l, scope, row), Eval(r, scope, row), strict);
    } else {
      OrStands(Truth(l, scope), Truth(r, scope), Eval(l, scope, row), Eval(r, scope, row), strict);
    }
  }

  lemma CompareStands(op: BinaryOp, l: Expr, r: Expr, scope: set<string>, row: Row, strict: bool)
    requires op.CompareOp?
    requires Legal(row) && PairExact(op, l, r, scope, strict) && BinaryTruth(op, l, r, scope).Some?
    ensures StandsTruth(BinaryTruth(op, l, r, scope).value, Pair3(op, Eval(l, scope, row), Eval(r, scope, row)), strict)
  {
    hide ComparisonTruth, Truth, Exact, Eval, Size, Compare3, StandsTruth, SameVerdict;
    ComparisonStands(op.op, l, r, scope, row, strict);
    FlagStands(BinaryTruth(op, l, r, scope).value, Compare3(op.op, Eval(l, scope, row), Eval(r, scope, row)), strict);
  }

  lemma FlagStands(t: bool, v: Value, strict: bool)
    requires v in {Err, Num(Flag(t))}
    ensures StandsTruth(t, v, strict)
  {
  }

  lemma {:induction false} OperandStands(e: Expr, scope: set<string>, row: Row, strict: bool, value: bool)
    requires Legal(row) && Exact(e, scope, strict, value) && OperandValue(e, scope).Some?
    ensures Stands(OperandValue(e, scope).value, Eval(e, scope, row), strict, value)
    decreases Size(e), 4
  {
    hide ConstantText, ComparisonNumber, ComparisonTruth, CallValue, BinaryTruth, EqualFold, Exact;
    if Literal(e).Some? {
      LiteralEval(e, scope, row);
    } else {
      match Unwrap(e)
      case Call(_, _, _, _) => CallStands(e, scope, row, strict, value);
      case Cast(_, _) => CallStands(e, scope, row, strict, value);
      case Ident(_) => UnwrapEval(e, scope, row);
      case BoolLiteral(_) => UnwrapEval(e, scope, row);
      case _ =>
    }
  }

  lemma {:induction false} CallStands(e: Expr, scope: set<string>, row: Row, strict: bool, value: bool)
    requires Legal(row) && Exact(e, scope, strict, value) && CallValue(e, scope).Some?
    ensures Stands(CallValue(e, scope).value, Eval(e, scope, row), strict, value)
    decreases Size(e), 2
  {
    UnwrapSame(e, scope, row);
    var u := Unwrap(e);
    hide Exact, Eval, Size;
    if u.Cast? {
      CastStands(u, scope, row, strict, value);
    } else {
      CallShape(u, scope);
      if u.hasColumnArgs {
        ColumnCallFails(u, scope, row);
      } else if |Arguments(u)| == 1 {
        Call1Stands(u, scope, row, strict, value);
      } else {
        Call2Stands(u, scope, row, strict, value);
      }
    }
  }

  lemma CallShape(u: Expr, scope: set<string>)
    requires Unwrap(u) == u && CallValue(u, scope).Some? && !u.Cast?
    ensures u.Call? && |Arguments(u)| in {1, 2}
  {
    hide Arguments;
  }

  lemma ColumnCallFails(u: Expr, scope: set<string>, row: Row)
    requires u.Call? && u.hasColumnArgs
    ensures Eval(u, scope, row) == Err
  {
  }

  lemma {:induction false} CastStands(u: Expr, scope: set<string>, row: Row, strict: bool, value: bool)
    requires u.Cast?
    requires Legal(row) && Exact(u, scope, strict, value) && CallValue(u, scope).Some?
    ensures Stands(CallValue(u, scope).value, Eval(u, scope, row), strict, value)
    decreases Size(u), 1
  {
    hide ComparisonNumber, OperandValue, RoundFloat32, Wrap;
    OperandStands(u.source, scope, row, strict, true);
    LowByteStands(OperandValue(u.source, scope).value, u.target.value);
  }

  lemma LowByteStands(n: int, t: TypeName)
    requires t == UInt8 || t == Bool
    ensures t == UInt8 ==> Converted(t, n) == Num(LowByte(n))
    ensures forall value :: t == Bool && BoolCastExact(n, value) ==> Stands(LowByte(n), Converted(t, n), true, value)
  {
  }

  lemma {:induction false} Call1Stands(u: Expr, scope: set<string>, row: Row, strict: bool, value: bool)
    requires u.Call? && !u.hasColumnArgs && |Arguments(u)| == 1
    requires Legal(row) && Exact(u, scope, strict, value) && CallValue(u, scope).Some?
    ensures Stands(CallValue(u, scope).value, Eval(u, scope, row), strict, value)
    decreases Size(u), 1
  {
    hide ConstantText, ComparisonNumber, ComparisonTruth, OperandValue, BinaryTruth, Truth, EqualFold;
    var x := Arguments(u)[0];
    match u.name
    case Empty => EmptyTextStands(x, scope, row);
    case NotEmpty => EmptyTextStands(x, scope, row);
    case IsNull => OperandStands(x, scope, row, true, false);
    case IsNotNull => OperandStands(x, scope, row, true, false);
    case Not => TruthStands(x, scope, row, true, false);
    case ToBool => OperandStands(x, scope, row, strict, false);
    case Convert(t) => OperandStands(x, scope, row, strict, true);
    case _ =>
  }

  lemma CallCompareStands(c: Comparison, x: Expr, y: Expr, scope: set<string>, row: Row, strict: bool, value: bool)
    requires Legal(row) && PairExact(CompareOp(c), x, y, scope, strict) && ComparisonTruth(c, x, y).Some?
    ensures Stands(Flag(ComparisonTruth(c, x, y).value), Compare3(c, Eval(x, scope, row), Eval(y, scope, row)), strict, value)
  {
    hide Exact, Eval, ComparisonTruth, PairExact, Compare3;
    ComparisonStands(c, x, y, scope, row, strict);
  }

  lemma {:induction false} Call2Stands(u: Expr, scope: set<string>, row: Row, strict: bool, value: bool)
    requires u.Call? && !u.hasColumnArgs && |Arguments(u)| == 2
    requires Legal(row) && Exact(u, scope, strict, value) && CallValue(u, scope).Some?
    ensures Stands(CallValue(u, scope).value, Eval(u, scope, row), strict, value)
    decreases Size(u), 1
  {
    hide ConstantText, ComparisonNumber, ComparisonTruth, OperandValue, BinaryTruth, Truth, EqualFold, SameVerdict, IsFaithful;
    var x, y := Arguments(u)[0], Arguments(u)[1];
    match u.name
    case NullIf =>
      OperandStands(x, scope, row, strict, true);
      OperandStands(y, scope, row, false, true);
    case IfNull => OperandStands(x, scope, row, true, value);
    case And => BinaryStands(u, AndOp, x, y, scope, row, strict);
    case Or => BinaryStands(u, OrOp, x, y, scope, row, strict);
    case Compare(c) => CallCompareStands(c, x, y, scope, row, strict, value);
    case _ =>
  }

  // ----- the main result -----

  /** The branch the server takes: NULL takes the second one. */
  predicate TakesFirst(v: Value) {
    v.Num? && v.n != 0
  }

  /** A folded condition selects the branch that every row selects, and is no NULL when strict. */
  lemma FolderIsSound(e: Expr, scope: set<string>, row: Row, strict: bool)
    requires Legal(row) && Exact(e, scope, strict, false) && Truth(e, scope).Some?
    ensures var v := Eval(e, scope, row);
            v.Err? || (TakesFirst(v) == Truth(e, scope).value && (strict ==> v.Num?))
  {
    hide Exact, Truth, Eval;
    TruthStands(e, scope, row, strict, false);
  }
}
