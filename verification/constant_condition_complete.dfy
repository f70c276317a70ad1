/**
 Which conditions are always folded, and to what: a condition over literals by the number or
 text that it has on the server, and AND or OR by one side that decides it, whatever stands on
 the other.
 */
module ConstantConditionComplete {
  import opened Wrappers
  import opened SqlLexer
  import opened CodeBytes
  import opened ConstantCondition
  import opened StringLiterals
  import opened ConstantConditionProofs

  // ----- what literals are on the server -----

  function Numeral(e: Expr): Option<int>
    decreases Size(e)
  {
    var u := Unwrap(e);
    match u
    case Number(Some(n)) => if InFloat64(n) then Some(n) else None
    case Unary(Negate, x) => (var n :- Numeral(x); Some(-n))
    case _ => None
  }

  /** A conversion that leaves n as it is on the server. */
  predicate Keeps(t: TypeName, n: int) {
    t !in {Bool, OtherType} && Converted(t, n) == Num(n)
  }

  /** The one argument, or the two, of a call without an argument list of its own. */
  predicate HasArguments(u: Expr, n: nat) {
    u.Call? && !u.hasColumnArgs && |Arguments(u)| == n
  }

  /** A number that a comparison reads: literals under conversions that keep it, nullIf and ifNull. */
  function NumberOf(e: Expr): Option<int>
    decreases Size(e)
  {
    var u := Unwrap(e);
    if u.Cast? && u.target.Some? then
      var n :- NumberOf(u.source);
      if Keeps(u.target.value, n) then Some(n) else None
    else if HasArguments(u, 1) && u.name.Convert? then
      var n :- NumberOf(Arguments(u)[0]);
      if Keeps(u.name.to, n) then Some(n) else None
    else if HasArguments(u, 2) && u.name in {NullIf, IfNull} then
      var l :- NumberOf(Arguments(u)[0]);
      var r :- NumberOf(Arguments(u)[1]);
      if u.name == NullIf && l == r then None else Some(l)
    else Numeral(e)
  }

  /** A text: faithful literals under concat. */
  function TextOf(e: Expr): Option<string>
    decreases Size(e), 0
  {
    var u := Unwrap(e);
    var text :=
      if u.Text? && IsFaithful(u.raw) then Decode(u.raw)
      else if u.Call? && u.name == Concat && !u.hasColumnArgs && Arguments(u) != [] then Joined(u, Arguments(u))
      else None;
    if text == Some(RENDERED) then None else text
  }

  function Joined(ghost call: Expr, args: seq<Expr>): Option<string>
    requires forall a :: a in args ==> Size(a) < Size(call)
    decreases Size(call), 0, |args|
  {
    if args == [] then Some("")
    else
      var first :- TextOf(args[0]);
      var rest :- Joined(call, args[1..]);
      Some(first + rest)
  }

  /** toString of a number: its text is not known, but it is never empty. */
  predicate IsPrinted(e: Expr) {
    var u := Unwrap(e);
    u.Call? && u.name == ToString && !u.hasColumnArgs && |u.params| == 1 && Numeral(u.params[0]).Some?
  }

  predicate NumbersHold(op: Comparison, m: int, n: int) {
    match op
    case Eq => m == n
    case Ne => m != n
    case Lt => m < n
    case Le => m <= n
    case Gt => n < m
    case Ge => n <= m
  }

  /** a comes before b: it is a proper head of b, or has the smaller byte where they first differ. */
  predicate Precedes(a: string, b: string) {
    exists k :: 0 <= k < |b| && DiffersAt(a, b, k)
  }

  predicate DiffersAt(a: string, b: string, k: nat)
    requires k < |b|
  {
    k <= |a| && a[..k] == b[..k] && (k == |a| || a[k] < b[k])
  }

  predicate TextsHold(op: Comparison, a: string, b: string) {
    match op
    case Eq => a == b
    case Ne => a != b
    case Lt => Precedes(a, b)
    case Le => a == b || Precedes(a, b)
    case Gt => Precedes(b, a)
    case Ge => a == b || Precedes(b, a)
  }

  /** A printed number compares with the empty text only. */
  function Compared(op: Comparison, l: Expr, r: Expr): Option<bool> {
    if NumberOf(l).Some? && NumberOf(r).Some? then Some(NumbersHold(op, NumberOf(l).value, NumberOf(r).value))
    else if TextOf(l).Some? && TextOf(r).Some? then Some(TextsHold(op, TextOf(l).value, TextOf(r).value))
    else if IsPrinted(l) && TextOf(r) == Some("") then Some(op in {Ne, Gt, Ge})
    else if TextOf(l) == Some("") && IsPrinted(r) then Some(op in {Ne, Lt, Le})
    else None
  }

  /** The truth of a condition over literals on the server. */
  function TruthOf(e: Expr, scope: set<string>): Option<bool>
    decreases Size(e), 1
  {
    var u := Unwrap(e);
    if u.Unary? then
      if u.unary == NotOp then var t :- TruthOf(u.operand, scope); Some(!t)
      else if u.unary == Negate && u.operand.Number? then var n :- Numeral(u.operand); Some(n != 0)
      else None
    else if u.Binary? then
      match u.binary
      case AndOp =>
        var a :- TruthOf(u.left, scope);
        var b :- TruthOf(u.right, scope);
        Some(a && b)
      case OrOp =>
        var a :- TruthOf(u.left, scope);
        var b :- TruthOf(u.right, scope);
        Some(a || b)
      case CompareOp(op) => Compared(op, u.left, u.right)
      case OtherBinary => None
    else var n :- ValueOf(e, scope); Some(n != 0)
  }

  /** The value of an operand over literals on the server. */
  function ValueOf(e: Expr, scope: set<string>): Option<int>
    decreases Size(e), 0
  {
    var u := Unwrap(e);
    match u
    case Ident(word) =>
      if word in scope then None
      else if EqualFold(word, "true") then Some(1)
      else if EqualFold(word, "false") then Some(0)
      else None
    case BoolLiteral(t) => (var b :- t; Some(Flag(b)))
    case Cast(x, Some(t)) => (var n :- ValueOf(x, scope); Narrowed(t, n))
    case Call(_, _, _, _) =>
      if HasArguments(u, 1) then ValueOf1(u, scope)
      else if HasArguments(u, 2) then ValueOf2(u, scope)
      else None
    case _ => Numeral(e)
  }

  /** To UInt8 or Bool, when that changes nothing. */
  function Narrowed(t: TypeName, n: int): Option<int> {
    if t in {UInt8, Bool} && Converted(t, n) == Num(n) then Some(n) else None
  }

  function ValueOf1(u: Expr, scope: set<string>): Option<int>
    requires HasArguments(u, 1)
    decreases Size(u), 0, 0
  {
    var a := Arguments(u)[0];
    match u.name
    case Empty => if IsPrinted(a) then Some(0) else (var s :- TextOf(a); Some(Flag(s == "")))
    case NotEmpty => if IsPrinted(a) then Some(1) else (var s :- TextOf(a); Some(Flag(s != "")))
    case IsNull => (var _ :- ValueOf(a, scope); Some(0))
    case IsNotNull => (var _ :- ValueOf(a, scope); Some(1))
    case Not => (var t :- TruthOf(a, scope); Some(Flag(!t)))
    case ToBool => (var n :- ValueOf(a, scope); Some(Flag(n != 0)))
    case Convert(t) => (var n :- ValueOf(a, scope); if t == UInt8 then Narrowed(t, n) else None)
    case _ => None
  }

  function ValueOf2(u: Expr, scope: set<string>): Option<int>
    requires HasArguments(u, 2)
    decreases Size(u), 0, 0
  {
    var (a, b) := (Arguments(u)[0], Arguments(u)[1]);
    match u.name
    case NullIf =>
      var m :- ValueOf(a, scope);
      var n :- ValueOf(b, scope);
      if m == n then None else Some(m)
    case IfNull =>
      var m :- ValueOf(a, scope);
      var _ :- ValueOf(b, scope);
      Some(m)
    case And =>
      var s :- TruthOf(a, scope);
      var t :- TruthOf(b, scope);
      Some(Flag(s && t))
    case Or =>
      var s :- TruthOf(a, scope);
      var t :- TruthOf(b, scope);
      Some(Flag(s || t))
    case Compare(op) => (var t :- Compared(op, a, b); Some(Flag(t)))
    case _ => None
  }

  // ----- the folder gives the same, and so does every row -----

  lemma {:induction false} NumeralFolds(e: Expr)
    requires Numeral(e).Some?
    ensures Literal(e) == Numeral(e)
    decreases Size(e)
  {
    match Unwrap(e)
    case Unary(Negate, x) => NumeralFolds(x);
    case _ =>
  }

  lemma KeepsIsKept(t: TypeName, n: int)
    requires Keeps(t, n)
    ensures CastKeepsValue(t, n)
  {
    hide RoundFloat32;
  }

  lemma {:induction false} NumberFolds(e: Expr, scope: set<string>, row: Row)
    requires NumberOf(e).Some?
    ensures ComparisonNumber(e) == NumberOf(e) && Eval(e, scope, row) == Num(NumberOf(e).value)
    decreases Size(e)
  {
    hide Eval, Converted, CastKeepsValue;
    UnwrapEval(e, scope, row);
    var u := Unwrap(e);
    if u.Cast? && u.target.Some? {
      NumberFolds(u.source, scope, row);
      CastEval(u, scope, row);
      KeepsIsKept(u.target.value, NumberOf(u.source).value);
    } else if HasArguments(u, 1) && u.name.Convert? {
      NumberFolds(Arguments(u)[0], scope, row);
      Call1Eval(u, scope, row);
      KeepsIsKept(u.name.to, NumberOf(Arguments(u)[0]).value);
    } else if HasArguments(u, 2) && u.name in {NullIf, IfNull} {
      NumberFolds(Arguments(u)[0], scope, row);
      NumberFolds(Arguments(u)[1], scope, row);
      Call2Eval(u, scope, row);
    } else {
      NumeralFolds(e);
      LiteralEval(e, scope, row);
    }
  }

  lemma CastEval(u: Expr, scope: set<string>, row: Row)
    requires u.Cast? && u.target.Some? && Eval(u.source, scope, row).Num?
    ensures Eval(u, scope, row) == Converted(u.target.value, Eval(u.source, scope, row).n)
  {
    hide Converted;
  }

  lemma Call1Eval(u: Expr, scope: set<string>, row: Row)
    requires HasArguments(u, 1) && u.name != Concat
    ensures Eval(u, scope, row) == Apply1(u.name, Eval(Arguments(u)[0], scope, row), u, row)
  {
    hide Apply1;
  }

  lemma Call2Eval(u: Expr, scope: set<string>, row: Row)
    requires HasArguments(u, 2) && u.name != Concat
    ensures Eval(u, scope, row) == Apply2(u.name, Eval(Arguments(u)[0], scope, row), Eval(Arguments(u)[1], scope, row), u, row)
  {
    hide Apply2;
  }

  lemma {:induction false} TextFolds(e: Expr, scope: set<string>, row: Row)
    requires TextOf(e).Some?
    ensures ConstantText(e) == TextOf(e) && Eval(e, scope, row) == Str(TextOf(e).value)
    ensures ComparisonNumber(e) == None
    decreases Size(e), 0
  {
    hide Decode, IsFaithful, TrimQuotes, RENDERED;
    UnwrapEval(e, scope, row);
    var u := Unwrap(e);
    if u.Text? {
      FaithfulReads(u.raw);
    } else {
      JoinedFolds(u, Arguments(u), scope, row);
      ConcatEval(u, scope, row);
    }
  }

  lemma ConcatEval(u: Expr, scope: set<string>, row: Row)
    requires u.Call? && u.name == Concat && !u.hasColumnArgs
    ensures Eval(u, scope, row) == EvalConcat(u, Arguments(u), scope, row)
  {
    hide EvalConcat;
  }

  lemma {:induction false} JoinedFolds(call: Expr, args: seq<Expr>, scope: set<string>, row: Row)
    requires forall a :: a in args ==> Size(a) < Size(call)
    requires Joined(call, args).Some?
    ensures ConcatText(call, args) == Joined(call, args)
    ensures EvalConcat(call, args, scope, row) == Str(Joined(call, args).value)
    decreases Size(call), 0, |args|
  {
    hide TextOf, ConstantText, Eval, RENDERED;
    if args != [] {
      TextFolds(args[0], scope, row);
      NotRendered(args[0]);
      JoinedFolds(call, args[1..], scope, row);
    }
  }

  lemma NotRendered(e: Expr)
    ensures TextOf(e) != Some(RENDERED)
  {
  }

  lemma ComparedFolds(op: Comparison, l: Expr, r: Expr, scope: set<string>, row: Row)
    requires Legal(row) && Compared(op, l, r).Some?
    ensures ComparisonTruth(op, l, r) == Compared(op, l, r)
    ensures Compare3(op, Eval(l, scope, row), Eval(r, scope, row)) == Num(Flag(Compared(op, l, r).value))
  {
    ComparedIs(op, l, r);
    hide *;
    if NumberOf(l).Some? && NumberOf(r).Some? {
      NumberFolds(l, scope, row);
      NumberFolds(r, scope, row);
      NumbersCompare(op, l, r, Eval(l, scope, row), Eval(r, scope, row));
    } else if TextOf(l).Some? && TextOf(r).Some? {
      TextFolds(l, scope, row);
      TextFolds(r, scope, row);
      NotRendered(l);
      NotRendered(r);
      TextsCompare(op, l, r, Eval(l, scope, row), Eval(r, scope, row));
    } else if IsPrinted(l) && TextOf(r) == Some("") {
      PrintedFolds(l, scope, row);
      TextFolds(r, scope, row);
      PrintedFirst(op, l, r, Eval(l, scope, row), Eval(r, scope, row));
    } else {
      PrintedFolds(r, scope, row);
      TextFolds(l, scope, row);
      PrintedSecond(op, l, r, Eval(l, scope, row), Eval(r, scope, row));
    }
  }

  lemma ComparedIs(op: Comparison, l: Expr, r: Expr)
    ensures NumberOf(l).Some? && NumberOf(r).Some? ==>
              Compared(op, l, r) == Some(NumbersHold(op, NumberOf(l).value, NumberOf(r).value))
    ensures !(NumberOf(l).Some? && NumberOf(r).Some?) && TextOf(l).Some? && TextOf(r).Some? ==>
              Compared(op, l, r) == Some(TextsHold(op, TextOf(l).value, TextOf(r).value))
    ensures !(NumberOf(l).Some? && NumberOf(r).Some?) && !(TextOf(l).Some? && TextOf(r).Some?) && Compared(op, l, r).Some? ==>
              if IsPrinted(l) && TextOf(r) == Some("") then Compared(op, l, r) == Some(op in {Ne, Gt, Ge})
              else TextOf(l) == Some("") && IsPrinted(r) && Compared(op, l, r) == Some(op in {Ne, Lt, Le})
  {
    hide NumberOf, TextOf, IsPrinted, NumbersHold, TextsHold;
  }

  lemma NumbersCompare(op: Comparison, l: Expr, r: Expr, x: Value, y: Value)
    requires ComparisonNumber(l).Some? && ComparisonNumber(r).Some?
    requires x == Num(ComparisonNumber(l).value) && y == Num(ComparisonNumber(r).value)
    ensures ComparisonTruth(op, l, r) == Some(NumbersHold(op, x.n, y.n))
    ensures Compare3(op, x, y) == Num(Flag(NumbersHold(op, x.n, y.n)))
  {
    hide ComparisonNumber, ConstantText;
  }

  lemma TextsCompare(op: Comparison, l: Expr, r: Expr, x: Value, y: Value)
    requires ComparisonNumber(l).None? && ConstantText(l).Some? && ConstantText(r).Some?
    requires x == Str(ConstantText(l).value) && y == Str(ConstantText(r).value) && x.s != RENDERED && y.s != RENDERED
    ensures ComparisonTruth(op, l, r) == Some(TextsHold(op, x.s, y.s))
    ensures Compare3(op, x, y) == Num(Flag(TextsHold(op, x.s, y.s)))
  {
    hide ComparisonNumber, ConstantText, OrderText, Precedes, RENDERED;
    TextOrder(x.s, y.s);
  }

  lemma PrintedFirst(op: Comparison, l: Expr, r: Expr, x: Value, y: Value)
    requires ComparisonNumber(l).None? && ConstantText(l) == Some(RENDERED) && ConstantText(r) == Some("")
    requires x.Str? && x.s != "" && y == Str("") && RENDERED != ""
    ensures ComparisonTruth(op, l, r) == Some(op in {Ne, Gt, Ge})
    ensures Compare3(op, x, y) == Num(Flag(op in {Ne, Gt, Ge}))
  {
    hide ComparisonNumber, ConstantText, OrderText, RENDERED;
    SomeText(x.s);
  }

  lemma PrintedSecond(op: Comparison, l: Expr, r: Expr, x: Value, y: Value)
    requires ComparisonNumber(l).None? && ConstantText(l) == Some("") && ConstantText(r) == Some(RENDERED)
    requires x == Str("") && y.Str? && y.s != "" && RENDERED != ""
    ensures ComparisonTruth(op, l, r) == Some(op in {Ne, Lt, Le})
    ensures Compare3(op, x, y) == Num(Flag(op in {Ne, Lt, Le}))
  {
    hide ComparisonNumber, ConstantText, OrderText, RENDERED;
    SomeText(y.s);
  }

  lemma PrintedFolds(e: Expr, scope: set<string>, row: Row)
    requires Legal(row) && IsPrinted(e)
    ensures ConstantText(e) == Some(RENDERED) && ComparisonNumber(e) == None && RENDERED != ""
    ensures Eval(e, scope, row).Str? && Eval(e, scope, row).s != ""
  {
    UnwrapEval(e, scope, row);
    var u := Unwrap(e);
    ArgumentIs(u);
    NumeralFolds(u.params[0]);
    LiteralEval(u.params[0], scope, row);
    Call1Eval(u, scope, row);
    ShelledEval(u.params[0], scope, row);
    hide Eval, Literal, Numeral;
  }

  lemma ArgumentIs(u: Expr)
    requires u.Call? && !u.hasColumnArgs && |u.params| == 1
    ensures HasArguments(u, 1) && Arguments(u)[0] == Shelled(u.params[0])
  {
  }

  lemma SomeText(t: string)
    requires t != ""
    ensures OrderText(t, "") == 1 && OrderText("", t) == -1
  {
  }

  /** The order of the folder is the order of the bytes. */
  lemma {:induction false} TextOrder(a: string, b: string)
    ensures OrderText(a, b) < 0 <==> Precedes(a, b)
    ensures OrderText(a, b) > 0 <==> Precedes(b, a)
    ensures OrderText(a, b) == 0 <==> a == b
    ensures !(Precedes(a, b) && a == b)
    decreases |a|
  {
    if a != "" && b != "" && a[0] == b[0] {
      TextOrder(a[1..], b[1..]);
      assert a == [a[0]] + a[1..] && b == [b[0]] + b[1..];
      HeadStays(a[0], a[1..], b[1..]);
      HeadStays(a[0], b[1..], a[1..]);
    } else {
      HeadDecides(a, b);
      HeadDecides(b, a);
    }
  }

  lemma HeadStays(c: char, a: string, b: string)
    ensures Precedes([c] + a, [c] + b) <==> Precedes(a, b)
  {
    hide DiffersAt;
    var x, y := [c] + a, [c] + b;
    if Precedes(a, b) {
      var k :| 0 <= k < |b| && DiffersAt(a, b, k);
      OneLater(c, a, b, k);
    }
    if Precedes(x, y) {
      var k :| 0 <= k < |y| && DiffersAt(x, y, k);
      SameHead(c, a, b);
      OneLater(c, a, b, k - 1);
    }
  }

  lemma OneLater(c: char, a: string, b: string, k: nat)
    requires k < |b|
    ensures DiffersAt([c] + a, [c] + b, k + 1) <==> DiffersAt(a, b, k)
  {
    if k <= |a| {
      assert ([c] + a)[..k + 1] == [c] + a[..k] && ([c] + b)[..k + 1] == [c] + b[..k];
      assert ([c] + a[..k])[1..] == a[..k] && ([c] + b[..k])[1..] == b[..k];
    }
  }

  lemma SameHead(c: char, a: string, b: string)
    ensures !DiffersAt([c] + a, [c] + b, 0)
  {
  }

  lemma HeadDecides(a: string, b: string)
    requires a == "" || b == "" || a[0] != b[0]
    ensures Precedes(a, b) <==> b != "" && (a == "" || a[0] < b[0])
  {
    if b != "" && (a == "" || a[0] < b[0]) {
      assert DiffersAt(a, b, 0);
    }
    forall k | 0 < k < |b| ensures !DiffersAt(a, b, k) {
      if k <= |a| {
        assert a[..k][0] == a[0] && b[..k][0] == b[0];
      }
    }
  }

  /** A number whose truth is t. */
  predicate IsTruth(v: Value, t: bool) {
    v.Num? && (v.n != 0) == t
  }

  lemma {:induction false} ValueFolds(e: Expr, scope: set<string>, row: Row)
    requires Legal(row) && ValueOf(e, scope).Some?
    ensures OperandValue(e, scope) == ValueOf(e, scope) && Eval(e, scope, row) == Num(ValueOf(e, scope).value)
    ensures Truth(e, scope) == Some(ValueOf(e, scope).value != 0) || Unwrap(e).Unary?
    decreases Size(e), 0
  {
    hide Eval, Converted, OperandValue, Truth, CallValue, Literal, Numeral;
    UnwrapEval(e, scope, row);
    var u := Unwrap(e);
    if u.Call? {
      CallFolds(u, scope, row);
      CallReadsValue(e, scope);
    } else if u.Cast? && u.target.Some? {
      ValueFolds(u.source, scope, row);
      CastEval(u, scope, row);
      NarrowedIs(u.target.value, ValueOf(u.source, scope).value);
      CastReadsValue(e, scope);
    } else if u.Ident? || u.BoolLiteral? {
      NameFolds(e, scope, row);
    } else {
      NumeralValue(e, scope, row);
    }
  }

  lemma CallReadsValue(e: Expr, scope: set<string>)
    requires Unwrap(e).Call?
    ensures OperandValue(e, scope) == CallValue(Unwrap(e), scope)
    ensures var n := CallValue(Unwrap(e), scope); Truth(e, scope) == if n.None? then None else Some(n.value != 0)
  {
    UnwrapTwice(e);
    SameValue(e, scope);
    CallIsRead(e, scope);
    CallIsTrue(e, scope);
    hide CallValue, OperandValue, Truth;
  }

  /** The value of a call does not depend on shells around it. */
  lemma SameValue(e: Expr, scope: set<string>)
    requires Unwrap(Unwrap(e)) == Unwrap(e)
    ensures CallValue(Unwrap(e), scope) == CallValue(e, scope)
  {
    hide Unwrap;
  }

  lemma CallIsRead(e: Expr, scope: set<string>)
    requires Unwrap(e).Call?
    ensures OperandValue(e, scope) == CallValue(e, scope)
  {
    hide CallValue;
  }

  lemma CallIsTrue(e: Expr, scope: set<string>)
    requires Unwrap(e).Call?
    ensures var n := CallValue(Unwrap(e), scope); Truth(e, scope) == if n.None? then None else Some(n.value != 0)
  {
    hide CallValue;
  }

  lemma UnwrapTwice(e: Expr)
    ensures Unwrap(Unwrap(e)) == Unwrap(e)
  {
  }

  lemma CastReadsValue(e: Expr, scope: set<string>)
    requires Unwrap(e).Cast? && Unwrap(e).target.Some? && Unwrap(e).target.value in {UInt8, Bool}
    ensures var n := OperandValue(Unwrap(e).source, scope);
            && OperandValue(e, scope) == (if n.None? then None else Some(LowByte(n.value)))
            && Truth(e, scope) == (if n.None? then None else Some(LowByte(n.value) != 0))
  {
    UnwrapTwice(e);
    hide LowByte;
  }

  lemma NumeralValue(e: Expr, scope: set<string>, row: Row)
    requires Numeral(e).Some?
    ensures OperandValue(e, scope) == Numeral(e) && Eval(e, scope, row) == Num(Numeral(e).value)
    ensures Truth(e, scope) == Some(Numeral(e).value != 0) || Unwrap(e).Unary?
  {
    hide Eval;
    NumeralFolds(e);
    LiteralEval(e, scope, row);
  }

  lemma NarrowedIs(t: TypeName, n: int)
    requires Narrowed(t, n).Some?
    ensures t in {UInt8, Bool} && LowByte(n) == n && Converted(t, n) == Num(n) && Narrowed(t, n) == Some(n)
  {
  }

  lemma NameFolds(e: Expr, scope: set<string>, row: Row)
    requires (Unwrap(e).Ident? || Unwrap(e).BoolLiteral?) && ValueOf(e, scope).Some?
    ensures Eval(Unwrap(e), scope, row) == Num(ValueOf(e, scope).value)
    ensures OperandValue(e, scope) == ValueOf(e, scope) && Truth(e, scope) == Some(ValueOf(e, scope).value != 0)
  {
    hide EqualFold;
  }

  lemma {:induction false} CallFolds(u: Expr, scope: set<string>, row: Row)
    requires Legal(row) && u.Call? && ValueOf(u, scope).Some?
    ensures CallValue(u, scope) == ValueOf(u, scope) && Eval(u, scope, row) == Num(ValueOf(u, scope).value)
    decreases Size(u), 0, 1
  {
    assert Unwrap(u) == u;
    if HasArguments(u, 1) {
      Call1Folds(u, scope, row);
    } else {
      Call2Folds(u, scope, row);
    }
  }

  lemma {:induction false} Call1Folds(u: Expr, scope: set<string>, row: Row)
    requires Legal(row) && HasArguments(u, 1) && Unwrap(u) == u && ValueOf1(u, scope).Some?
    ensures CallValue(u, scope) == ValueOf1(u, scope) && Eval(u, scope, row) == Num(ValueOf1(u, scope).value)
    decreases Size(u), 0, 0
  {
    hide Eval, Converted, ComparisonTruth, ConstantText, TextOf, Truth, TruthOf, OperandValue, ValueOf;
    var a := Arguments(u)[0];
    Call1Eval(u, scope, row);
    if u.name in {Empty, NotEmpty} {
      if IsPrinted(a) {
        PrintedFolds(a, scope, row);
      } else {
        TextFolds(a, scope, row);
      }
    } else if u.name == Not {
      ClosedIsDecided(a, scope, row);
    } else {
      ValueFolds(a, scope, row);
      if u.name.Convert? {
        NarrowedIs(u.name.to, ValueOf(a, scope).value);
      }
    }
  }

  lemma {:induction false} Call2Folds(u: Expr, scope: set<string>, row: Row)
    requires Legal(row) && HasArguments(u, 2) && Unwrap(u) == u && ValueOf2(u, scope).Some?
    ensures CallValue(u, scope) == ValueOf2(u, scope) && Eval(u, scope, row) == Num(ValueOf2(u, scope).value)
    decreases Size(u), 0, 0
  {
    hide Eval, ComparisonTruth, Compared, Truth, TruthOf, OperandValue, ValueOf;
    var a, b := Arguments(u)[0], Arguments(u)[1];
    Call2Eval(u, scope, row);
    match u.name
    case NullIf =>
      ValueFolds(a, scope, row);
      ValueFolds(b, scope, row);
    case IfNull =>
      ValueFolds(a, scope, row);
      ValueFolds(b, scope, row);
    case And =>
      ClosedIsDecided(a, scope, row);
      ClosedIsDecided(b, scope, row);
    case Or =>
      ClosedIsDecided(a, scope, row);
      ClosedIsDecided(b, scope, row);
    case Compare(op) => ComparedFolds(op, a, b, scope, row);
    case _ =>
  }

  /** Main result: a condition over literals is folded to the truth that it has in every row. */
  lemma {:induction false} ClosedIsDecided(e: Expr, scope: set<string>, row: Row)
    requires Legal(row) && TruthOf(e, scope).Some?
    ensures Truth(e, scope) == TruthOf(e, scope) && IsTruth(Eval(e, scope, row), TruthOf(e, scope).value)
    decreases Size(e), 1
  {
    hide Eval, ComparisonTruth, Compared, ValueOf, OperandValue, CallValue;
    UnwrapEval(e, scope, row);
    var u := Unwrap(e);
    if u.Unary? {
      UnaryEval(u, scope, row);
      if u.unary == NotOp {
        ClosedIsDecided(u.operand, scope, row);
      } else {
        NumeralFolds(u.operand);
        LiteralEval(u.operand, scope, row);
      }
    } else if u.Binary? {
      BinaryEval(u, scope, row);
      if u.binary.CompareOp? {
        ComparedFolds(u.binary.op, u.left, u.right, scope, row);
      } else {
        ClosedIsDecided(u.left, scope, row);
        ClosedIsDecided(u.right, scope, row);
      }
    } else {
      ValueFolds(e, scope, row);
    }
  }

  lemma UnaryEval(u: Expr, scope: set<string>, row: Row)
    requires u.Unary?
    ensures u.unary == NotOp ==> Eval(u, scope, row) == Not3(Eval(u.operand, scope, row))
    ensures u.unary == Negate && Eval(u.operand, scope, row).Num? ==>
              Eval(u, scope, row) == Num(-Eval(u.operand, scope, row).n)
  {
  }

  lemma BinaryEval(u: Expr, scope: set<string>, row: Row)
    requires u.Binary?
    ensures u.binary == AndOp ==> Eval(u, scope, row) == And3(Eval(u.left, scope, row), Eval(u.right, scope, row))
    ensures u.binary == OrOp ==> Eval(u, scope, row) == Or3(Eval(u.left, scope, row), Eval(u.right, scope, row))
    ensures u.binary.CompareOp? ==>
              Eval(u, scope, row) == Compare3(u.binary.op, Eval(u.left, scope, row), Eval(u.right, scope, row))
  {
    hide And3, Or3, Compare3;
  }

  /** A name is constant only if it is true or false, in any case, and no column or scalar has that name. */
  lemma NameFoldsIff(word: string, scope: set<string>)
    ensures Truth(Ident(word), scope).Some? <==> word !in scope && (Reads(word, "true") || Reads(word, "false"))
    ensures Truth(Ident(word), scope).Some? ==> Truth(Ident(word), scope).value == Reads(word, "true")
  {
    FoldIs(word, "true");
    FoldIs(word, "false");
    hide EqualFold;
  }

  // ----- one side decides -----

  function Call2(f: Function, l: Expr, r: Expr): Expr {
    Call(f, [l, r], false, [])
  }

  /** What a side with a constant truth does to AND and OR, operators and calls alike. */
  lemma SideDecides(l: Expr, r: Expr, scope: set<string>)
    ensures Truth(l, scope) == Some(false) || Truth(r, scope) == Some(false) ==>
              Truth(Binary(AndOp, l, r), scope) == Truth(Call2(And, l, r), scope) == Some(false)
    ensures Truth(l, scope) == Some(true) || Truth(r, scope) == Some(true) ==>
              Truth(Binary(OrOp, l, r), scope) == Truth(Call2(Or, l, r), scope) == Some(true)
  {
    ShellTruth(l, scope);
    ShellTruth(r, scope);
    TwoArguments(And, l, r);
    TwoArguments(Or, l, r);
    hide Truth;
    BinaryReads(AndOp, l, r, scope);
    BinaryReads(OrOp, l, r, scope);
    CallReads(And, AndOp, l, r, scope);
    CallReads(Or, OrOp, l, r, scope);
  }

  lemma ShellTruth(e: Expr, scope: set<string>)
    ensures Truth(Shelled(e), scope) == Truth(e, scope)
  {
    UnwrapShelled(e);
  }

  lemma UnwrapShelled(e: Expr)
    ensures Unwrap(Shelled(e)) == Unwrap(e)
  {
  }

  lemma TwoArguments(f: Function, l: Expr, r: Expr)
    ensures Unwrap(Call2(f, l, r)) == Call2(f, l, r) && Arguments(Call2(f, l, r)) == [Shelled(l), Shelled(r)]
  {
  }

  lemma BinaryReads(op: BinaryOp, l: Expr, r: Expr, scope: set<string>)
    ensures Truth(Binary(op, l, r), scope) == BinaryTruth(op, l, r, scope)
  {
    hide BinaryTruth;
  }

  lemma CallReads(f: Function, op: BinaryOp, l: Expr, r: Expr, scope: set<string>)
    requires (f == And && op == AndOp) || (f == Or && op == OrOp)
    requires Arguments(Call2(f, l, r)) == [Shelled(l), Shelled(r)]
    ensures Truth(Call2(f, l, r), scope) == BinaryTruth(op, Shelled(l), Shelled(r), scope)
  {
    hide BinaryTruth, Shelled;
    var u := Call2(f, l, r);
    assert Unwrap(u) == u;
    assert CallValue(u, scope) ==
           if BinaryTruth(op, Shelled(l), Shelled(r), scope).None? then None
           else Some(Flag(BinaryTruth(op, Shelled(l), Shelled(r), scope).value));
  }

  /** Main result: a side over literals that is 0 decides AND, whatever the other side is. */
  lemma ZeroDecidesAnd(x: Expr, closed: Expr, scope: set<string>, row: Row)
    requires Legal(row) && TruthOf(closed, scope).Some? && Eval(closed, scope, row) == Num(0)
    ensures Truth(Binary(AndOp, x, closed), scope) == Truth(Binary(AndOp, closed, x), scope) == Some(false)
    ensures Truth(Call2(And, x, closed), scope) == Truth(Call2(And, closed, x), scope) == Some(false)
    ensures Eval(Binary(AndOp, x, closed), scope, row) in {Err, Num(0)}
  {
    hide Truth, Eval, TruthOf;
    ClosedIsDecided(closed, scope, row);
    SideDecides(x, closed, scope);
    SideDecides(closed, x, scope);
    BinaryEval(Binary(AndOp, x, closed), scope, row);
  }

  /** And one that is not 0 decides OR. */
  lemma OneDecidesOr(x: Expr, closed: Expr, scope: set<string>, row: Row)
    requires Legal(row) && TruthOf(closed, scope).Some? && Eval(closed, scope, row).Num? && Eval(closed, scope, row) != Num(0)
    ensures Truth(Binary(OrOp, x, closed), scope) == Truth(Binary(OrOp, closed, x), scope) == Some(true)
    ensures Truth(Call2(Or, x, closed), scope) == Truth(Call2(Or, closed, x), scope) == Some(true)
    ensures Eval(Binary(OrOp, x, closed), scope, row) in {Err, Num(1)}
  {
    hide Truth, Eval, TruthOf;
    ClosedIsDecided(closed, scope, row);
    SideDecides(x, closed, scope);
    SideDecides(closed, x, scope);
    BinaryEval(Binary(OrOp, x, closed), scope, row);
  }

  // ----- a call with a list of its own -----

  lemma {:induction false} ConcatReads(c: Expr, d: Expr, args: seq<Expr>)
    requires forall a :: a in args ==> Size(a) < Size(c) && Size(a) < Size(d)
    ensures ConcatText(c, args) == ConcatText(d, args)
    decreases args
  {
    hide ConstantText, RENDERED, Size;
    if args != [] {
      ConcatReads(c, d, args[1..]);
    }
  }

  /** `f(params)(args)` is read as `f(args)`, and a concat of nothing is no constant. */
  lemma ListOfItsOwn(f: Function, params: seq<Expr>, args: seq<Expr>, scope: set<string>)
    requires f != ToString
    ensures var own, plain := Call(f, params, true, args), Call(f, args, false, []);
            && Truth(own, scope) == Truth(plain, scope)
            && OperandValue(own, scope) == OperandValue(plain, scope)
            && ComparisonNumber(own) == ComparisonNumber(plain)
            && ConstantText(own) == ConstantText(plain)
            && (f == Concat && args == [] ==> ConstantText(own) == None)
  {
    var own, plain := Call(f, params, true, args), Call(f, args, false, []);
    assert Unwrap(own) == own && Unwrap(plain) == plain;
    assert Arguments(own) == Arguments(plain) == seq(|args|, i requires 0 <= i < |args| => Shelled(args[i]));
    TextOfList(own, plain);
    NumberOfList(own, plain);
    ValueOfList(own, plain, scope);
    hide CallValue, ConstantText, ComparisonNumber, Arguments;
  }

  lemma TextOfList(own: Expr, plain: Expr)
    requires Unwrap(own) == own && Unwrap(plain) == plain && own.Call? && plain.Call? && own.name == plain.name
    requires own.name != ToString && Arguments(own) == Arguments(plain)
    ensures ConstantText(own) == ConstantText(plain)
    ensures own.name == Concat && Arguments(own) == [] ==> ConstantText(own) == None
  {
    hide ConcatText, Arguments;
    ConcatReads(own, plain, Arguments(own));
  }

  lemma NumberOfList(own: Expr, plain: Expr)
    requires Unwrap(own) == own && Unwrap(plain) == plain && own.Call? && plain.Call? && own.name == plain.name
    requires Arguments(own) == Arguments(plain)
    ensures ComparisonNumber(own) == ComparisonNumber(plain)
  {
    hide Arguments, CastKeepsValue;
  }

  lemma ValueOfList(own: Expr, plain: Expr, scope: set<string>)
    requires Unwrap(own) == own && Unwrap(plain) == plain && own.Call? && plain.Call? && own.name == plain.name
    requires Arguments(own) == Arguments(plain)
    ensures CallValue(own, scope) == CallValue(plain, scope)
  {
    hide Arguments, BinaryTruth, ComparisonTruth, ConstantText, LowByte;
  }
}
