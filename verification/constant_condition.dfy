/**
 The folder that decides which branch of an `if` is dead.  It evaluates the constant
 part of a condition without looking at any row.  Numbers are exact integers: the
 source reads literals as float64, which holds every integer up to 2^53.
 */
module ConstantCondition {
  import opened Wrappers
  import opened SqlLexer

  datatype Comparison = Eq | Ne | Lt | Le | Gt | Ge

  datatype TypeName =
    | Int8 | Int16 | Int32 | Int64 | UInt8 | UInt16 | UInt32 | UInt64
    | Float32 | Float64 | Bool | OtherType

  /** A function by its case-insensitive name; Convert(T) is toT. */
  datatype Function =
    | Empty | NotEmpty | IsNull | IsNotNull | Not | NullIf | IfNull | And | Or
    | Compare(op: Comparison) | Convert(to: TypeName) | ToBool | Concat | ToString | OtherFunction

  datatype UnaryOp = Negate | NotOp | OtherUnary

  datatype BinaryOp = AndOp | OrOp | CompareOp(op: Comparison) | OtherBinary

  /**
   The node kinds the folder tells apart.  Column is the shell of an argument, Params a
   parenthesised list, and a number whose text has no numeric reading is Number(None).
   */
  datatype Expr =
    | Column(inner: Expr)
    | Params(items: seq<Expr>, isArgumentList: bool)
    | Ident(word: string)
    | BoolLiteral(truth: Option<bool>)
    | Number(value: Option<int>)
    | Text(raw: string)
    | Unary(unary: UnaryOp, operand: Expr)
    | Binary(binary: BinaryOp, left: Expr, right: Expr)
    | Call(name: Function, params: seq<Expr>, hasColumnArgs: bool, columnArgs: seq<Expr>)
    | Cast(source: Expr, target: Option<TypeName>)
    | Other(id: int)

  function Size(e: Expr): (n: nat)
    ensures n >= 1
    decreases e, 0
  {
    match e
    case Column(x) => 1 + Size(x)
    case Params(items, _) => 1 + Sizes(items)
    case Unary(_, x) => 1 + Size(x)
    case Binary(_, l, r) => 1 + Size(l) + Size(r)
    case Call(_, params, _, args) => 2 + Sizes(params) + Sizes(args)
    case Cast(x, _) => 1 + Size(x)
    case _ => 1
  }

  function Sizes(es: seq<Expr>): nat
    decreases es, 0
  {
    if es == [] then 0 else Size(es[0]) + Sizes(es[1..])
  }

  lemma {:induction false} SizesBound(es: seq<Expr>)
    ensures forall e :: e in es ==> Size(e) <= Sizes(es)
    ensures |es| == 2 ==> Sizes(es) == Size(es[0]) + Size(es[1])
  {
    if es != [] {
      SizesBound(es[1..]);
      assert forall e :: e in es ==> e == es[0] || e in es[1..];
      if |es| == 2 {
        assert Sizes(es[1..]) == Size(es[1]) + Sizes(es[1..][1..]);
      }
    }
  }

  /** Removes argument shells and redundant parentheses. */
  function Unwrap(e: Expr): (u: Expr)
    ensures Size(u) <= Size(e)
    ensures u.Params? ==> u.isArgumentList || |u.items| != 1
    ensures !u.Column?
    decreases Size(e)
  {
    match e
    case Column(x) => Unwrap(x)
    case Params(items, columnArgs) => if columnArgs || |items| != 1 then e else SizesBound(items); Unwrap(items[0])
    case _ => e
  }

  function Shelled(e: Expr): (x: Expr)
    ensures Size(x) <= Size(e)
  {
    if e.Column? then e.inner else e
  }

  function Arguments(call: Expr): (args: seq<Expr>)
    requires call.Call?
    ensures forall a :: a in args ==> Size(a) < Size(call)
    ensures |args| == 2 ==> Size(args[0]) + Size(args[1]) + 1 < Size(call)
  {
    var items := if call.hasColumnArgs then call.columnArgs else call.params;
    var args := seq(|items|, i requires 0 <= i < |items| => Shelled(items[i]));
    SizesBound(items);
    assert forall i :: 0 <= i < |items| ==> items[i] in items;
    args
  }

  function LowByte(n: int): int { n % 256 }

  // ----- literals -----

  /** A numeric literal under any number of minus signs. */
  function Literal(e: Expr): Option<int>
    decreases Size(e)
  {
    var u := Unwrap(e);
    match u
    case Number(v) => v
    case Unary(Negate, x) => (var v :- Literal(x); Some(-v))
    case _ => None
  }

  /** Stands for the unknown text of a printed number; no literal holds a NUL. */
  const RENDERED: string := "\0rendered-number"

  function TrimQuotes(s: string): string {
    TrimRight(TrimLeft(s))
  }

  function TrimLeft(s: string): string {
    if s != "" && s[0] == '\'' then TrimLeft(s[1..]) else s
  }

  function TrimRight(s: string): string {
    if s != "" && s[|s| - 1] == '\'' then TrimRight(s[..|s| - 1]) else s
  }

  /** The text of a constant string; RENDERED when only its being non-empty is known. */
  function ConstantText(e: Expr): Option<string>
    decreases Size(e), 0
  {
    var u := Unwrap(e);
    match u
    case Text(raw) => Some(TrimQuotes(raw))
    case Call(Concat, _, _, _) =>
      if Arguments(u) == [] then None else ConcatText(u, Arguments(u))
    case Call(ToString, params, _, _) =>
      if |params| == 1 && Literal(params[0]).Some? then Some(RENDERED) else None
    case _ => None
  }

  function ConcatText(ghost call: Expr, args: seq<Expr>): Option<string>
    requires forall a :: a in args ==> Size(a) < Size(call)
    decreases Size(call), 0, |args|
  {
    if args == [] then Some("")
    else
      var text :- ConstantText(args[0]);
      if text == RENDERED then None
      else
        var rest :- ConcatText(call, args[1..]);
        Some(text + rest)
  }

  // ----- comparisons -----

  /** Sign of the order of two texts, byte by byte. */
  function OrderText(a: string, b: string): int {
    if a == "" then if b == "" then 0 else -1
    else if b == "" then 1
    else if a[0] < b[0] then -1
    else if a[0] > b[0] then 1
    else OrderText(a[1..], b[1..])
  }

  /** The comparison of two values whose difference has the sign of d. */
  predicate Ordered(op: Comparison, d: int) {
    match op
    case Eq => d == 0
    case Ne => d != 0
    case Lt => d < 0
    case Le => d <= 0
    case Gt => d > 0
    case Ge => d >= 0
  }

  predicate CastKeepsValue(t: TypeName, n: int) {
    match t
    case Int8 => -128 <= n <= 127
    case Int16 => -32768 <= n <= 32767
    case Int32 => -0x8000_0000 <= n <= 0x7fff_ffff
    case Int64 => -0x8000_0000_0000_0000 <= n <= 0x7fff_ffff_ffff_ffff
    case UInt8 => 0 <= n <= 255
    case UInt16 => 0 <= n <= 65535
    case UInt32 => 0 <= n <= 0xffff_ffff
    case UInt64 => 0 <= n <= 0xffff_ffff_ffff_ffff
    case Float32 => true
    case Float64 => true
    case _ => false
  }

  /** The numeric value of a comparison operand. */
  function ComparisonNumber(e: Expr): Option<int>
    decreases Size(e)
  {
    if Literal(e).Some? then Literal(e)
    else
      var u := Unwrap(e);
      match u
      case Cast(x, Some(t)) =>
        var n :- ComparisonNumber(x);
        if CastKeepsValue(t, n) then Some(n) else None
      case Call(NullIf, _, _, _) =>
        var args := Arguments(u);
        if |args| != 2 then None
        else
          var l :- ComparisonNumber(args[0]);
          var r :- ComparisonNumber(args[1]);
          if l == r then None else Some(l)
      case Call(IfNull, _, _, _) =>
        var args := Arguments(u);
        if |args| != 2 then None
        else
          var l :- ComparisonNumber(args[0]);
          var _ :- ComparisonNumber(args[1]);
          Some(l)
      case Call(Convert(t), _, _, _) =>
        var args := Arguments(u);
        if |args| != 1 then None
        else
          var n :- ComparisonNumber(args[0]);
          if CastKeepsValue(t, n) then Some(n) else None
      case _ => None
  }

  function ComparisonTruth(op: Comparison, left: Expr, right: Expr): Option<bool> {
    if ComparisonNumber(left).Some? then
      var r :- ComparisonNumber(right);
      Some(Ordered(op, ComparisonNumber(left).value - r))
    else
      var l :- ConstantText(left);
      var r :- ConstantText(right);
      if l != RENDERED && r != RENDERED then Some(Ordered(op, OrderText(l, r)))
      else if l == RENDERED && r == RENDERED then None
      else if l == RENDERED then if r != "" then None else Some(Ordered(op, 1))
      else if l != "" then None else Some(Ordered(op, -1))
  }

  // ----- conditions, calls and operands -----

  function Flag(t: bool): int { if t then 1 else 0 }

  /** The truth of a condition that is constant; scope holds the names that shadow keywords. */
  function Truth(e: Expr, scope: set<string>): Option<bool>
    decreases Size(e), 3
  {
    var u := Unwrap(e);
    match u
    case Ident(name) =>
      if name in scope then None
      else if EqualFold(name, "true") then Some(true)
      else if EqualFold(name, "false") then Some(false)
      else None
    case BoolLiteral(t) => t
    case Number(Some(n)) => Some(n != 0)
    case Unary(NotOp, x) => (var t :- Truth(x, scope); Some(!t))
    case Unary(Negate, Number(Some(n))) => Some(n != 0)
    case Binary(op, l, r) => BinaryTruth(op, l, r, scope)
    case Call(_, _, _, _) => (var n :- CallValue(u, scope); Some(n != 0))
    case Cast(_, _) => (var n :- CallValue(u, scope); Some(n != 0))
    case _ => None
  }

  function BinaryTruth(op: BinaryOp, l: Expr, r: Expr, scope: set<string>): Option<bool>
    decreases Size(l) + Size(r) + 1, 0
  {
    match op
    case AndOp =>
      var lt, rt := Truth(l, scope), Truth(r, scope);
      if lt == Some(false) || rt == Some(false) then Some(false)
      else if lt.Some? && rt.Some? then Some(true)
      else None
    case OrOp =>
      var lt, rt := Truth(l, scope), Truth(r, scope);
      if lt == Some(true) || rt == Some(true) then Some(true)
      else if lt.Some? && rt.Some? then Some(false)
      else None
    case CompareOp(c) => ComparisonTruth(c, l, r)
    case OtherBinary => None
  }

  /** The value of a constant operand of a call. */
  function OperandValue(e: Expr, scope: set<string>): Option<int>
    decreases Size(e), 4
  {
    if Literal(e).Some? then Literal(e)
    else
      match Unwrap(e)
      case Call(_, _, _, _) => CallValue(e, scope)
      case Cast(_, _) => CallValue(e, scope)
      case Ident(_) => (var t :- Truth(e, scope); Some(Flag(t)))
      case BoolLiteral(_) => (var t :- Truth(e, scope); Some(Flag(t)))
      case _ => None
  }

  /** The value of a constant call whose type is UInt8, Bool or Nullable of those. */
  function CallValue(e: Expr, scope: set<string>): Option<int>
    decreases Size(e), 2
  {
    var u := Unwrap(e);
    match u
    case Cast(x, Some(t)) =>
      if t != UInt8 && t != Bool then None
      else
        var n :- OperandValue(x, scope);
        Some(LowByte(n))
    case Call(f, _, _, _) =>
      var args := Arguments(u);
      (match f
       case Empty => if |args| != 1 then None else (var t :- ConstantText(args[0]); Some(Flag(t == "")))
       case NotEmpty => if |args| != 1 then None else (var t :- ConstantText(args[0]); Some(Flag(t != "")))
       case IsNull => if |args| != 1 then None else (var _ :- OperandValue(args[0], scope); Some(0))
       case IsNotNull => if |args| != 1 then None else (var _ :- OperandValue(args[0], scope); Some(1))
       case Not => if |args| != 1 then None else (var t :- Truth(args[0], scope); Some(Flag(!t)))
       case ToBool => if |args| != 1 then None else (var n :- OperandValue(args[0], scope); Some(Flag(n != 0)))
       case Convert(t) =>
         if t != UInt8 || |args| != 1 then None
         else (var n :- OperandValue(args[0], scope); Some(LowByte(n)))
       case NullIf =>
         if |args| != 2 then None
         else
           var l :- OperandValue(args[0], scope);
           var r :- OperandValue(args[1], scope);
           Some(if l == r then 0 else l)
       case IfNull =>
         if |args| != 2 then None
         else
           var l :- OperandValue(args[0], scope);
           var _ :- OperandValue(args[1], scope);
           Some(l)
       case And => if |args| != 2 then None else (var t :- BinaryTruth(AndOp, args[0], args[1], scope); Some(Flag(t)))
       case Or => if |args| != 2 then None else (var t :- BinaryTruth(OrOp, args[0], args[1], scope); Some(Flag(t)))
       case Compare(c) => if |args| != 2 then None else (var t :- ComparisonTruth(c, args[0], args[1]); Some(Flag(t)))
       case _ => None)
    case _ => None
  }
}
