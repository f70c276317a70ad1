/**
 The families where the folder's arithmetic or text differs from the server's: for each of
 them the exact condition under which the folded answer is still right.
 */
module ConstantConditionFamilies {
  import opened Wrappers
  import opened SqlLexer
  import opened ConstantCondition
  import opened StringLiterals
  import opened ConstantConditionProofs
  import opened ConstantConditionComplete

  // ----- the families outside the fragment, and when they still agree -----

  /** The folder's answer for e, where it has one, is the branch of every row. */
  ghost predicate Agrees(e: Expr, scope: set<string>) {
    forall row :: Legal(row) && Truth(e, scope).Some? && !Eval(e, scope, row).Err? ==>
      TakesFirst(Eval(e, scope, row)) == Truth(e, scope).value
  }

  function N(n: int): Expr { Number(Some(n)) }

  function Call1(f: Function, a: Expr): Expr { Call(f, [a], false, []) }

  function PlainRow(): (row: Row)
    ensures Legal(row)
  {
    Row(_ => Null, _ => Null, _ => "0")
  }

  /** Reading a call of plain literals. */
  lemma CallOfTwo(f: Function, a: Expr, b: Expr, scope: set<string>, row: Row)
    requires f != Concat && !a.Column? && !b.Column?
    ensures var e := Call2(f, a, b);
            && Unwrap(e) == e && Arguments(e) == [a, b]
            && Eval(e, scope, row) == Apply2(f, Eval(a, scope, row), Eval(b, scope, row), e, row)
  {
    var e := Call2(f, a, b);
    assert Arguments(e)[0] == Shelled(e.params[0]) && Arguments(e)[1] == Shelled(e.params[1]);
  }

  lemma CallOfOne(f: Function, a: Expr, scope: set<string>, row: Row)
    requires f != Concat && !a.Column?
    ensures var e := Call1(f, a);
            && Unwrap(e) == e && Arguments(e) == [a]
            && Eval(e, scope, row) == Apply1(f, Eval(a, scope, row), e, row)
  {
    var e := Call1(f, a);
    assert Arguments(e)[0] == Shelled(e.params[0]);
  }

  lemma NumberReads(n: int, scope: set<string>, row: Row)
    ensures Literal(N(n)) == Some(n) && OperandValue(N(n), scope) == Some(n) && ComparisonNumber(N(n)) == Some(n)
    ensures Eval(N(n), scope, row) == Num(n)
  {
  }

  lemma NullIfReads(a: int, b: int, scope: set<string>, row: Row)
    ensures var e := Call2(NullIf, N(a), N(b));
            && CallValue(e, scope) == OperandValue(e, scope) == Some(if a == b then 0 else a)
            && Truth(e, scope) == Some(a != b && a != 0)
            && Eval(e, scope, row) == if a == b then Null else Num(a)
  {
    CallOfTwo(NullIf, N(a), N(b), scope, row);
    NumberReads(a, scope, row);
    NumberReads(b, scope, row);
  }

  /** NOT nullIf(a, b): the folder reads NULL as 0, so it errs exactly on equal operands. */
  lemma NotNullIfAgrees(a: int, b: int, scope: set<string>)
    ensures Agrees(Call1(Not, Call2(NullIf, N(a), N(b))), scope) <==> a != b
  {
    var x := Call2(NullIf, N(a), N(b));
    forall row: Row
      ensures Truth(Call1(Not, x), scope) == Some(!(a != b && a != 0))
      ensures Eval(Call1(Not, x), scope, row) == Not3(if a == b then Null else Num(a))
    {
      NullIfReads(a, b, scope, row);
      CallOfOne(Not, x, scope, row);
    }
    hide Eval, Truth;
    if a == b {
      assert !TakesFirst(Eval(Call1(Not, x), scope, PlainRow()));
    }
  }

  /** isNull(nullIf(a, b)) folds to false whatever the operands are. */
  lemma IsNullAgrees(a: int, b: int, scope: set<string>)
    ensures Agrees(Call1(IsNull, Call2(NullIf, N(a), N(b))), scope) <==> a != b
  {
    var x := Call2(NullIf, N(a), N(b));
    forall row: Row
      ensures Truth(Call1(IsNull, x), scope) == Some(false)
      ensures Eval(Call1(IsNull, x), scope, row) == Num(Flag(a == b))
    {
      NullIfReads(a, b, scope, row);
      CallOfOne(IsNull, x, scope, row);
    }
    hide Eval, Truth;
    if a == b {
      assert TakesFirst(Eval(Call1(IsNull, x), scope, PlainRow()));
    }
  }

  /** ifNull(nullIf(a, b), c): NULL is replaced by c on the server and by 0 in the folder. */
  lemma IfNullReads(a: int, b: int, c: int, scope: set<string>, row: Row)
    ensures var e := Call2(IfNull, Call2(NullIf, N(a), N(b)), N(c));
            && Truth(e, scope) == Some(a != b && a != 0)
            && Eval(e, scope, row) == Num(if a == b then c else a)
  {
    NullIfReads(a, b, scope, row);
    NumberReads(c, scope, row);
    CallOfTwo(IfNull, Call2(NullIf, N(a), N(b)), N(c), scope, row);
  }

  lemma IfNullAgrees(a: int, b: int, c: int, scope: set<string>)
    ensures Agrees(Call2(IfNull, Call2(NullIf, N(a), N(b)), N(c)), scope) <==> a != b || c == 0
  {
    var x := Call2(NullIf, N(a), N(b));
    var e := Call2(IfNull, x, N(c));
    forall row: Row
      ensures Truth(e, scope) == Some(a != b && a != 0)
      ensures Eval(e, scope, row) == Num(if a == b then c else a)
    {
      IfNullReads(a, b, c, scope, row);
    }
    hide Eval, Truth;
    if a == b && c != 0 {
      assert TakesFirst(Eval(e, scope, PlainRow()));
    }
  }

  /** CAST(n AS Bool): the folder keeps the low byte, the server tests for zero. */
  lemma BoolCastAgrees(n: int, scope: set<string>)
    ensures Agrees(Cast(N(n), Some(Bool)), scope) <==> n == 0 || n % 256 != 0
  {
    var e := Cast(N(n), Some(Bool));
    forall row: Row
      ensures Truth(e, scope) == Some(n % 256 != 0)
      ensures Eval(e, scope, row) == Num(Flag(n != 0))
    {
      NumberReads(n, scope, row);
      assert CallValue(e, scope) == Some(LowByte(n));
    }
    hide Eval, Truth;
    if n != 0 && n % 256 == 0 {
      assert TakesFirst(Eval(e, scope, PlainRow()));
    }
  }

  /** CAST(n AS Float32) = n folds to true; the server rounds n first. */
  lemma Float32Agrees(n: int, scope: set<string>)
    ensures Agrees(Binary(CompareOp(Eq), Cast(N(n), Some(Float32)), N(n)), scope) <==> RoundFloat32(n) == n
  {
    var x := Cast(N(n), Some(Float32));
    var e := Binary(CompareOp(Eq), x, N(n));
    forall row: Row
      ensures Truth(e, scope) == Some(true)
      ensures Eval(e, scope, row) == Num(Flag(RoundFloat32(n) == n))
    {
      hide RoundFloat32;
      NumberReads(n, scope, row);
      assert ComparisonNumber(x) == Some(n);
      assert Eval(x, scope, row) == Num(RoundFloat32(n));
    }
    hide Eval, Truth, RoundFloat32;
    if RoundFloat32(n) != n {
      assert !TakesFirst(Eval(e, scope, PlainRow()));
    }
  }

  /** The first integer that Float32 does not hold: CAST(16777217 AS Float32) = 16777217 folds wrong. */
  lemma Float32Example(scope: set<string>)
    ensures !Agrees(Binary(CompareOp(Eq), Cast(N(0x100_0001), Some(Float32)), N(0x100_0001)), scope)
  {
    FirstRounded();
    hide Agrees, RoundFloat32;
    Float32Agrees(0x100_0001, scope);
  }

  lemma FirstRounded()
    ensures RoundFloat32(0x100_0001) == 0x100_0000
  {
    assert Ulp(0x100_0001) == 2 * Ulp(0x80_0000);
  }

  /** empty('...') for a literal that decodes: wrong exactly for a text of quotes only. */
  lemma EmptyLiteralAgrees(raw: string, scope: set<string>)
    requires Decode(raw).Some?
    ensures Agrees(Call1(Empty, Text(raw)), scope) <==> !OnlyQuotes(raw)
  {
    var e := Call1(Empty, Text(raw));
    EmptyReadings(raw);
    forall row: Row
      ensures Truth(e, scope) == Some(raw == "" || OnlyQuotes(raw))
      ensures Eval(e, scope, row) == Num(Flag(raw == ""))
    {
      CallOfOne(Empty, Text(raw), scope, row);
      assert ConstantText(Text(raw)) == Some(TrimQuotes(raw));
    }
    hide Eval, Truth, OnlyQuotes;
    if OnlyQuotes(raw) {
      assert !TakesFirst(Eval(e, scope, PlainRow()));
    }
  }

  // ----- comparisons of literals -----

  lemma LiteralPairReads(op: Comparison, a: string, b: string, scope: set<string>, row: Row)
    requires Decode(a).Some? && Decode(b).Some?
    ensures var e := Binary(CompareOp(op), Text(a), Text(b));
            && Truth(e, scope) == ComparisonTruth(op, Text(a), Text(b))
            && Eval(e, scope, row) == Num(Flag(Ordered(op, OrderText(Decode(a).value, Decode(b).value))))
  {
    hide Decode, TrimQuotes, OrderText, Ordered, ComparisonTruth, ConstantText, ComparisonNumber, EqualFold;
    LiteralReads(Text(a), scope, row);
    LiteralReads(Text(b), scope, row);
  }

  /**
   Main result for literals: a comparison is right exactly when it is left open or the
   trimmed texts compare as the decoded ones.
   */
  lemma LiteralsAgree(op: Comparison, a: string, b: string, scope: set<string>)
    requires Decode(a).Some? && Decode(b).Some?
    ensures Agrees(Binary(CompareOp(op), Text(a), Text(b)), scope) <==>
            IsOpen(a, b) ||
            Ordered(op, OrderText(TrimQuotes(a), TrimQuotes(b))) == Ordered(op, OrderText(Decode(a).value, Decode(b).value))
  {
    hide Decode, TrimQuotes, OrderText, IsOpen, Ordered, Eval, Truth, ComparisonTruth, EqualFold;
    var e := Binary(CompareOp(op), Text(a), Text(b));
    forall row: Row
      ensures Truth(e, scope) == ComparisonTruth(op, Text(a), Text(b))
      ensures Eval(e, scope, row) == Num(Flag(Ordered(op, OrderText(Decode(a).value, Decode(b).value))))
    {
      LiteralPairReads(op, a, b, scope, row);
    }
    LiteralsFold(op, a, b);
    assert TakesFirst(Eval(e, scope, PlainRow())) == Ordered(op, OrderText(Decode(a).value, Decode(b).value));
  }

  /** The class a caller can check: no escape, no doubled quote, no quote at either end. */
  lemma FaithfulAgree(op: Comparison, a: string, b: string, scope: set<string>)
    requires IsFaithful(a) && IsFaithful(b)
    ensures Agrees(Binary(CompareOp(op), Text(a), Text(b)), scope)
  {
    hide Decode, TrimQuotes, OrderText, Agrees, Truth;
    FaithfulReads(a);
    FaithfulReads(b);
    LiteralsAgree(op, a, b, scope);
  }

  /** Equal texts on the server, different ones after trimming. */
  lemma TrimmedApart(a: string, b: string, scope: set<string>)
    requires Decode(a).Some? && Decode(b).Some? && Decode(a) == Decode(b)
    requires TrimQuotes(a) != TrimQuotes(b) && !IsOpen(a, b)
    ensures !Agrees(Binary(CompareOp(Eq), Text(a), Text(b)), scope)
  {
    hide Decode, TrimQuotes, IsOpen, Agrees;
    OrderIsEquality(TrimQuotes(a), TrimQuotes(b));
    OrderIsEquality(Decode(a).value, Decode(b).value);
    LiteralsAgree(Eq, a, b, scope);
  }

  /** A tab written as an escape, and as itself: equal on the server, folded to different. */
  lemma EscapeExample(scope: set<string>)
    ensures !Agrees(Binary(CompareOp(Eq), Text("a\\tb"), Text("a\tb")), scope)
  {
    var a, b := "a\\tb", "a\tb";
    assert a[1..] == "\\tb" && a[1..][2..] == "b" && b[1..] == "\tb" && b[1..][1..] == "b" && "b"[1..] == "";
    TrimmedHasNoEnds(a);
    TrimmedHasNoEnds(b);
    NotOpen(a, b);
    TrimmedApart(a, b, scope);
  }

  /** A quote written in the two ways: equal on the server, folded to different. */
  lemma QuoteExample(scope: set<string>)
    ensures !Agrees(Binary(CompareOp(Eq), Text("i''s"), Text("i\\'s")), scope)
  {
    var a, b := "i''s", "i\\'s";
    assert a[1..] == "''s" && a[1..][2..] == "s" && b[1..] == "\\'s" && b[1..][2..] == "s" && "s"[1..] == "";
    TrimmedHasNoEnds(a);
    TrimmedHasNoEnds(b);
    NotOpen(a, b);
    TrimmedApart(a, b, scope);
  }

  /** Quotes at the ends are text on the server, and cut off by the folder. */
  lemma OuterQuoteExample(scope: set<string>)
    ensures !Agrees(Binary(CompareOp(Eq), Text("''a''"), Text("a")), scope)
  {
    var a, b := "''a''", "a";
    OuterQuoteReads();
    NotOpen(a, b);
    OrderIsEquality(b, b);
    OrderIsEquality(Decode(a).value, b);
    LiteralsAgree(Eq, a, b, scope);
  }

  lemma OuterQuoteReads()
    ensures TrimQuotes("''a''") == "a" == TrimQuotes("a")
    ensures Decode("a") == Some("a") && Decode("''a''").Some? && Decode("''a''").value != "a"
  {
    var a := "''a''";
    assert a[1..] == "'a''" && a[1..][1..] == "a''" && a[2..] == "a''" && a[2..][1..] == "''" && "''"[2..] == "";
    assert "a''"[..2] == "a'" && "a'"[..1] == "a" && "a"[1..] == "";
    assert TrimRight("a''") == TrimRight("a'") == "a";
    assert ["a"[0]] + "" == "a";
    DecodeKeepsEnds(a);
  }

  lemma {:induction false} OrderIsEquality(a: string, b: string)
    ensures OrderText(a, b) == 0 <==> a == b
  {
    if a != "" && b != "" {
      OrderIsEquality(a[1..], b[1..]);
      assert a == [a[0]] + a[1..] && b == [b[0]] + b[1..];
    }
  }

  /** The text of a printed number starts with a NUL. */
  lemma NotOpen(a: string, b: string)
    requires '\0' !in TrimQuotes(a) && '\0' !in TrimQuotes(b)
    ensures !IsOpen(a, b)
  {
    assert RENDERED[0] in RENDERED;
  }
}
