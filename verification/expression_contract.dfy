/**
 The two lowerings of chgen.assumeType(expression, 'Type').

 The resolver sees an internal call that keeps both arguments; the server sees
 only the parenthesised expression.  Rewrite is the specification of one lowering,
 RewriteExpressionContracts is the loop of the source, and the lemmas at the end
 relate the two lowerings of one source to each other.
 */
module ExpressionContract {
  import opened Wrappers
  import opened SqlLexer
  import opened TextLines

  const MACRO: string := "chgen.assumeType"
  const FUNCTION: string := "__chgen_assume_type"

  function Shift(o: Option<nat>, k: nat): Option<nat> {
    if o.None? then None else Some(o.value + k)
  }

  predicate Opens(c: char) { c == '(' || c == '[' }

  predicate Closes(c: char) { c == ')' || c == ']' }

  /** At depth d, does the code character c end the current argument? */
  predicate Stops(c: char, d: nat) {
    (Closes(c) && d <= 1) || (c == ',' && d == 1)
  }

  function Depth(c: char, d: nat): nat
    requires !Stops(c, d)
  {
    if Opens(c) then d + 1 else if Closes(c) then d - 1 else d
  }

  /** Offset of the first code character that ends the argument s is inside of. */
  function Stop(s: string, d: nat): (k: Option<nat>)
    ensures k.Some? ==> k.value < |s|
    decreases |s|
  {
    if s == "" then None
    else if DataLen(s) > 0 then Shift(Stop(s[DataLen(s)..], d), DataLen(s))
    else if Stops(s[0], d) then Some(0)
    else Shift(Stop(s[1..], Depth(s[0], d)), 1)
  }

  /** The depth after all of s, when nothing in s ends the argument. */
  function Flow(s: string, d: nat): Option<nat>
    decreases |s|
  {
    if s == "" then Some(d)
    else if DataLen(s) > 0 then Flow(s[DataLen(s)..], d)
    else if Stops(s[0], d) then None
    else Flow(s[1..], Depth(s[0], d))
  }

  /** t follows an opening parenthesis: where its one comma is, and its end. */
  function Bounds(t: string): (b: Option<(nat, nat)>)
    ensures b.Some? ==> b.value.0 < b.value.1 < |t|
  {
    var comma :- Stop(t, 1);
    if t[comma] != ',' then None
    else
      var k :- Stop(t[comma + 1..], 1);
      var close := comma + 1 + k;
      if t[close] == ',' || AllSpace(t[..comma]) then None else Some((comma, close))
  }

  /** The arguments of a macro call, and the text after it. */
  datatype Call = Call(inner: string, typeArgument: string, close: char, rest: string)

  function CallOf(t: string): (c: Option<Call>)
    ensures c.Some? ==>
              t == c.value.inner + c.value.typeArgument + [c.value.close] + c.value.rest
  {
    var (comma, close) :- Bounds(t);
    Some(Call(t[..comma], t[comma..close], t[close], t[close + 1..]))
  }

  predicate MacroAt(prev: char, s: string) {
    WordAt(prev, s, MACRO) && prev != '.'
  }

  function MacroCall(s: string): (c: Option<Call>)
    requires |MACRO| <= |s|
    ensures c.Some? ==> |c.value.inner| < |s| && |c.value.rest| < |s|
  {
    var open := SkipBlanks(s, |MACRO|);
    if open == |s| || s[open] != '(' then None else CallOf(s[open + 1..])
  }

  /** One lowering of s, where prev is the byte before it; None is a refusal. */
  function Rewrite(prev: char, s: string, runtime: bool): Option<string>
    decreases |s|
  {
    if s == "" then Some("")
    else if DataLen(s) > 0 then
      var n := DataLen(s);
      var rest :- Rewrite(s[n - 1], s[n..], runtime);
      Some(s[..n] + rest)
    else if WordAt(prev, s, FUNCTION) then None
    else if !MacroAt(prev, s) then
      var rest :- Rewrite(s[0], s[1..], runtime);
      Some([s[0]] + rest)
    else
      var call :- MacroCall(s);
      var inner :- Rewrite(' ', call.inner, runtime);
      var rest :- Rewrite(call.close, call.rest, runtime);
      Some(Lowered(inner, call.typeArgument, runtime) + rest)
  }

  function Lowered(inner: string, typeArgument: string, runtime: bool): string {
    if runtime then "(" + inner + ")" else FUNCTION + "(" + inner + typeArgument + ")"
  }

  // ----- the same functions at an offset of the whole text -----

  function StopAt(s: string, i: nat, d: nat): (k: Option<nat>)
    requires i <= |s|
    ensures k.Some? ==> i <= k.value < |s|
    decreases |s| - i
  {
    if i == |s| then None
    else if DataEnd(s, i) > i then StopAt(s, DataEnd(s, i), d)
    else if Stops(s[i], d) then Some(i)
    else StopAt(s, i + 1, Depth(s[i], d))
  }

  lemma {:induction false} StopAtShift(s: string, i: nat, d: nat)
    requires i <= |s|
    ensures StopAt(s, i, d) == Shift(Stop(s[i..], d), i)
    decreases |s| - i
  {
    hide DataEnd, DataLen, Stops, Depth;
    if i < |s| {
      DataLenAt(s, i);
      if DataEnd(s, i) > i {
        StopAtShift(s, DataEnd(s, i), d);
        assert s[i..][DataEnd(s, i) - i..] == s[DataEnd(s, i)..];
      } else if !Stops(s[i], d) {
        StopAtShift(s, i + 1, Depth(s[i], d));
        assert s[i..][1..] == s[i + 1..];
      }
    }
  }

  function BoundsAt(s: string, open: nat): (b: Option<(nat, nat)>)
    requires open < |s|
    ensures b.Some? ==> open < b.value.0 < b.value.1 < |s|
  {
    var comma :- StopAt(s, open + 1, 1);
    if s[comma] != ',' then None
    else
      var close :- StopAt(s, comma + 1, 1);
      if s[close] == ',' || AllSpace(s[open + 1..comma]) then None else Some((comma, close))
  }

  lemma BoundsAtShift(s: string, open: nat)
    requires open < |s|
    ensures var b, at := Bounds(s[open + 1..]), BoundsAt(s, open);
            if b.None? then at.None? else at == Some((open + 1 + b.value.0, open + 1 + b.value.1))
  {
    hide Stop, StopAt;
    var t := s[open + 1..];
    StopAtShift(s, open + 1, 1);
    var comma := Stop(t, 1);
    if comma.Some? {
      var k := open + 1 + comma.value;
      StopAtShift(s, k + 1, 1);
      assert t[comma.value + 1..] == s[k + 1..];
      assert t[..comma.value] == s[open + 1..k];
    }
  }

  function Append(out: string, rest: Option<string>): Option<string> {
    if rest.None? then None else Some(out + rest.value)
  }

  lemma AppendAppend(a: string, b: string, rest: Option<string>)
    ensures Append(a, Append(b, rest)) == Append(a + b, rest)
    ensures Append("", rest) == rest && Append(a, Some("")) == Some(a)
  {
    if rest.Some? {
      assert a + (b + rest.value) == (a + b) + rest.value;
      assert "" + rest.value == rest.value;
    }
    assert a + "" == a;
  }

  function RewriteAt(s: string, i: nat, runtime: bool): Option<string>
    requires i <= |s|
    decreases |s|, |s| - i
  {
    if i == |s| then Some("")
    else if DataEnd(s, i) > i then Append(s[i..DataEnd(s, i)], RewriteAt(s, DataEnd(s, i), runtime))
    else if KeywordAt(s, i, FUNCTION) then None
    else if !KeywordAt(s, i, MACRO) || Before(s, i) == '.' then
      Append([s[i]], RewriteAt(s, i + 1, runtime))
    else
      var open := SkipBlanks(s, i + |MACRO|);
      if open == |s| || s[open] != '(' then None
      else
        var (comma, close) :- BoundsAt(s, open);
        var inner :- RewriteAt(s[open + 1..comma], 0, runtime);
        Append(Lowered(inner, s[comma..close], runtime), RewriteAt(s, close + 1, runtime))
  }

  lemma Slices(s: string, i: nat, a: nat, b: nat)
    requires i <= a <= b <= |s|
    ensures s[i..][a - i..b - i] == s[a..b] && s[i..][a - i..] == s[a..] && s[i..][..b - i] == s[i..b]
  {
  }

  function CallBetween(s: string, open: nat): Option<Call>
    requires open < |s|
  {
    match BoundsAt(s, open)
    case None => None
    case Some(b) => Some(Call(s[open + 1..b.0], s[b.0..b.1], s[b.1], s[b.1 + 1..]))
  }

  lemma CallOfAt(s: string, open: nat)
    requires open < |s|
    ensures CallOf(s[open + 1..]) == CallBetween(s, open)
  {
    hide Bounds, BoundsAt;
    BoundsAtShift(s, open);
    if BoundsAt(s, open).Some? {
      var (comma, close) := BoundsAt(s, open).value;
      Slices(s, open + 1, open + 1, comma);
      Slices(s, open + 1, comma, close);
      Slices(s, open + 1, close + 1, close + 1);
    }
  }

  lemma CallAt(s: string, i: nat)
    requires i < |s| && |MACRO| <= |s[i..]|
    ensures var open := SkipBlanks(s, i + |MACRO|);
            MacroCall(s[i..]) == if open == |s| || s[open] != '(' then None else CallBetween(s, open)
  {
    hide MACRO, CallOf, CallBetween, SkipBlanks;
    SkipBlanksShift(s, i, i + |MACRO|);
    var open := SkipBlanks(s, i + |MACRO|);
    if open < |s| && s[open] == '(' {
      Slices(s, i, open + 1, open + 1);
      CallOfAt(s, open);
    }
  }

  lemma {:induction false} RewriteAtShift(s: string, i: nat, runtime: bool)
    requires i <= |s|
    ensures RewriteAt(s, i, runtime) == Rewrite(Before(s, i), s[i..], runtime)
    decreases |s|, |s| - i
  {
    hide MACRO, FUNCTION, DataEnd, WordAt, MacroCall, BoundsAt, SkipBlanks, Lowered;
    if i < |s| {
      DataLenAt(s, i);
      var end := DataEnd(s, i);
      if end > i {
        RewriteAtShift(s, end, runtime);
        assert s[i..][end - i..] == s[end..] && s[i..][..end - i] == s[i..end];
      } else if KeywordAt(s, i, FUNCTION) {
      } else if !KeywordAt(s, i, MACRO) || Before(s, i) == '.' {
        RewriteAtShift(s, i + 1, runtime);
        assert s[i..][1..] == s[i + 1..];
      } else {
        RewriteAtShiftMacro(s, i, runtime);
      }
    }
  }

  lemma {:induction false} RewriteAtShiftMacro(s: string, i: nat, runtime: bool)
    requires i < |s| && DataEnd(s, i) == i && DataLen(s[i..]) == 0
    requires !KeywordAt(s, i, FUNCTION) && KeywordAt(s, i, MACRO) && Before(s, i) != '.'
    ensures RewriteAt(s, i, runtime) == Rewrite(Before(s, i), s[i..], runtime)
    decreases |s|, |s| - i, 0
  {
    hide MACRO, FUNCTION, DataEnd, DataLen, WordAt, MacroCall, BoundsAt, SkipBlanks, Lowered, RewriteAt, Rewrite, Append;
    MacroFits(Before(s, i), s[i..]);
    CallAt(s, i);
    MacroStep(s, i, runtime);
    RewriteMacro(Before(s, i), s[i..], runtime);
    var open := SkipBlanks(s, i + |MACRO|);
    if MacroCall(s[i..]).Some? {
      var (comma, close) := BoundsAt(s, open).value;
      var inner := s[open + 1..comma];
      assert inner[0..] == inner;
      RewriteAtShift(inner, 0, runtime);
      RewriteAtShift(s, close + 1, runtime);
    }
  }

  lemma MacroFits(prev: char, s: string)
    requires WordAt(prev, s, MACRO)
    ensures |MACRO| <= |s|
  {
  }

  /** One step of RewriteAt where no macro starts. */
  lemma CopyStep(s: string, i: nat, runtime: bool)
    requires i < |s|
    ensures DataEnd(s, i) > i ==>
              RewriteAt(s, i, runtime) == Append(s[i..DataEnd(s, i)], RewriteAt(s, DataEnd(s, i), runtime))
    ensures DataEnd(s, i) == i && KeywordAt(s, i, FUNCTION) ==> RewriteAt(s, i, runtime) == None
    ensures DataEnd(s, i) == i && !KeywordAt(s, i, FUNCTION) && (!KeywordAt(s, i, MACRO) || Before(s, i) == '.') ==>
              RewriteAt(s, i, runtime) == Append([s[i]], RewriteAt(s, i + 1, runtime))
  {
    hide MACRO, FUNCTION, DataEnd, WordAt, BoundsAt, SkipBlanks, Lowered, Append;
  }

  /** The same step of Rewrite. */
  lemma RewriteMacro(prev: char, s: string, runtime: bool)
    requires s != "" && DataLen(s) == 0 && !WordAt(prev, s, FUNCTION) && MacroAt(prev, s)
    ensures Rewrite(prev, s, runtime) ==
            match MacroCall(s)
            case None => None
            case Some(call) =>
              var inner := Rewrite(' ', call.inner, runtime);
              if inner.None? then None
              else Append(Lowered(inner.value, call.typeArgument, runtime), Rewrite(call.close, call.rest, runtime))
  {
    hide MACRO, FUNCTION, WordAt, MacroAt, MacroCall, Lowered, DataLen;
  }

  lemma RewriteEnd(s: string, runtime: bool)
    ensures RewriteAt(s, |s|, runtime) == Some("")
  {
  }

  /** One step of RewriteAt over a macro. */
  lemma MacroStep(s: string, i: nat, runtime: bool)
    requires i < |s| && DataEnd(s, i) == i && i + |MACRO| <= |s|
    requires !KeywordAt(s, i, FUNCTION) && KeywordAt(s, i, MACRO) && Before(s, i) != '.'
    ensures var open := SkipBlanks(s, i + |MACRO|);
            RewriteAt(s, i, runtime) ==
            if open == |s| || s[open] != '(' || BoundsAt(s, open).None? then None
            else
              var (comma, close) := BoundsAt(s, open).value;
              var inner := RewriteAt(s[open + 1..comma], 0, runtime);
              if inner.None? then None
              else Append(Lowered(inner.value, s[comma..close], runtime), RewriteAt(s, close + 1, runtime))
  {
    hide MACRO, FUNCTION, DataEnd, WordAt, BoundsAt, SkipBlanks, Lowered, Append;
  }

  // ----- the loops of the source -----

  method ExpressionContractBounds(sql: string, open: nat) returns (bounds: Option<(nat, nat)>)
    requires open < |sql|
    ensures bounds == BoundsAt(sql, open)
  {
    hide DataEnd;
    var depth, comma := 1, -1;
    var i := open + 1;
    while i < |sql|
      invariant open < i <= |sql| && 1 <= depth && comma < i
      invariant comma < 0 ==> StopAt(sql, open + 1, 1) == StopAt(sql, i, depth)
      invariant comma >= 0 ==>
                  && comma > open && sql[comma] == ',' && StopAt(sql, open + 1, 1) == Some(comma)
                  && StopAt(sql, comma + 1, 1) == StopAt(sql, i, depth)
    {
      var end := SqlDataEnd(sql, i);
      if end > i {
        i := end;
        continue;
      }
      if Opens(sql[i]) {
        depth := depth + 1;
      } else if Closes(sql[i]) {
        depth := depth - 1;
        if depth == 0 {
          if comma < 0 || AllSpace(sql[open + 1..comma]) {
            return None;
          }
          return Some((comma, i));
        }
      } else if sql[i] == ',' && depth == 1 {
        if comma >= 0 {
          return None;
        }
        comma := i;
      }
      i := i + 1;
    }
    return None;
  }

  method RewriteExpressionContracts(sql: string, runtime: bool) returns (lowered: Option<string>)
    ensures lowered == RewriteAt(sql, 0, runtime)
    ensures lowered == Rewrite(' ', sql, runtime)
    decreases |sql|
  {
    hide MACRO, FUNCTION, DataEnd, SkipBlanks, BoundsAt, Rewrite, RewriteAt, Lowered, WordAt;
    RewriteAtShift(sql, 0, runtime);
    assert sql[0..] == sql;
    var out := "";
    var i := 0;
    AppendAppend("", "", RewriteAt(sql, 0, runtime));
    while i < |sql|
      invariant i <= |sql|
      invariant RewriteAt(sql, 0, runtime) == Append(out, RewriteAt(sql, i, runtime))
      decreases |sql| - i
    {
      CopyStep(sql, i, runtime);
      var end := SqlDataEnd(sql, i);
      if end > i {
        AppendAppend(out, sql[i..end], RewriteAt(sql, end, runtime));
        out := out + sql[i..end];
        i := end;
        continue;
      }
      if KeywordAt(sql, i, FUNCTION) {
        return None;
      }
      if !KeywordAt(sql, i, MACRO) || (i > 0 && sql[i - 1] == '.') {
        AppendAppend(out, [sql[i]], RewriteAt(sql, i + 1, runtime));
        out := out + [sql[i]];
        i := i + 1;
        continue;
      }
      MacroFits(Before(sql, i), sql[i..]);
      MacroStep(sql, i, runtime);
      var open := SkipWhitespace(sql, i + |MACRO|);
      if open >= |sql| || sql[open] != '(' {
        return None;
      }
      var bounds := ExpressionContractBounds(sql, open);
      if bounds.None? {
        return None;
      }
      var (comma, close) := bounds.value;
      var inner := RewriteExpressionContracts(sql[open + 1..comma], runtime);
      if inner.None? {
        return None;
      }
      var call := Lowered(inner.value, sql[comma..close], runtime);
      AppendAppend(out, call, RewriteAt(sql, close + 1, runtime));
      out := out + call;
      i := close + 1;
    }
    AppendAppend(out, "", Some(""));
    RewriteEnd(sql, runtime);
    return Some(out);
  }
}
