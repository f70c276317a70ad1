/**
 The parser-only copy for CASE operands that start with +, - or NOT.

 One blank after CASE becomes '(' and one blank before the matching WHEN becomes
 ')'.  Two scans run over the text: an outer one that looks for CASE, and for each
 CASE an inner one that looks for the WHEN of its operand.  The functions below
 step one lexeme at a time; the loops of the source jump over whole keywords.
 */
module CaseOperands {
  import opened Wrappers
  import opened SqlLexer

  const CASE: string := "CASE"
  const WHEN: string := "WHEN"
  const END: string := "END"
  const NOT: string := "NOT"

  predicate PrefixOperatorAt(s: string, i: nat)
    requires i < |s|
  {
    s[i] == '+' || s[i] == '-' || KeywordAt(s, i, NOT)
  }

  /** The last space or tab of the line breaks and blanks just before end. */
  function PaddingBefore(s: string, end: nat, start: nat): (k: Option<nat>)
    requires end <= |s|
    ensures k.Some? ==> start <= k.value < end && (s[k.value] == ' ' || s[k.value] == '\t')
    ensures k.Some? ==> forall j :: k.value < j < end ==> s[j] == '\n' || s[j] == '\r'
  {
    if end <= start then None
    else if s[end - 1] == ' ' || s[end - 1] == '\t' then Some(end - 1)
    else if s[end - 1] != '\n' && s[end - 1] != '\r' then None
    else PaddingBefore(s, end - 1, start)
  }

  /**
   The WHEN of the operand at i, where p parentheses, b brackets and c nested CASE
   expressions are open.
   */
  function When(s: string, i: nat, p: nat, b: nat, c: nat): (w: Option<nat>)
    requires i <= |s|
    ensures w.Some? ==> i <= w.value < |s| && KeywordAt(s, w.value, WHEN)
    decreases |s| - i
  {
    if i == |s| then None
    else if DataEnd(s, i) > i then When(s, DataEnd(s, i), p, b, c)
    else if s[i] == '(' then When(s, i + 1, p + 1, b, c)
    else if s[i] == ')' then if p == 0 then None else When(s, i + 1, p - 1, b, c)
    else if s[i] == '[' then When(s, i + 1, p, b + 1, c)
    else if s[i] == ']' then if b == 0 then None else When(s, i + 1, p, b - 1, c)
    else if p == 0 && b == 0 && KeywordAt(s, i, CASE) then When(s, i + 1, p, b, c + 1)
    else if p == 0 && b == 0 && KeywordAt(s, i, END) then
      if c == 0 then None else When(s, i + 1, p, b, c - 1)
    else if p == 0 && b == 0 && c == 0 && KeywordAt(s, i, WHEN) then Some(i)
    else When(s, i + 1, p, b, c)
  }

  /** One CASE at offset at, its operand and WHEN, and the two blanks replaced. */
  datatype Edit = Edit(at: nat, operand: nat, when: nat, open: nat, close: nat)

  datatype Outcome = Keep | Refuse | Insert(edit: Edit)

  predicate Within(e: Edit, n: nat) {
    e.at < e.open < e.operand <= e.close < e.when < n
  }

  predicate AllWithin(edits: seq<Edit>, n: nat) {
    forall k :: 0 <= k < |edits| ==> Within(edits[k], n)
  }

  function CaseAt(s: string, i: nat): (outcome: Outcome)
    requires i + |CASE| <= |s|
    ensures outcome.Insert? ==> Within(outcome.edit, |s|)
  {
    var operand := SkipBlanks(s, i + |CASE|);
    if operand == i + |CASE| || operand == |s| || !PrefixOperatorAt(s, operand) then Keep
    else match When(s, operand, 0, 0, 0)
      case None => Keep
      case Some(when) =>
        match (PaddingBefore(s, operand, i + |CASE|), PaddingBefore(s, when, operand))
        case (Some(open), Some(close)) => Insert(Edit(i, operand, when, open, close))
        case _ => Refuse
  }

  datatype Scan = Scan(edits: seq<Edit>, refused: bool, plus: bool) {
    function After(s: string, outcome: Outcome): Scan
      requires outcome.Insert? ==> outcome.edit.operand < |s|
    {
      match outcome
      case Keep => this
      case Refuse => this.(refused := true)
      case Insert(e) => Scan([e] + edits, refused, plus || s[e.operand] == '+')
    }
  }

  predicate IsCase(s: string, i: nat)
    requires i < |s|
  {
    DataEnd(s, i) == i && KeywordAt(s, i, CASE)
  }

  lemma CaseFits(s: string, i: nat)
    requires i <= |s| && KeywordAt(s, i, CASE)
    ensures i + |CASE| <= |s|
  {
  }

  function ScanFrom(s: string, i: nat): (scan: Scan)
    requires i <= |s|
    ensures AllWithin(scan.edits, |s|)
    decreases |s| - i
  {
    if i == |s| then Scan([], false, false)
    else if DataEnd(s, i) > i then ScanFrom(s, DataEnd(s, i))
    else if KeywordAt(s, i, CASE) then CaseFits(s, i); ScanFrom(s, i + 1).After(s, CaseAt(s, i))
    else ScanFrom(s, i + 1)
  }

  function Apply(t: string, edits: seq<Edit>): string
    requires AllWithin(edits, |t|)
    decreases |edits|
  {
    if edits == [] then t
    else Apply(t[edits[0].open := '('][edits[0].close := ')'], edits[1..])
  }

  // ----- inside a keyword, and over blanks, the scans only step -----

  predicate InWord(s: string, i: nat)
    requires i < |s|
  {
    IsIdentByte(Before(s, i)) && IsIdentByte(s[i])
  }

  lemma WordAtHead(prev: char, s: string, w: string)
    requires WordAt(prev, s, w) && w != ""
    ensures |w| <= |s| && !IsIdentByte(prev) && Lower(s[0]) == Lower(w[0])
  {
    assert s[..|w|][0] == s[0];
  }

  lemma NoKeyword(s: string, i: nat, w: string)
    requires i < |s| && w != "" && IsIdentByte(w[0]) && (IsIdentByte(Before(s, i)) || !IsIdentByte(s[i]))
    ensures !KeywordAt(s, i, w)
  {
    hide WordAt;
    if KeywordAt(s, i, w) {
      WordAtHead(Before(s, i), s[i..], w);
    }
  }

  lemma NoKeywords(s: string, i: nat)
    requires i < |s| && (IsIdentByte(Before(s, i)) || !IsIdentByte(s[i]))
    ensures !KeywordAt(s, i, CASE) && !KeywordAt(s, i, WHEN) && !KeywordAt(s, i, END)
  {
    hide WordAt;
    NoKeyword(s, i, CASE);
    NoKeyword(s, i, WHEN);
    NoKeyword(s, i, END);
  }

  /** A byte that no scan reacts to. */
  predicate Idle(s: string, i: nat)
    requires i < |s|
  {
    InWord(s, i) || IsBlank(s[i])
  }

  lemma IdleStep(s: string, i: nat, p: nat, b: nat, c: nat)
    requires i < |s| && Idle(s, i)
    ensures DataEnd(s, i) == i
    ensures ScanFrom(s, i) == ScanFrom(s, i + 1)
    ensures When(s, i, p, b, c) == When(s, i + 1, p, b, c)
  {
    NoKeywords(s, i);
    hide CASE, WHEN, END, KeywordAt;
  }

  lemma {:induction false} IdleSteps(s: string, i: nat, j: nat, p: nat, b: nat, c: nat)
    requires i <= j <= |s| && forall k :: i <= k < j ==> Idle(s, k)
    ensures ScanFrom(s, i) == ScanFrom(s, j)
    ensures When(s, i, p, b, c) == When(s, j, p, b, c)
    decreases j - i
  {
    hide ScanFrom, When;
    if i < j {
      IdleStep(s, i, p, b, c);
      IdleSteps(s, i + 1, j, p, b, c);
    }
  }

  predicate IsWord(w: string) {
    w != "" && forall k :: 0 <= k < |w| ==> IsIdentByte(w[k])
  }

  /** After the first byte of a keyword its other bytes are idle. */
  lemma WordIsIdle(s: string, i: nat, w: string)
    requires i < |s| && IsWord(w) && KeywordAt(s, i, w)
    ensures i + |w| <= |s| && forall k :: i < k < i + |w| ==> Idle(s, k)
    ensures IsIdentByte(s[i])
  {
    forall j | i <= j < i + |w| ensures IsIdentByte(s[j]) {
      assert Lower(s[i..][..|w|][j - i]) == Lower(w[j - i]) && IsIdentByte(w[j - i]);
      assert s[i..][..|w|][j - i] == s[j];
    }
  }

  lemma CaseStep(s: string, i: nat)
    requires i < |s| && IsCase(s, i)
    ensures i < i + |CASE| <= |s|
    ensures ScanFrom(s, i) == ScanFrom(s, i + |CASE|).After(s, CaseAt(s, i))
  {
    WordIsIdle(s, i, CASE);
    hide CASE;
    IdleSteps(s, i + 1, i + |CASE|, 0, 0, 0);
  }

  // ----- the loops of the source -----

  method HorizontalPaddingBefore(sql: string, end: nat, start: nat) returns (k: Option<nat>)
    requires end <= |sql|
    ensures k == PaddingBefore(sql, end, start)
  {
    var index: int := end - 1;
    while index >= start
      invariant -1 <= index < end
      invariant index + 1 >= 0 && PaddingBefore(sql, end, start) == PaddingBefore(sql, index + 1, start)
    {
      if sql[index] == ' ' || sql[index] == '\t' {
        return Some(index);
      }
      if sql[index] != '\n' && sql[index] != '\r' {
        return None;
      }
      index := index - 1;
    }
    return None;
  }

  method SimpleCaseWhenStart(sql: string, operandStart: nat) returns (when: Option<nat>)
    requires operandStart <= |sql|
    ensures when == When(sql, operandStart, 0, 0, 0)
  {
    hide DataEnd, WordAt;
    var parenDepth, bracketDepth, caseDepth := 0, 0, 0;
    var index := operandStart;
    while index < |sql|
      invariant operandStart <= index <= |sql|
      invariant 0 <= parenDepth && 0 <= bracketDepth && 0 <= caseDepth
      invariant When(sql, operandStart, 0, 0, 0) == When(sql, index, parenDepth, bracketDepth, caseDepth)
      decreases |sql| - index
    {
      var end := SqlDataEnd(sql, index);
      if end > index {
        index := end;
      } else if sql[index] == '(' {
        parenDepth := parenDepth + 1;
        index := index + 1;
      } else if sql[index] == ')' {
        if parenDepth == 0 {
          return None;
        }
        parenDepth := parenDepth - 1;
        index := index + 1;
      } else if sql[index] == '[' {
        bracketDepth := bracketDepth + 1;
        index := index + 1;
      } else if sql[index] == ']' {
        if bracketDepth == 0 {
          return None;
        }
        bracketDepth := bracketDepth - 1;
        index := index + 1;
      } else if parenDepth == 0 && bracketDepth == 0 && KeywordAt(sql, index, CASE) {
        WordIsIdle(sql, index, CASE);
        caseDepth := caseDepth + 1;
        IdleSteps(sql, index + 1, index + |CASE|, parenDepth, bracketDepth, caseDepth);
        index := index + |CASE|;
      } else if parenDepth == 0 && bracketDepth == 0 && KeywordAt(sql, index, END) {
        if caseDepth == 0 {
          return None;
        }
        WordIsIdle(sql, index, END);
        caseDepth := caseDepth - 1;
        IdleSteps(sql, index + 1, index + |END|, parenDepth, bracketDepth, caseDepth);
        index := index + |END|;
      } else if parenDepth == 0 && bracketDepth == 0 && caseDepth == 0 && KeywordAt(sql, index, WHEN) {
        return Some(index);
      } else {
        index := index + 1;
      }
    }
    return None;
  }

  /** What the source decides for the CASE at index. */
  method CaseOutcome(sql: string, index: nat) returns (outcome: Outcome)
    requires index + |CASE| <= |sql|
    ensures outcome == CaseAt(sql, index)
  {
    hide CASE, NOT, WordAt, SkipBlanks, PaddingBefore, When;
    var operandStart := SkipWhitespace(sql, index + |CASE|);
    if operandStart == index + |CASE| || operandStart >= |sql| || !PrefixOperatorAt(sql, operandStart) {
      return Keep;
    }
    var whenStart := SimpleCaseWhenStart(sql, operandStart);
    if whenStart.None? {
      return Keep;
    }
    var open := HorizontalPaddingBefore(sql, operandStart, index + |CASE|);
    var close := HorizontalPaddingBefore(sql, whenStart.value, operandStart);
    if open.None? || close.None? {
      return Refuse;
    }
    return Insert(Edit(index, operandStart, whenStart.value, open.value, close.value));
  }

  method NormalizeCasePrefixOperands(sql: string) returns (result: string, unsafe: bool, plus: bool)
    ensures unsafe <==> ScanFrom(sql, 0).refused
    ensures plus <==> ScanFrom(sql, 0).plus
    ensures result == Apply(sql, ScanFrom(sql, 0).edits)
  {
    hide CASE, DataEnd, WordAt, CaseAt;
    var normalized := new char[|sql|](i requires 0 <= i < |sql| => sql[i]);
    assert normalized[..] == sql;
    var changed := false;
    unsafe, plus := false, false;
    var index := 0;
    while index < |sql|
      invariant index <= |sql|
      invariant unsafe || ScanFrom(sql, index).refused <==> ScanFrom(sql, 0).refused
      invariant plus || ScanFrom(sql, index).plus <==> ScanFrom(sql, 0).plus
      invariant Apply(normalized[..], ScanFrom(sql, index).edits) == Apply(sql, ScanFrom(sql, 0).edits)
      invariant !changed ==> normalized[..] == sql
      decreases |sql| - index
    {
      var end := SqlDataEnd(sql, index);
      if end > index {
        index := end;
      } else if KeywordAt(sql, index, CASE) {
        CaseStep(sql, index);
        var outcome := CaseOutcome(sql, index);
        if outcome.Insert? {
          if sql[outcome.edit.operand] == '+' {
            plus := true;
          }
          assert AllWithin([outcome.edit] + ScanFrom(sql, index + |CASE|).edits, |sql|);
          ApplyInsert(normalized[..], outcome.edit, ScanFrom(sql, index + |CASE|).edits);
          WriteInto(normalized, outcome.edit);
          changed := true;
        } else if outcome.Refuse? {
          unsafe := true;
        }
        index := index + |CASE|;
      } else {
        index := index + 1;
      }
    }
    result := if changed then normalized[..] else sql;
  }

  method WriteInto(normalized: array<char>, e: Edit)
    requires e.open < normalized.Length && e.close < normalized.Length
    modifies normalized
    ensures normalized[..] == old(normalized[..])[e.open := '('][e.close := ')']
  {
    normalized[e.open] := '(';
    normalized[e.close] := ')';
  }

  lemma ApplyInsert(t: string, e: Edit, edits: seq<Edit>)
    requires Within(e, |t|) && AllWithin(edits, |t|) && AllWithin([e] + edits, |t|)
    ensures Apply(t, [e] + edits) == Apply(t[e.open := '('][e.close := ')'], edits)
  {
    assert ([e] + edits)[1..] == edits;
  }
}
