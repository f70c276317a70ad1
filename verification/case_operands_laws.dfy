/**
 When a CASE gets its parentheses, from the bytes of the text alone: what its operand starts
 with, which WHEN belongs to it, and which two blanks are replaced.
 */
module CaseOperandsLaws {
  import opened Wrappers
  import opened SqlLexer
  import opened CodeBytes
  import opened CaseOperands
  import opened CaseOperandsProofs

  function Round(s: string, i: nat, k: nat): int
    requires i <= k <= |s|
  {
    Count(s, i, k, '(', ')')
  }

  function Square(s: string, i: nat, k: nat): int
    requires i <= k <= |s|
  {
    Count(s, i, k, '[', ']')
  }

  /** A word in code, outside of all parentheses and brackets that open behind i. */
  predicate TopWord(s: string, i: nat, k: nat, w: string)
    requires i <= k < |s|
  {
    CodeByte(s, i, k) && Round(s, i, k) == 0 && Square(s, i, k) == 0 && WordHere(s, k, w)
  }

  /** The words CASE, less the words END, before k. */
  function Nest(s: string, i: nat, k: nat): int
    requires i <= k <= |s|
    decreases k
  {
    if k == i then 0
    else Nest(s, i, k - 1) + if TopWord(s, i, k - 1, "CASE") then 1 else if TopWord(s, i, k - 1, "END") then -1 else 0
  }

  predicate WhenHere(s: string, i: nat, k: nat)
    requires i <= k < |s|
  {
    TopWord(s, i, k, "WHEN") && Nest(s, i, k) == 0
  }

  /** A bracket or an END that nothing behind i opened. */
  predicate ClosesTooMuch(s: string, i: nat, k: nat)
    requires i <= k < |s|
  {
    || (CodeByte(s, i, k) && s[k] == ')' && Round(s, i, k) == 0)
    || (CodeByte(s, i, k) && s[k] == ']' && Square(s, i, k) == 0)
    || (TopWord(s, i, k, "END") && Nest(s, i, k) == 0)
  }

  predicate Event(s: string, i: nat, k: nat)
    requires i <= k < |s|
  {
    WhenHere(s, i, k) || ClosesTooMuch(s, i, k)
  }

  /** The WHEN at w belongs to the operand at i. */
  predicate OwnWhen(s: string, i: nat, w: nat) {
    i <= w < |s| && WhenHere(s, i, w) && forall k :: i <= k < w ==> !Event(s, i, k)
  }

  /** The blank before end, from start on, that only line breaks follow. */
  predicate GapBefore(s: string, start: nat, end: nat, g: nat) {
    && start <= g < end <= |s| && (s[g] == ' ' || s[g] == '\t')
    && forall k :: g < k < end ==> s[k] == '\n' || s[k] == '\r'
  }

  predicate CaseHere(s: string, k: nat) {
    k < |s| && CodeByte(s, 0, k) && WordHere(s, k, "CASE")
  }

  /** Blanks, and then an operand that starts with +, - or NOT. */
  predicate OperandOf(s: string, k: nat, o: nat) {
    && k + 4 < o < |s| && BlanksTo(s, k + 4, o)
    && (s[o] == '+' || s[o] == '-' || WordHere(s, o, "NOT"))
  }

  predicate HasOperand(s: string, k: nat, o: nat, w: nat) {
    CaseHere(s, k) && OperandOf(s, k, o) && OwnWhen(s, o, w)
  }

  predicate IsPair(s: string, e: Edit) {
    && HasOperand(s, e.at, e.operand, e.when)
    && GapBefore(s, e.at + 4, e.operand, e.open) && GapBefore(s, e.operand, e.when, e.close)
  }

  // ----- the inner scan -----

  /** The scan is at j, in code, with p, b and c counted, and nothing has happened since i. */
  predicate At(s: string, i: nat, j: nat, p: nat, b: nat, c: nat)
    requires i <= j <= |s|
  {
    (j < |s| ==> ModeAt(s, i, j) == Code) && Round(s, i, j) == p && Square(s, i, j) == b && Nest(s, i, j) == c
  }

  lemma {:induction false} CountsOver(s: string, i: nat, j: nat, e: nat)
    requires NoCode(s, i, j, e)
    ensures Round(s, i, e) == Round(s, i, j) && Square(s, i, e) == Square(s, i, j) && Nest(s, i, e) == Nest(s, i, j)
    ensures forall k :: j <= k < e ==> !Event(s, i, k)
    decreases e - j
  {
    hide CodeByte, WordHere, Count;
    CountOver(s, i, j, e, '(', ')');
    CountOver(s, i, j, e, '[', ']');
    if j < e {
      CountsOver(s, i, j, e - 1);
    }
  }

  /** What the scan finds from j on: the first event, if that is a WHEN. */
  predicate Finds(s: string, i: nat, j: nat, w: Option<nat>)
    requires i <= j <= |s|
  {
    if w.Some? then
      j <= w.value < |s| && WhenHere(s, i, w.value) && forall k :: j <= k < w.value ==> !Event(s, i, k)
    else Blocked(s, i, j)
  }

  predicate Blocked(s: string, i: nat, j: nat)
    requires i <= j <= |s|
  {
    || (forall k :: j <= k < |s| ==> !Event(s, i, k))
    || exists m :: j <= m < |s| && BlockedAt(s, i, j, m)
  }

  predicate BlockedAt(s: string, i: nat, j: nat, m: nat)
    requires i <= j <= m < |s|
  {
    ClosesTooMuch(s, i, m) && !WhenHere(s, i, m) && forall k :: j <= k < m ==> !Event(s, i, k)
  }

  lemma FindsLater(s: string, i: nat, j: nat, e: nat, w: Option<nat>)
    requires i <= j <= e <= |s| && Finds(s, i, e, w) && forall k :: j <= k < e ==> !Event(s, i, k)
    ensures Finds(s, i, j, w)
  {
    hide Event, WhenHere, ClosesTooMuch;
    if w.None? && !(forall k :: e <= k < |s| ==> !Event(s, i, k)) {
      var m :| e <= m < |s| && BlockedAt(s, i, e, m);
      assert BlockedAt(s, i, j, m);
    }
  }

  /** One code byte, in the counts of the scan and in those of the bytes. */
  ghost predicate Steps(s: string, i: nat, j: nat, p: nat, b: nat, c: nat)
    requires i <= j < |s|
  {
    var w := When(s, j, p, b, c);
    || (w == Some(j) && WhenHere(s, i, j))
    || (w.None? && ClosesTooMuch(s, i, j) && !WhenHere(s, i, j))
    || (!Event(s, i, j) && exists p': nat, b': nat, c': nat :: Goes(s, i, j, w, p', b', c'))
  }

  predicate Goes(s: string, i: nat, j: nat, w: Option<nat>, p: nat, b: nat, c: nat)
    requires i <= j < |s|
  {
    At(s, i, j + 1, p, b, c) && w == When(s, j + 1, p, b, c)
  }

  lemma Words(s: string, j: nat)
    requires j < |s|
    ensures KeywordAt(s, j, CASE) <==> WordHere(s, j, "CASE")
    ensures KeywordAt(s, j, WHEN) <==> WordHere(s, j, "WHEN")
    ensures KeywordAt(s, j, END) <==> WordHere(s, j, "END")
    ensures KeywordAt(s, j, NOT) <==> WordHere(s, j, "NOT")
  {
    WordIs(s, j, "CASE");
    WordIs(s, j, "WHEN");
    WordIs(s, j, "END");
    WordIs(s, j, "NOT");
    hide KeywordAt, WordHere;
  }

  /** A letter stands where one of the words does, and at most one of them stands there. */
  lemma OneWord(s: string, j: nat)
    requires j < |s|
    ensures !(WordHere(s, j, "CASE") && WordHere(s, j, "WHEN")) && !(WordHere(s, j, "CASE") && WordHere(s, j, "END"))
    ensures !(WordHere(s, j, "WHEN") && WordHere(s, j, "END"))
    ensures s[j] in {'(', ')', '[', ']'} ==>
              !WordHere(s, j, "CASE") && !WordHere(s, j, "WHEN") && !WordHere(s, j, "END")
  {
    hide WordHere;
    if WordHere(s, j, "CASE") {
      WordHead(s, j, "CASE");
    }
    if WordHere(s, j, "WHEN") {
      WordHead(s, j, "WHEN");
    }
    if WordHere(s, j, "END") {
      WordHead(s, j, "END");
    }
  }

  lemma CodeStep(s: string, i: nat, j: nat, p: nat, b: nat, c: nat)
    requires i <= j < |s| && At(s, i, j, p, b, c) && DataEnd(s, j) == j
    ensures Steps(s, i, j, p, b, c)
  {
    LexemeModes(s, j);
    ModeVia(s, i, j, j + 1);
    Words(s, j);
    OneWord(s, j);
    Unfold(s, i, j);
    hide DataEnd, Turn, ModeAt, WordHere, KeywordAt, Round, Square, Nest, CASE, WHEN, END;
    if s[j] == '(' {
      assert Goes(s, i, j, When(s, j, p, b, c), p + 1, b, c);
    } else if s[j] == ')' && p > 0 {
      assert Goes(s, i, j, When(s, j, p, b, c), p - 1, b, c);
    } else if s[j] == '[' {
      assert Goes(s, i, j, When(s, j, p, b, c), p, b + 1, c);
    } else if s[j] == ']' && b > 0 {
      assert Goes(s, i, j, When(s, j, p, b, c), p, b - 1, c);
    } else if s[j] != ')' && s[j] != ']' {
      WordStep(s, i, j, p, b, c);
    }
  }

  lemma WordStep(s: string, i: nat, j: nat, p: nat, b: nat, c: nat)
    requires i <= j < |s| && At(s, i, j, p, b, c) && DataEnd(s, j) == j && CodeByte(s, i, j)
    requires s[j] !in {'(', ')', '[', ']'}
    ensures Steps(s, i, j, p, b, c)
  {
    Words(s, j);
    OneWord(s, j);
    Unfold(s, i, j);
    WhenWord(s, j, p, b, c);
    hide DataEnd, Turn, ModeAt, WordHere, KeywordAt, Round, Square, Nest, CASE, WHEN, END, When;
    var top := p == 0 && b == 0;
    if top && WordHere(s, j, "CASE") {
      assert Goes(s, i, j, When(s, j, p, b, c), p, b, c + 1);
    } else if top && WordHere(s, j, "END") {
      if c > 0 {
        assert Goes(s, i, j, When(s, j, p, b, c), p, b, c - 1);
      }
    } else if !(top && c == 0 && WordHere(s, j, "WHEN")) {
      assert Goes(s, i, j, When(s, j, p, b, c), p, b, c);
    }
  }

  /** The scan at a code byte that is no bracket. */
  lemma WhenWord(s: string, j: nat, p: nat, b: nat, c: nat)
    requires j < |s| && DataEnd(s, j) == j && s[j] !in {'(', ')', '[', ']'}
    ensures When(s, j, p, b, c) ==
            if p == 0 && b == 0 && KeywordAt(s, j, CASE) then When(s, j + 1, p, b, c + 1)
            else if p == 0 && b == 0 && KeywordAt(s, j, END) then if c == 0 then None else When(s, j + 1, p, b, c - 1)
            else if p == 0 && b == 0 && c == 0 && KeywordAt(s, j, WHEN) then Some(j)
            else When(s, j + 1, p, b, c)
  {
    hide KeywordAt, CASE, WHEN, END, DataEnd;
  }

  lemma Unfold(s: string, i: nat, j: nat)
    requires i <= j < |s|
    ensures Round(s, i, j + 1) ==
            Round(s, i, j) + if !CodeByte(s, i, j) then 0 else if s[j] == '(' then 1 else if s[j] == ')' then -1 else 0
    ensures Square(s, i, j + 1) ==
            Square(s, i, j) + if !CodeByte(s, i, j) then 0 else if s[j] == '[' then 1 else if s[j] == ']' then -1 else 0
    ensures Nest(s, i, j + 1) ==
            Nest(s, i, j) + if TopWord(s, i, j, "CASE") then 1 else if TopWord(s, i, j, "END") then -1 else 0
  {
    hide CodeByte, TopWord;
  }

  lemma {:induction false} WhenIsFirst(s: string, i: nat, j: nat, p: nat, b: nat, c: nat)
    requires i <= j <= |s| && At(s, i, j, p, b, c)
    ensures Finds(s, i, j, When(s, j, p, b, c))
    decreases |s| - j
  {
    hide DataEnd, Turn, ModeAt, WordHere, KeywordAt, Round, Square, Nest, CASE, WHEN, END, Event, WhenHere, ClosesTooMuch;
    if j < |s| {
      if DataEnd(s, j) > j {
        var e := DataEnd(s, j);
        DataIsQuiet(s, i, j);
        CountsOver(s, i, j, e);
        WhenIsFirst(s, i, e, p, b, c);
        FindsLater(s, i, j, e, When(s, e, p, b, c));
      } else {
        CodeStep(s, i, j, p, b, c);
        StepFinds(s, i, j, p, b, c);
      }
    }
  }

  lemma {:induction false} StepFinds(s: string, i: nat, j: nat, p: nat, b: nat, c: nat)
    requires i <= j < |s| && Steps(s, i, j, p, b, c)
    ensures Finds(s, i, j, When(s, j, p, b, c))
    decreases |s| - j, 0
  {
    hide DataEnd, When, At, WhenHere, ClosesTooMuch;
    var w := When(s, j, p, b, c);
    if w == Some(j) && WhenHere(s, i, j) {
    } else if w.None? && ClosesTooMuch(s, i, j) && !WhenHere(s, i, j) {
      assert BlockedAt(s, i, j, j);
    } else {
      var p': nat, b': nat, c': nat :| Goes(s, i, j, w, p', b', c');
      WhenIsFirst(s, i, j + 1, p', b', c');
      FindsLater(s, i, j, j + 1, w);
    }
  }

  /** The scan finds exactly the WHEN that belongs to the operand. */
  lemma WhenIff(s: string, i: nat, w: nat)
    requires i <= |s|
    ensures When(s, i, 0, 0, 0) == Some(w) <==> OwnWhen(s, i, w)
  {
    StartsAt(s, i);
    WhenIsFirst(s, i, i, 0, 0, 0);
    hide When, WhenHere, ClosesTooMuch;
    var found := When(s, i, 0, 0, 0);
    if OwnWhen(s, i, w) {
      assert Event(s, i, w);
      if found.Some? {
        assert Event(s, i, found.value);
      } else {
        OwnIsNotBlocked(s, i, w);
      }
    }
  }

  lemma OwnIsNotBlocked(s: string, i: nat, w: nat)
    requires i <= |s| && OwnWhen(s, i, w)
    ensures !Blocked(s, i, i)
  {
    hide WhenHere, ClosesTooMuch;
    assert Event(s, i, w);
    forall m | i <= m < |s| ensures !BlockedAt(s, i, i, m) {
      if m < w {
        assert !Event(s, i, m);
      }
    }
  }

  lemma StartsAt(s: string, i: nat)
    requires i <= |s|
    ensures At(s, i, i, 0, 0, 0)
  {
  }

  // ----- one CASE -----

  lemma {:induction false} GapIff(s: string, end: nat, start: nat, g: nat)
    requires end <= |s|
    ensures PaddingBefore(s, end, start) == Some(g) <==> GapBefore(s, start, end, g)
    decreases end
  {
    if start < end && s[end - 1] != ' ' && s[end - 1] != '\t' {
      GapIff(s, end - 1, start, g);
    }
  }

  predicate HasGap(s: string, start: nat, end: nat) {
    exists g: nat :: g < end && GapBefore(s, start, end, g)
  }

  lemma GapExists(s: string, end: nat, start: nat)
    requires end <= |s|
    ensures PaddingBefore(s, end, start).Some? <==> HasGap(s, start, end)
  {
    hide PaddingBefore, GapBefore;
    forall g: nat | g < end ensures PaddingBefore(s, end, start) == Some(g) <==> GapBefore(s, start, end, g) {
      GapIff(s, end, start, g);
    }
  }

  lemma OperandIff(s: string, k: nat, o: nat)
    requires k + 4 <= |s|
    ensures OperandOf(s, k, o) <==>
            o == SkipBlanks(s, k + 4) && o != k + 4 && o != |s| && PrefixOperatorAt(s, o)
  {
    BlanksAre(s, k + 4, o);
    if o < |s| {
      Words(s, o);
    }
    hide KeywordAt, WordHere, BlanksTo, SkipBlanks, NOT;
  }

  lemma CaseIff(s: string, k: nat)
    requires k < |s|
    ensures CaseHere(s, k) <==> Reaches(s, 0, k) && IsCase(s, k)
    ensures CaseHere(s, k) ==> k + 4 <= |s|
  {
    CodeByteIs(s, 0, k);
    Words(s, k);
    if WordHere(s, k, "CASE") {
      WordHead(s, k, "CASE");
    }
    hide DataEnd, KeywordAt, WordHere, CodeByte, CASE, Reaches;
  }

  /** What is decided for one CASE, in the bytes of the text. */
  lemma OutcomeIff(s: string, k: nat, e: Edit)
    requires CaseHere(s, k) && |CASE| == 4 && k + 4 <= |s|
    ensures CaseAt(s, k) == Insert(e) <==> e.at == k && IsPair(s, e)
    ensures CaseAt(s, k).Refuse? <==> exists o: nat, w: nat :: LacksBlank(s, k, o, w)
  {
    hide CaseHere, OwnWhen, OperandOf, GapBefore, HasGap, When, PaddingBefore, PrefixOperatorAt, SkipBlanks, CASE, KeywordAt;
    var o := SkipBlanks(s, k + 4);
    forall x: nat ensures OperandOf(s, k, x) <==> x == o && o != k + 4 && o != |s| && PrefixOperatorAt(s, o) {
      OperandIff(s, k, x);
    }
    forall w: nat ensures When(s, o, 0, 0, 0) == Some(w) <==> OwnWhen(s, o, w) {
      WhenIff(s, o, w);
    }
    if OperandOf(s, k, o) && When(s, o, 0, 0, 0).Some? {
      var w := When(s, o, 0, 0, 0).value;
      GapExists(s, o, k + 4);
      GapExists(s, w, o);
      GapIff(s, o, k + 4, e.open);
      GapIff(s, w, o, e.close);
      assert CaseAt(s, k).Refuse? <==> LacksBlank(s, k, o, w);
    }
  }

  /** An operand with its WHEN, and no space or tab to replace before one of them. */
  predicate LacksBlank(s: string, k: nat, o: nat, w: nat) {
    HasOperand(s, k, o, w) && !(HasGap(s, k + 4, o) && HasGap(s, o, w))
  }

  // ----- the whole copy -----

  lemma {:induction false} FlagsReached(s: string, i: nat)
    requires i <= |s|
    ensures ScanFrom(s, i).refused ==> exists k: nat :: k + |CASE| <= |s| && RefusedFrom(s, i, k)
    ensures ScanFrom(s, i).plus ==> exists e: Edit :: e in ScanFrom(s, i).edits && e.operand < |s| && s[e.operand] == '+'
    decreases |s| - i
  {
    hide CASE, DataEnd, KeywordAt, CaseAt;
    if i < |s| {
      var n := Next(s, i);
      FlagsReached(s, n);
      if DataEnd(s, i) == i && KeywordAt(s, i, CASE) {
        CaseFits(s, i);
        if CaseAt(s, i).Refuse? {
          assert RefusedFrom(s, i, i);
        }
      }
      if ScanFrom(s, n).refused {
        var k: nat :| k + |CASE| <= |s| && RefusedFrom(s, n, k);
        ReachesOnward(s, n, k);
        assert RefusedFrom(s, i, k);
      }
    }
  }

  predicate RefusedFrom(s: string, i: nat, k: nat)
    requires i <= |s| && k + |CASE| <= |s|
  {
    k < |s| && Reaches(s, i, k) && IsCase(s, k) && CaseAt(s, k).Refuse?
  }

  lemma ReachesOnward(s: string, n: nat, k: nat)
    requires n <= |s| && Reaches(s, n, k)
    ensures n <= k
  {
  }

  /** A pair is planned exactly when the bytes ask for it. */
  lemma PlannedIff(s: string, e: Edit)
    ensures e in ScanFrom(s, 0).edits <==> IsPair(s, e)
  {
    CaseLength();
    hide CASE, ScanFrom, CaseAt, IsCase, CaseHere, GapBefore, OperandOf, OwnWhen, Reaches;
    var edits := ScanFrom(s, 0).edits;
    if e in edits {
      var k :| 0 <= k < |edits| && edits[k] == e;
      EditsReached(s, 0, k);
      EditIsHere(s, e.at);
      CaseIff(s, e.at);
      OutcomeIff(s, e.at, e);
    }
    if IsPair(s, e) {
      AtIsThere(s, e.at);
      CaseIff(s, e.at);
      OutcomeIff(s, e.at, e);
      CasesAreCovered(s, 0, e.at);
    }
  }

  lemma CaseLength()
    ensures |CASE| == 4
  {
  }

  lemma AtIsThere(s: string, k: nat)
    requires CaseHere(s, k)
    ensures k < |s|
  {
  }

  ghost predicate OpensHere(s: string, k: nat) {
    exists e: Edit :: IsPair(s, e) && e.open == k
  }

  ghost predicate ClosesHere(s: string, k: nat) {
    exists e: Edit :: IsPair(s, e) && e.close == k
  }

  /**
   Main result: every byte of the copy.  It is a parenthesis exactly where a CASE with such an
   operand and its WHEN have a blank to replace, and the byte of the source elsewhere.
   */
  lemma CopyIff(sql: string, k: nat)
    requires k < |sql|
    ensures var copy := Apply(sql, ScanFrom(sql, 0).edits);
            && |copy| == |sql|
            && copy[k] == if OpensHere(sql, k) then '(' else if ClosesHere(sql, k) then ')' else sql[k]
  {
    hide ScanFrom, Apply, IsPair, Parens, IsPadding, AllNested;
    CopyIsParenthesised(sql);
    forall e: Edit ensures e in ScanFrom(sql, 0).edits <==> IsPair(sql, e) {
      PlannedIff(sql, e);
    }
  }

  /** The copy is marked unsafe exactly when such a CASE has no blank to replace. */
  lemma UnsafeIff(sql: string)
    ensures ScanFrom(sql, 0).refused <==> exists k: nat, o: nat, w: nat :: LacksBlank(sql, k, o, w)
  {
    CaseLength();
    hide CASE, ScanFrom, CaseAt, IsCase, HasGap, OperandOf, OwnWhen, Reaches, CaseHere;
    var any := Edit(0, 0, 0, 0, 0);
    if ScanFrom(sql, 0).refused {
      FlagsReached(sql, 0);
      var k: nat :| k + |CASE| <= |sql| && RefusedFrom(sql, 0, k);
      CaseIff(sql, k);
      OutcomeIff(sql, k, any);
    }
    if exists k: nat, o: nat, w: nat :: LacksBlank(sql, k, o, w) {
      var k: nat, o: nat, w: nat :| LacksBlank(sql, k, o, w);
      AtIsThere(sql, k);
      CaseIff(sql, k);
      OutcomeIff(sql, k, any);
      CasesAreCovered(sql, 0, k);
    }
  }

  /** The plus flag is set exactly when an operand in such parentheses starts with +. */
  lemma PlusIff(sql: string)
    ensures ScanFrom(sql, 0).plus <==> exists e: Edit :: IsPair(sql, e) && e.operand < |sql| && sql[e.operand] == '+'
  {
    CaseLength();
    hide CASE, ScanFrom, CaseAt, IsCase, GapBefore, OperandOf, OwnWhen, Reaches, CaseHere;
    FlagsReached(sql, 0);
    forall e: Edit ensures e in ScanFrom(sql, 0).edits <==> IsPair(sql, e) {
      PlannedIff(sql, e);
    }
    if exists e: Edit :: IsPair(sql, e) && e.operand < |sql| && sql[e.operand] == '+' {
      var e: Edit :| IsPair(sql, e) && e.operand < |sql| && sql[e.operand] == '+';
      AtIsThere(sql, e.at);
      CaseIff(sql, e.at);
      OutcomeIff(sql, e.at, e);
      CasesAreCovered(sql, 0, e.at);
    }
  }
}
