/**
 The inserted parentheses are well placed: each stands on a blank, they form matched
 pairs, and any two pairs are nested or apart, however CASE expressions nest.  They
 nest with the parentheses of the source as well.
 */
module CaseOperandsProofs {
  import opened Wrappers
  import opened SqlLexer
  import opened CodeBytes
  import opened CaseOperands

  lemma {:induction false} EditsReached(s: string, i: nat, k: nat)
    requires i <= |s| && k < |ScanFrom(s, i).edits|
    ensures var e := ScanFrom(s, i).edits[k];
            i <= e.at && Reaches(s, i, e.at) && IsCase(s, e.at) && e.at + |CASE| <= |s| && CaseAt(s, e.at) == Insert(e)
    decreases |s| - i
  {
    hide CASE, DataEnd, KeywordAt, CaseAt;
    if i < |s| {
      if DataEnd(s, i) == i && KeywordAt(s, i, CASE) {
        CaseFits(s, i);
        if CaseAt(s, i).Insert? {
          EditIsHere(s, i);
          if k > 0 {
            EditsReached(s, i + 1, k - 1);
          }
        } else {
          EditsReached(s, i + 1, k);
        }
      } else {
        EditsReached(s, Next(s, i), k);
      }
    }
  }

  /** Every CASE in code is decided: its pair is planned, or the text is marked unsafe. */
  lemma {:induction false} CasesAreCovered(s: string, i: nat, k: nat)
    requires i <= |s| && k < |s| && Reaches(s, i, k) && IsCase(s, k) && k + |CASE| <= |s|
    ensures CaseAt(s, k).Insert? ==> CaseAt(s, k).edit in ScanFrom(s, i).edits
    ensures CaseAt(s, k).Refuse? ==> ScanFrom(s, i).refused
    ensures CaseAt(s, k).Insert? && s[CaseAt(s, k).edit.operand] == '+' ==> ScanFrom(s, i).plus
    decreases |s| - i
  {
    hide CASE, DataEnd, KeywordAt, CaseAt;
    if i < k {
      CasesAreCovered(s, Next(s, i), k);
      if DataEnd(s, i) == i && KeywordAt(s, i, CASE) {
        CaseFits(s, i);
      }
    }
  }

  lemma EditIsHere(s: string, i: nat)
    requires i + |CASE| <= |s| && CaseAt(s, i).Insert?
    ensures CaseAt(s, i).edit.at == i
  {
  }

  /** A scan that reaches j from i, over idle bytes up to k, also reaches j from k. */
  lemma {:induction false} ReachesOverIdle(s: string, i: nat, k: nat, j: nat)
    requires i <= k <= j <= |s| && Reaches(s, i, j) && forall m :: i <= m < k ==> Idle(s, m)
    ensures Reaches(s, k, j)
    decreases k - i
  {
    hide DataEnd;
    if i < k {
      IdleStep(s, i, 0, 0, 0);
      ReachesOverIdle(s, i + 1, k, j);
    }
  }

  /** The inner scan passes through every boundary before the WHEN it finds. */
  lemma {:induction false} WhenVia(s: string, i: nat, p: nat, b: nat, c: nat, j: nat)
      returns (p': nat, b': nat, c': nat)
    requires i <= |s| && j <= |s| && Reaches(s, i, j)
    requires When(s, i, p, b, c).Some? && j <= When(s, i, p, b, c).value
    ensures When(s, i, p, b, c) == When(s, j, p', b', c')
    decreases |s| - i
  {
    hide CASE, WHEN, END, DataEnd, KeywordAt;
    if i == j {
      return p, b, c;
    } else if DataEnd(s, i) > i {
      p', b', c' := WhenVia(s, DataEnd(s, i), p, b, c, j);
    } else if s[i] == '(' {
      p', b', c' := WhenVia(s, i + 1, p + 1, b, c, j);
    } else if s[i] == ')' {
      p', b', c' := WhenVia(s, i + 1, p - 1, b, c, j);
    } else if s[i] == '[' {
      p', b', c' := WhenVia(s, i + 1, p, b + 1, c, j);
    } else if s[i] == ']' {
      p', b', c' := WhenVia(s, i + 1, p, b - 1, c, j);
    } else if p == 0 && b == 0 && KeywordAt(s, i, CASE) {
      p', b', c' := WhenVia(s, i + 1, p, b, c + 1, j);
    } else if p == 0 && b == 0 && KeywordAt(s, i, END) {
      p', b', c' := WhenVia(s, i + 1, p, b, c - 1, j);
    } else {
      p', b', c' := WhenVia(s, i + 1, p, b, c, j);
    }
  }

  /** The first scan is deeper than the second: in brackets, or in more CASEs. */
  predicate Deeper(p: nat, b: nat, c: nat, p': nat, b': nat, c': nat) {
    p' <= p && b' <= b && (p' < p || b' < b || c' < c)
  }

  /** A deeper scan finds its WHEN later. */
  lemma {:induction false} DeeperIsLater(s: string, i: nat, p: nat, b: nat, c: nat, p': nat, b': nat, c': nat)
    requires i <= |s| && Deeper(p, b, c, p', b', c')
    requires When(s, i, p, b, c).Some? && When(s, i, p', b', c').Some?
    ensures When(s, i, p', b', c').value < When(s, i, p, b, c).value
    decreases |s| - i
  {
    hide CASE, WHEN, END, DataEnd, KeywordAt;
    if DataEnd(s, i) > i {
      DeeperIsLater(s, DataEnd(s, i), p, b, c, p', b', c');
    } else if s[i] == '(' {
      DeeperIsLater(s, i + 1, p + 1, b, c, p' + 1, b', c');
    } else if s[i] == ')' {
      DeeperIsLater(s, i + 1, p - 1, b, c, p' - 1, b', c');
    } else if s[i] == '[' {
      DeeperIsLater(s, i + 1, p, b + 1, c, p', b' + 1, c');
    } else if s[i] == ']' {
      DeeperIsLater(s, i + 1, p, b - 1, c, p', b' - 1, c');
    } else if When(s, i, p', b', c') != Some(i) {
      var d, d' := CaseDepth(s, i, p, b, c), CaseDepth(s, i, p', b', c');
      DeeperIsLater(s, i + 1, p, b, d, p', b', d');
    }
  }

  function CaseDepth(s: string, i: nat, p: nat, b: nat, c: nat): nat
    requires i < |s|
  {
    if p != 0 || b != 0 then c
    else if KeywordAt(s, i, CASE) then c + 1
    else if KeywordAt(s, i, END) && c > 0 then c - 1
    else c
  }

  /** Two pairs of positions, one inside the other or one after the other. */
  predicate NestedOrApart(e: Edit, f: Edit) {
    && e.open < f.open && e.open < e.close && f.open < f.close
    && (f.close < e.close || e.close < f.open)
  }

  lemma OperandIdle(s: string, e: Edit)
    requires e.at + |CASE| <= |s| && IsCase(s, e.at) && CaseAt(s, e.at) == Insert(e)
    ensures e.at < e.operand < |s| && forall k :: e.at < k < e.operand ==> Idle(s, k)
    ensures When(s, e.operand, 0, 0, 0) == Some(e.when)
    ensures PaddingBefore(s, e.when, e.operand) == Some(e.close)
    ensures IsIdentByte(s[e.at])
  {
    WordIsIdle(s, e.at, CASE);
    hide CASE, KeywordAt, When, PaddingBefore;
  }

  lemma WhenIsWord(s: string, w: nat)
    requires w < |s| && KeywordAt(s, w, WHEN)
    ensures !KeywordAt(s, w, CASE) && IsIdentByte(s[w])
  {
    WordIsIdle(s, w, WHEN);
    WordAtHead(Before(s, w), s[w..], WHEN);
    if KeywordAt(s, w, CASE) {
      WordAtHead(Before(s, w), s[w..], CASE);
    }
  }

  /** A CASE inside the operand of another finds its WHEN first. */
  lemma InnerIsFirst(s: string, e: Edit, f: Edit)
    requires e.at + |CASE| <= |s| && IsCase(s, e.at) && CaseAt(s, e.at) == Insert(e)
    requires f.at + |CASE| <= |s| && IsCase(s, f.at) && CaseAt(s, f.at) == Insert(f)
    requires e.operand <= f.at < e.when && Reaches(s, e.operand, f.at)
    ensures f.when < e.when
  {
    hide CASE, IsCase, CaseAt, CaseDepth, When, Deeper, Idle, Reaches, PaddingBefore, IsIdentByte, KeywordAt;
    OperandIdle(s, e);
    OperandIdle(s, f);
    var p, b, c := WhenVia(s, e.operand, 0, 0, 0, f.at);
    CaseIsCode(s, f.at);
    var d := CaseDepth(s, f.at, p, b, c);
    StepAtCase(s, f.at, p, b, c);
    IdleSteps(s, f.at + 1, f.operand, p, b, d);
    IdleSteps(s, f.at + 1, f.operand, 0, 0, 0);
    DeeperIsLater(s, f.operand, p, b, d, 0, 0, 0);
  }

  lemma CaseIsCode(s: string, i: nat)
    requires i < |s| && IsCase(s, i)
    ensures IsIdentByte(s[i]) && !KeywordAt(s, i, WHEN)
  {
    WordIsIdle(s, i, CASE);
    if KeywordAt(s, i, WHEN) {
      WhenIsWord(s, i);
    }
  }

  lemma StepAtCase(s: string, i: nat, p: nat, b: nat, c: nat)
    requires i < |s| && IsCase(s, i) && IsIdentByte(s[i]) && !KeywordAt(s, i, WHEN)
    ensures When(s, i, p, b, c) == When(s, i + 1, p, b, CaseDepth(s, i, p, b, c))
    ensures Deeper(p, b, CaseDepth(s, i, p, b, c), 0, 0, 0)
  {
    hide CASE, WHEN, END, KeywordAt, DataEnd;
    if p != 0 || b != 0 {
      AwayFromTop(s, i, p, b, c);
    }
  }

  lemma AwayFromTop(s: string, i: nat, p: nat, b: nat, c: nat)
    requires i < |s| && DataEnd(s, i) == i && IsIdentByte(s[i]) && (p != 0 || b != 0)
    ensures When(s, i, p, b, c) == When(s, i + 1, p, b, c)
  {
    hide CASE, WHEN, END, KeywordAt, DataEnd;
  }

  lemma PairIsNested(s: string, e: Edit, f: Edit)
    requires e.at + |CASE| <= |s| && IsCase(s, e.at) && CaseAt(s, e.at) == Insert(e)
    requires f.at + |CASE| <= |s| && IsCase(s, f.at) && CaseAt(s, f.at) == Insert(f)
    requires e.at < f.at && Reaches(s, e.at + 1, f.at)
    ensures NestedOrApart(e, f)
  {
    hide *;
    OperandIdle(s, e);
    OperandIdle(s, f);
    Bounds(s, e);
    Bounds(s, f);
    WhenIsWord(s, e.when);
    WhenIsWord(s, f.when);
    NotIdleAtCase(s, f.at);
    CaseIsKeyword(s, f.at);
    ReachesOverIdle(s, e.at + 1, e.operand, f.at);
    if f.at < e.when {
      InnerIsFirst(s, e, f);
    }
    PairOrder(s, e, f);
  }

  lemma Bounds(s: string, e: Edit)
    requires e.at + |CASE| <= |s| && CaseAt(s, e.at) == Insert(e)
    ensures e.at < e.open < e.operand <= e.close < e.when < |s| && KeywordAt(s, e.when, WHEN)
  {
    hide CASE, KeywordAt, PaddingBefore, DataEnd, When;
  }

  lemma CaseIsKeyword(s: string, i: nat)
    requires i < |s| && IsCase(s, i)
    ensures KeywordAt(s, i, CASE)
  {
    hide CASE;
  }

  /** Only blanks stand between the closing parenthesis and its WHEN. */
  lemma PairOrder(s: string, e: Edit, f: Edit)
    requires e.at < e.open < e.operand <= e.close < e.when < |s|
    requires f.at < f.open < f.operand <= f.close < f.when < |s|
    requires PaddingBefore(s, e.when, e.operand) == Some(e.close) && IsIdentByte(s[f.when])
    requires e.operand <= f.at && f.at != e.when && (f.at < e.when ==> f.when < e.when)
    ensures NestedOrApart(e, f)
  {
    hide PaddingBefore;
  }

  lemma NotIdleAtCase(s: string, i: nat)
    requires i < |s| && IsCase(s, i)
    ensures !Idle(s, i)
  {
    WordIsIdle(s, i, CASE);
    WordAtHead(Before(s, i), s[i..], CASE);
  }

  /** Main result: any two inserted pairs are nested or apart, in a fixed order. */
  lemma {:induction false} PairsAreNested(s: string, i: nat, j: nat, k: nat)
    requires i <= |s| && j < k < |ScanFrom(s, i).edits|
    ensures NestedOrApart(ScanFrom(s, i).edits[j], ScanFrom(s, i).edits[k])
    decreases |s| - i
  {
    hide CASE, DataEnd, KeywordAt, CaseAt;
    if DataEnd(s, i) == i && KeywordAt(s, i, CASE) {
      CaseFits(s, i);
      if CaseAt(s, i).Insert? && j == 0 {
        EditIsHere(s, i);
        EditsReached(s, i + 1, k - 1);
        PairIsNested(s, ScanFrom(s, i).edits[0], ScanFrom(s, i).edits[k]);
      } else {
        var one := if CaseAt(s, i).Insert? then 1 else 0;
        PairsAreNested(s, i + 1, j - one, k - one);
      }
    } else {
      PairsAreNested(s, Next(s, i), j, k);
    }
  }

  // ----- what the inserted bytes replace -----

  predicate OpensAt(edits: seq<Edit>, i: nat) {
    exists e :: e in edits && e.open == i
  }

  predicate ClosesAt(edits: seq<Edit>, i: nat) {
    exists e :: e in edits && e.close == i
  }

  predicate AllNested(edits: seq<Edit>) {
    forall j, k :: 0 <= j < k < |edits| ==> NestedOrApart(edits[j], edits[k])
  }

  /** Byte i of the copy: '(' or ')' where a pair opens or closes, the source byte elsewhere. */
  lemma {:induction false} ApplyAt(t: string, edits: seq<Edit>, i: nat)
    requires AllWithin(edits, |t|) && AllNested(edits) && i < |t|
    ensures |Apply(t, edits)| == |t|
    ensures Apply(t, edits)[i] ==
            if OpensAt(edits, i) then '(' else if ClosesAt(edits, i) then ')' else t[i]
    decreases |edits|
  {
    if edits != [] {
      var e, rest := edits[0], edits[1..];
      assert edits == [e] + rest;
      var u := t[e.open := '('][e.close := ')'];
      assert AllNested(rest) by {
        forall j, k | 0 <= j < k < |rest| ensures NestedOrApart(rest[j], rest[k]) {
          assert NestedOrApart(edits[j + 1], edits[k + 1]);
        }
      }
      forall f | f in rest ensures NestedOrApart(e, f) {
        var k :| 0 <= k < |rest| && rest[k] == f;
        assert NestedOrApart(edits[0], edits[k + 1]);
      }
      ApplyAt(u, rest, i);
      assert e in edits;
      assert OpensAt(edits, i) <==> e.open == i || OpensAt(rest, i);
      assert ClosesAt(edits, i) <==> e.close == i || ClosesAt(rest, i);
    }
  }

  /** Depth of the source's own parentheses from i to w; None when one closes too many. */
  function Parens(s: string, i: nat, w: nat, p: nat): Option<nat>
    requires i <= |s|
    decreases |s| - i
  {
    if i >= w || i == |s| then Some(p)
    else if DataEnd(s, i) == i && s[i] == '(' then Parens(s, i + 1, w, p + 1)
    else if DataEnd(s, i) == i && s[i] == ')' then
      if p == 0 then None else Parens(s, i + 1, w, p - 1)
    else Parens(s, Next(s, i), w, p)
  }

  /** The source's parentheses are balanced inside every inserted pair's operand. */
  lemma {:induction false} OperandIsBalanced(s: string, i: nat, p: nat, b: nat, c: nat)
    requires i <= |s| && When(s, i, p, b, c).Some?
    ensures Parens(s, i, When(s, i, p, b, c).value, p) == Some(0)
    decreases |s| - i
  {
    hide CASE, WHEN, END, DataEnd, KeywordAt;
    if DataEnd(s, i) > i {
      OperandIsBalanced(s, DataEnd(s, i), p, b, c);
    } else if s[i] == '(' {
      OperandIsBalanced(s, i + 1, p + 1, b, c);
    } else if s[i] == ')' {
      OperandIsBalanced(s, i + 1, p - 1, b, c);
    } else if s[i] == '[' {
      OperandIsBalanced(s, i + 1, p, b + 1, c);
    } else if s[i] == ']' {
      OperandIsBalanced(s, i + 1, p, b - 1, c);
    } else if When(s, i, p, b, c) != Some(i) {
      OperandIsBalanced(s, i + 1, p, b, CaseDepth(s, i, p, b, c));
    }
  }

  /** The copy as a whole, for every source text. */
  lemma CopyIsParenthesised(sql: string)
    ensures var edits, copy := ScanFrom(sql, 0).edits, Apply(sql, ScanFrom(sql, 0).edits);
            && AllNested(edits) && |copy| == |sql|
            && (forall e :: e in edits ==> IsPadding(sql, e) && Parens(sql, e.operand, e.when, 0) == Some(0))
            && forall i :: 0 <= i < |sql| ==>
                 copy[i] == if OpensAt(edits, i) then '(' else if ClosesAt(edits, i) then ')' else sql[i]
  {
    var edits := ScanFrom(sql, 0).edits;
    hide ScanFrom, CaseAt, IsCase, Parens, CASE, When, Apply, OpensAt, ClosesAt, NestedOrApart;
    forall j, k | 0 <= j < k < |edits| ensures NestedOrApart(edits[j], edits[k]) {
      PairsAreNested(sql, 0, j, k);
    }
    forall e | e in edits
      ensures IsPadding(sql, e) && Parens(sql, e.operand, e.when, 0) == Some(0)
    {
      var k :| 0 <= k < |edits| && edits[k] == e;
      EditsReached(sql, 0, k);
      EditIsPadded(sql, e);
      OperandIsBalanced(sql, e.operand, 0, 0, 0);
    }
    ApplyLength(sql, edits);
    forall i | 0 <= i < |sql|
      ensures Apply(sql, edits)[i] ==
              if OpensAt(edits, i) then '(' else if ClosesAt(edits, i) then ')' else sql[i]
    {
      ApplyAt(sql, edits, i);
    }
  }

  lemma {:induction false} ApplyLength(t: string, edits: seq<Edit>)
    requires AllWithin(edits, |t|)
    ensures |Apply(t, edits)| == |t|
    decreases |edits|
  {
    if edits != [] {
      ApplyLength(t[edits[0].open := '('][edits[0].close := ')'], edits[1..]);
    }
  }

  predicate IsBreak(c: char) { c == '\n' || c == '\r' }

  predicate IsSpaceOrTab(c: char) { c == ' ' || c == '\t' }

  /** A CASE, a blank, line breaks, the operand; a blank, line breaks, its WHEN. */
  predicate IsPadding(s: string, e: Edit) {
    && Within(e, |s|) && IsCase(s, e.at) && KeywordAt(s, e.when, WHEN)
    && IsSpaceOrTab(s[e.open]) && IsSpaceOrTab(s[e.close])
    && (forall k :: e.open < k < e.operand ==> IsBreak(s[k]))
    && (forall k :: e.close < k < e.when ==> IsBreak(s[k]))
    && PrefixOperatorAt(s, e.operand)
  }

  lemma EditIsPadded(s: string, e: Edit)
    requires e.at + |CASE| <= |s| && IsCase(s, e.at) && CaseAt(s, e.at) == Insert(e)
    ensures IsPadding(s, e) && When(s, e.operand, 0, 0, 0) == Some(e.when)
  {
    hide CASE, KeywordAt, When, DataEnd, PrefixOperatorAt;
  }
}
