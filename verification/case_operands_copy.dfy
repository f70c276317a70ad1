/**
 How the parenthesised copy is scanned.  Its quotes and comments are those of the
 source.  Each '(' is code; a ')' is code unless the blank it replaces lies in a line
 comment that ends just before WHEN, and only then the parentheses do not balance.
 */
module CaseOperandsCopy {
  import opened Wrappers
  import opened SqlLexer
  import opened CodeBytes
  import opened CaseOperands
  import opened CaseOperandsProofs

  function Copy(sql: string): string {
    Apply(sql, ScanFrom(sql, 0).edits)
  }

  // ----- the data regions of the copy -----

  /** t is s with some blanks replaced by parentheses. */
  predicate Alike(s: string, t: string) {
    |s| == |t| && forall k :: 0 <= k < |s| ==> t[k] == s[k] || ((s[k] == ' ' || s[k] == '\t') && (t[k] == '(' || t[k] == ')'))
  }

  lemma {:induction false} QuotedEndAlike(s: string, t: string, i: nat, q: char)
    requires Alike(s, t) && IsQuote(q)
    ensures QuotedEnd(t, i, q) == QuotedEnd(s, i, q)
    decreases |s| - i
  {
    if i < |s| {
      if s[i] == '\\' || (s[i] == q && i + 1 < |s| && s[i + 1] == q) {
        QuotedEndAlike(s, t, i + 2, q);
      } else if s[i] != q {
        QuotedEndAlike(s, t, i + 1, q);
      }
    }
  }

  lemma {:induction false} CommentEndAlike(s: string, t: string, i: nat)
    requires Alike(s, t)
    ensures LineCommentEnd(t, i) == LineCommentEnd(s, i) && BlockCommentEnd(t, i) == BlockCommentEnd(s, i)
    decreases |s| - i
  {
    if i < |s| {
      CommentEndAlike(s, t, i + 1);
    }
  }

  lemma DataEndAlike(s: string, t: string, i: nat)
    requires Alike(s, t) && i < |s|
    ensures DataEnd(t, i) == DataEnd(s, i)
  {
    if IsQuote(s[i]) {
      QuotedEndAlike(s, t, i + 1, s[i]);
    }
    CommentEndAlike(s, t, i);
    CommentEndAlike(s, t, i + 2);
    hide QuotedEnd, LineCommentEnd, BlockCommentEnd;
  }

  lemma {:induction false} ReachesAlike(s: string, t: string, i: nat, j: nat)
    requires Alike(s, t) && i <= |s|
    ensures Reaches(t, i, j) <==> Reaches(s, i, j)
    decreases |s| - i
  {
    hide DataEnd, Alike;
    if i < j && i < |s| {
      assert |t| == |s| by { AlikeLength(s, t); }
      DataEndAlike(s, t, i);
      ReachesAlike(s, t, Next(s, i), j);
    } else {
      AlikeLength(s, t);
    }
  }

  lemma AlikeLength(s: string, t: string)
    requires Alike(s, t)
    ensures |s| == |t|
  {
  }

  /** Byte k is code in a scan of the whole text. */
  predicate IsCode(s: string, k: nat) {
    k < |s| && Reaches(s, 0, k) && DataEnd(s, k) == k
  }

  lemma CopyIsAlike(sql: string)
    ensures Alike(sql, Copy(sql))
  {
    hide ScanFrom, Apply, OpensAt, ClosesAt, AllNested, Parens;
    CopyIsParenthesised(sql);
    var edits := ScanFrom(sql, 0).edits;
    forall k | 0 <= k < |sql| && Copy(sql)[k] != sql[k] ensures sql[k] == ' ' || sql[k] == '\t' {
      ReplacedIsBlank(sql, edits, k);
    }
  }

  lemma ReplacedIsBlank(sql: string, edits: seq<Edit>, k: nat)
    requires k < |sql| && (OpensAt(edits, k) || ClosesAt(edits, k))
    requires forall e :: e in edits ==> IsPadding(sql, e)
    ensures sql[k] == ' ' || sql[k] == '\t'
  {
  }

  /** Main result: at every offset, and at every boundary, the copy is scanned as the source is. */
  lemma CopyKeepsData(sql: string, i: nat)
    requires i < |sql|
    ensures |Copy(sql)| == |sql| && DataEnd(Copy(sql), i) == DataEnd(sql, i)
    ensures IsCode(Copy(sql), i) <==> IsCode(sql, i)
  {
    hide DataEnd, Copy;
    CopyIsAlike(sql);
    AlikeLength(sql, Copy(sql));
    DataEndAlike(sql, Copy(sql), i);
    ReachesAlike(sql, Copy(sql), 0, i);
  }

  // ----- boundaries -----

  lemma {:induction false} ReachesOn(s: string, i: nat, j: nat, k: nat)
    requires i <= |s| && j <= |s| && Reaches(s, i, j) && Reaches(s, j, k)
    ensures Reaches(s, i, k)
    decreases |s| - i
  {
    hide DataEnd;
    if i < j {
      ReachesOn(s, Next(s, i), j, k);
      ReachesForward(s, j, k);
    }
  }

  lemma {:induction false} ReachesForward(s: string, i: nat, j: nat)
    requires i <= |s| && Reaches(s, i, j)
    ensures i <= j <= |s|
    decreases |s| - i
  {
    hide DataEnd;
    if i < j {
      ReachesForward(s, Next(s, i), j);
    }
  }

  /** No boundary lies inside a lexeme. */
  lemma {:induction false} NothingInside(s: string, i: nat, c: nat, k: nat)
    requires i <= c < k < |s| && Reaches(s, i, c) && k < Next(s, c)
    ensures !Reaches(s, i, k)
    decreases |s| - i
  {
    hide DataEnd;
    if i < c {
      NothingInside(s, Next(s, i), c, k);
    } else if Reaches(s, c, k) {
      ReachesForward(s, Next(s, c), k);
    }
  }

  /** The lexeme that holds byte k. */
  lemma {:induction false} LexemeOf(s: string, i: nat, k: nat) returns (c: nat)
    requires i <= k < |s|
    ensures i <= c <= k < Next(s, c) && Reaches(s, i, c)
    decreases |s| - i
  {
    hide DataEnd;
    if k < Next(s, i) {
      c := i;
    } else {
      c := LexemeOf(s, Next(s, i), k);
    }
  }

  lemma {:induction false} IdleReaches(s: string, i: nat, j: nat)
    requires i <= j <= |s| && forall k :: i <= k < j ==> Idle(s, k)
    ensures Reaches(s, i, j)
    decreases j - i
  {
    hide DataEnd, Idle;
    if i < j {
      IdleStep(s, i, 0, 0, 0);
      IdleReaches(s, i + 1, j);
    }
  }

  /** The inner scan reaches the WHEN it finds. */
  lemma {:induction false} WhenReached(s: string, i: nat, p: nat, b: nat, c: nat)
    requires i <= |s| && When(s, i, p, b, c).Some?
    ensures Reaches(s, i, When(s, i, p, b, c).value)
    decreases |s| - i
  {
    hide CASE, WHEN, END, DataEnd, KeywordAt;
    if DataEnd(s, i) > i {
      WhenReached(s, DataEnd(s, i), p, b, c);
    } else if s[i] == '(' {
      WhenReached(s, i + 1, p + 1, b, c);
    } else if s[i] == ')' {
      WhenReached(s, i + 1, p - 1, b, c);
    } else if s[i] == '[' {
      WhenReached(s, i + 1, p, b + 1, c);
    } else if s[i] == ']' {
      WhenReached(s, i + 1, p, b - 1, c);
    } else if When(s, i, p, b, c) != Some(i) {
      WhenReached(s, i + 1, p, b, CaseDepth(s, i, p, b, c));
    }
  }

  // ----- which inserted bytes are code -----

  /** Byte k lies behind the start of a line comment, up to and with its line break. */
  predicate InLineComment(s: string, k: nat) {
    exists c :: 0 <= c < k && c < |s| && Reaches(s, 0, c) && PairAt(s, c, '-', '-') && k < LineCommentEnd(s, c)
  }

  /** e is a planned pair of the text. */
  predicate IsPlanned(s: string, e: Edit) {
    && e.at + |CASE| <= |s| && IsCase(s, e.at) && Reaches(s, 0, e.at)
    && CaseAt(s, e.at) == Insert(e)
  }

  lemma EditIsPlanned(s: string, k: nat)
    requires k < |ScanFrom(s, 0).edits|
    ensures IsPlanned(s, ScanFrom(s, 0).edits[k])
  {
    hide CASE, IsCase, CaseAt, ScanFrom, Reaches;
    EditsReached(s, 0, k);
  }

  /** The pair lies as the plan says: blanks, and boundaries at its blank, operand and WHEN. */
  predicate IsPlaced(s: string, e: Edit) {
    && e.open < e.operand <= e.close < e.when < |s|
    && (forall k :: e.open <= k < e.operand ==> DataEnd(s, k) == k && s[k] != '(' && s[k] != ')')
    && IsSpaceOrTab(s[e.open]) && IsSpaceOrTab(s[e.close])
    && (forall k :: e.close < k < e.when ==> s[k] == '\n' || s[k] == '\r')
    && Reaches(s, 0, e.open) && Reaches(s, e.open, e.operand) && Reaches(s, e.operand, e.when)
  }

  lemma PlannedIsPlaced(s: string, e: Edit)
    requires IsPlanned(s, e)
    ensures IsPlaced(s, e) && Parens(s, e.operand, e.when, 0) == Some(0)
  {
    hide *;
    PlannedCase(s, e);
    OperandIdle(s, e);
    Bounds(s, e);
    EditIsPadded(s, e);
    PaddingIs(s, e);
    IdleReaches(s, e.at + 1, e.open);
    IdleReaches(s, e.open, e.operand);
    CaseReachesOn(s, e.at);
    ReachesOn(s, 0, e.at, e.at + 1);
    ReachesOn(s, 0, e.at + 1, e.open);
    WhenReached(s, e.operand, 0, 0, 0);
    OperandIsBalanced(s, e.operand, 0, 0, 0);
    forall k | e.open <= k < e.operand ensures DataEnd(s, k) == k && s[k] != '(' && s[k] != ')' {
      IdleStep(s, k, 0, 0, 0);
      IdleIsNoParen(s, k);
    }
    Placed(s, e);
  }

  lemma PlannedCase(s: string, e: Edit)
    requires IsPlanned(s, e)
    ensures e.at + |CASE| <= |s| && e.at < |s| && IsCase(s, e.at) && Reaches(s, 0, e.at) && CaseAt(s, e.at) == Insert(e)
  {
  }

  lemma PaddingIs(s: string, e: Edit)
    requires IsPadding(s, e)
    ensures e.close < e.when < |s| && e.open < |s| && IsSpaceOrTab(s[e.open]) && IsSpaceOrTab(s[e.close])
    ensures forall k :: e.close < k < e.when ==> s[k] == '\n' || s[k] == '\r'
  {
  }

  lemma CaseReachesOn(s: string, i: nat)
    requires i < |s| && IsCase(s, i)
    ensures Reaches(s, i, i + 1)
  {
    hide CASE;
    assert Next(s, i) == i + 1;
    assert Reaches(s, i + 1, i + 1);
  }

  lemma IdleIsNoParen(s: string, k: nat)
    requires k < |s| && Idle(s, k)
    ensures s[k] != '(' && s[k] != ')'
  {
  }

  lemma Placed(s: string, e: Edit)
    requires e.open < e.operand <= e.close < e.when < |s|
    requires forall k :: e.open <= k < e.operand ==> DataEnd(s, k) == k && s[k] != '(' && s[k] != ')'
    requires IsSpaceOrTab(s[e.open]) && IsSpaceOrTab(s[e.close])
    requires forall k :: e.close < k < e.when ==> s[k] == '\n' || s[k] == '\r'
    requires Reaches(s, 0, e.open) && Reaches(s, e.open, e.operand) && Reaches(s, e.operand, e.when)
    ensures IsPlaced(s, e)
  {
  }

  lemma {:induction false} QuotedEndsInQuote(s: string, i: nat, q: char)
    requires i <= |s|
    ensures var e := QuotedEnd(s, i, q); e == |s| || (i < e && s[e - 1] == q)
    decreases |s| - i
  {
    if i < |s| {
      if s[i] == '\\' || (s[i] == q && i + 1 < |s| && s[i + 1] == q) {
        if i + 2 <= |s| {
          QuotedEndsInQuote(s, i + 2, q);
        }
      } else if s[i] != q {
        QuotedEndsInQuote(s, i + 1, q);
      }
    }
  }

  lemma {:induction false} BlockEndsInSlash(s: string, i: nat)
    requires i <= |s|
    ensures var e := BlockCommentEnd(s, i); e == |s| || (i < e && s[e - 1] == '/')
    decreases |s| - i
  {
    if i < |s| && !PairAt(s, i, '*', '/') {
      BlockEndsInSlash(s, i + 1);
    }
  }

  /** A lexeme that ends in blanks before the end of the text is a line comment. */
  lemma EndsInBlank(s: string, c: nat)
    requires c < |s| && DataEnd(s, c) > c && DataEnd(s, c) < |s| && IsBlank(s[DataEnd(s, c) - 1])
    ensures PairAt(s, c, '-', '-') && DataEnd(s, c) == LineCommentEnd(s, c)
  {
    if IsQuote(s[c]) {
      QuotedEndsInQuote(s, c + 1, s[c]);
    } else if PairAt(s, c, '/', '*') {
      BlockEndsInSlash(s, c + 2);
    }
    hide QuotedEnd, LineCommentEnd, BlockCommentEnd;
  }

  /** Each '(' is code; a ')' is code exactly when its blank is in no line comment. */
  lemma InsertedIsCodeIff(s: string, e: Edit)
    requires IsPlaced(s, e)
    ensures IsCode(s, e.open)
    ensures IsCode(s, e.close) <==> !InLineComment(s, e.close)
  {
    hide DataEnd, LineCommentEnd, Reaches;
    var c := LexemeOf(s, e.operand, e.close);
    ReachesOn(s, 0, e.open, e.operand);
    ReachesOn(s, 0, e.operand, c);
    BlankIsCode(s, e.close);
    if c < e.close {
      NothingInside(s, 0, c, e.close);
      NextBefore(s, e.operand, c, e.when);
      EndsInBlank(s, c);
    } else if InLineComment(s, e.close) {
      var d :| 0 <= d < e.close && Reaches(s, 0, d) && PairAt(s, d, '-', '-') && e.close < LineCommentEnd(s, d);
      CommentIsNext(s, d);
      NothingInside(s, 0, d, e.close);
    }
  }

  lemma CommentIsNext(s: string, d: nat)
    requires PairAt(s, d, '-', '-')
    ensures Next(s, d) == LineCommentEnd(s, d)
  {
  }

  lemma BlankIsCode(s: string, k: nat)
    requires k < |s| && IsBlank(s[k])
    ensures DataEnd(s, k) == k
  {
  }

  /** The lexeme after a boundary before w ends at w at the latest. */
  lemma {:induction false} NextBefore(s: string, i: nat, c: nat, w: nat)
    requires i <= c < w < |s| && Reaches(s, i, c) && Reaches(s, i, w)
    ensures Next(s, c) <= w
    decreases |s| - i
  {
    hide DataEnd;
    if i < c {
      NextBefore(s, Next(s, i), c, w);
      ReachesForward(s, Next(s, i), c);
    } else {
      ReachesForward(s, Next(s, c), w);
    }
  }

  // ----- the parentheses of the copy -----

  /** The pairs that open in [a, i) and are not closed by a code byte before i. */
  function OpenPairs(s: string, edits: seq<Edit>, a: nat, i: nat): set<nat> {
    set k: nat | k < |edits| && a <= edits[k].open < i && !(edits[k].close < i && IsCode(s, edits[k].close))
  }

  /** The pairs that open in [a, w) and whose ')' lies in a line comment. */
  function LostPairs(s: string, edits: seq<Edit>, a: nat, w: nat): set<nat> {
    set k: nat | k < |edits| && a <= edits[k].open < w && InLineComment(s, edits[k].close)
  }

  predicate AllPlaced(s: string, edits: seq<Edit>) {
    forall k :: 0 <= k < |edits| ==> IsPlaced(s, edits[k])
  }

  /** No ')' in [a, w) belongs to a pair that opens before a. */
  predicate ClosedWithin(edits: seq<Edit>, a: nat, w: nat) {
    forall k :: 0 <= k < |edits| && a <= edits[k].close < w ==> a <= edits[k].open
  }

  predicate IsCopy(s: string, t: string, edits: seq<Edit>) {
    && |s| == |t|
    && forall i :: 0 <= i < |s| ==>
         t[i] == if OpensAt(edits, i) then '(' else if ClosesAt(edits, i) then ')' else s[i]
  }

  lemma Distinct(edits: seq<Edit>, j: nat, k: nat)
    requires AllNested(edits) && j < |edits| && k < |edits| && j != k
    ensures edits[j].open != edits[k].open && edits[j].close != edits[k].close && edits[j].open != edits[k].close
  {
    assert NestedOrApart(edits[if j < k then j else k], edits[if j < k then k else j]);
  }

  lemma OpenStep(s: string, edits: seq<Edit>, a: nat, i: nat, k: nat)
    requires AllNested(edits) && AllPlaced(s, edits) && k < |edits| && a <= i == edits[k].open
    ensures OpenPairs(s, edits, a, i + 1) == OpenPairs(s, edits, a, i) + {k} && k !in OpenPairs(s, edits, a, i)
  {
    hide IsCode, AllNested;
    assert IsPlaced(s, edits[k]);
    forall m: nat | m < |edits| && m != k ensures edits[m].open != i && edits[m].close != i {
      Distinct(edits, m, k);
      Distinct(edits, k, m);
    }
    hide IsPlaced, AllPlaced;
  }

  lemma CloseStep(s: string, edits: seq<Edit>, a: nat, i: nat, k: nat)
    requires AllNested(edits) && AllPlaced(s, edits) && k < |edits| && a <= edits[k].open && i == edits[k].close && IsCode(s, i)
    ensures OpenPairs(s, edits, a, i + 1) == OpenPairs(s, edits, a, i) - {k} && k in OpenPairs(s, edits, a, i)
  {
    hide IsCode, AllNested;
    assert IsPlaced(s, edits[k]);
    forall m: nat | m < |edits| && m != k ensures edits[m].open != i && edits[m].close != i {
      Distinct(edits, m, k);
      Distinct(edits, k, m);
    }
    hide IsPlaced, AllPlaced;
  }

  lemma PlainStep(s: string, edits: seq<Edit>, a: nat, i: nat)
    requires !OpensAt(edits, i) && !ClosesAt(edits, i)
    ensures OpenPairs(s, edits, a, i + 1) == OpenPairs(s, edits, a, i)
  {
    hide IsCode;
    assert forall m :: 0 <= m < |edits| ==> edits[m] in edits;
  }

  /** A quote or comment opens no pair, and closes none by a code byte. */
  lemma DataStep(s: string, edits: seq<Edit>, a: nat, i: nat)
    requires AllPlaced(s, edits) && i < |s| && Reaches(s, 0, i) && DataEnd(s, i) > i
    ensures OpenPairs(s, edits, a, DataEnd(s, i)) == OpenPairs(s, edits, a, i)
  {
    hide IsPlaced;
    forall k: nat | i <= k < DataEnd(s, i) ensures !IsCode(s, k) {
      NotCodeInside(s, i, k);
    }
    forall m: nat | m < |edits| ensures IsCode(s, edits[m].open) && edits[m].open < edits[m].close {
      assert IsPlaced(s, edits[m]);
      InsertedIsCodeIff(s, edits[m]);
      PlacedOrder(s, edits[m]);
    }
    hide IsCode, DataEnd, Reaches;
  }

  lemma PlacedOrder(s: string, e: Edit)
    requires IsPlaced(s, e)
    ensures e.open < e.operand <= e.close < e.when < |s|
  {
  }

  lemma NotCodeInside(s: string, i: nat, k: nat)
    requires i < |s| && Reaches(s, 0, i) && i <= k < DataEnd(s, i)
    ensures !IsCode(s, k)
  {
    if i < k {
      NothingInside(s, 0, i, k);
    }
    hide DataEnd, Reaches;
  }

  /** Stepping both texts together: the copy is deeper by the open pairs. */
  lemma {:induction false} Deepened(s: string, t: string, edits: seq<Edit>, a: nat, i: nat, w: nat, p: nat)
    requires IsCopy(s, t, edits) && Alike(s, t) && AllNested(edits) && AllPlaced(s, edits) && ClosedWithin(edits, a, w)
    requires a <= i <= w <= |s| && Reaches(s, 0, i) && Reaches(s, i, w) && Parens(s, i, w, p).Some?
    ensures Parens(t, i, w, p + |OpenPairs(s, edits, a, i)|) ==
            Some(Parens(s, i, w, p).value + |OpenPairs(s, edits, a, w)|)
    decreases |s| - i
  {
    hide DataEnd, OpenPairs, AllNested, AllPlaced, IsCopy, Alike, ClosedWithin, OpensAt, ClosesAt;
    AlikeLength(s, t);
    if i < w {
      DataEndAlike(s, t, i);
      ReachesStep(s, i);
      ReachesForward(s, Next(s, i), w);
      if DataEnd(s, i) > i {
        DataStep(s, edits, a, i);
        Deepened(s, t, edits, a, DataEnd(s, i), w, p);
      } else {
        CodeStep(s, t, edits, a, i, w);
        Deepened(s, t, edits, a, i + 1, w, if s[i] == '(' then p + 1 else if s[i] == ')' then p - 1 else p);
      }
    }
  }

  lemma ReachesStep(s: string, i: nat)
    requires i < |s| && Reaches(s, 0, i)
    ensures Reaches(s, 0, Next(s, i))
  {
    hide DataEnd;
    assert Reaches(s, Next(s, i), Next(s, i));
    assert Reaches(s, i, Next(s, i));
    ReachesOn(s, 0, i, Next(s, i));
  }

  /** A code byte of the copy opens a pair, closes one, or is the byte of the source. */
  lemma CodeStep(s: string, t: string, edits: seq<Edit>, a: nat, i: nat, w: nat)
    requires IsCopy(s, t, edits) && AllNested(edits) && AllPlaced(s, edits) && ClosedWithin(edits, a, w)
    requires a <= i < w <= |s| && Reaches(s, 0, i) && DataEnd(s, i) == i
    ensures var n, m := |OpenPairs(s, edits, a, i)|, |OpenPairs(s, edits, a, i + 1)|;
            if t[i] == s[i] then m == n
            else s[i] != '(' && s[i] != ')' && (if t[i] == '(' then m == n + 1 else t[i] == ')' && n == m + 1)
  {
    hide DataEnd, OpenPairs, Reaches, IsPlaced, AllPlaced, AllNested, ClosedWithin, OpensAt, ClosesAt;
    if OpensAt(edits, i) {
      var k := Opener(s, edits, i);
      OpenStep(s, edits, a, i, k);
    } else if ClosesAt(edits, i) {
      var k := Closer(s, edits, a, i, w);
      CodeHere(s, i);
      CloseStep(s, edits, a, i, k);
    } else {
      PlainStep(s, edits, a, i);
    }
  }

  lemma CodeHere(s: string, i: nat)
    requires i < |s| && Reaches(s, 0, i) && DataEnd(s, i) == i
    ensures IsCode(s, i)
  {
  }

  lemma Opener(s: string, edits: seq<Edit>, i: nat) returns (k: nat)
    requires AllPlaced(s, edits) && OpensAt(edits, i)
    ensures k < |edits| && edits[k].open == i && i < |s| && IsSpaceOrTab(s[i])
  {
    k :| 0 <= k < |edits| && edits[k].open == i;
    assert IsPlaced(s, edits[k]);
  }

  lemma Closer(s: string, edits: seq<Edit>, a: nat, i: nat, w: nat) returns (k: nat)
    requires AllPlaced(s, edits) && ClosesAt(edits, i) && ClosedWithin(edits, a, w) && a <= i < w
    ensures k < |edits| && edits[k].close == i && a <= edits[k].open && i < |s| && IsSpaceOrTab(s[i])
  {
    k :| 0 <= k < |edits| && edits[k].close == i;
    assert IsPlaced(s, edits[k]);
  }

  lemma {:induction false} ParensOver(s: string, i: nat, j: nat, w: nat, p: nat)
    requires i <= j <= w <= |s| && forall k :: i <= k < j ==> DataEnd(s, k) == k && s[k] != '(' && s[k] != ')'
    ensures Parens(s, i, w, p) == Parens(s, j, w, p)
    decreases j - i
  {
    hide DataEnd;
    if i < j {
      ParensOver(s, i + 1, j, w, p);
    }
  }

  /** The parentheses of the source balance in the operand of e. */
  predicate IsBalanced(s: string, e: Edit) {
    e.operand <= e.when < |s| && Parens(s, e.operand, e.when, 0) == Some(0)
  }

  lemma PlacedIsBalanced(s: string, e: Edit)
    requires IsPlaced(s, e) && Parens(s, e.operand, e.when, 0) == Some(0)
    ensures IsBalanced(s, e)
  {
  }

  lemma PlannedAll(sql: string)
    ensures var edits := ScanFrom(sql, 0).edits;
            IsCopy(sql, Copy(sql), edits) && AllNested(edits) && AllPlaced(sql, edits) && Alike(sql, Copy(sql))
    ensures forall k :: 0 <= k < |ScanFrom(sql, 0).edits| ==>
              IsBalanced(sql, ScanFrom(sql, 0).edits[k])
  {
    hide *;
    CopyIsAlike(sql);
    CopyReads(sql);
    forall k | 0 <= k < |ScanFrom(sql, 0).edits|
      ensures IsPlaced(sql, ScanFrom(sql, 0).edits[k]) && IsBalanced(sql, ScanFrom(sql, 0).edits[k])
    {
      EditIsPlanned(sql, k);
      PlannedIsPlaced(sql, ScanFrom(sql, 0).edits[k]);
      PlacedIsBalanced(sql, ScanFrom(sql, 0).edits[k]);
    }
    AllArePlaced(sql, ScanFrom(sql, 0).edits);
  }

  lemma AllArePlaced(s: string, edits: seq<Edit>)
    requires forall k :: 0 <= k < |edits| ==> IsPlaced(s, edits[k])
    ensures AllPlaced(s, edits)
  {
  }

  lemma CopyReads(sql: string)
    ensures IsCopy(sql, Copy(sql), ScanFrom(sql, 0).edits) && AllNested(ScanFrom(sql, 0).edits)
  {
    hide ScanFrom, Apply, OpensAt, ClosesAt, AllNested, Parens, IsPadding;
    CopyIsParenthesised(sql);
  }

  /** A pair that opens inside e is closed, code or not, before the WHEN of e. */
  lemma InsideIsClosed(s: string, edits: seq<Edit>, j: nat, k: nat)
    requires AllNested(edits) && AllPlaced(s, edits) && j < |edits| && k < |edits|
    ensures edits[j].open <= edits[k].open < edits[j].when ==> edits[k].close < edits[j].when
    ensures edits[j].open <= edits[k].close < edits[j].when ==> edits[j].open <= edits[k].open
  {
    hide Reaches, DataEnd;
    assert IsPlaced(s, edits[j]) && IsPlaced(s, edits[k]);
    if j < k {
      assert NestedOrApart(edits[j], edits[k]);
    } else if k < j {
      assert NestedOrApart(edits[k], edits[j]);
    }
  }

  lemma OpenIsLost(s: string, edits: seq<Edit>, a: nat, w: nat)
    requires AllPlaced(s, edits)
    requires forall k :: 0 <= k < |edits| && a <= edits[k].open < w ==> edits[k].close < w
    ensures OpenPairs(s, edits, a, w) == LostPairs(s, edits, a, w)
  {
    hide IsPlaced;
    forall k: nat | k < |edits| ensures IsCode(s, edits[k].close) <==> !InLineComment(s, edits[k].close) {
      assert IsPlaced(s, edits[k]);
      InsertedIsCodeIff(s, edits[k]);
    }
    hide IsCode, InLineComment;
  }

  /**
   Main result: between the '(' of a pair and its WHEN, the code parentheses of the copy are
   short of one ')' for every pair in there that closes in a line comment.  They balance
   exactly when there is none.
   */
  lemma PairBalances(sql: string, j: nat)
    requires j < |ScanFrom(sql, 0).edits|
    ensures var edits := ScanFrom(sql, 0).edits;
            var e := edits[j];
            |Copy(sql)| == |sql| && e.open <= |sql|
            && Parens(Copy(sql), e.open, e.when, 0) == Some(|LostPairs(sql, edits, e.open, e.when)|)
  {
    hide *;
    PlannedAll(sql);
    var edits := ScanFrom(sql, 0).edits;
    var e := edits[j];
    PlacedAt(sql, edits, j);
    PlacedParts(sql, e);
    BalancedParts(sql, e);
    AlikeLength(sql, Copy(sql));
    forall k | 0 <= k < |edits|
      ensures e.open <= edits[k].open < e.when ==> edits[k].close < e.when
      ensures e.open <= edits[k].close < e.when ==> e.open <= edits[k].open
    {
      InsideIsClosed(sql, edits, j, k);
    }
    ClosedIs(edits, e.open, e.when);
    ReachesOn(sql, e.open, e.operand, e.when);
    ParensOver(sql, e.open, e.operand, e.when, 0);
    Deepened(sql, Copy(sql), edits, e.open, e.open, e.when, 0);
    OpenIsLost(sql, edits, e.open, e.when);
    NoneOpenYet(sql, edits, e.open);
  }

  lemma PlacedAt(s: string, edits: seq<Edit>, j: nat)
    requires AllPlaced(s, edits) && j < |edits|
    ensures IsPlaced(s, edits[j])
  {
  }

  lemma BalancedParts(s: string, e: Edit)
    requires IsBalanced(s, e)
    ensures e.operand <= e.when < |s| && Parens(s, e.operand, e.when, 0) == Some(0)
  {
  }

  lemma PlacedParts(s: string, e: Edit)
    requires IsPlaced(s, e)
    ensures e.open < e.operand <= e.close < e.when < |s|
    ensures forall k :: e.open <= k < e.operand ==> DataEnd(s, k) == k && s[k] != '(' && s[k] != ')'
    ensures Reaches(s, 0, e.open) && Reaches(s, e.open, e.operand) && Reaches(s, e.operand, e.when)
  {
  }

  lemma ClosedIs(edits: seq<Edit>, a: nat, w: nat)
    requires forall k :: 0 <= k < |edits| && a <= edits[k].close < w ==> a <= edits[k].open
    ensures ClosedWithin(edits, a, w)
  {
  }

  lemma NoneOpenYet(s: string, edits: seq<Edit>, a: nat)
    ensures OpenPairs(s, edits, a, a) == {}
  {
  }

  /** The whole text: a balanced source stays balanced exactly when no pair is lost. */
  lemma CopyBalances(sql: string)
    requires Parens(sql, 0, |sql|, 0).Some?
    ensures |Copy(sql)| == |sql|
    ensures Parens(Copy(sql), 0, |sql|, 0) ==
            Some(Parens(sql, 0, |sql|, 0).value + |LostPairs(sql, ScanFrom(sql, 0).edits, 0, |sql|)|)
  {
    hide *;
    PlannedAll(sql);
    var edits := ScanFrom(sql, 0).edits;
    AlikeLength(sql, Copy(sql));
    forall k | 0 <= k < |edits| ensures edits[k].close < |sql| {
      PlacedAt(sql, edits, k);
      PlacedParts(sql, edits[k]);
    }
    ClosedIs(edits, 0, |sql|);
    ReachesZero(sql);
    ReachesEnd(sql, 0);
    Deepened(sql, Copy(sql), edits, 0, 0, |sql|, 0);
    OpenIsLost(sql, edits, 0, |sql|);
    NoneOpenYet(sql, edits, 0);
  }

  lemma ReachesZero(s: string)
    ensures Reaches(s, 0, 0)
  {
  }

  lemma {:induction false} ReachesEnd(s: string, i: nat)
    requires i <= |s|
    ensures Reaches(s, i, |s|)
    decreases |s| - i
  {
    hide DataEnd;
    if i < |s| {
      ReachesEnd(s, Next(s, i));
    }
  }

  // ----- a text whose copy is unbalanced -----

  const SPLIT_OPERAND: string := "CASE -x -- n \n"

  const SPLIT_BRANCH: string := "WHEN 1 THEN 2 END"

  const SPLIT: string := SPLIT_OPERAND + SPLIT_BRANCH

  const SPLIT_PAIR: Edit := Edit(0, 5, 14, 4, 12)

  lemma {:induction false} NoCaseAhead(s: string, i: nat)
    requires i <= |s| && forall k :: i <= k < |s| ==> Lower(s[k]) != 'c'
    ensures ScanFrom(s, i) == Scan([], false, false)
    decreases |s| - i
  {
    hide DataEnd, WordAt;
    if i < |s| {
      if KeywordAt(s, i, CASE) {
        WordAtHead(Before(s, i), s[i..], CASE);
      }
      NoCaseAhead(s, Next(s, i));
    }
  }

  lemma SplitOperand()
    ensures |SPLIT_OPERAND| == 14 && SPLIT_OPERAND[..4] == "CASE"
    ensures var s := SPLIT_OPERAND;
            && s[4] == ' ' && s[5] == '-' && s[6] == 'x' && s[7] == ' ' && s[8] == s[9] == '-'
            && s[10] == ' ' && s[11] == 'n' && s[12] == ' ' && s[13] == '\n'
    ensures forall k :: 1 <= k < |SPLIT_OPERAND| ==> Lower(SPLIT_OPERAND[k]) != 'c'
  {
  }

  lemma SplitBranch()
    ensures |SPLIT_BRANCH| == 17 && SPLIT_BRANCH[..4] == "WHEN" && SPLIT_BRANCH[4] == ' '
    ensures forall k :: 0 <= k < |SPLIT_BRANCH| ==> Lower(SPLIT_BRANCH[k]) != 'c'
  {
  }

  lemma SplitBytes()
    ensures |SPLIT| == 31 && SPLIT[..4] == "CASE" && SPLIT[14..18] == "WHEN"
    ensures SPLIT[4] == ' ' && SPLIT[5] == '-' && SPLIT[6] == 'x' && SPLIT[7] == ' ' && SPLIT[8] == SPLIT[9] == '-'
    ensures SPLIT[10] == ' ' && SPLIT[11] == 'n' && SPLIT[12] == ' ' && SPLIT[13] == '\n' && SPLIT[18] == ' '
    ensures forall k :: 1 <= k < |SPLIT| ==> Lower(SPLIT[k]) != 'c'
  {
    hide SPLIT_OPERAND, SPLIT_BRANCH;
    SplitOperand();
    SplitBranch();
    assert SPLIT[14..18] == SPLIT_BRANCH[..4];
    assert SPLIT[..4] == SPLIT_OPERAND[..4];
  }

  lemma SplitWords()
    ensures |SPLIT| == 31 && IsCase(SPLIT, 0) && KeywordAt(SPLIT, 14, WHEN)
    ensures !KeywordAt(SPLIT, 6, WHEN) && !KeywordAt(SPLIT, 6, CASE) && !KeywordAt(SPLIT, 6, END)
  {
    hide SPLIT;
    SplitBytes();
    var s := SPLIT;
    assert s[0..][..4] == "CASE" && s[14..][..4] == "WHEN";
    assert s[0..][4] == ' ' && s[14..][4] == ' ';
    assert s[6..][0] == 'x';
    assert WordAt(' ', s[0..], CASE);
    assert WordAt('\n', s[14..], WHEN);
  }

  lemma SplitComment()
    ensures |SPLIT| == 31 && DataEnd(SPLIT, 8) == 14 && LineCommentEnd(SPLIT, 8) == 14 && PairAt(SPLIT, 8, '-', '-')
    ensures DataEnd(SPLIT, 5) == 5 && DataEnd(SPLIT, 6) == 6 && DataEnd(SPLIT, 7) == 7 && DataEnd(SPLIT, 14) == 14
  {
    hide SPLIT;
    SplitBytes();
    var s := SPLIT;
    assert LineCommentEnd(s, 13) == 14;
    assert LineCommentEnd(s, 12) == 14;
    assert LineCommentEnd(s, 11) == 14;
    assert LineCommentEnd(s, 10) == 14;
    assert LineCommentEnd(s, 9) == 14;
    assert SPLIT[14] == SPLIT[14..18][0];
  }

  lemma SplitWhen()
    ensures |SPLIT| == 31 && When(SPLIT, 5, 0, 0, 0) == Some(14)
    ensures Reaches(SPLIT, 5, 8)
  {
    hide SPLIT, DataEnd, KeywordAt, CASE, WHEN, END;
    SplitBytes();
    SplitWords();
    SplitComment();
    var s := SPLIT;
    NoKeywords(s, 5);
    NoKeywords(s, 7);
    assert SPLIT[14] == SPLIT[14..18][0];
    assert !KeywordAt(s, 14, CASE) && !KeywordAt(s, 14, END) by { WhenAlone(s, 14); }
    assert When(s, 14, 0, 0, 0) == Some(14);
    assert When(s, 8, 0, 0, 0) == Some(14);
    assert When(s, 7, 0, 0, 0) == Some(14);
    assert When(s, 6, 0, 0, 0) == Some(14);
    assert Reaches(s, 8, 8);
    assert Reaches(s, 7, 8);
    assert Reaches(s, 6, 8);
  }

  lemma WhenAlone(s: string, i: nat)
    requires i < |s| && KeywordAt(s, i, WHEN)
    ensures !KeywordAt(s, i, CASE) && !KeywordAt(s, i, END)
  {
    WordAtHead(Before(s, i), s[i..], WHEN);
    if KeywordAt(s, i, CASE) {
      WordAtHead(Before(s, i), s[i..], CASE);
    }
    if KeywordAt(s, i, END) {
      WordAtHead(Before(s, i), s[i..], END);
    }
  }

  lemma SplitCase()
    ensures |SPLIT| == 31 && CaseAt(SPLIT, 0) == Insert(SPLIT_PAIR)
    ensures PaddingBefore(SPLIT, 14, 5) == Some(12)
  {
    hide SPLIT, KeywordAt, When;
    SplitBytes();
    SplitWhen();
    var s := SPLIT;
    assert SkipBlanks(s, 4) == 5;
    assert PaddingBefore(s, 13, 5) == Some(12);
    assert PaddingBefore(s, 5, 4) == Some(4);
  }

  /** The plan is accepted, its '(' is code, and its ')' ends up inside the comment. */
  lemma ParenthesisIsSplit()
    ensures |SPLIT| == 31 && ScanFrom(SPLIT, 0) == Scan([SPLIT_PAIR], false, false)
    ensures |Copy(SPLIT)| == 31 && Copy(SPLIT)[4] == '(' && Copy(SPLIT)[12] == ')'
    ensures IsCode(Copy(SPLIT), 4) && !IsCode(Copy(SPLIT), 12)
    ensures Parens(Copy(SPLIT), 4, 14, 0) == Some(1)
  {
    hide SPLIT, KeywordAt, When, DataEnd, CaseAt, Apply, LineCommentEnd, Parens, LostPairs, IsPlaced;
    SplitBytes();
    SplitWords();
    SplitCase();
    SplitWhen();
    SplitComment();
    var s := SPLIT;
    NoCaseAhead(s, 1);
    assert ScanFrom(s, 0) == Scan([SPLIT_PAIR], false, false);
    hide ScanFrom;
    EditIsPlanned(s, 0);
    PlannedIsPlaced(s, SPLIT_PAIR);
    PlacedParts(s, SPLIT_PAIR);
    ReachesOn(s, 0, 4, 5);
    ReachesOn(s, 0, 5, 8);
    assert InLineComment(s, 12);
    InsertedIsCodeIff(s, SPLIT_PAIR);
    CopyKeepsData(s, 4);
    CopyKeepsData(s, 12);
    CopyReads(s);
    assert SPLIT_PAIR in [SPLIT_PAIR];
    SplitIsLost();
    PairBalances(s, 0);
  }

  lemma SplitIsLost()
    requires |SPLIT| == 31 && InLineComment(SPLIT, 12)
    ensures LostPairs(SPLIT, [SPLIT_PAIR], 4, 14) == {0}
  {
    hide SPLIT, InLineComment;
  }
}
