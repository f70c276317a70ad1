/**
 The lexical discipline shared by every SQL text rewriter: quoted data and
 comments are skipped as a whole, and only the remaining code characters are
 interpreted.  A text is a sequence of characters, one per byte of the source.

 The scanners of the source work on (text, offset).  Here each of them is a
 function of the offset with a method beside it where the source has a loop; the
 proofs about rewriting use the same functions on the remaining text.
 */
module SqlLexer {

  predicate IsIdentByte(c: char) {
    c == '_' || 'a' <= c <= 'z' || 'A' <= c <= 'Z' || '0' <= c <= '9'
  }

  predicate IsQuote(c: char) {
    c == '\'' || c == '"' || c == '`'
  }

  predicate IsBlank(c: char) {
    c == ' ' || c == '\t' || c == '\r' || c == '\n'
  }

  function Lower(c: char): char {
    if 'A' <= c <= 'Z' then (c as int + 32) as char else c
  }

  predicate EqualFold(a: string, b: string) {
    |a| == |b| && forall i :: 0 <= i < |a| ==> Lower(a[i]) == Lower(b[i])
  }

  /** The end of the quoted region whose body is being read at offset i. */
  function QuotedEnd(s: string, i: nat, q: char): (e: nat)
    ensures e <= |s|
    ensures i < |s| ==> i < e
    decreases |s| - i
  {
    if i >= |s| then |s|
    else if s[i] == '\\' then QuotedEnd(s, i + 2, q)
    else if s[i] != q then QuotedEnd(s, i + 1, q)
    else if i + 1 < |s| && s[i + 1] == q then QuotedEnd(s, i + 2, q)
    else i + 1
  }

  function LineCommentEnd(s: string, i: nat): (e: nat)
    ensures e <= |s|
    ensures i < |s| ==> i < e
    decreases |s| - i
  {
    if i >= |s| then |s| else if s[i] == '\n' then i + 1 else LineCommentEnd(s, i + 1)
  }

  function BlockCommentEnd(s: string, i: nat): (e: nat)
    ensures e <= |s|
    ensures i < |s| ==> i < e
    decreases |s| - i
  {
    if i >= |s| then |s|
    else if i + 1 < |s| && s[i] == '*' && s[i + 1] == '/' then i + 2
    else BlockCommentEnd(s, i + 1)
  }

  predicate PairAt(s: string, i: nat, a: char, b: char) {
    i + 1 < |s| && s[i] == a && s[i + 1] == b
  }

  /** Where the data region at offset i ends; i itself when code starts there. */
  function DataEnd(s: string, i: nat): (e: nat)
    requires i < |s|
    ensures i <= e <= |s|
  {
    if IsQuote(s[i]) then QuotedEnd(s, i + 1, s[i])
    else if PairAt(s, i, '-', '-') then LineCommentEnd(s, i)
    else if PairAt(s, i, '/', '*') then BlockCommentEnd(s, i + 2)
    else i
  }

  predicate IsData(s: string, i: nat)
    requires i < |s|
  {
    IsQuote(s[i]) || PairAt(s, i, '-', '-') || PairAt(s, i, '/', '*')
  }

  /** The start of the next lexeme. */
  function Next(s: string, i: nat): (j: nat)
    requires i < |s|
    ensures i < j <= |s|
  {
    if DataEnd(s, i) > i then DataEnd(s, i) else i + 1
  }

  function SkipBlanks(s: string, i: nat): (e: nat)
    requires i <= |s|
    ensures i <= e <= |s|
    ensures forall k :: i <= k < e ==> IsBlank(s[k])
    ensures e < |s| ==> !IsBlank(s[e])
    decreases |s| - i
  {
    if i < |s| && IsBlank(s[i]) then SkipBlanks(s, i + 1) else i
  }

  /** The byte before offset i; a blank stands for the start of the text. */
  function Before(s: string, i: nat): char
    requires i <= |s|
  {
    if i == 0 then ' ' else s[i - 1]
  }

  /** Case-insensitive word w at the head of s, where prev is the byte before s. */
  predicate WordAt(prev: char, s: string, w: string) {
    && |w| <= |s|
    && EqualFold(s[..|w|], w)
    && !IsIdentByte(prev)
    && (|w| == |s| || !IsIdentByte(s[|w|]))
  }

  predicate KeywordAt(s: string, i: nat, w: string)
    requires i <= |s|
  {
    WordAt(Before(s, i), s[i..], w)
  }

  // ----- the loops of the source -----

  method SkipQuoted(sql: string, start: nat, quote: char) returns (end: nat)
    requires start < |sql|
    ensures end == QuotedEnd(sql, start + 1, quote)
  {
    var index := start + 1;
    while index < |sql|
      invariant QuotedEnd(sql, start + 1, quote) == QuotedEnd(sql, index, quote)
      decreases |sql| - index
    {
      if sql[index] == '\\' {
        index := index + 2;
        continue;
      }
      if sql[index] != quote {
        index := index + 1;
        continue;
      }
      if index + 1 < |sql| && sql[index + 1] == quote {
        index := index + 2;
        continue;
      }
      return index + 1;
    }
    return |sql|;
  }

  method SkipWhitespace(sql: string, start: nat) returns (end: nat)
    requires start <= |sql|
    ensures end == SkipBlanks(sql, start)
  {
    end := start;
    while end < |sql|
      invariant start <= end <= |sql|
      invariant SkipBlanks(sql, start) == SkipBlanks(sql, end)
    {
      if !IsBlank(sql[end]) {
        return;
      }
      end := end + 1;
    }
  }

  method SqlDataEnd(sql: string, i: nat) returns (end: nat)
    requires i < |sql|
    ensures end == DataEnd(sql, i)
  {
    if IsQuote(sql[i]) {
      end := SkipQuoted(sql, i, sql[i]);
    } else if PairAt(sql, i, '-', '-') {
      end := LineCommentEnd(sql, i);
    } else if PairAt(sql, i, '/', '*') {
      end := BlockCommentEnd(sql, i + 2);
    } else {
      end := i;
    }
  }

  // ----- a scanner sees only the remaining text -----

  lemma {:induction false} QuotedEndShift(s: string, k: nat, i: nat, q: char)
    requires k <= i && k <= |s|
    ensures QuotedEnd(s, i, q) == k + QuotedEnd(s[k..], i - k, q)
    decreases |s| - i
  {
    if i < |s| {
      if s[i] == '\\' || (s[i] == q && i + 1 < |s| && s[i + 1] == q) {
        QuotedEndShift(s, k, i + 2, q);
      } else if s[i] != q {
        QuotedEndShift(s, k, i + 1, q);
      }
    }
  }

  lemma {:induction false} CommentEndShift(s: string, k: nat, i: nat)
    requires k <= i && k <= |s|
    ensures LineCommentEnd(s, i) == k + LineCommentEnd(s[k..], i - k)
    ensures BlockCommentEnd(s, i) == k + BlockCommentEnd(s[k..], i - k)
    decreases |s| - i
  {
    if i < |s| {
      CommentEndShift(s, k, i + 1);
    }
  }

  lemma DataEndShift(s: string, k: nat, i: nat)
    requires k <= i < |s|
    ensures DataEnd(s, i) == k + DataEnd(s[k..], i - k)
  {
    if IsQuote(s[i]) {
      QuotedEndShift(s, k, i + 1, s[i]);
    } else if PairAt(s, i, '-', '-') {
      CommentEndShift(s, k, i);
    } else if PairAt(s, i, '/', '*') {
      CommentEndShift(s, k, i + 2);
    }
  }

  lemma {:induction false} SkipBlanksShift(s: string, k: nat, i: nat)
    requires k <= i <= |s|
    ensures SkipBlanks(s, i) == k + SkipBlanks(s[k..], i - k)
    decreases |s| - i
  {
    if i < |s| && IsBlank(s[i]) {
      SkipBlanksShift(s, k, i + 1);
    }
  }

  /** Length of the data region a nonempty text starts with; 0 for code. */
  function DataLen(s: string): (n: nat)
    ensures n <= |s|
  {
    if s == "" then 0 else DataEnd(s, 0)
  }

  lemma DataLenAt(s: string, i: nat)
    requires i < |s|
    ensures DataEnd(s, i) == i + DataLen(s[i..])
    ensures IsData(s, i) <==> DataLen(s[i..]) > 0
  {
    DataEndShift(s, i, i);
  }

  // ----- one lexeme: a whole data region or one code character -----

  function LexLen(s: string): (n: nat)
    requires s != ""
    ensures 1 <= n <= |s|
  {
    if DataLen(s) > 0 then DataLen(s) else 1
  }

  /** No data region starts with c, and c after '-' or '/' opens no comment. */
  predicate Neutral(c: char) {
    !IsQuote(c) && c != '-' && c != '*'
  }

  /** y may stand where x stood, after a lexeme, without changing that lexeme. */
  predicate SameHead(x: string, y: string) {
    if x == "" then y == "" else y == "" || y[0] == x[0] || Neutral(y[0])
  }

  lemma {:induction false} QuotedEndStable(a: string, x: string, y: string, i: nat, q: char)
    requires QuotedEnd(a + x, i, q) == |a| && i <= |a|
    requires IsQuote(q) && SameHead(x, y)
    ensures QuotedEnd(a + y, i, q) == |a|
    decreases |a| - i
  {
    if x == "" {
      assert a + x == a + y;
    } else if i < |a| {
      if a[i] == '\\' || (a[i] == q && i + 1 < |a| && a[i + 1] == q) {
        QuotedEndStable(a, x, y, i + 2, q);
      } else if a[i] != q {
        QuotedEndStable(a, x, y, i + 1, q);
      }
    }
  }

  lemma {:induction false} LineCommentEndStable(a: string, x: string, y: string, i: nat)
    requires LineCommentEnd(a + x, i) == |a| && i <= |a| && SameHead(x, y)
    ensures LineCommentEnd(a + y, i) == |a|
    decreases |a| - i
  {
    if x == "" {
      assert a + x == a + y;
    } else if i < |a| && a[i] != '\n' {
      LineCommentEndStable(a, x, y, i + 1);
    }
  }

  lemma {:induction false} BlockCommentEndStable(a: string, x: string, y: string, i: nat)
    requires BlockCommentEnd(a + x, i) == |a| && i <= |a| && SameHead(x, y)
    ensures BlockCommentEnd(a + y, i) == |a|
    decreases |a| - i
  {
    if x == "" {
      assert a + x == a + y;
    } else if i < |a| && !PairAt(a, i, '*', '/') {
      BlockCommentEndStable(a, x, y, i + 1);
    }
  }

  /** The lexeme a of a + x stays the first lexeme when x is replaced. */
  lemma LexemeStable(a: string, x: string, y: string)
    requires a != "" && LexLen(a + x) == |a| && SameHead(x, y)
    ensures LexLen(a + y) == |a| && (DataLen(a + y) > 0 <==> DataLen(a + x) > 0)
  {
    var s := a + x;
    var t := a + y;
    assert s[0] == t[0] == a[0];
    if x == "" {
      assert s == t;
    } else if IsQuote(a[0]) {
      QuotedEndStable(a, x, y, 1, a[0]);
    } else if PairAt(s, 0, '-', '-') {
      LineCommentEndStable(a, x, y, 0);
    } else if PairAt(s, 0, '/', '*') {
      BlockCommentEndStable(a, x, y, 2);
    }
  }
}
