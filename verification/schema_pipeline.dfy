/**
 The two adapters one after the other.  They cut a text differently: block comments nest
 only for the second one.  All the same, it finds in the output of the first the
 statements that it would find in the source.
 */
module SchemaPipeline {
  import opened Wrappers
  import opened SqlLexer
  import opened SchemaTokens
  import opened SchemaAdapters
  import opened SchemaAdaptersProofs
  import opened SchemaReading

  // ----- what the first adapter does to the words of a text -----

  /** A longest stretch of identifier bytes. */
  predicate IsRun(s: string, i: nat, e: nat) {
    && i < e <= |s| && (forall k :: i <= k < e ==> IsIdentByte(s[k]))
    && (i == 0 || !IsIdentByte(s[i - 1])) && (e == |s| || !IsIdentByte(s[e]))
  }

  datatype Keyword = ExchangeWord | TablesWord | AndWord

  function Was(w: Keyword): string {
    match w
    case ExchangeWord => "EXCHANGE"
    case TablesWord => "TABLES"
    case AndWord => "AND"
  }

  function Now(w: Keyword): string {
    match w
    case ExchangeWord => "RENAME"
    case TablesWord => "TABLE"
    case AndWord => "TO"
  }

  /** The bytes of a keyword in [i, e) became those of its replacement and blanks. */
  predicate Replaced(s: string, t: string, i: nat, e: nat, w: Keyword)
    requires i <= e <= |s| == |t|
  {
    && EqualFold(s[i..e], Was(w)) && |Now(w)| < e - i
    && (forall k :: i <= k < e ==> t[k] == if k < i + |Now(w)| then Now(w)[k - i] else ' ')
  }

  predicate Same(s: string, t: string, i: nat, e: nat)
    requires i <= e <= |s| == |t|
  {
    forall k :: i <= k < e ==> t[k] == s[k]
  }

  /** Every word is the same, or a keyword that was replaced; all other bytes are the same. */
  ghost predicate Respelled(s: string, t: string) {
    && |s| == |t|
    && (forall k :: 0 <= k < |s| && !IsIdentByte(s[k]) ==> t[k] == s[k])
    && (forall i: nat, e: nat :: IsRun(s, i, e) ==> WordRespelled(s, t, i, e))
  }

  predicate WordRespelled(s: string, t: string, i: nat, e: nat)
    requires i <= e <= |s| == |t|
  {
    Same(s, t, i, e) || exists w :: Replaced(s, t, i, e, w)
  }

  // ----- a token of identifier bytes is a run -----

  /** No identifier byte stands on both sides of i. */
  predicate IsEdge(s: string, i: nat) {
    i == 0 || i >= |s| || !IsIdentByte(s[i - 1]) || !IsIdentByte(s[i])
  }

  lemma {:induction false} LineEndsAtEdge(s: string, i: nat)
    requires i <= |s|
    ensures IsEdge(s, LineCommentEnd(s, i))
    decreases |s| - i
  {
    if i < |s| && s[i] != '\n' {
      LineEndsAtEdge(s, i + 1);
    }
  }

  lemma {:induction false} BlockEndsAtEdge(s: string, i: nat, depth: nat)
    requires depth > 0
    ensures IsEdge(s, BlockCommentEnd(s, i))
    ensures NestedCommentEnd(s, i, depth).Some? ==> IsEdge(s, NestedCommentEnd(s, i, depth).value)
    decreases |s| - i
  {
    if i < |s| {
      BlockEndsAtEdge(s, i + 1, depth);
      if PairAt(s, i, '/', '*') {
        BlockEndsAtEdge(s, i + 2, depth + 1);
      } else if PairAt(s, i, '*', '/') && depth > 1 {
        BlockEndsAtEdge(s, i + 2, depth - 1);
      }
    }
  }

  lemma {:induction false} QuoteEndsAtEdge(s: string, i: nat, q: char)
    requires IsQuote(q)
    ensures IsEdge(s, QuotedEnd(s, i, q))
    ensures ClosedQuote(s, i, q).Some? ==> IsEdge(s, ClosedQuote(s, i, q).value)
    decreases |s| - i
  {
    if i < |s| {
      if s[i] == '\\' || (s[i] == q && i + 1 < |s| && s[i + 1] == q) {
        QuoteEndsAtEdge(s, i + 2, q);
      } else if s[i] != q {
        QuoteEndsAtEdge(s, i + 1, q);
      }
    }
  }

  lemma {:induction false} NameEndsAtEdge(s: string, i: nat)
    requires i <= |s|
    ensures IsEdge(s, NameEnd(s, i))
    ensures forall k :: i <= k < NameEnd(s, i) ==> IsIdentByte(s[k])
    ensures NameEnd(s, i) < |s| ==> !IsIdentByte(s[NameEnd(s, i)])
    decreases |s| - i
  {
    if i < |s| && IsIdentByte(s[i]) {
      NameEndsAtEdge(s, i + 1);
    }
  }

  lemma LexemeEndsAtEdge(s: string, i: nat, adapter: Adapter)
    requires i < |s|
    ensures var x := LexemeAt(s, i, adapter);
            && (x.Gap? || x.Block? || x.Word? ==> IsEdge(s, x.end)) && (x.Stop? ==> IsEdge(s, i + 1))
  {
    LineEndsAtEdge(s, i);
    BlockEndsAtEdge(s, i + 2, 1);
    NameEndsAtEdge(s, i + 1);
    if IsQuote(s[i]) {
      QuoteEndsAtEdge(s, i + 1, s[i]);
    }
    hide LineCommentEnd, BlockCommentEnd, NestedCommentEnd, NameEnd, QuotedEnd, ClosedQuote;
  }

  predicate AtEdges(s: string, spans: seq<Span>) {
    forall k :: 0 <= k < |spans| ==> IsEdge(s, spans[k].start) && IsEdge(s, spans[k].end)
  }

  predicate AllAtEdges(s: string, ss: seq<Statement>) {
    forall k :: 0 <= k < |ss| ==> AtEdges(s, ss[k].tokens)
  }

  lemma {:induction false} TokensAreAtEdges(s: string, i: nat, adapter: Adapter, tokens: seq<Span>, comments: seq<Span>)
    requires i <= |s| && IsEdge(s, i) && AtEdges(s, tokens)
    ensures var ss := Statements(s, i, adapter, tokens, comments); ss.Some? ==> AllAtEdges(s, ss.value)
    decreases |s| - i
  {
    hide LexemeAt, IsEdge;
    if i < |s| {
      LexemeEndsAtEdge(s, i, adapter);
      match LexemeAt(s, i, adapter)
      case Gap(end) => TokensAreAtEdges(s, end, adapter, tokens, comments);
      case Block(end) => TokensAreAtEdges(s, end, adapter, tokens, comments + [Span(i, end)]);
      case Word(end) => TokensAreAtEdges(s, end, adapter, tokens + [Span(i, end)], comments);
      case Stop => TokensAreAtEdges(s, i + 1, adapter, [], []);
      case Broken =>
    }
  }

  lemma OneRun(s: string, i: nat, e: nat, j: nat, f: nat, k: nat)
    requires IsRun(s, i, e) && IsRun(s, j, f) && i <= k < e && j <= k < f
    ensures i == j && e == f
  {
  }

  lemma TokenIsRun(s: string, span: Span)
    requires span.start < span.end <= |s| && IsEdge(s, span.start) && IsEdge(s, span.end)
    requires forall k :: span.start <= k < span.end ==> IsIdentByte(s[k])
    ensures IsRun(s, span.start, span.end)
  {
  }

  // ----- the first adapter respells -----

  lemma StatementEdges(s: string, j: nat)
    requires StatementsOf(s, Exchanges).Some? && j < |StatementsOf(s, Exchanges).value|
    ensures AtEdges(s, StatementsOf(s, Exchanges).value[j].tokens)
  {
    hide Statements, InOrder;
    TokensAreAtEdges(s, 0, Exchanges, [], []);
  }

  function KeywordOf(q: nat): Keyword {
    if q == 0 then ExchangeWord else if q == 1 then TablesWord else AndWord
  }

  /** The keyword tokens of a recognised EXCHANGE. */
  lemma KeywordTokens(s: string, tokens: seq<Span>, q: nat)
    requires ExchangeShape(s, tokens) == Recognised && q in {0, 1, 3}
    ensures q < |tokens| && IsWord(s, tokens, q, Was(KeywordOf(q)))
    ensures tokens[q].end - tokens[q].start == |Was(KeywordOf(q))|
    ensures forall k :: tokens[q].start <= k < tokens[q].end ==> IsIdentByte(s[k])
  {
    KeywordIsIdent(s, tokens, q, Was(KeywordOf(q)));
    hide IsWord;
  }

  lemma WordIs(s: string, tokens: seq<Span>, q: nat, k: nat)
    requires q in {0, 1, 3} && q < |tokens| && tokens[q].start <= tokens[q].end <= |s|
    requires k < |WordOf(s, tokens, q)|
    ensures |WordOf(s, tokens, q)| == |Was(KeywordOf(q))| && |Now(KeywordOf(q))| < |Was(KeywordOf(q))|
    ensures WordOf(s, tokens, q)[k] == if k < |Now(KeywordOf(q))| then Now(KeywordOf(q))[k] else ' '
  {
  }

  lemma WordAtIsFold(s: string, tokens: seq<Span>, q: nat, want: string)
    requires IsWord(s, tokens, q, want)
    ensures q < |tokens| && tokens[q].start <= tokens[q].end <= |s|
    ensures EqualFold(s[tokens[q].start..tokens[q].end], want)
  {
  }

  lemma TokenReplaced(s: string, j: nat, q: nat)
    requires Adapt(s, Exchanges).Some? && j < |StatementsOf(s, Exchanges).value| && q in {0, 1, 3}
    requires ExchangeShape(s, StatementsOf(s, Exchanges).value[j].tokens) == Recognised
    ensures q < |StatementsOf(s, Exchanges).value[j].tokens|
    ensures var span := StatementsOf(s, Exchanges).value[j].tokens[q];
            && IsRun(s, span.start, span.end) && |Adapt(s, Exchanges).value.text| == |s|
            && Replaced(s, Adapt(s, Exchanges).value.text, span.start, span.end, KeywordOf(q))
  {
    hide *;
    HasStatements(s, Exchanges);
    var st := StatementsOf(s, Exchanges).value[j];
    ExchangeIs(s, st);
    KeywordTokens(s, st.tokens, q);
    WordAtIsFold(s, st.tokens, q, Was(KeywordOf(q)));
    StatementEdges(s, j);
    EdgesAt(s, st.tokens, q);
    ReplacedIsLonger(q);
    TokenIsRun(s, st.tokens[q]);
    KeptLength(s, Exchanges);
    ExchangeReads(s, j, q);
    TokenSpelled(s, Adapt(s, Exchanges).value.text, st.tokens, q);
  }

  lemma EdgesAt(s: string, spans: seq<Span>, k: nat)
    requires AtEdges(s, spans) && k < |spans|
    ensures IsEdge(s, spans[k].start) && IsEdge(s, spans[k].end)
  {
  }

  lemma ReplacedIsLonger(q: nat)
    ensures |Was(KeywordOf(q))| > 0
  {
  }

  lemma TokenSpelled(s: string, t: string, tokens: seq<Span>, q: nat)
    requires q in {0, 1, 3} && q < |tokens| && tokens[q].start <= tokens[q].end <= |s| == |t|
    requires EqualFold(s[tokens[q].start..tokens[q].end], Was(KeywordOf(q)))
    requires tokens[q].end - tokens[q].start == |Was(KeywordOf(q))|
    requires Reads(t, tokens[q], WordOf(s, tokens, q))
    ensures Replaced(s, t, tokens[q].start, tokens[q].end, KeywordOf(q))
  {
    hide WordOf, Was, Now, KeywordOf, EqualFold;
    forall k | tokens[q].start <= k < tokens[q].end
      ensures var w := KeywordOf(q);
              && |Now(w)| < |Was(w)|
              && t[k] == if k < tokens[q].start + |Now(w)| then Now(w)[k - tokens[q].start] else ' '
    {
      WordIs(s, tokens, q, k - tokens[q].start);
    }
    NowIsShorter(KeywordOf(q));
  }

  lemma NowIsShorter(w: Keyword)
    ensures 0 < |Now(w)| < |Was(w)|
  {
  }

  /** The rewritten token that holds byte k. */
  lemma RewrittenToken(s: string, st: Statement, k: int) returns (q: nat)
    requires Rewritten(s, st, Exchanges, k)
    ensures ExchangeShape(s, st.tokens) == Recognised
    ensures q in {0, 1, 3} && q < |st.tokens| && In(k, st.tokens[q])
  {
    hide IsWord;
    q := if In(k, st.tokens[0]) then 0 else if In(k, st.tokens[1]) then 1 else 3;
  }

  lemma ExchangeRespells(s: string)
    requires Adapt(s, Exchanges).Some?
    ensures Respelled(s, Adapt(s, Exchanges).value.text)
  {
    hide *;
    HasStatements(s, Exchanges);
    KeptLength(s, Exchanges);
    var t := Adapt(s, Exchanges).value.text;
    forall k | 0 <= k < |s| && !IsIdentByte(s[k]) ensures t[k] == s[k] {
      OnlyIdentChanges(s, k);
    }
    forall i: nat, e: nat | IsRun(s, i, e) ensures i <= e <= |s| && WordRespelled(s, t, i, e) {
      RunBounds(s, i, e);
      if !Same(s, t, i, e) {
        var k := ChangedByte(s, t, i, e);
        var j, q := RewrittenAt(s, k);
        TokenReplaced(s, j, q);
        var span := StatementsOf(s, Exchanges).value[j].tokens[q];
        InIs(k, span);
        OneRun(s, i, e, span.start, span.end, k);
        Witness(s, t, i, e, KeywordOf(q));
      } else {
        SameWord(s, t, i, e);
      }
    }
    RespelledIs(s, t);
  }

  lemma RunBounds(s: string, i: nat, e: nat)
    requires IsRun(s, i, e)
    ensures i < e <= |s| && forall k :: i <= k < e ==> IsIdentByte(s[k])
    ensures e == |s| || !IsIdentByte(s[e])
  {
  }

  lemma InIs(k: int, span: Span)
    ensures In(k, span) <==> span.start <= k < span.end
  {
  }

  lemma ChangedByte(s: string, t: string, i: nat, e: nat) returns (k: nat)
    requires i <= e <= |s| == |t| && !Same(s, t, i, e)
    ensures i <= k < e && t[k] != s[k]
  {
    k :| i <= k < e && t[k] != s[k];
  }

  lemma Witness(s: string, t: string, i: nat, e: nat, w: Keyword)
    requires i <= e <= |s| == |t| && Replaced(s, t, i, e, w)
    ensures WordRespelled(s, t, i, e)
  {
  }

  lemma SameWord(s: string, t: string, i: nat, e: nat)
    requires i <= e <= |s| == |t| && Same(s, t, i, e)
    ensures WordRespelled(s, t, i, e)
  {
  }

  lemma RespelledIs(s: string, t: string)
    requires |s| == |t|
    requires forall k :: 0 <= k < |s| && !IsIdentByte(s[k]) ==> t[k] == s[k]
    requires forall i: nat, e: nat :: IsRun(s, i, e) ==> i <= e <= |s| && WordRespelled(s, t, i, e)
    ensures Respelled(s, t)
  {
  }

  lemma OnlyIdentChanges(s: string, k: nat)
    requires Adapt(s, Exchanges).Some? && k < |s| == |Adapt(s, Exchanges).value.text| && !IsIdentByte(s[k])
    ensures Adapt(s, Exchanges).value.text[k] == s[k]
  {
    hide AdaptAll, Touched, Statements;
    AdaptedAt(s, StatementsOf(s, Exchanges).value, Exchanges, k);
  }

  lemma RewrittenAt(s: string, k: nat) returns (j: nat, q: nat)
    requires Adapt(s, Exchanges).Some? && k < |s| == |Adapt(s, Exchanges).value.text|
    requires Adapt(s, Exchanges).value.text[k] != s[k]
    ensures j < |StatementsOf(s, Exchanges).value| && q in {0, 1, 3}
    ensures var st := StatementsOf(s, Exchanges).value[j];
            ExchangeShape(s, st.tokens) == Recognised && q < |st.tokens| && In(k, st.tokens[q])
  {
    hide AdaptAll, Statements, Rewritten, BecomesAt, ExchangeShape, In;
    var ss := StatementsOf(s, Exchanges).value;
    AdaptedAt(s, ss, Exchanges, k);
    j :| 0 <= j < |ss| && Rewritten(s, ss[j], Exchanges, k);
    q := RewrittenToken(s, ss[j], k);
  }

  // ----- the second adapter scans a respelled text as it scans the source -----

  function RunStart(s: string, k: nat): (i: nat)
    requires k < |s| && IsIdentByte(s[k])
    ensures i <= k && (i == 0 || !IsIdentByte(s[i - 1])) && forall j :: i <= j <= k ==> IsIdentByte(s[j])
  {
    if k > 0 && IsIdentByte(s[k - 1]) then RunStart(s, k - 1) else k
  }

  lemma RunAround(s: string, k: nat) returns (i: nat, e: nat)
    requires k < |s| && IsIdentByte(s[k])
    ensures i <= k < e && IsRun(s, i, e)
  {
    i := RunStart(s, k);
    e := NameEnd(s, k + 1);
    NameEndsAtEdge(s, k + 1);
  }

  lemma NowIsWord(w: Keyword, k: nat)
    requires k < |Now(w)|
    ensures IsIdentByte(Now(w)[k]) && 'A' <= Now(w)[k] <= 'Z'
  {
  }

  /** A byte of a word stays one, or becomes a blank. */
  lemma WordBytes(s: string, t: string, k: nat)
    requires Respelled(s, t) && k < |s| && IsIdentByte(s[k])
    ensures |s| == |t| && (IsIdentByte(t[k]) || t[k] == ' ')
  {
    hide IsIdentByte;
    var i, e := RunAround(s, k);
    assert WordRespelled(s, t, i, e);
    if !Same(s, t, i, e) {
      var w :| Replaced(s, t, i, e, w);
      if k < i + |Now(w)| {
        NowIsWord(w, k - i);
      }
    }
  }

  predicate IsMark(c: char) {
    !IsIdentByte(c) && c != ' '
  }

  /** Marks stand where they stood. */
  lemma MarksStay(s: string, t: string)
    requires Respelled(s, t)
    ensures |s| == |t| && forall k :: 0 <= k < |s| ==> (IsMark(s[k]) <==> IsMark(t[k])) && (IsMark(s[k]) ==> t[k] == s[k])
  {
    forall k | 0 <= k < |s| ensures (IsMark(s[k]) <==> IsMark(t[k])) && (IsMark(s[k]) ==> t[k] == s[k]) {
      if IsIdentByte(s[k]) {
        WordBytes(s, t, k);
      }
    }
  }

  predicate SameMarks(s: string, t: string) {
    |s| == |t| && forall k :: 0 <= k < |s| ==> (IsMark(s[k]) <==> IsMark(t[k])) && (IsMark(s[k]) ==> t[k] == s[k])
  }

  lemma {:induction false} SameQuote(s: string, t: string, i: nat, q: char)
    requires SameMarks(s, t) && IsQuote(q)
    ensures ClosedQuote(t, i, q) == ClosedQuote(s, i, q)
    decreases |s| - i
  {
    if i < |s| {
      assert IsMark(q) && IsMark('\\');
      if s[i] == '\\' || (s[i] == q && i + 1 < |s| && s[i + 1] == q) {
        SameQuote(s, t, i + 2, q);
      } else if s[i] != q {
        SameQuote(s, t, i + 1, q);
      }
    }
  }

  lemma {:induction false} SameComment(s: string, t: string, i: nat, depth: nat)
    requires SameMarks(s, t) && depth > 0
    ensures NestedCommentEnd(t, i, depth) == NestedCommentEnd(s, i, depth)
    decreases |s| - i
  {
    if i < |s| {
      SamePair(s, t, i, '/', '*');
      SamePair(s, t, i, '*', '/');
      if PairAt(s, i, '/', '*') {
        SameComment(s, t, i + 2, depth + 1);
      } else if PairAt(s, i, '*', '/') {
        if depth > 1 {
          SameComment(s, t, i + 2, depth - 1);
        }
      } else {
        SameComment(s, t, i + 1, depth);
      }
    }
  }

  lemma SamePair(s: string, t: string, i: nat, a: char, b: char)
    requires SameMarks(s, t) && IsMark(a) && IsMark(b)
    ensures PairAt(t, i, a, b) == PairAt(s, i, a, b)
  {
  }

  lemma {:induction false} SameLine(s: string, t: string, i: nat)
    requires SameMarks(s, t)
    ensures LineCommentEnd(t, i) == LineCommentEnd(s, i)
    decreases |s| - i
  {
    if i < |s| {
      assert IsMark('\n');
      SameLine(s, t, i + 1);
    }
  }

  /** Outside of words the two texts have the same lexemes. */
  lemma SameLexeme(s: string, t: string, i: nat)
    requires SameMarks(s, t) && i < |s| && !IsIdentByte(s[i]) && t[i] == s[i]
    ensures LexemeAt(t, i, WaitViews) == LexemeAt(s, i, WaitViews)
  {
    SamePair(s, t, i, '-', '-');
    SamePair(s, t, i, '/', '*');
    SameLine(s, t, i);
    SameComment(s, t, i + 2, 1);
    if IsQuote(s[i]) {
      SameQuote(s, t, i + 1, s[i]);
    }
    hide LineCommentEnd, NestedCommentEnd, ClosedQuote, PairAt, SameMarks;
  }

  lemma WordLexeme(s: string, i: nat, e: nat)
    requires i < e <= |s| && (forall k :: i <= k < e ==> IsIdentByte(s[k])) && (e == |s| || !IsIdentByte(s[e]))
    ensures LexemeAt(s, i, WaitViews) == Word(e)
  {
    NameEndIs(s, i + 1, e);
  }

  lemma {:induction false} BlanksAreGaps(t: string, i: nat, e: nat, tokens: seq<Span>, comments: seq<Span>)
    requires i <= e <= |t| && forall k :: i <= k < e ==> t[k] == ' '
    ensures Statements(t, i, WaitViews, tokens, comments) == Statements(t, e, WaitViews, tokens, comments)
    decreases e - i
  {
    if i < e {
      assert LexemeAt(t, i, WaitViews) == Gap(i + 1);
      BlanksAreGaps(t, i + 1, e, tokens, comments);
    }
  }

  // ----- the tokens of both texts -----

  /** A token of the source, and the one that stands for it. */
  ghost predicate Matches(s: string, t: string, a: Span, b: Span) {
    && |s| == |t| && a.start == b.start < b.end <= a.end <= |s|
    && (|| (a == b && !IsIdentByte(s[a.start]) && t[a.start] == s[a.start])
        || (a == b && Same(s, t, a.start, a.end))
        || (exists w :: Replaced(s, t, a.start, a.end, w) && b.end == a.start + |Now(w)|))
  }

  ghost predicate AllMatch(s: string, t: string, olds: seq<Span>, news: seq<Span>) {
    |olds| == |news| && forall k :: 0 <= k < |olds| ==> Matches(s, t, olds[k], news[k])
  }

  ghost predicate SameStatements(s: string, t: string, ss: seq<Statement>, ts: seq<Statement>) {
    && |ss| == |ts|
    && forall j :: 0 <= j < |ss| ==>
         ss[j].stop == ts[j].stop && ss[j].comments == ts[j].comments && AllMatch(s, t, ss[j].tokens, ts[j].tokens)
  }

  ghost predicate SameCut(s: string, t: string, ss: Option<seq<Statement>>, ts: Option<seq<Statement>>) {
    ss.Some? == ts.Some? && (ss.Some? ==> SameStatements(s, t, ss.value, ts.value))
  }

  /** One word, and what the second adapter makes of it in both texts. */
  lemma WordInBoth(s: string, t: string, i: nat, olds: seq<Span>, news: seq<Span>, comments: seq<Span>) returns (e: nat, end: nat)
    requires Respelled(s, t) && SameMarks(s, t) && i < |s| && IsIdentByte(s[i]) && IsEdge(s, i)
    ensures i < end <= e <= |s| == |t| && IsEdge(s, e) && Matches(s, t, Span(i, e), Span(i, end))
    ensures Statements(s, i, WaitViews, olds, comments) == Statements(s, e, WaitViews, olds + [Span(i, e)], comments)
    ensures Statements(t, i, WaitViews, news, comments) == Statements(t, e, WaitViews, news + [Span(i, end)], comments)
  {
    e := NameEnd(s, i + 1);
    NameEndsAtEdge(s, i + 1);
    assert IsRun(s, i, e);
    WordLexeme(s, i, e);
    hide LexemeAt, NameEnd, Statements, SameMarks;
    assert WordRespelled(s, t, i, e);
    if Same(s, t, i, e) {
      end := e;
      EndsInT(s, t, e);
      WordLexeme(t, i, e);
    } else {
      var w :| Replaced(s, t, i, e, w);
      NowIsShorter(w);
      end := i + |Now(w)|;
      forall k | i <= k < end ensures IsIdentByte(t[k]) {
        NowIsWord(w, k - i);
      }
      assert t[end] == ' ';
      WordLexeme(t, i, end);
      BlanksAreGaps(t, end, e, news + [Span(i, end)], comments);
    }
    StatementsAtWord(s, i, e, olds, comments);
    StatementsAtWord(t, i, end, news, comments);
  }

  lemma EndsInT(s: string, t: string, e: nat)
    requires Respelled(s, t) && e <= |s| && (e == |s| || !IsIdentByte(s[e]))
    ensures e == |t| || (e < |t| && !IsIdentByte(t[e]))
  {
  }

  lemma StatementsAtWord(s: string, i: nat, e: nat, tokens: seq<Span>, comments: seq<Span>)
    requires i < |s| && LexemeAt(s, i, WaitViews) == Word(e)
    ensures Statements(s, i, WaitViews, tokens, comments) == Statements(s, e, WaitViews, tokens + [Span(i, e)], comments)
  {
    hide LexemeAt;
  }

  /** Main step: both texts are cut into the same statements, token by token. */
  lemma {:induction false} CutsAgree(s: string, t: string, i: nat, olds: seq<Span>, news: seq<Span>, comments: seq<Span>)
    requires Respelled(s, t) && SameMarks(s, t) && i <= |s| && IsEdge(s, i) && AllMatch(s, t, olds, news)
    ensures |s| == |t|
    ensures SameCut(s, t, Statements(s, i, WaitViews, olds, comments), Statements(t, i, WaitViews, news, comments))
    decreases |s| - i
  {
    hide LexemeAt, Respelled, SameMarks, Matches, IsEdge;
    RespelledLength(s, t);
    if i < |s| {
      if IsIdentByte(s[i]) {
        var e, end := WordInBoth(s, t, i, olds, news, comments);
        hide Statements;
        CutsAgree(s, t, e, olds + [Span(i, e)], news + [Span(i, end)], comments);
      } else {
        MarkStep(s, t, i, olds, news, comments);
      }
    }
  }

  lemma RespelledLength(s: string, t: string)
    requires Respelled(s, t)
    ensures |s| == |t| && forall k :: 0 <= k < |s| && !IsIdentByte(s[k]) ==> t[k] == s[k]
  {
  }

  lemma {:induction false} MarkStep(s: string, t: string, i: nat, olds: seq<Span>, news: seq<Span>, comments: seq<Span>)
    requires Respelled(s, t) && SameMarks(s, t) && i < |s| == |t| && !IsIdentByte(s[i]) && AllMatch(s, t, olds, news)
    ensures SameCut(s, t, Statements(s, i, WaitViews, olds, comments), Statements(t, i, WaitViews, news, comments))
    decreases |s| - i, 0
  {
    hide LexemeAt, Respelled, SameMarks, Matches, IsEdge, SameStatements;
    RespelledLength(s, t);
    SameLexeme(s, t, i);
    LexemeEndsAtEdge(s, i, WaitViews);
    match LexemeAt(s, i, WaitViews)
    case Gap(end) => CutsAgree(s, t, end, olds, news, comments);
    case Block(end) => CutsAgree(s, t, end, olds, news, comments + [Span(i, end)]);
    case Word(end) =>
      MarkMatches(s, t, i, end);
      CutsAgree(s, t, end, olds + [Span(i, end)], news + [Span(i, end)], comments);
    case Stop =>
      CutsAgree(s, t, i + 1, [], [], []);
      var ss, ts := Statements(s, i + 1, WaitViews, [], []), Statements(t, i + 1, WaitViews, [], []);
      if ss.Some? {
        SameCons(s, t, Statement(olds, comments, i), ss.value, Statement(news, comments, i), ts.value);
      }
    case Broken =>
  }

  lemma MarkMatches(s: string, t: string, i: nat, end: nat)
    requires i < end <= |s| == |t| && !IsIdentByte(s[i]) && t[i] == s[i]
    ensures Matches(s, t, Span(i, end), Span(i, end))
  {
  }

  lemma SameCons(s: string, t: string, a: Statement, ss: seq<Statement>, b: Statement, ts: seq<Statement>)
    requires a.stop == b.stop && a.comments == b.comments && AllMatch(s, t, a.tokens, b.tokens) && SameStatements(s, t, ss, ts)
    ensures SameStatements(s, t, [a] + ss, [b] + ts)
  {
    hide AllMatch;
  }

  // ----- the same statements are recognised -----

  /** The words that a WAIT VIEW is recognised by. */
  predicate IsWaitWord(w: string) {
    w == "SYSTEM" || w == "WAIT" || w == "VIEW" || w == "."
  }

  lemma FoldHead(a: string, b: string)
    requires EqualFold(a, b) && b != ""
    ensures |a| == |b| && Lower(a[0]) == Lower(b[0])
  {
  }

  lemma KeywordIsNoWaitWord(w: Keyword, want: string)
    requires IsWaitWord(want)
    ensures want != "" && Now(w) != "" && Was(w) != ""
    ensures |Was(w)| != |want| || Lower(Was(w)[0]) != Lower(want[0])
    ensures |Now(w)| != |want| || Lower(Now(w)[0]) != Lower(want[0])
  {
  }

  lemma MarkFold(word: string, want: string)
    requires IsWaitWord(want) && word != "" && !IsIdentByte(word[0]) && EqualFold(word, want)
    ensures want == "." && |word| == 1
  {
    FoldHead(word, want);
  }

  /** A respelled keyword is none of these words, before and after. */
  lemma ReplacedIsNoWord(s: string, t: string, a: Span, b: Span, w: Keyword, want: string)
    requires |s| == |t| && a.start == b.start < b.end <= a.end <= |s| && IsWaitWord(want)
    requires Replaced(s, t, a.start, a.end, w) && b.end == a.start + |Now(w)|
    ensures !EqualFold(s[a.start..a.end], want) && !EqualFold(t[b.start..b.end], want)
  {
    KeywordIsNoWaitWord(w, want);
    FoldHead(s[a.start..a.end], Was(w));
    assert t[b.start..b.end][0] == Now(w)[0];
    if EqualFold(s[a.start..a.end], want) {
      FoldHead(s[a.start..a.end], want);
    }
    if EqualFold(t[b.start..b.end], want) {
      FoldHead(t[b.start..b.end], want);
    }
  }

  lemma MatchedWord(s: string, t: string, a: Span, b: Span, want: string)
    requires Matches(s, t, a, b) && IsWaitWord(want)
    ensures EqualFold(s[a.start..a.end], want) <==> EqualFold(t[b.start..b.end], want)
  {
    hide EqualFold, IsWaitWord, Replaced;
    if a == b && Same(s, t, a.start, a.end) {
      assert s[a.start..a.end] == t[b.start..b.end];
    } else if a == b && !IsIdentByte(s[a.start]) && t[a.start] == s[a.start] {
      MarkWord(s, t, a, want);
    } else {
      var w :| Replaced(s, t, a.start, a.end, w) && b.end == a.start + |Now(w)|;
      ReplacedIsNoWord(s, t, a, b, w, want);
    }
  }

  lemma MarkWord(s: string, t: string, a: Span, want: string)
    requires a.start < a.end <= |s| == |t| && IsWaitWord(want) && !IsIdentByte(s[a.start]) && t[a.start] == s[a.start]
    ensures EqualFold(s[a.start..a.end], want) <==> EqualFold(t[a.start..a.end], want)
  {
    hide IsWaitWord;
    var x, y := s[a.start..a.end], t[a.start..a.end];
    assert x[0] == y[0];
    if EqualFold(x, want) {
      MarkFold(x, want);
      assert x == y;
    } else if EqualFold(y, want) {
      MarkFold(y, want);
    }
  }

  lemma WordsAgree(s: string, t: string, olds: seq<Span>, news: seq<Span>, k: nat, want: string)
    requires AllMatch(s, t, olds, news) && IsWaitWord(want)
    ensures IsWord(s, olds, k, want) <==> IsWord(t, news, k, want)
  {
    hide EqualFold, IsWaitWord;
    if k < |olds| {
      assert Matches(s, t, olds[k], news[k]);
      MatchedWord(s, t, olds[k], news[k], want);
    }
  }

  lemma FoldedIsName(word: string, w: Keyword)
    requires EqualFold(word, Was(w))
    ensures word != "" && IsViewName(word)
  {
    forall k | 0 <= k < |word| ensures IsIdentByte(word[k]) && !('0' <= word[k] <= '9') {
      assert Lower(word[k]) == Lower(Was(w)[k]);
    }
  }

  lemma NowIsName(w: Keyword)
    ensures Now(w) != "" && IsViewName(Now(w))
  {
  }

  lemma ReplacedIsName(s: string, t: string, a: Span, b: Span, w: Keyword)
    requires |s| == |t| && a.start == b.start < b.end <= a.end <= |s|
    requires Replaced(s, t, a.start, a.end, w) && b.end == a.start + |Now(w)|
    ensures IsViewName(s[a.start..a.end]) && IsViewName(t[b.start..b.end])
  {
    hide IsViewName, EqualFold;
    FoldedIsName(s[a.start..a.end], w);
    assert t[b.start..b.end] == Now(w);
    NowIsName(w);
  }

  lemma MarkName(x: string, y: string)
    requires |x| == |y| > 0 && x[0] == y[0] && !IsIdentByte(x[0])
    ensures IsViewName(x) == IsViewName(y)
  {
  }

  lemma NamesAgree(s: string, t: string, olds: seq<Span>, news: seq<Span>, k: nat)
    requires AllMatch(s, t, olds, news)
    ensures IsViewNameAt(s, olds, k) <==> IsViewNameAt(t, news, k)
  {
    hide IsViewName, Replaced;
    if k < |olds| {
      var a, b := olds[k], news[k];
      assert Matches(s, t, a, b);
      if a == b && Same(s, t, a.start, a.end) {
        assert s[a.start..a.end] == t[b.start..b.end];
      } else if a == b && !IsIdentByte(s[a.start]) && t[a.start] == s[a.start] {
        MarkName(s[a.start..a.end], t[b.start..b.end]);
      } else {
        var w :| Replaced(s, t, a.start, a.end, w) && b.end == a.start + |Now(w)|;
        ReplacedIsName(s, t, a, b, w);
      }
    }
  }

  lemma ShapesAgree(s: string, t: string, olds: seq<Span>, news: seq<Span>)
    requires AllMatch(s, t, olds, news)
    ensures WaitShape(t, news) == WaitShape(s, olds)
  {
    hide IsWord, IsViewNameAt, Matches;
    WordsAgree(s, t, olds, news, 0, "SYSTEM");
    WordsAgree(s, t, olds, news, 1, "WAIT");
    WordsAgree(s, t, olds, news, 2, "VIEW");
    WordsAgree(s, t, olds, news, 4, ".");
    NamesAgree(s, t, olds, news, 3);
    NamesAgree(s, t, olds, news, 5);
  }

  // ----- the pipeline -----

  predicate NoneMalformed(s: string, ss: seq<Statement>, adapter: Adapter) {
    forall j :: 0 <= j < |ss| ==> ShapeOf(s, ss[j], adapter) != Malformed
  }

  lemma {:induction false} AdaptedIff(s: string, ss: seq<Statement>, adapter: Adapter)
    requires AllSpansFit(ss, |s|)
    ensures AdaptAll(s, ss, adapter).Some? <==> NoneMalformed(s, ss, adapter)
    decreases |ss|
  {
    hide ShapeOf, EditsOf;
    if ss != [] {
      AdaptedIff(s, ss[..|ss| - 1], adapter);
      assert forall j :: 0 <= j < |ss| - 1 ==> ss[..|ss| - 1][j] == ss[j];
    }
  }

  lemma MarksAreSame(s: string, t: string)
    requires Respelled(s, t)
    ensures SameMarks(s, t)
  {
    MarksStay(s, t);
  }

  lemma PipelineCut(s: string)
    requires Adapt(s, Exchanges).Some?
    ensures var t := Adapt(s, Exchanges).value.text;
            && Respelled(s, t) && SameMarks(s, t) && SameCut(s, t, StatementsOf(s, WaitViews), StatementsOf(t, WaitViews))
  {
    hide *;
    var t := Adapt(s, Exchanges).value.text;
    ExchangeRespells(s);
    MarksAreSame(s, t);
    StartIsEdge(s);
    NoneMatch(s, t);
    CutsAgree(s, t, 0, [], [], []);
    StatementsFrom(s, WaitViews);
    StatementsFrom(t, WaitViews);
  }

  lemma StartIsEdge(s: string)
    ensures IsEdge(s, 0)
  {
  }

  lemma NoneMatch(s: string, t: string)
    ensures AllMatch(s, t, [], [])
  {
  }

  lemma StatementsFrom(s: string, adapter: Adapter)
    ensures StatementsOf(s, adapter) == Statements(s, 0, adapter, [], [])
  {
    hide Statements, InOrder;
  }

  /**
   Main result: in the output of the exchange adapter, the wait-view adapter finds the
   statements, and recognises the WAIT VIEW, that it would find in the source.
   */
  lemma SecondAdapterAgrees(s: string)
    requires Adapt(s, Exchanges).Some?
    ensures var t := Adapt(s, Exchanges).value.text;
            var ss, ts := StatementsOf(s, WaitViews), StatementsOf(t, WaitViews);
            && SameCut(s, t, ss, ts)
            && (ss.Some? ==> forall j :: 0 <= j < |ss.value| ==>
                  ShapeOf(t, ts.value[j], WaitViews) == ShapeOf(s, ss.value[j], WaitViews))
            && Adapt(t, WaitViews).Some? == Adapt(s, WaitViews).Some?
  {
    hide AdaptAll, AllMatch, WaitShape, Statements, StatementsOf, Respelled, SameMarks;
    PipelineCut(s);
    var t := Adapt(s, Exchanges).value.text;
    var ss, ts := StatementsOf(s, WaitViews), StatementsOf(t, WaitViews);
    if ss.Some? {
      forall j | 0 <= j < |ss.value|
        ensures ShapeOf(t, ts.value[j], WaitViews) == ShapeOf(s, ss.value[j], WaitViews)
      {
        ShapesAgree(s, t, ss.value[j].tokens, ts.value[j].tokens);
      }
      hide ShapeOf;
      AdaptedIff(s, ss.value, WaitViews);
      AdaptedIff(t, ts.value, WaitViews);
    }
  }

  /** Byte k of a statement that is blanked: in the respelled text it is covered, or blank already. */
  lemma CoveredOrBlank(s: string, t: string, a: Statement, b: Statement, k: nat)
    requires |s| == |t| && k < |s| && a.comments == b.comments && AllMatch(s, t, a.tokens, b.tokens)
    requires ShapeOf(t, b, WaitViews) == ShapeOf(s, a, WaitViews)
    ensures Rewritten(t, b, WaitViews, k) ==> Rewritten(s, a, WaitViews, k)
    ensures Rewritten(s, a, WaitViews, k) && !Rewritten(t, b, WaitViews, k) ==> t[k] == ' '
  {
    hide ShapeOf;
    if Rewritten(t, b, WaitViews, k) {
      if j :| 0 <= j < |b.tokens| && In(k, b.tokens[j]) {
        assert Matches(s, t, a.tokens[j], b.tokens[j]);
        assert In(k, a.tokens[j]);
      }
    } else if Rewritten(s, a, WaitViews, k) {
      var j :| 0 <= j < |a.tokens| && In(k, a.tokens[j]);
      assert Matches(s, t, a.tokens[j], b.tokens[j]);
      assert !In(k, b.tokens[j]);
    }
  }

  /** The text that reaches the parser, byte by byte. */
  lemma PipelineAt(s: string, k: nat)
    requires Adapt(s, Exchanges).Some? && k < |s|
    requires Adapt(Adapt(s, Exchanges).value.text, WaitViews).Some?
    ensures StatementsOf(s, WaitViews).Some?
    ensures var t := Adapt(s, Exchanges).value.text;
            |Adapt(t, WaitViews).value.text| == |s| == |t| &&
            Adapt(t, WaitViews).value.text[k] ==
              if Touched(s, StatementsOf(s, WaitViews).value, WaitViews, k)
              then if IsBreak(s[k]) then s[k] else ' '
              else t[k]
  {
    hide AdaptAll, AllMatch, ShapeOf, Statements, StatementsOf, Rewritten, Respelled;
    SecondAdapterAgrees(s);
    PipelineCut(s);
    var t := Adapt(s, Exchanges).value.text;
    var ss, ts := StatementsOf(s, WaitViews).value, StatementsOf(t, WaitViews).value;
    AdaptedAt(t, ts, WaitViews, k);
    assert IsMark('\n') && IsMark('\r');
    forall j | 0 <= j < |ss|
      ensures Rewritten(t, ts[j], WaitViews, k) ==> Rewritten(s, ss[j], WaitViews, k)
      ensures Rewritten(s, ss[j], WaitViews, k) && !Rewritten(t, ts[j], WaitViews, k) ==> t[k] == ' '
    {
      CoveredOrBlank(s, t, ss[j], ts[j], k);
    }
  }

  /** A semicolon reaches the parser exactly when no recognised WAIT VIEW of the source holds it. */
  lemma PipelineSemicolons(s: string, k: nat)
    requires Adapt(s, Exchanges).Some? && k < |s|
    requires Adapt(Adapt(s, Exchanges).value.text, WaitViews).Some?
    ensures StatementsOf(s, WaitViews).Some?
    ensures var t := Adapt(Adapt(s, Exchanges).value.text, WaitViews).value.text;
            |t| == |s| && (t[k] == ';' <==> s[k] == ';' && !Touched(s, StatementsOf(s, WaitViews).value, WaitViews, k))
  {
    hide Adapt, Touched, StatementsOf;
    PipelineAt(s, k);
    SemicolonsIff(s, Exchanges, k);
  }
}
