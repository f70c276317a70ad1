/** What the adapted copy of a schema text keeps, byte by byte. */
module SchemaAdaptersProofs {
  import opened Wrappers
  import opened SqlLexer
  import opened SchemaTokens
  import opened SchemaAdapters

  predicate In(k: int, span: Span) {
    span.start <= k < span.end
  }

  /** Byte k belongs to a part of the statement that its adapter rewrites. */
  predicate Rewritten(s: string, st: Statement, adapter: Adapter, k: int) {
    && ShapeOf(s, st, adapter) == Recognised
    && match adapter
       case Exchanges => In(k, st.tokens[0]) || In(k, st.tokens[1]) || In(k, st.tokens[3])
       case WaitViews =>
         || (exists j :: 0 <= j < |st.tokens| && In(k, st.tokens[j]))
         || (exists j :: 0 <= j < |st.comments| && In(k, st.comments[j]))
  }

  predicate Touched(s: string, ss: seq<Statement>, adapter: Adapter, k: int) {
    exists j :: 0 <= j < |ss| && Rewritten(s, ss[j], adapter, k)
  }

  predicate IsKeywordByte(c: char) {
    c == ' ' || 'A' <= c <= 'Z'
  }

  /** What a touched byte becomes. */
  predicate BecomesAt(was: char, now: char, adapter: Adapter) {
    match adapter
    case Exchanges => IsIdentByte(was) && IsKeywordByte(now)
    case WaitViews => now == if IsBreak(was) then was else ' '
  }

  // ----- one edit, one statement -----

  predicate Covers(edits: seq<Edit>, k: int) {
    exists j :: 0 <= j < |edits| && edits[j].start <= k < edits[j].start + |edits[j].text|
  }

  /** Every byte that an edit writes is one that byte k of the source may become. */
  predicate Writes(s: string, edits: seq<Edit>, adapter: Adapter)
    requires AllFit(edits, |s|)
  {
    forall j, k :: 0 <= j < |edits| && 0 <= k < |edits[j].text| ==>
      BecomesAt(s[edits[j].start + k], edits[j].text[k], adapter)
  }

  lemma {:induction false} PutAllAt(s: string, t: string, edits: seq<Edit>, adapter: Adapter, k: nat)
    requires |t| == |s| && AllFit(edits, |s|) && Writes(s, edits, adapter) && k < |s|
    ensures !Covers(edits, k) ==> PutAll(t, edits)[k] == t[k]
    ensures Covers(edits, k) ==> BecomesAt(s[k], PutAll(t, edits)[k], adapter)
    decreases |edits|
  {
    if edits != [] {
      var last, before := edits[|edits| - 1], edits[..|edits| - 1];
      hide BecomesAt;
      PutAllAt(s, t, before, adapter, k);
      if last.start <= k < last.start + |last.text| {
        assert BecomesAt(s[last.start + (k - last.start)], last.text[k - last.start], adapter);
      } else if Covers(edits, k) {
        var j :| 0 <= j < |edits| && edits[j].start <= k < edits[j].start + |edits[j].text|;
        assert before[j] == edits[j];
      }
    }
  }

  /** A keyword of the source is letters only. */
  lemma KeywordIsIdent(s: string, tokens: seq<Span>, i: nat, want: string)
    requires IsWord(s, tokens, i, want)
    requires forall k :: 0 <= k < |want| ==> 'A' <= want[k] <= 'Z'
    ensures tokens[i].end - tokens[i].start == |want|
    ensures forall k :: tokens[i].start <= k < tokens[i].end ==> IsIdentByte(s[k])
  {
    var word := s[tokens[i].start..tokens[i].end];
    forall k | tokens[i].start <= k < tokens[i].end ensures IsIdentByte(s[k]) {
      assert Lower(word[k - tokens[i].start]) == Lower(want[k - tokens[i].start]);
    }
  }

  lemma PaddedWrites(s: string, span: Span, text: string)
    requires span.start + |text| <= span.end <= |s|
    requires forall k :: 0 <= k < |text| ==> 'A' <= text[k] <= 'Z'
    requires forall k :: span.start <= k < span.end ==> IsIdentByte(s[k])
    ensures var e := Padded(span, text);
            && e.start == span.start && |e.text| == span.end - span.start
            && forall k :: 0 <= k < |e.text| ==> BecomesAt(s[e.start + k], e.text[k], Exchanges)
  {
  }

  lemma ExchangeWrites(s: string, st: Statement)
    requires ExchangeShape(s, st.tokens) == Recognised && SpansFit(st.tokens, |s|) && SpansFit(st.comments, |s|)
    ensures Writes(s, EditsOf(s, st, Exchanges), Exchanges)
    ensures forall k :: Covers(EditsOf(s, st, Exchanges), k) <==> Rewritten(s, st, Exchanges, k)
  {
    KeywordIsIdent(s, st.tokens, 0, "EXCHANGE");
    KeywordIsIdent(s, st.tokens, 1, "TABLES");
    KeywordIsIdent(s, st.tokens, 3, "AND");
    PaddedWrites(s, st.tokens[0], "RENAME");
    PaddedWrites(s, st.tokens[1], "TABLE");
    PaddedWrites(s, st.tokens[3], "TO");
    ThreeEdits(s, st, EditsOf(s, st, Exchanges));
  }

  lemma ThreeEdits(s: string, st: Statement, edits: seq<Edit>)
    requires ExchangeShape(s, st.tokens) == Recognised && AllFit(edits, |s|) && |edits| == 3 && |st.tokens| >= 4
    requires forall j :: 0 <= j < 3 ==>
               var span := st.tokens[if j == 2 then 3 else j];
               edits[j].start == span.start && |edits[j].text| == span.end - span.start
    requires forall j :: 0 <= j < 3 ==>
               forall k :: 0 <= k < |edits[j].text| ==> BecomesAt(s[edits[j].start + k], edits[j].text[k], Exchanges)
    ensures Writes(s, edits, Exchanges)
    ensures forall k :: Covers(edits, k) <==> Rewritten(s, st, Exchanges, k)
  {
    hide BecomesAt, ExchangeShape;
    forall k ensures Covers(edits, k) <==> Rewritten(s, st, Exchanges, k) {
      assert In(k, st.tokens[0]) <==> edits[0].start <= k < edits[0].start + |edits[0].text|;
      assert In(k, st.tokens[1]) <==> edits[1].start <= k < edits[1].start + |edits[1].text|;
      assert In(k, st.tokens[3]) <==> edits[2].start <= k < edits[2].start + |edits[2].text|;
    }
  }

  lemma WaitWrites(s: string, st: Statement)
    requires WaitShape(s, st.tokens) == Recognised && SpansFit(st.tokens, |s|) && SpansFit(st.comments, |s|)
    ensures Writes(s, EditsOf(s, st, WaitViews), WaitViews)
    ensures forall k :: Covers(EditsOf(s, st, WaitViews), k) <==> Rewritten(s, st, WaitViews, k)
  {
    var spans := st.tokens + st.comments;
    var edits := BlankEdits(s, spans);
    assert EditsOf(s, st, WaitViews) == edits;
    RewrittenByWait(s, st);
    hide WaitShape, EditsOf, Rewritten, Blanked;
    assert forall j :: 0 <= j < |spans| ==> edits[j].start == spans[j].start && |edits[j].text| == spans[j].end - spans[j].start;
    BlankWrites(s, spans);
    hide BlankEdits, Writes, BecomesAt;
    forall k ensures Covers(edits, k) <==> Rewritten(s, st, WaitViews, k) {
      assert Covers(edits, k) <==> exists j :: 0 <= j < |spans| && In(k, spans[j]);
      InEither(st.tokens, st.comments, k);
    }
  }

  lemma RewrittenByWait(s: string, st: Statement)
    requires WaitShape(s, st.tokens) == Recognised
    ensures forall k :: Rewritten(s, st, WaitViews, k) <==>
              (exists j :: 0 <= j < |st.tokens| && In(k, st.tokens[j])) ||
              (exists j :: 0 <= j < |st.comments| && In(k, st.comments[j]))
  {
    hide WaitShape;
  }

  lemma BlankWrites(s: string, spans: seq<Span>)
    requires SpansFit(spans, |s|)
    ensures Writes(s, BlankEdits(s, spans), WaitViews)
  {
  }

  lemma InEither(a: seq<Span>, b: seq<Span>, k: int)
    ensures (exists j :: 0 <= j < |a + b| && In(k, (a + b)[j])) <==>
            (exists j :: 0 <= j < |a| && In(k, a[j])) || (exists j :: 0 <= j < |b| && In(k, b[j]))
  {
    if j :| 0 <= j < |b| && In(k, b[j]) {
      assert (a + b)[|a| + j] == b[j];
    }
    if j :| 0 <= j < |a| && In(k, a[j]) {
      assert (a + b)[j] == a[j];
    }
  }

  // ----- the whole text -----

  lemma StatementAt(s: string, t: string, st: Statement, adapter: Adapter, k: nat)
    requires |t| == |s| && k < |s|
    requires ShapeOf(s, st, adapter) == Recognised && SpansFit(st.tokens, |s|) && SpansFit(st.comments, |s|)
    ensures var now := PutAll(t, EditsOf(s, st, adapter));
            && (Rewritten(s, st, adapter, k) ==> BecomesAt(s[k], now[k], adapter))
            && (!Rewritten(s, st, adapter, k) ==> now[k] == t[k])
  {
    match adapter {
      case Exchanges => ExchangeWrites(s, st);
      case WaitViews => WaitWrites(s, st);
    }
    hide EditsOf, Rewritten, Writes, BecomesAt, ShapeOf, ExchangeShape, WaitShape;
    PutAllAt(s, t, EditsOf(s, st, adapter), adapter, k);
  }

  /** Main result: a byte changes only inside a recognised statement, and only as it may. */
  lemma {:induction false} AdaptedAt(s: string, ss: seq<Statement>, adapter: Adapter, k: nat)
    requires AllSpansFit(ss, |s|) && AdaptAll(s, ss, adapter).Some? && k < |s|
    ensures var now := AdaptAll(s, ss, adapter).value.text[k];
            if Touched(s, ss, adapter, k) then BecomesAt(s[k], now, adapter) else now == s[k]
    decreases |ss|
  {
    if ss != [] {
      var before, last := ss[..|ss| - 1], ss[|ss| - 1];
      AdaptedAt(s, before, adapter, k);
      TouchedSplit(s, ss, adapter, k);
      if ShapeOf(s, last, adapter) == Recognised {
        StatementAt(s, AdaptAll(s, before, adapter).value.text, last, adapter, k);
      }
      hide Touched, Rewritten, BecomesAt, ShapeOf, EditsOf;
    }
  }

  lemma TouchedSplit(s: string, ss: seq<Statement>, adapter: Adapter, k: nat)
    requires ss != []
    ensures Touched(s, ss, adapter, k) <==>
            Touched(s, ss[..|ss| - 1], adapter, k) || Rewritten(s, ss[|ss| - 1], adapter, k)
    ensures Rewritten(s, ss[|ss| - 1], adapter, k) ==> ShapeOf(s, ss[|ss| - 1], adapter) == Recognised
  {
    hide ShapeOf;
    if Touched(s, ss[..|ss| - 1], adapter, k) {
      var j :| 0 <= j < |ss| - 1 && Rewritten(s, ss[..|ss| - 1][j], adapter, k);
      assert Rewritten(s, ss[j], adapter, k);
    }
    hide Rewritten;
  }

  /** Length and line breaks stay, in every text that an adapter accepts. */
  lemma BreaksStay(s: string, adapter: Adapter)
    requires Adapt(s, adapter).Some?
    ensures var t := Adapt(s, adapter).value.text;
            |t| == |s| && forall k :: 0 <= k < |s| ==> (t[k] == '\n' <==> s[k] == '\n') && (t[k] == '\r' <==> s[k] == '\r')
  {
    hide AdaptAll, Touched;
    var ss := StatementsOf(s, adapter).value;
    var t := Adapt(s, adapter).value.text;
    forall k | 0 <= k < |s| ensures (t[k] == '\n' <==> s[k] == '\n') && (t[k] == '\r' <==> s[k] == '\r') {
      AdaptedAt(s, ss, adapter, k);
    }
  }

  // ----- semicolons -----

  /** The semicolons that end a statement. */
  predicate IsStop(ss: seq<Statement>, k: int) {
    exists j :: 0 <= j < |ss| && ss[j].stop == k
  }

  lemma {:induction false} StopsAreUntouched(s: string, ss: seq<Statement>, lo: nat, adapter: Adapter, j: nat, k: int)
    requires InOrder(s, ss, lo) && j < |ss| && Rewritten(s, ss[j], adapter, k)
    ensures lo <= k && !IsStop(ss, k)
    decreases |ss|
  {
    if j > 0 {
      StopsAreUntouched(s, ss[1..], ss[0].stop + 1, adapter, j - 1, k);
      hide Rewritten;
      forall m | 0 <= m < |ss| ensures ss[m].stop != k {
        if m > 0 {
          assert ss[1..][m - 1] == ss[m];
        }
      }
    } else {
      RewrittenIsInside(s, ss[0], lo, adapter, k);
      hide Rewritten;
      forall m | 0 <= m < |ss| ensures ss[m].stop >= ss[0].stop {
        LaterStops(s, ss, lo, m);
      }
    }
  }

  lemma RewrittenIsInside(s: string, st: Statement, lo: nat, adapter: Adapter, k: int)
    requires SpansWithin(st.tokens, lo, st.stop) && SpansWithin(st.comments, lo, st.stop)
    requires Rewritten(s, st, adapter, k)
    ensures lo <= k < st.stop
  {
    hide IsWord, IsViewNameAt;
  }

  lemma {:induction false} LaterStops(s: string, ss: seq<Statement>, lo: nat, m: nat)
    requires InOrder(s, ss, lo) && m < |ss|
    ensures ss[m].stop >= ss[0].stop
    decreases |ss|
  {
    if m > 0 {
      LaterStops(s, ss[1..], ss[0].stop + 1, m - 1);
      NextStop(s, ss[1..], ss[0].stop + 1);
    }
  }

  lemma NextStop(s: string, ss: seq<Statement>, lo: nat)
    requires InOrder(s, ss, lo) && ss != []
    ensures ss[0].stop >= lo
  {
  }

  /** Main result: the semicolon after every statement stays where it is. */
  lemma StopsStay(s: string, adapter: Adapter, j: nat)
    requires Adapt(s, adapter).Some? && j < |StatementsOf(s, adapter).value|
    ensures var stop := StatementsOf(s, adapter).value[j].stop;
            stop < |s| ==> Adapt(s, adapter).value.text[stop] == s[stop]
  {
    var ss := StatementsOf(s, adapter).value;
    var stop := ss[j].stop;
    hide AdaptAll, InOrder, Rewritten, BecomesAt;
    if stop < |s| {
      AdaptedAt(s, ss, adapter, stop);
      assert IsStop(ss, stop);
      if Touched(s, ss, adapter, stop) {
        var m :| 0 <= m < |ss| && Rewritten(s, ss[m], adapter, stop);
        StopsAreUntouched(s, ss, 0, adapter, m, stop);
      }
    }
  }

  /**
   Main result: every semicolon stays under the exchange adapter.  Under the wait-view adapter
   it stays exactly when no token or comment of a recognised WAIT VIEW holds it.  No adapter
   writes a new one.
   */
  lemma SemicolonsIff(s: string, adapter: Adapter, k: nat)
    requires Adapt(s, adapter).Some? && k < |s|
    ensures Adapt(s, adapter).value.text[k] == ';' <==>
            s[k] == ';' && !(adapter == WaitViews && Touched(s, StatementsOf(s, WaitViews).value, WaitViews, k))
  {
    hide AdaptAll, Touched, Statements;
    AdaptedAt(s, StatementsOf(s, adapter).value, adapter, k);
  }

  // ----- a semicolon that is lost -----

  lemma {:induction false} NameEndIs(s: string, i: nat, e: nat)
    requires i <= e <= |s| && (forall k :: i <= k < e ==> IsIdentByte(s[k])) && (e < |s| ==> !IsIdentByte(s[e]))
    ensures NameEnd(s, i) == e
    decreases e - i
  {
    if i < e {
      NameEndIs(s, i + 1, e);
    }
  }

  lemma WordStep(s: string, i: nat, e: nat, tokens: seq<Span>)
    requires i < e < |s| && (forall k :: i <= k < e ==> IsIdentByte(s[k])) && s[e] == ' '
    ensures Statements(s, i, WaitViews, tokens, []) == Statements(s, e + 1, WaitViews, tokens + [Span(i, e)], [])
  {
    NameEndIs(s, i + 1, e);
    assert LexemeAt(s, i, WaitViews) == Word(e) && LexemeAt(s, e, WaitViews) == Gap(e + 1);
    hide LexemeAt;
  }

  const LOST: string := "SYSTEM WAIT VIEW `a;b`"

  lemma LostBytes()
    ensures |LOST| == 22 && LOST[6] == LOST[11] == LOST[16] == ' '
    ensures forall k :: 0 <= k < 6 || 7 <= k < 11 || 12 <= k < 16 ==> IsIdentByte(LOST[k])
  {
    var word := "SYSTEM";
    assert forall k :: 0 <= k < 6 ==> LOST[k] == word[k];
  }

  lemma LostQuote()
    ensures |LOST| == 22 && LexemeAt(LOST, 17, WaitViews) == Word(22)
  {
    assert ClosedQuote(LOST, 21, '`') == Some(22);
    assert ClosedQuote(LOST, 20, '`') == Some(22);
    assert ClosedQuote(LOST, 19, '`') == Some(22);
    assert ClosedQuote(LOST, 18, '`') == Some(22);
  }

  lemma LostStatement()
    ensures |LOST| == 22
    ensures StatementsOf(LOST, WaitViews) ==
            Some([Statement([Span(0, 6), Span(7, 11), Span(12, 16), Span(17, 22)], [], 22)])
  {
    hide LOST, LexemeAt, IsIdentByte;
    LostBytes();
    LostQuote();
    WordStep(LOST, 0, 6, []);
    WordStep(LOST, 7, 11, [] + [Span(0, 6)]);
    WordStep(LOST, 12, 16, [] + [Span(0, 6)] + [Span(7, 11)]);
    var before := [] + [Span(0, 6)] + [Span(7, 11)] + [Span(12, 16)];
    assert before + [Span(17, 22)] == [Span(0, 6), Span(7, 11), Span(12, 16), Span(17, 22)];
    assert Statements(LOST, 17, WaitViews, before, []) == Statements(LOST, 22, WaitViews, before + [Span(17, 22)], []);
  }

  const LOST_TOKENS: seq<Span> := [Span(0, 6), Span(7, 11), Span(12, 16), Span(17, 22)]

  lemma LostWord(k: nat, want: string)
    requires |LOST| == 22 && k < 4
    requires LOST[LOST_TOKENS[k].start..LOST_TOKENS[k].end] == want
    ensures IsWord(LOST, LOST_TOKENS, k, want)
  {
    hide LOST;
    FoldItself(want);
  }

  lemma FoldItself(a: string)
    ensures EqualFold(a, a)
  {
  }

  lemma LostIsWait()
    ensures |LOST| == 22 && WaitShape(LOST, LOST_TOKENS) == Recognised
  {
    assert LOST[0..6] == "SYSTEM" && LOST[7..11] == "WAIT" && LOST[12..16] == "VIEW";
    LostWord(0, "SYSTEM");
    LostWord(1, "WAIT");
    LostWord(2, "VIEW");
    assert LOST[17] == '`';
    hide LOST, IsWord;
    assert LOST[17..22][0] == LOST[17];
  }

  /** A semicolon in a quoted view name is blanked. */
  lemma SemicolonIsLost()
    ensures |LOST| == 22 && LOST[19] == ';' && Adapt(LOST, WaitViews).Some?
    ensures Adapt(LOST, WaitViews).value.text[19] == ' '
  {
    assert LOST[19] == ';';
    hide LOST, WaitShape, EditsOf, PutAll, Statements;
    LostStatement();
    LostIsWait();
    var st := Statement(LOST_TOKENS, [], 22);
    assert [st][..0] == [];
    assert AdaptAll(LOST, [st], WaitViews).Some?;
    assert In(19, st.tokens[3]);
    assert Rewritten(LOST, [st][0], WaitViews, 19);
    AdaptedAt(LOST, [st], WaitViews, 19);
  }
}
