/** The adapters as the source runs them: one scan, and a byte buffer written in place. */
module SchemaNormalize {
  import opened Wrappers
  import opened SqlLexer
  import opened SchemaTokens
  import opened SchemaAdapters
  import opened SchemaAdaptersProofs

  // ----- writing the buffer -----

  method WriteText(out: array<char>, start: nat, text: string)
    requires start + |text| <= out.Length
    modifies out
    ensures out[..] == Put(old(out[..]), Edit(start, text))
  {
    for k := 0 to |text|
      invariant forall j :: 0 <= j < out.Length ==>
                  out[j] == if start <= j < start + k then text[j - start] else old(out[j])
    {
      out[start + k] := text[k];
    }
  }

  /** The buffer has the line breaks of the text. */
  predicate BreaksKept(s: string, t: string) {
    |t| == |s| && forall k :: 0 <= k < |s| ==> IsBreak(s[k]) == IsBreak(t[k]) && (IsBreak(s[k]) ==> t[k] == s[k])
  }

  method BlankSpan(out: array<char>, ghost s: string, span: Span)
    requires span.start <= span.end <= out.Length && BreaksKept(s, out[..])
    modifies out
    ensures out[..] == Put(old(out[..]), Edit(span.start, Blanked(s[span.start..span.end])))
    ensures BreaksKept(s, out[..])
  {
    for k := span.start to span.end
      invariant forall j :: 0 <= j < out.Length ==>
                  out[j] == if span.start <= j < k && !IsBreak(s[j]) then ' ' else old(out[j])
    {
      assert old(out[..])[k] == old(out[k]);
      if !IsBreak(out[k]) {
        out[k] := ' ';
      }
    }
    ghost var was, now := old(out[..]), out[..];
    forall j | 0 <= j < |s| ensures IsBreak(s[j]) == IsBreak(now[j]) && (IsBreak(s[j]) ==> now[j] == s[j]) {
      assert was[j] == old(out[j]);
    }
  }

  method BlankSpans(out: array<char>, s: string, spans: seq<Span>)
    requires SpansFit(spans, |s|) && BreaksKept(s, out[..])
    modifies out
    ensures out[..] == PutAll(old(out[..]), BlankEdits(s, spans))
  {
    ghost var edits := BlankEdits(s, spans);
    ghost var was := out[..];
    for k := 0 to |spans|
      invariant BreaksKept(s, out[..])
      invariant out[..] == PutAll(was, edits[..k])
    {
      BlankSpan(out, s, spans[k]);
      assert edits[..k + 1][..k] == edits[..k];
    }
    assert edits[..|spans|] == edits;
  }

  // ----- a statement ends -----

  method FlushExchange(out: array<char>, s: string, st: Statement) returns (shape: Shape)
    requires out.Length == |s| && SpansFit(st.tokens, |s|) && SpansFit(st.comments, |s|)
    modifies out
    ensures shape == ShapeOf(s, st, Exchanges)
    ensures out[..] == if shape == Recognised then PutAll(old(out[..]), EditsOf(s, st, Exchanges)) else old(out[..])
  {
    shape := ExchangeShape(s, st.tokens);
    if shape == Recognised {
      hide IsWord;
      KeywordLengths(s, st);
      ghost var was := out[..];
      var first, second, third :=
        Padded(st.tokens[0], "RENAME"), Padded(st.tokens[1], "TABLE"), Padded(st.tokens[3], "TO");
      WriteText(out, first.start, first.text);
      WriteText(out, second.start, second.text);
      WriteText(out, third.start, third.text);
      ThreePuts(was, first, second, third);
    }
  }

  lemma KeywordLengths(s: string, st: Statement)
    requires ExchangeShape(s, st.tokens) == Recognised
    ensures |st.tokens| >= 5
    ensures st.tokens[0].start + 8 == st.tokens[0].end <= |s|
    ensures st.tokens[1].start + 6 == st.tokens[1].end <= |s|
    ensures st.tokens[3].start + 3 == st.tokens[3].end <= |s|
  {
  }

  lemma PutOneMore(t: string, edits: seq<Edit>, e: Edit)
    requires AllFit(edits, |t|) && Fits(e, |t|)
    ensures PutAll(t, edits + [e]) == Put(PutAll(t, edits), e)
  {
    assert (edits + [e])[..|edits|] == edits;
  }

  lemma PutNothing(t: string)
    ensures PutAll(t, []) == t
  {
  }

  lemma ThreePuts(t: string, a: Edit, b: Edit, c: Edit)
    requires Fits(a, |t|) && Fits(b, |t|) && Fits(c, |t|)
    ensures PutAll(t, [a, b, c]) == Put(Put(Put(t, a), b), c)
  {
    hide PutAll, Put;
    PutNothing(t);
    PutOneMore(t, [], a);
    PutOneMore(t, [a], b);
    PutOneMore(t, [a, b], c);
    assert [] + [a] == [a] && [a] + [b] == [a, b] && [a, b] + [c] == [a, b, c];
  }

  method FlushWait(out: array<char>, s: string, st: Statement) returns (shape: Shape)
    requires SpansFit(st.tokens, |s|) && SpansFit(st.comments, |s|) && BreaksKept(s, out[..])
    modifies out
    ensures shape == ShapeOf(s, st, WaitViews)
    ensures out[..] == if shape == Recognised then PutAll(old(out[..]), EditsOf(s, st, WaitViews)) else old(out[..])
  {
    shape := WaitShape(s, st.tokens);
    if shape == Recognised {
      BlankSpans(out, s, st.tokens + st.comments);
    }
  }

  // ----- the scan -----

  function Then(closed: seq<Statement>, rest: Option<seq<Statement>>): Option<seq<Statement>> {
    if rest.None? then None else Some(closed + rest.value)
  }

  lemma ThenCons(closed: seq<Statement>, st: Statement, rest: Option<seq<Statement>>)
    ensures Then(closed, Cons(st, rest)) == Then(closed + [st], rest)
    ensures Then([], rest) == rest
  {
    if rest.Some? {
      assert closed + ([st] + rest.value) == (closed + [st]) + rest.value;
      assert [] + rest.value == rest.value;
    }
  }

  lemma LastStatement(closed: seq<Statement>, st: Statement)
    ensures Then(closed, Some([st])) == Some(closed + [st])
  {
  }

  /** A malformed statement refuses the text, whatever follows. */
  lemma {:induction false} MalformedRefuses(s: string, ss: seq<Statement>, adapter: Adapter, j: nat)
    requires AllSpansFit(ss, |s|) && j < |ss| && ShapeOf(s, ss[j], adapter) == Malformed
    ensures AdaptAll(s, ss, adapter).None?
    decreases |ss|
  {
    hide ShapeOf, EditsOf;
    if j < |ss| - 1 {
      MalformedRefuses(s, ss[..|ss| - 1], adapter, j);
    }
  }

  lemma MalformedText(s: string, adapter: Adapter, closed: seq<Statement>, st: Statement, rest: Option<seq<Statement>>)
    requires Statements(s, 0, adapter, [], []) == Then(closed + [st], rest)
    requires ShapeOf(s, st, adapter) == Malformed
    ensures Adapt(s, adapter).None?
  {
    hide ShapeOf, InOrder;
    var ss := StatementsOf(s, adapter);
    if ss.Some? {
      assert ss.value[|closed|] == st;
      MalformedRefuses(s, ss.value, adapter, |closed|);
    }
  }

  /** The state of the scan: the closed statements are adapted, the open one is still to come. */
  ghost predicate Scanned(s: string, i: nat, adapter: Adapter, closed: seq<Statement>,
                          tokens: seq<Span>, comments: seq<Span>, text: string, positions: set<nat>)
  {
    && i <= |s|
    && Then(closed, Statements(s, i, adapter, tokens, comments)) == Statements(s, 0, adapter, [], [])
    && AllSpansFit(closed, |s|) && SpansFit(tokens, i) && SpansFit(comments, i)
    && AdaptAll(s, closed, adapter) == Some(Adapted(text, positions))
  }

  lemma ScanStarts(s: string, adapter: Adapter)
    ensures Scanned(s, 0, adapter, [], [], [], s, {})
  {
    ThenCons([], Statement([], [], 0), Statements(s, 0, adapter, [], []));
  }

  lemma ScanMoves(s: string, i: nat, adapter: Adapter, closed: seq<Statement>,
                  tokens: seq<Span>, comments: seq<Span>, text: string, positions: set<nat>)
    requires Scanned(s, i, adapter, closed, tokens, comments, text, positions) && i < |s|
    ensures var x := LexemeAt(s, i, adapter);
            match x
            case Gap(end) => Scanned(s, end, adapter, closed, tokens, comments, text, positions)
            case Block(end) => Scanned(s, end, adapter, closed, tokens, comments + [Span(i, end)], text, positions)
            case Word(end) => Scanned(s, end, adapter, closed, tokens + [Span(i, end)], comments, text, positions)
            case Broken => Adapt(s, adapter).None?
            case Stop => true
  {
    hide LexemeAt, AdaptAll, InOrder;
  }

  /** A statement is closed, by a semicolon or by the end of the text. */
  lemma ScanCloses(s: string, i: nat, adapter: Adapter, closed: seq<Statement>, tokens: seq<Span>, comments: seq<Span>,
                   text: string, positions: set<nat>, now: string)
    requires Scanned(s, i, adapter, closed, tokens, comments, text, positions)
    requires i < |s| ==> LexemeAt(s, i, adapter) == Stop
    requires |text| == |s| && SpansFit(tokens, |s|) && SpansFit(comments, |s|)
    requires var st := Statement(tokens, comments, i);
             now == if ShapeOf(s, st, adapter) == Recognised then PutAll(text, EditsOf(s, st, adapter)) else text
    ensures var st := Statement(tokens, comments, i);
            var shape := ShapeOf(s, st, adapter);
            var then' := if shape == Recognised then positions + {tokens[0].start} else positions;
            && (shape == Malformed ==> Adapt(s, adapter).None?)
            && (shape != Malformed && i < |s| ==> Scanned(s, i + 1, adapter, closed + [st], [], [], now, then'))
            && (shape != Malformed && i == |s| ==> Adapt(s, adapter) == Some(Adapted(now, then')))
  {
    hide LexemeAt, ShapeOf, EditsOf, InOrder, PutAll;
    var st := Statement(tokens, comments, i);
    var rest := if i < |s| then Statements(s, i + 1, adapter, [], []) else Some([]);
    if i < |s| {
      ThenCons(closed, st, rest);
    } else {
      LastStatement(closed, st);
      assert (closed + [st]) + [] == closed + [st];
    }
    assert Statements(s, 0, adapter, [], []) == Then(closed + [st], rest);
    if ShapeOf(s, st, adapter) == Malformed {
      MalformedText(s, adapter, closed, st, rest);
    } else {
      OneMore(s, closed, st, adapter, text, positions, now);
    }
  }

  lemma OneMore(s: string, closed: seq<Statement>, st: Statement, adapter: Adapter, text: string, positions: set<nat>, now: string)
    requires AllSpansFit(closed, |s|) && SpansFit(st.tokens, |s|) && SpansFit(st.comments, |s|)
    requires AdaptAll(s, closed, adapter) == Some(Adapted(text, positions)) && ShapeOf(s, st, adapter) != Malformed
    requires |text| == |s|
    requires now == if ShapeOf(s, st, adapter) == Recognised then PutAll(text, EditsOf(s, st, adapter)) else text
    ensures AllSpansFit(closed + [st], |s|)
    ensures AdaptAll(s, closed + [st], adapter) ==
            Some(Adapted(now, if ShapeOf(s, st, adapter) == Recognised then positions + {st.tokens[0].start} else positions))
  {
    hide EditsOf, PutAll;
    assert (closed + [st])[..|closed|] == closed;
  }

  /** What the scan has written so far has the line breaks of the text. */
  lemma ScanKeepsBreaks(s: string, i: nat, closed: seq<Statement>, tokens: seq<Span>, comments: seq<Span>,
                        text: string, positions: set<nat>)
    requires Scanned(s, i, WaitViews, closed, tokens, comments, text, positions)
    ensures BreaksKept(s, text)
  {
    hide AdaptAll, Touched;
    forall k | 0 <= k < |s| ensures IsBreak(s[k]) == IsBreak(text[k]) && (IsBreak(s[k]) ==> text[k] == s[k]) {
      AdaptedAt(s, closed, WaitViews, k);
    }
  }

  lemma ScanText(s: string, i: nat, adapter: Adapter, closed: seq<Statement>, tokens: seq<Span>, comments: seq<Span>,
                 text: string, positions: set<nat>)
    requires Scanned(s, i, adapter, closed, tokens, comments, text, positions)
    ensures |text| == |s| && SpansFit(tokens, |s|) && SpansFit(comments, |s|)
  {
  }

  method Lex(s: string, i: nat, adapter: Adapter) returns (x: Lexeme)
    requires i < |s|
    ensures x == LexemeAt(s, i, adapter)
  {
    if IsGap(s[i], adapter) {
      return Gap(i + 1);
    }
    if PairAt(s, i, '-', '-') {
      return Gap(LineCommentEnd(s, i));
    }
    if PairAt(s, i, '/', '*') {
      if adapter == Exchanges {
        return Gap(BlockCommentEnd(s, i + 2));
      }
      var end := SchemaBlockCommentEnd(s, i);
      return AsBlock(end);
    }
    if s[i] == ';' {
      return Stop;
    }
    if IsQuote(s[i]) {
      if adapter == Exchanges {
        var end := SkipQuoted(s, i, s[i]);
        return Word(end);
      }
      var closed := SchemaQuotedEnd(s, i);
      return AsWord(closed);
    }
    var end := i + 1;
    if IsIdentByte(s[i]) {
      while end < |s| && IsIdentByte(s[end])
        invariant i + 1 <= end <= |s|
        invariant NameEnd(s, i + 1) == NameEnd(s, end)
      {
        end := end + 1;
      }
    }
    return Word(end);
  }

  method NormalizeSchemaExchanges(sql: string) returns (result: Option<Adapted>)
    ensures result == Adapt(sql, Exchanges)
  {
    hide LexemeAt, Scanned, ShapeOf, EditsOf, PutAll, Adapt;
    var out := new char[|sql|](k requires 0 <= k < |sql| => sql[k]);
    var tokens, positions := [], {};
    ghost var closed := [];
    assert out[..] == sql;
    ScanStarts(sql, Exchanges);
    var i := 0;
    while i < |sql|
      invariant i <= |sql| == out.Length
      invariant Scanned(sql, i, Exchanges, closed, tokens, [], out[..], positions)
      decreases |sql| - i
    {
      ScanMoves(sql, i, Exchanges, closed, tokens, [], out[..], positions);
      ScanText(sql, i, Exchanges, closed, tokens, [], out[..], positions);
      var x := Lex(sql, i, Exchanges);
      match x {
        case Gap(end) => i := end;
        case Word(end) =>
          tokens := tokens + [Span(i, end)];
          i := end;
        case Block(end) => NoBlock(sql, i); assert false;
        case Broken => return None;
        case Stop =>
          ghost var text := out[..];
          var st := Statement(tokens, [], i);
          var shape := FlushExchange(out, sql, st);
          ScanCloses(sql, i, Exchanges, closed, tokens, [], text, positions, out[..]);
          if shape == Malformed {
            return None;
          }
          if shape == Recognised {
            FirstToken(sql, st, Exchanges);
            positions := positions + {tokens[0].start};
          }
          closed := closed + [st];
          tokens := [];
          i := i + 1;
      }
    }
    ghost var text := out[..];
    ScanText(sql, i, Exchanges, closed, tokens, [], text, positions);
    var st := Statement(tokens, [], i);
    var shape := FlushExchange(out, sql, st);
    ScanCloses(sql, i, Exchanges, closed, tokens, [], text, positions, out[..]);
    if shape == Malformed {
      return None;
    }
    if shape == Recognised {
      FirstToken(sql, st, Exchanges);
      positions := positions + {tokens[0].start};
    }
    return Some(Adapted(out[..], positions));
  }

  lemma NoBlock(s: string, i: nat)
    requires i < |s|
    ensures !LexemeAt(s, i, Exchanges).Block?
  {
  }

  lemma FirstToken(s: string, st: Statement, adapter: Adapter)
    requires ShapeOf(s, st, adapter) == Recognised
    ensures st.tokens != []
  {
  }

  method NormalizeSchemaWaitViews(sql: string) returns (result: Option<string>)
    ensures Adapt(sql, WaitViews).Some? ==> result == Some(Adapt(sql, WaitViews).value.text)
    ensures Adapt(sql, WaitViews).None? ==> result == None
  {
    hide LexemeAt, Scanned, ShapeOf, EditsOf, PutAll, Adapt, BreaksKept;
    var out := new char[|sql|](k requires 0 <= k < |sql| => sql[k]);
    var tokens, comments := [], [];
    ghost var closed, positions := [], {};
    assert out[..] == sql;
    ScanStarts(sql, WaitViews);
    var i := 0;
    while i < |sql|
      invariant i <= |sql| == out.Length
      invariant Scanned(sql, i, WaitViews, closed, tokens, comments, out[..], positions)
      decreases |sql| - i
    {
      ScanMoves(sql, i, WaitViews, closed, tokens, comments, out[..], positions);
      ScanText(sql, i, WaitViews, closed, tokens, comments, out[..], positions);
      var x := Lex(sql, i, WaitViews);
      match x {
        case Gap(end) => i := end;
        case Word(end) =>
          tokens := tokens + [Span(i, end)];
          i := end;
        case Block(end) =>
          comments := comments + [Span(i, end)];
          i := end;
        case Broken => return None;
        case Stop =>
          ghost var text := out[..];
          ScanKeepsBreaks(sql, i, closed, tokens, comments, text, positions);
          var st := Statement(tokens, comments, i);
          var shape := FlushWait(out, sql, st);
          ScanCloses(sql, i, WaitViews, closed, tokens, comments, text, positions, out[..]);
          if shape == Malformed {
            return None;
          }
          if shape == Recognised {
            FirstToken(sql, st, WaitViews);
            positions := positions + {tokens[0].start};
          }
          closed := closed + [st];
          tokens, comments := [], [];
          i := i + 1;
      }
    }
    ghost var text := out[..];
    ScanText(sql, i, WaitViews, closed, tokens, comments, text, positions);
    ScanKeepsBreaks(sql, i, closed, tokens, comments, text, positions);
    var st := Statement(tokens, comments, i);
    var shape := FlushWait(out, sql, st);
    ScanCloses(sql, i, WaitViews, closed, tokens, comments, text, positions, out[..]);
    if shape == Malformed {
      return None;
    }
    return Some(out[..]);
  }
}
