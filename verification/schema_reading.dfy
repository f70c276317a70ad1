/** What the upstream parser reads in an adapted text, token by token. */
module SchemaReading {
  import opened Wrappers
  import opened SqlLexer
  import opened SchemaTokens
  import opened SchemaAdapters
  import opened SchemaAdaptersProofs
  import opened SchemaNormalize

  // ----- tokens of a statement follow each other -----

  predicate Sorted(tokens: seq<Span>) {
    forall i, j :: 0 <= i < j < |tokens| ==> tokens[i].end <= tokens[j].start
  }

  predicate AllSorted(ss: seq<Statement>) {
    forall k :: 0 <= k < |ss| ==> Sorted(ss[k].tokens)
  }

  lemma {:induction false} TokensAreSorted(s: string, i: nat, adapter: Adapter, tokens: seq<Span>, comments: seq<Span>)
    requires i <= |s| && Sorted(tokens) && forall k :: 0 <= k < |tokens| ==> tokens[k].start <= tokens[k].end <= i
    ensures var ss := Statements(s, i, adapter, tokens, comments); ss.Some? ==> AllSorted(ss.value)
    decreases |s| - i
  {
    hide LexemeAt;
    if i < |s| {
      match LexemeAt(s, i, adapter)
      case Gap(end) => TokensAreSorted(s, end, adapter, tokens, comments);
      case Block(end) => TokensAreSorted(s, end, adapter, tokens, comments + [Span(i, end)]);
      case Word(end) => TokensAreSorted(s, end, adapter, tokens + [Span(i, end)], comments);
      case Stop => TokensAreSorted(s, i + 1, adapter, [], []);
      case Broken =>
    }
  }

  // ----- a byte belongs to one statement -----

  predicate Owns(st: Statement, k: int) {
    || (exists j :: 0 <= j < |st.tokens| && In(k, st.tokens[j]))
    || (exists j :: 0 <= j < |st.comments| && In(k, st.comments[j]))
  }

  lemma OwnedInside(st: Statement, lo: nat, k: int)
    requires SpansWithin(st.tokens, lo, st.stop) && SpansWithin(st.comments, lo, st.stop) && Owns(st, k)
    ensures lo <= k < st.stop
  {
  }

  lemma RewrittenIsOwned(s: string, st: Statement, adapter: Adapter, k: int)
    requires Rewritten(s, st, adapter, k)
    ensures Owns(st, k)
  {
    hide IsWord, IsViewNameAt;
  }

  lemma {:induction false} OwnedFrom(s: string, ss: seq<Statement>, lo: nat, j: nat, k: int)
    requires InOrder(s, ss, lo) && j < |ss| && Owns(ss[j], k)
    ensures lo <= k
    decreases |ss|
  {
    hide Owns;
    if j == 0 {
      OwnedInside(ss[0], lo, k);
    } else {
      OwnedFrom(s, ss[1..], ss[0].stop + 1, j - 1, k);
    }
  }

  lemma {:induction false} OneOwner(s: string, ss: seq<Statement>, lo: nat, j: nat, m: nat, k: int)
    requires InOrder(s, ss, lo) && j < |ss| && m < |ss| && Owns(ss[j], k) && Owns(ss[m], k)
    ensures j == m
    decreases |ss|
  {
    hide Owns;
    if j > 0 && m > 0 {
      OneOwner(s, ss[1..], ss[0].stop + 1, j - 1, m - 1, k);
    } else {
      OwnedInside(ss[0], lo, k);
      if j > 0 {
        OwnedFrom(s, ss[1..], ss[0].stop + 1, j - 1, k);
      } else if m > 0 {
        OwnedFrom(s, ss[1..], ss[0].stop + 1, m - 1, k);
      }
    }
  }

  // ----- a statement is rewritten as if it stood alone -----

  lemma {:induction false} PutAllLocal(t: string, u: string, edits: seq<Edit>, k: nat)
    requires |t| == |u| && k < |t| && AllFit(edits, |t|) && t[k] == u[k]
    ensures PutAll(t, edits)[k] == PutAll(u, edits)[k]
    decreases |edits|
  {
    if edits != [] {
      PutAllLocal(t, u, edits[..|edits| - 1], k);
    }
  }

  /** Byte k of the statement, rewritten on its own. */
  function Alone(s: string, st: Statement, adapter: Adapter, k: nat): char
    requires SpansFit(st.tokens, |s|) && SpansFit(st.comments, |s|) && k < |s|
  {
    if ShapeOf(s, st, adapter) == Recognised then PutAll(s, EditsOf(s, st, adapter))[k] else s[k]
  }

  lemma {:induction false} StandsAlone(s: string, ss: seq<Statement>, adapter: Adapter, j: nat, k: nat)
    requires AllSpansFit(ss, |s|) && AdaptAll(s, ss, adapter).Some? && j < |ss| && k < |s|
    requires forall m :: 0 <= m < |ss| && Rewritten(s, ss[m], adapter, k) ==> m == j
    ensures AdaptAll(s, ss, adapter).value.text[k] == Alone(s, ss[j], adapter, k)
    decreases |ss|
  {
    var before, last := ss[..|ss| - 1], ss[|ss| - 1];
    hide ShapeOf, EditsOf, Rewritten, BecomesAt;
    if j < |ss| - 1 {
      forall m | 0 <= m < |before| && Rewritten(s, before[m], adapter, k) ensures m == j {
        assert before[m] == ss[m];
      }
      StandsAlone(s, before, adapter, j, k);
      if ShapeOf(s, last, adapter) == Recognised {
        StatementAt(s, AdaptAll(s, before, adapter).value.text, last, adapter, k);
      }
    } else {
      forall m | 0 <= m < |before| ensures !Rewritten(s, before[m], adapter, k) {
        assert before[m] == ss[m];
      }
      AdaptedAt(s, before, adapter, k);
      if ShapeOf(s, last, adapter) == Recognised {
        PutAllLocal(AdaptAll(s, before, adapter).value.text, s, EditsOf(s, last, adapter), k);
      }
    }
  }

  /** Inside a token of statement j, the adapted text is that of the statement alone. */
  lemma OwnText(s: string, adapter: Adapter, j: nat, k: nat)
    requires Adapt(s, adapter).Some? && j < |StatementsOf(s, adapter).value| && k < |s|
    requires Owns(StatementsOf(s, adapter).value[j], k)
    ensures Adapt(s, adapter).value.text[k] == Alone(s, StatementsOf(s, adapter).value[j], adapter, k)
  {
    hide Owns, Rewritten, AdaptAll, InOrder, Alone;
    var ss := StatementsOf(s, adapter).value;
    forall m | 0 <= m < |ss| && Rewritten(s, ss[m], adapter, k) ensures m == j {
      RewrittenIsOwned(s, ss[m], adapter, k);
      OneOwner(s, ss, 0, j, m, k);
    }
    StandsAlone(s, ss, adapter, j, k);
  }

  // ----- the words of an adapted EXCHANGE -----

  predicate Reads(t: string, span: Span, text: string) {
    && span.start <= span.end <= |t| && |text| == span.end - span.start
    && forall k :: span.start <= k < span.end ==> t[k] == text[k - span.start]
  }

  lemma PutsAt(s: string, a: Edit, b: Edit, c: Edit, k: nat)
    requires Fits(a, |s|) && Fits(b, |s|) && Fits(c, |s|) && k < |s|
    requires a.start + |a.text| <= b.start && b.start + |b.text| <= c.start
    ensures PutAll(s, [a, b, c])[k] ==
            if a.start <= k < a.start + |a.text| then a.text[k - a.start]
            else if b.start <= k < b.start + |b.text| then b.text[k - b.start]
            else if c.start <= k < c.start + |c.text| then c.text[k - c.start]
            else s[k]
  {
    hide PutAll, Put;
    ThreePuts(s, a, b, c);
  }

  /** The word of token q: a padded keyword at 0, 1 and 3, the source elsewhere. */
  function WordOf(s: string, tokens: seq<Span>, q: nat): string
    requires q < |tokens| && tokens[q].start <= tokens[q].end <= |s|
  {
    if q == 0 then "RENAME  " else if q == 1 then "TABLE " else if q == 3 then "TO "
    else s[tokens[q].start..tokens[q].end]
  }

  lemma EditsAre(s: string, st: Statement)
    requires ExchangeShape(s, st.tokens) == Recognised && SpansFit(st.tokens, |s|) && SpansFit(st.comments, |s|)
    ensures |st.tokens| >= 5
    ensures st.tokens[0].end == st.tokens[0].start + 8 && st.tokens[1].end == st.tokens[1].start + 6
    ensures st.tokens[3].end == st.tokens[3].start + 3
    ensures EditsOf(s, st, Exchanges) ==
            [Edit(st.tokens[0].start, "RENAME  "), Edit(st.tokens[1].start, "TABLE "), Edit(st.tokens[3].start, "TO ")]
  {
    KeywordLengths(s, st);
    assert "RENAME" + Spaces(2) == "RENAME  ";
    assert "TABLE" + Spaces(1) == "TABLE ";
    assert "TO" + Spaces(1) == "TO ";
    hide ExchangeShape;
  }

  lemma AloneReads(s: string, st: Statement, q: nat, k: nat)
    requires ExchangeShape(s, st.tokens) == Recognised && SpansFit(st.tokens, |s|) && SpansFit(st.comments, |s|)
    requires Sorted(st.tokens) && q < |st.tokens| && In(k, st.tokens[q]) && k < |s|
    ensures |WordOf(s, st.tokens, q)| == st.tokens[q].end - st.tokens[q].start
    ensures Alone(s, st, Exchanges, k) == WordOf(s, st.tokens, q)[k - st.tokens[q].start]
  {
    EditsAre(s, st);
    var a, b, c := Edit(st.tokens[0].start, "RENAME  "), Edit(st.tokens[1].start, "TABLE "), Edit(st.tokens[3].start, "TO ");
    PutsAt(s, a, b, c, k);
    hide ExchangeShape, EditsOf, PutAll;
  }

  /**
   Main result: in the adapted text, the tokens of a recognised statement read RENAME TABLE
   a TO b, with the names and the cluster clause of the source.
   */
  lemma ExchangeReads(s: string, j: nat, q: nat)
    requires Adapt(s, Exchanges).Some? && j < |StatementsOf(s, Exchanges).value|
    requires ShapeOf(s, StatementsOf(s, Exchanges).value[j], Exchanges) == Recognised
    requires q < |StatementsOf(s, Exchanges).value[j].tokens|
    ensures var tokens := StatementsOf(s, Exchanges).value[j].tokens;
            && tokens[q].start <= tokens[q].end <= |s|
            && Reads(Adapt(s, Exchanges).value.text, tokens[q], WordOf(s, tokens, q))
  {
    hide *;
    HasStatements(s, Exchanges);
    var st := StatementsOf(s, Exchanges).value[j];
    StatementFits(s, Exchanges, j);
    ExchangeIs(s, st);
    KeptLength(s, Exchanges);
    TokenLength(s, st, q);
    forall k | st.tokens[q].start <= k < st.tokens[q].end
      ensures Adapt(s, Exchanges).value.text[k] == WordOf(s, st.tokens, q)[k - st.tokens[q].start]
    {
      TokenIsOwned(st, q, k);
      OwnText(s, Exchanges, j, k);
      AloneReads(s, st, q, k);
    }
    ReadsIs(Adapt(s, Exchanges).value.text, st.tokens[q], WordOf(s, st.tokens, q));
  }

  /** The spans of a statement lie in the text, and its tokens follow each other. */
  lemma StatementFits(s: string, adapter: Adapter, j: nat)
    requires StatementsOf(s, adapter).Some? && j < |StatementsOf(s, adapter).value|
    ensures var st := StatementsOf(s, adapter).value[j];
            && SpansFit(st.tokens, |s|) && SpansFit(st.comments, |s|) && Sorted(st.tokens)
            && forall q :: 0 <= q < |st.tokens| ==> st.tokens[q].start <= st.tokens[q].end <= |s|
  {
    hide Statements, InOrder, Sorted;
    NoneSorted();
    TokensAreSorted(s, 0, adapter, [], []);
  }

  lemma HasStatements(s: string, adapter: Adapter)
    requires Adapt(s, adapter).Some?
    ensures StatementsOf(s, adapter).Some?
  {
  }

  lemma NoneSorted()
    ensures Sorted([])
  {
  }

  lemma TokenIsOwned(st: Statement, q: nat, k: nat)
    requires q < |st.tokens| && st.tokens[q].start <= k < st.tokens[q].end
    ensures Owns(st, k) && In(k, st.tokens[q])
  {
  }

  lemma ReadsIs(t: string, span: Span, text: string)
    requires span.start <= span.end <= |t| && |text| == span.end - span.start
    requires forall k :: span.start <= k < span.end ==> t[k] == text[k - span.start]
    ensures Reads(t, span, text)
  {
  }

  lemma ExchangeIs(s: string, st: Statement)
    ensures ShapeOf(s, st, Exchanges) == ExchangeShape(s, st.tokens)
  {
  }

  lemma KeptLength(s: string, adapter: Adapter)
    requires Adapt(s, adapter).Some?
    ensures |Adapt(s, adapter).value.text| == |s|
  {
  }

  lemma TokenLength(s: string, st: Statement, q: nat)
    requires ShapeOf(s, st, Exchanges) == Recognised && SpansFit(st.tokens, |s|) && SpansFit(st.comments, |s|)
    requires q < |st.tokens|
    ensures |WordOf(s, st.tokens, q)| == st.tokens[q].end - st.tokens[q].start
  {
    EditsAre(s, st);
    hide ShapeOf, EditsOf;
  }

  /** The tokens of a statement that is left alone read as they did. */
  lemma OthersRead(s: string, adapter: Adapter, j: nat, q: nat)
    requires Adapt(s, adapter).Some? && j < |StatementsOf(s, adapter).value|
    requires ShapeOf(s, StatementsOf(s, adapter).value[j], adapter) == Other
    requires q < |StatementsOf(s, adapter).value[j].tokens|
    ensures var tokens := StatementsOf(s, adapter).value[j].tokens;
            && tokens[q].start <= tokens[q].end <= |s|
            && Reads(Adapt(s, adapter).value.text, tokens[q], s[tokens[q].start..tokens[q].end])
  {
    var st := StatementsOf(s, adapter).value[j];
    assert SpansFit(st.tokens, |s|) && SpansFit(st.comments, |s|);
    hide ShapeOf, AdaptAll, InOrder, Statements, Adapt, StatementsOf;
    KeptLength(s, adapter);
    forall k | st.tokens[q].start <= k < st.tokens[q].end ensures Adapt(s, adapter).value.text[k] == s[k] {
      OwnText(s, adapter, j, k);
    }
  }

  /** Nothing but blanks and line breaks is left of a recognised WAIT VIEW. */
  lemma WaitIsBlank(s: string, j: nat, k: nat)
    requires Adapt(s, WaitViews).Some? && j < |StatementsOf(s, WaitViews).value| && k < |s|
    requires ShapeOf(s, StatementsOf(s, WaitViews).value[j], WaitViews) == Recognised
    requires Owns(StatementsOf(s, WaitViews).value[j], k)
    ensures Adapt(s, WaitViews).value.text[k] in {' ', '\n', '\r'}
  {
    hide AdaptAll, InOrder, WaitShape;
    var ss := StatementsOf(s, WaitViews).value;
    AdaptedAt(s, ss, WaitViews, k);
    assert Rewritten(s, ss[j], WaitViews, k);
  }
}
