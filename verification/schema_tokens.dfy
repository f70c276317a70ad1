/**
 Tokens and statements of schema SQL, as the two parser adapters cut them.  Quoted text is
 one token, comments are none, and a semicolon in code ends a statement.
 */
module SchemaTokens {
  import opened Wrappers
  import opened SqlLexer

  datatype Adapter = Exchanges | WaitViews

  predicate IsGap(c: char, adapter: Adapter) {
    c == ' ' || c == '\t' || c == '\r' || c == '\n' || c == '\U{0C}' || (adapter == WaitViews && c == '\U{0B}')
  }

  /** schemaQuotedEnd: the end of a quoted token, None when it is never closed. */
  function ClosedQuote(s: string, i: nat, q: char): (e: Option<nat>)
    ensures e.Some? ==> i < e.value <= |s|
    decreases |s| - i
  {
    if i >= |s| then None
    else if s[i] == '\\' then ClosedQuote(s, i + 2, q)
    else if s[i] != q then ClosedQuote(s, i + 1, q)
    else if i + 1 < |s| && s[i + 1] == q then ClosedQuote(s, i + 2, q)
    else Some(i + 1)
  }

  /** schemaBlockCommentEnd: block comments nest. */
  function NestedCommentEnd(s: string, i: nat, depth: nat): (e: Option<nat>)
    requires depth > 0
    ensures e.Some? ==> i < e.value <= |s|
    decreases |s| - i
  {
    if i >= |s| then None
    else if PairAt(s, i, '/', '*') then NestedCommentEnd(s, i + 2, depth + 1)
    else if PairAt(s, i, '*', '/') then
      if depth == 1 then Some(i + 2) else NestedCommentEnd(s, i + 2, depth - 1)
    else NestedCommentEnd(s, i + 1, depth)
  }

  function NameEnd(s: string, i: nat): (e: nat)
    requires i <= |s|
    ensures i <= e <= |s|
    decreases |s| - i
  {
    if i < |s| && IsIdentByte(s[i]) then NameEnd(s, i + 1) else i
  }

  method SchemaQuotedEnd(s: string, start: nat) returns (end: Option<nat>)
    requires start < |s|
    ensures end == ClosedQuote(s, start + 1, s[start])
  {
    var quote := s[start];
    var i := start + 1;
    while i < |s|
      invariant ClosedQuote(s, start + 1, quote) == ClosedQuote(s, i, quote)
      decreases |s| - i
    {
      if s[i] == '\\' {
        i := i + 2;
      } else if s[i] != quote {
        i := i + 1;
      } else if i + 1 < |s| && s[i + 1] == quote {
        i := i + 2;
      } else {
        return Some(i + 1);
      }
    }
    return None;
  }

  method SchemaBlockCommentEnd(s: string, start: nat) returns (end: Option<nat>)
    requires start < |s|
    ensures end == NestedCommentEnd(s, start + 2, 1)
  {
    var depth := 1;
    var i := start + 2;
    while i < |s|
      invariant depth > 0 && NestedCommentEnd(s, start + 2, 1) == NestedCommentEnd(s, i, depth)
      decreases |s| - i
    {
      if PairAt(s, i, '/', '*') {
        depth := depth + 1;
        i := i + 2;
      } else if PairAt(s, i, '*', '/') {
        depth := depth - 1;
        i := i + 2;
        if depth == 0 {
          return Some(i);
        }
      } else {
        i := i + 1;
      }
    }
    return None;
  }

  /** What starts at an offset. */
  datatype Lexeme = Gap(end: nat) | Block(end: nat) | Stop | Word(end: nat) | Broken

  function LexemeAt(s: string, i: nat, adapter: Adapter): (x: Lexeme)
    requires i < |s|
    ensures x.Gap? || x.Block? || x.Word? ==> i < x.end <= |s|
    ensures x.Stop? ==> s[i] == ';'
  {
    if IsGap(s[i], adapter) then Gap(i + 1)
    else if PairAt(s, i, '-', '-') then Gap(LineCommentEnd(s, i))
    else if PairAt(s, i, '/', '*') then
      if adapter == Exchanges then Gap(BlockCommentEnd(s, i + 2)) else AsBlock(NestedCommentEnd(s, i + 2, 1))
    else if s[i] == ';' then Stop
    else if IsQuote(s[i]) then
      if adapter == Exchanges then Word(QuotedEnd(s, i + 1, s[i])) else AsWord(ClosedQuote(s, i + 1, s[i]))
    else if IsIdentByte(s[i]) then Word(NameEnd(s, i + 1))
    else Word(i + 1)
  }

  function AsBlock(end: Option<nat>): Lexeme {
    if end.None? then Broken else Block(end.value)
  }

  function AsWord(end: Option<nat>): Lexeme {
    if end.None? then Broken else Word(end.value)
  }

  datatype Span = Span(start: nat, end: nat)

  /** The tokens and block comments before a semicolon, or before the end of the text. */
  datatype Statement = Statement(tokens: seq<Span>, comments: seq<Span>, stop: nat)

  function Cons(st: Statement, rest: Option<seq<Statement>>): Option<seq<Statement>> {
    if rest.None? then None else Some([st] + rest.value)
  }

  /** The statements from offset i on, when the open one has these tokens and comments. */
  function Statements(s: string, i: nat, adapter: Adapter, tokens: seq<Span>, comments: seq<Span>): Option<seq<Statement>>
    requires i <= |s|
    decreases |s| - i
  {
    if i == |s| then Some([Statement(tokens, comments, |s|)])
    else match LexemeAt(s, i, adapter)
      case Gap(end) => Statements(s, end, adapter, tokens, comments)
      case Block(end) => Statements(s, end, adapter, tokens, comments + [Span(i, end)])
      case Word(end) => Statements(s, end, adapter, tokens + [Span(i, end)], comments)
      case Stop => Cons(Statement(tokens, comments, i), Statements(s, i + 1, adapter, [], []))
      case Broken => None
  }

  // ----- where the spans of a statement lie -----

  predicate SpansWithin(spans: seq<Span>, lo: nat, hi: nat) {
    forall k :: 0 <= k < |spans| ==> lo <= spans[k].start < spans[k].end <= hi
  }

  /** Statements follow each other; a semicolon stands between two of them. */
  predicate InOrder(s: string, ss: seq<Statement>, lo: nat) {
    if ss == [] then true
    else
      && SpansWithin(ss[0].tokens, lo, ss[0].stop) && SpansWithin(ss[0].comments, lo, ss[0].stop)
      && lo <= ss[0].stop <= |s|
      && (if |ss| == 1 then ss[0].stop == |s| else ss[0].stop < |s| && s[ss[0].stop] == ';')
      && InOrder(s, ss[1..], ss[0].stop + 1)
  }

  lemma {:induction false} StatementsAreInOrder(s: string, i: nat, adapter: Adapter, tokens: seq<Span>, comments: seq<Span>, lo: nat)
    requires lo <= i <= |s| && SpansWithin(tokens, lo, i) && SpansWithin(comments, lo, i)
    ensures var ss := Statements(s, i, adapter, tokens, comments);
            ss.Some? ==> ss.value != [] && InOrder(s, ss.value, lo)
    decreases |s| - i
  {
    hide LexemeAt;
    if i == |s| {
    } else {
      match LexemeAt(s, i, adapter)
      case Gap(end) => StatementsAreInOrder(s, end, adapter, tokens, comments, lo);
      case Block(end) => StatementsAreInOrder(s, end, adapter, tokens, comments + [Span(i, end)], lo);
      case Word(end) => StatementsAreInOrder(s, end, adapter, tokens + [Span(i, end)], comments, lo);
      case Stop =>
        StatementsAreInOrder(s, i + 1, adapter, [], [], i + 1);
        var rest := Statements(s, i + 1, adapter, [], []);
        if rest.Some? {
          assert ([Statement(tokens, comments, i)] + rest.value)[1..] == rest.value;
        }
      case Broken =>
    }
  }
}
