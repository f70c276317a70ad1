/**
 What the schema adapters read, from the bytes of the text and the words of a statement: where
 a token starts and ends, and which statements are recognised or refused.
 */
module SchemaLaws {
  import opened Wrappers
  import opened SqlLexer
  import opened CodeBytes
  import opened SchemaTokens
  import opened SchemaAdapters

  // ----- one lexeme -----

  predicate StartsPair(s: string, i: nat, a: char, b: char) {
    i + 1 < |s| && s[i] == a && s[i + 1] == b
  }

  /** A maximal run of name bytes. */
  predicate NameTo(s: string, i: nat, e: nat) {
    && i < e <= |s| && (forall k :: i <= k < e ==> NameByte(s[k])) && (e < |s| ==> !NameByte(s[e]))
  }

  lemma {:induction false} NameEndIs(s: string, i: nat)
    requires i <= |s|
    ensures var e := NameEnd(s, i); (forall k :: i <= k < e ==> NameByte(s[k])) && (e < |s| ==> !NameByte(s[e]))
    decreases |s| - i
  {
    if i < |s| && IsIdentByte(s[i]) {
      NameEndIs(s, i + 1);
    }
  }

  /** The blanks of an adapter; only the second one takes a vertical tab for a blank. */
  predicate BlankOf(c: char, adapter: Adapter) {
    c in {' ', '\t', '\r', '\n', '\U{0C}'} || (c == '\U{0B}' && adapter == WaitViews)
  }

  /** A quote that is closed at e, where code goes on. */
  predicate QuoteClosedAt(s: string, i: nat, e: nat) {
    && i < e <= |s| && s[i] in {'\'', '"', '`'}
    && (forall k :: i < k < e ==> ModeAt(s, i, k) != Code) && ModeAt(s, i, e) == Code
  }

  /** Bytes that are neither quoted nor part of a comment. */
  lemma PlainLexeme(s: string, i: nat, adapter: Adapter)
    requires i < |s| && s[i] !in {'\'', '"', '`'} && !StartsPair(s, i, '-', '-') && !StartsPair(s, i, '/', '*')
    ensures BlankOf(s[i], adapter) ==> LexemeAt(s, i, adapter) == Gap(i + 1)
    ensures s[i] == ';' ==> LexemeAt(s, i, adapter) == Stop
    ensures forall e :: NameTo(s, i, e) ==> LexemeAt(s, i, adapter) == Word(e)
    ensures !BlankOf(s[i], adapter) && s[i] != ';' && !NameByte(s[i]) ==> LexemeAt(s, i, adapter) == Word(i + 1)
  {
    NameEndIs(s, i + 1);
  }

  /** A quoted token; the second adapter refuses the text when it is never closed. */
  lemma QuotedLexeme(s: string, i: nat, adapter: Adapter)
    requires i < |s| && s[i] in {'\'', '"', '`'}
    ensures forall e :: QuoteClosedAt(s, i, e) ==> LexemeAt(s, i, adapter) == Word(e)
    ensures (forall e :: !QuoteClosedAt(s, i, e)) ==>
              LexemeAt(s, i, adapter) == if adapter == WaitViews then Broken else Word(|s|)
  {
    assert ModeAt(s, i, i + 1) == Quoted(s[i]);
    ClosedModes(s, i, i + 1, s[i]);
    hide ClosedQuote, QuotedEnd, ModeAt;
    var closed := ClosedQuote(s, i + 1, s[i]);
    if closed.Some? {
      assert QuoteClosedAt(s, i, closed.value);
    }
  }

  lemma {:induction false} ClosedModes(s: string, i: nat, j: nat, q: char)
    requires i < j && (j <= |s| ==> ModeAt(s, i, j) == Quoted(q))
    ensures var e := ClosedQuote(s, j, q);
            if e.Some? then
              && e.value == QuotedEnd(s, j, q) && ModeAt(s, i, e.value) == Code
              && forall k :: j <= k < e.value ==> ModeAt(s, i, k) != Code
            else QuotedEnd(s, j, q) == |s| && forall k :: j <= k <= |s| ==> ModeAt(s, i, k) != Code
    decreases |s| - j
  {
    if j < |s| {
      assert ModeAt(s, i, j + 1) == Turn(Quoted(q), s, j);
      if s[j] == '\\' || (s[j] == q && Follows(s, j + 1, q)) {
        if j + 1 < |s| {
          assert ModeAt(s, i, j + 2) == Turn(Escaped(q), s, j + 1);
        }
        ClosedModes(s, i, j + 2, q);
      } else if s[j] != q {
        ClosedModes(s, i, j + 1, q);
      }
    }
  }

  /** A line comment is a gap for both adapters. */
  lemma LineLexeme(s: string, i: nat, adapter: Adapter)
    requires i < |s| && StartsPair(s, i, '-', '-')
    ensures LexemeAt(s, i, adapter) == Gap(LineCommentEnd(s, i))
  {
  }

  /** A block comment is kept apart by the second adapter, which refuses one that is never closed. */
  lemma BlockLexeme(s: string, i: nat)
    requires i < |s| && StartsPair(s, i, '/', '*')
    ensures LexemeAt(s, i, Exchanges) == Gap(BlockCommentEnd(s, i + 2))
    ensures LexemeAt(s, i, WaitViews).Block? <==> NestedCommentEnd(s, i + 2, 1).Some?
    ensures LexemeAt(s, i, WaitViews).Block? ==> NestedCommentEnd(s, i + 2, 1) == Some(LexemeAt(s, i, WaitViews).end)
    ensures !LexemeAt(s, i, WaitViews).Block? ==> LexemeAt(s, i, WaitViews) == Broken
  {
  }

  // ----- one statement -----

  function TextOf(s: string, span: Span): string {
    if span.start <= span.end <= |s| then s[span.start..span.end] else ""
  }

  function TextsOf(s: string, tokens: seq<Span>): (texts: seq<string>)
    ensures |texts| == |tokens| && forall k :: 0 <= k < |tokens| ==> texts[k] == TextOf(s, tokens[k])
  {
    seq(|tokens|, k requires 0 <= k < |tokens| => TextOf(s, tokens[k]))
  }

  lemma ReadsIs(s: string, tokens: seq<Span>, k: nat, w: string)
    requires w != ""
    ensures IsWord(s, tokens, k, w) <==> k < |tokens| && Reads(TextsOf(s, tokens)[k], w)
  {
    if k < |tokens| {
      FoldIs(TextOf(s, tokens[k]), w);
    }
    hide EqualFold, Reads;
    assert !Reads("", w) by { NothingReads(w); }
  }

  lemma NothingReads(w: string)
    requires w != ""
    ensures !Reads("", w)
  {
  }

  /** EXCHANGE TABLES a AND b, with or without ON CLUSTER c. */
  predicate IsExchange(t: seq<string>) {
    && (|t| == 5 || |t| == 8)
    && Reads(t[0], "EXCHANGE") && Reads(t[1], "TABLES") && Reads(t[3], "AND")
    && (|t| == 8 ==> Reads(t[5], "ON") && Reads(t[6], "CLUSTER"))
  }

  lemma NotBoth(text: string)
    ensures !(Reads(text, "TABLES") && Reads(text, "DICTIONARIES"))
  {
  }

  /** Recognised exactly in this form; any other statement that starts with EXCHANGE is refused. */
  lemma ExchangeIff(s: string, tokens: seq<Span>)
    ensures ExchangeShape(s, tokens) == Recognised <==> IsExchange(TextsOf(s, tokens))
    ensures ExchangeShape(s, tokens) == SchemaAdapters.Other <==> tokens == [] || !Reads(TextOf(s, tokens[0]), "EXCHANGE")
  {
    ReadsIs(s, tokens, 0, "EXCHANGE");
    ReadsIs(s, tokens, 1, "TABLES");
    ReadsIs(s, tokens, 1, "DICTIONARIES");
    ReadsIs(s, tokens, 3, "AND");
    ReadsIs(s, tokens, 5, "ON");
    ReadsIs(s, tokens, 6, "CLUSTER");
    if 1 < |tokens| {
      NotBoth(TextsOf(s, tokens)[1]);
    }
    hide IsWord, Reads;
  }

  /** A name in backticks or double quotes that is not empty, or a bare identifier. */
  predicate IsName(text: string) {
    && text != ""
    && if text[0] == '`' || text[0] == '"' then |text| >= 3
       else
         && (forall k :: 0 <= k < |text| ==> NameByte(text[k]))
         && text[0] !in {'0', '1', '2', '3', '4', '5', '6', '7', '8', '9'}
  }

  /** SYSTEM WAIT VIEW name, or SYSTEM WAIT VIEW name . name. */
  predicate IsWait(t: seq<string>) {
    && (|t| == 4 || |t| == 6)
    && Reads(t[0], "SYSTEM") && Reads(t[1], "WAIT") && Reads(t[2], "VIEW") && IsName(t[3])
    && (|t| == 6 ==> t[4] == "." && IsName(t[5]))
  }

  lemma NameIs(s: string, tokens: seq<Span>, k: nat)
    ensures IsViewNameAt(s, tokens, k) <==> k < |tokens| && IsName(TextsOf(s, tokens)[k])
  {
    if k < |tokens| {
      var text := TextOf(s, tokens[k]);
      assert forall c :: NameByte(c) <==> IsIdentByte(c);
    }
  }

  lemma DotReads(text: string)
    ensures Reads(text, ".") <==> text == "."
  {
    assert forall c :: SameLetter(c, '.') <==> c == '.';
    if |text| == 1 {
      assert text == [text[0]];
    }
  }

  /** Recognised exactly in this form; any other statement that starts with SYSTEM WAIT is refused. */
  lemma WaitIff(s: string, tokens: seq<Span>)
    ensures WaitShape(s, tokens) == Recognised <==> IsWait(TextsOf(s, tokens))
    ensures WaitShape(s, tokens) == SchemaAdapters.Other <==>
            |tokens| < 2 || !Reads(TextOf(s, tokens[0]), "SYSTEM") || !Reads(TextOf(s, tokens[1]), "WAIT")
  {
    ReadsIs(s, tokens, 0, "SYSTEM");
    ReadsIs(s, tokens, 1, "WAIT");
    ReadsIs(s, tokens, 2, "VIEW");
    ReadsIs(s, tokens, 4, ".");
    NameIs(s, tokens, 3);
    NameIs(s, tokens, 5);
    if 4 < |tokens| {
      DotReads(TextsOf(s, tokens)[4]);
    }
    FirstWords(s, tokens);
    hide IsWord, Reads, IsName, IsViewNameAt;
  }

  /** A statement of one word is no SYSTEM WAIT. */
  lemma FirstWords(s: string, tokens: seq<Span>)
    ensures |tokens| < 2 ==> !IsWord(s, tokens, 1, "WAIT")
  {
  }
}
