/**
 What chgen.arg('Name') may look like, byte by byte, and one step of its lowering.
 */
module NamedArgumentsLaws {
  import opened Wrappers
  import opened SqlLexer
  import opened TextLines
  import opened CodeBytes
  import opened NamedArguments

  predicate Reserved(w: string) {
    || w == "break" || w == "default" || w == "func" || w == "interface" || w == "select"
    || w == "case" || w == "defer" || w == "go" || w == "map" || w == "struct"
    || w == "chan" || w == "else" || w == "goto" || w == "package" || w == "switch"
    || w == "const" || w == "fallthrough" || w == "if" || w == "range" || w == "type"
    || w == "continue" || w == "for" || w == "import" || w == "return" || w == "var"
  }

  /** An identifier of Go in ASCII; the blank identifier is none. */
  predicate GoName(name: string) {
    && name != "" && (forall k :: 0 <= k < |name| ==> NameByte(name[k]))
    && name[0] !in {'0', '1', '2', '3', '4', '5', '6', '7', '8', '9'}
    && name != "_" && !Reserved(name)
  }

  lemma ReservedIs(w: string)
    ensures Reserved(w) <==> w in GO_KEYWORDS
  {
  }

  lemma GoNameIs(name: string)
    ensures GoName(name) <==> IsGoIdentifier(name)
  {
    ReservedIs(name);
    hide Reserved, GO_KEYWORDS;
    assert forall c :: NameByte(c) <==> IsIdentByte(c);
  }

  /** The macro name at i in any case, with no name byte or dot before it. */
  predicate MacroHere(s: string, i: nat, prefix: string) {
    && i + |prefix| <= |s|
    && (forall k :: 0 <= k < |prefix| ==> SameLetter(s[i + k], prefix[k]))
    && (i == 0 || (!NameByte(s[i - 1]) && s[i - 1] != '.'))
  }

  /** Blanks, (, blanks, the quoted name, blanks and ) from i to end. */
  predicate CallHere(s: string, i: nat, name: string, end: nat) {
    exists open: nat, quote: nat | open < |s| && quote < |s| :: CallParts(s, i, open, quote, name, end)
  }

  predicate CallParts(s: string, i: nat, open: nat, quote: nat, name: string, end: nat) {
    var shut := quote + 1 + |name|;
    && open < |s| && BlanksTo(s, i, open) && s[open] == '('
    && quote < |s| && BlanksTo(s, open + 1, quote) && s[quote] == '\''
    && shut < |s| && s[quote + 1..shut] == name && s[shut] == '\'' && GoName(name)
    && shut + 1 < end <= |s| && BlanksTo(s, shut + 1, end - 1) && s[end - 1] == ')'
  }

  lemma MacroIs(s: string, i: nat, prefix: string)
    requires i <= |s|
    ensures MacroHere(s, i, prefix) <==> PrefixAtOffset(s, i, prefix)
  {
    if i + |prefix| <= |s| {
      FoldAt(s, i, prefix);
    }
    assert forall c :: NameByte(c) <==> IsIdentByte(c);
  }

  /** The first c at or behind i. */
  lemma {:induction false} IndexIs(s: string, i: nat, c: char, k: nat)
    requires i <= |s|
    ensures IndexOf(s, i, c) == Some(k) <==> i <= k < |s| && s[k] == c && c !in s[i..k]
    decreases |s| - i
  {
    if i < |s| && s[i] != c {
      IndexIs(s, i + 1, c, k);
      if i < k <= |s| {
        assert s[i..k] == [s[i]] + s[i + 1..k];
      }
    } else if i < |s| && i < k <= |s| {
      assert s[i..k][0] == c;
    }
  }

  lemma NoQuote(name: string)
    requires GoName(name)
    ensures '\'' !in name
  {
    assert !NameByte('\'');
  }

  lemma NameIff(s: string, quote: nat, name: string, end: nat)
    requires quote < |s|
    ensures ParseName(s, quote + 1) == Match(name, end) <==>
            var shut := quote + 1 + |name|;
            && shut < |s| && s[quote + 1..shut] == name && s[shut] == '\'' && GoName(name)
            && shut + 1 < end <= |s| && BlanksTo(s, shut + 1, end - 1) && s[end - 1] == ')'
  {
    hide IsGoIdentifier, GoName, BlanksTo, SkipBlanks;
    var i, shut := quote + 1, quote + 1 + |name|;
    GoNameIs(name);
    IndexIs(s, i, '\'', shut);
    if GoName(name) {
      NoQuote(name);
    }
    if shut < |s| && end > 0 {
      BlanksAre(s, shut + 1, end - 1);
    }
  }

  /** Main result: exactly these calls are read, with this name and this end. */
  lemma MacroIff(s: string, i: nat, prefix: string, name: string, end: nat)
    requires i <= |s|
    ensures ParseMacroAt(s, i, prefix) == Match(name, end) <==>
            MacroHere(s, i, prefix) && CallHere(s, i + |prefix|, name, end)
    ensures ParseMacroAt(s, i, prefix) == NoMatch <==> !MacroHere(s, i, prefix)
  {
    hide IsGoIdentifier, GoName, BlanksTo, SkipBlanks, ParseName, PrefixAtOffset, MacroHere, CallHere;
    MacroIs(s, i, prefix);
    PrefixFits(s, i, prefix);
    if PrefixAtOffset(s, i, prefix) {
      CallIff(s, i + |prefix|, name, end);
      NeverNoMatch(s, i + |prefix|);
    }
  }

  lemma NeverNoMatch(s: string, i: nat)
    requires i <= |s|
    ensures ParseCall(s, i) != NoMatch
  {
    hide IsGoIdentifier, SkipBlanks, IndexOf;
  }

  lemma CallIff(s: string, i: nat, name: string, end: nat)
    requires i <= |s|
    ensures ParseCall(s, i) == Match(name, end) <==> CallHere(s, i, name, end)
  {
    hide GoName, BlanksTo, SkipBlanks, ParseName;
    var open := SkipBlanks(s, i);
    forall e: nat ensures BlanksTo(s, i, e) <==> e == open {
      BlanksAre(s, i, e);
    }
    if open < |s| {
      var inside := open + 1;
      var quote := SkipBlanks(s, inside);
      forall e: nat ensures BlanksTo(s, inside, e) <==> e == quote {
        BlanksAre(s, inside, e);
      }
      if quote < |s| {
        NameIff(s, quote, name, end);
        assert CallParts(s, i, open, quote, name, end) <==>
               s[open] == '(' && s[quote] == '\'' && ParseName(s, quote + 1) == Match(name, end);
      }
    }
  }

  // ----- one step of the lowering -----

  lemma PrefixIs()
    ensures PREFIX == "chgen.arg"
  {
  }

  ghost predicate HasCall(s: string, i: nat) {
    exists name: string, end: nat :: CallHere(s, i, name, end)
  }

  /** Data and other code are copied, and a macro without such a call is refused. */
  lemma CopiedOrRefused(s: string, i: nat)
    requires i < |s|
    ensures !CodeByte(s, i, i) ==> NormalizeAt(s, i) == Prepend(s[i..DataEnd(s, i)], [], NormalizeAt(s, DataEnd(s, i)))
    ensures CodeByte(s, i, i) && !MacroHere(s, i, "chgen.arg") ==>
              NormalizeAt(s, i) == Prepend([s[i]], [], NormalizeAt(s, i + 1))
    ensures CodeByte(s, i, i) && MacroHere(s, i, "chgen.arg") && !HasCall(s, i + 9) ==> NormalizeAt(s, i) == None
  {
    hide DataEnd, Turn, ParseMacroAt, MacroHere, CallHere, Prepend, PREFIX;
    PrefixIs();
    LexemeModes(s, i);
    MacroIff(s, i, PREFIX, "", 0);
    match ParseMacroAt(s, i, PREFIX)
    case Match(name, end) => MacroIff(s, i, PREFIX, name, end);
    case _ =>
  }

  /** A macro becomes a placeholder, with its name in the list. */
  lemma MacroIsLowered(s: string, i: nat, name: string, end: nat)
    requires i < |s| && CodeByte(s, i, i) && MacroHere(s, i, "chgen.arg") && CallHere(s, i + 9, name, end)
    ensures end <= |s| && NormalizeAt(s, i) == Prepend("?", [name], NormalizeAt(s, end))
  {
    hide DataEnd, Turn, ParseMacroAt, MacroHere, CallHere, Prepend, PREFIX;
    PrefixIs();
    LexemeModes(s, i);
    MacroIff(s, i, PREFIX, name, end);
  }
}
