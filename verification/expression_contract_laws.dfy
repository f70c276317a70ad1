/**
 The argument bounds of chgen.assumeType, from the bytes of the text alone: which comma
 separates the arguments, and which bracket ends the call.
 */
module ExpressionContractLaws {
  import opened Wrappers
  import opened SqlLexer
  import opened TextLines
  import opened CodeBytes
  import opened ExpressionContract

  /** The code bytes ( and [ of s[i..k], less the code bytes ) and ] there. */
  function Level(s: string, i: nat, k: nat): int
    requires i <= k <= |s|
  {
    Count(s, i, k, '(', ')') + Count(s, i, k, '[', ']')
  }

  predicate CommaHere(s: string, i: nat, k: nat)
    requires i <= k < |s|
  {
    CodeByte(s, i, k) && s[k] == ',' && Level(s, i, k) == 0
  }

  predicate CloseHere(s: string, i: nat, k: nat)
    requires i <= k < |s|
  {
    CodeByte(s, i, k) && (s[k] == ')' || s[k] == ']') && Level(s, i, k) == 0
  }

  predicate StopHere(s: string, i: nat, k: nat)
    requires i <= k < |s|
  {
    CommaHere(s, i, k) || CloseHere(s, i, k)
  }

  /** Something other than blank space. */
  predicate HasText(s: string) {
    exists j :: 0 <= j < |s| && s[j] !in {' ', '\t', '\n', '\r', '\U{0B}', '\U{0C}'}
  }

  /** The only comma of s[i..], and the first bracket that closes what was open before i. */
  predicate AreBounds(s: string, i: nat, comma: nat, close: nat) {
    && i <= comma < close < |s|
    && CommaHere(s, i, comma) && CloseHere(s, i, close)
    && (forall j :: i <= j < close && StopHere(s, i, j) ==> j == comma)
    && HasText(s[i..comma])
  }

  // ----- the scan, step by step -----

  predicate FirstStop(s: string, i: nat, j: nat, k: Option<nat>)
    requires i <= j <= |s|
  {
    if k.None? then forall m :: j <= m < |s| ==> !StopHere(s, i, m)
    else j <= k.value < |s| && StopHere(s, i, k.value) && forall m :: j <= m < k.value ==> !StopHere(s, i, m)
  }

  /** The scan from j on, at depth d, finds the first place that stops. */
  lemma {:induction false} StopIsFirst(s: string, i: nat, j: nat, d: nat)
    requires i <= j <= |s| && (j < |s| ==> ModeAt(s, i, j) == Code) && Level(s, i, j) == d - 1 && d >= 1
    ensures FirstStop(s, i, j, StopAt(s, j, d))
    decreases |s| - j
  {
    hide DataEnd, Turn, ModeAt, Count, CodeByte;
    if j < |s| {
      if DataEnd(s, j) > j {
        DataIsQuiet(s, i, j);
        CountOver(s, i, j, DataEnd(s, j), '(', ')');
        CountOver(s, i, j, DataEnd(s, j), '[', ']');
        StopIsFirst(s, i, DataEnd(s, j), d);
      } else {
        CodeStep(s, i, j, d);
        if !Stops(s[j], d) {
          StopIsFirst(s, i, j + 1, Depth(s[j], d));
        }
      }
    }
  }

  lemma CodeStep(s: string, i: nat, j: nat, d: nat)
    requires i <= j < |s| && ModeAt(s, i, j) == Code && DataEnd(s, j) == j && Level(s, i, j) == d - 1 && d >= 1
    ensures StopHere(s, i, j) <==> Stops(s[j], d)
    ensures ModeAt(s, i, j + 1) == Code
    ensures !Stops(s[j], d) ==> Level(s, i, j + 1) == Depth(s[j], d) - 1 && Depth(s[j], d) >= 1
  {
    LexemeModes(s, j);
    ModeVia(s, i, j, j + 1);
    hide DataEnd, Turn, ModeAt;
  }

  lemma CommaStep(s: string, i: nat, comma: nat)
    requires i <= comma < |s| && CommaHere(s, i, comma)
    ensures ModeAt(s, i, comma + 1) == Code && Level(s, i, comma + 1) == 0
  {
    hide ModeAt;
  }

  lemma TextIsThere(s: string)
    ensures HasText(s) <==> !AllSpace(s)
  {
  }

  /** Main result: exactly these two places are returned, for every text and every pair. */
  lemma BoundsIff(s: string, open: nat, comma: nat, close: nat)
    requires open < |s|
    ensures BoundsAt(s, open) == Some((comma, close)) <==> AreBounds(s, open + 1, comma, close)
  {
    hide StopAt, AllSpace, HasText, CommaHere, CloseHere, ModeAt, Level, CodeByte;
    var i := open + 1;
    Start(s, i);
    StopIsFirst(s, i, i, 1);
    var first := StopAt(s, i, 1);
    if AreBounds(s, i, comma, close) {
      assert StopHere(s, i, comma) && StopHere(s, i, close);
      assert first == Some(comma);
    }
    if first.Some? {
      StopKinds(s, i, first.value);
      TextIsThere(s[i..first.value]);
      if CommaHere(s, i, first.value) {
        CommaStep(s, i, first.value);
        StopIsFirst(s, i, first.value + 1, 1);
        var second := StopAt(s, first.value + 1, 1);
        if second.Some? {
          StopKinds(s, i, second.value);
        }
      }
    }
  }

  lemma Start(s: string, i: nat)
    requires i <= |s|
    ensures ModeAt(s, i, i) == Code && Level(s, i, i) == 0
  {
  }

  lemma StopKinds(s: string, i: nat, k: nat)
    requires i <= k < |s|
    ensures CommaHere(s, i, k) ==> s[k] == ',' && !CloseHere(s, i, k)
    ensures CloseHere(s, i, k) ==> s[k] != ','
  {
  }

  // ----- one step of the lowering -----

  /** The end of the quoted region or comment at i. */
  predicate DataTo(s: string, i: nat, e: nat) {
    && i < e <= |s| && ModeAt(s, i, i + 1) != Code
    && (forall k :: i < k < e ==> ModeAt(s, i, k) != Code)
    && (e < |s| ==> ModeAt(s, i, e) == Code)
  }

  lemma DataIs(s: string, i: nat, e: nat)
    requires i < |s|
    ensures DataTo(s, i, e) <==> e == DataEnd(s, i) && e > i
  {
    hide DataEnd, Turn;
    LexemeModes(s, i);
  }

  lemma Names()
    ensures MACRO == "chgen.assumeType" && FUNCTION == "__chgen_assume_type" && |MACRO| == 16
  {
  }

  /** Quoted data, comments and all other code are copied; the internal name is refused. */
  lemma CopiedOrRefused(s: string, i: nat, runtime: bool)
    requires i < |s|
    ensures forall e: nat :: DataTo(s, i, e) ==>
              RewriteAt(s, i, runtime) == Append(s[i..e], RewriteAt(s, e, runtime))
    ensures CodeByte(s, i, i) && WordHere(s, i, "__chgen_assume_type") ==> RewriteAt(s, i, runtime) == None
    ensures CodeByte(s, i, i) && !WordHere(s, i, "__chgen_assume_type") &&
            !(WordHere(s, i, "chgen.assumeType") && (i == 0 || s[i - 1] != '.')) ==>
              RewriteAt(s, i, runtime) == Append([s[i]], RewriteAt(s, i + 1, runtime))
  {
    hide RewriteAt, DataEnd, Turn, WordHere, KeywordAt, MACRO, FUNCTION, Append;
    Names();
    CopyStep(s, i, runtime);
    LexemeModes(s, i);
    WordIs(s, i, FUNCTION);
    WordIs(s, i, MACRO);
    forall e: nat | DataTo(s, i, e) ensures RewriteAt(s, i, runtime) == Append(s[i..e], RewriteAt(s, e, runtime)) {
      DataIs(s, i, e);
    }
  }

  function Written(inner: string, typeArgument: string, runtime: bool): string {
    if runtime then "(" + inner + ")" else "__chgen_assume_type(" + inner + typeArgument + ")"
  }

  predicate ContractHere(s: string, i: nat)
    requires i < |s|
  {
    CodeByte(s, i, i) && WordHere(s, i, "chgen.assumeType") && (i == 0 || s[i - 1] != '.')
  }

  /** A contract becomes its lowered argument in parentheses, for the resolver with name and type. */
  lemma ContractIsLowered(s: string, i: nat, open: nat, comma: nat, close: nat, runtime: bool)
    requires i < |s| && ContractHere(s, i) && BlanksTo(s, i + 16, open)
    requires open < |s| && s[open] == '(' && AreBounds(s, open + 1, comma, close)
    ensures var inner := RewriteAt(s[open + 1..comma], 0, runtime);
            RewriteAt(s, i, runtime) ==
            if inner.None? then None
            else Append(Written(inner.value, s[comma..close], runtime), RewriteAt(s, close + 1, runtime))
  {
    hide RewriteAt, DataEnd, Turn, WordHere, KeywordAt, MACRO, FUNCTION, Append, BlanksTo, AreBounds, BoundsAt, SkipBlanks;
    Names();
    LexemeModes(s, i);
    WordIs(s, i, MACRO);
    WordIs(s, i, FUNCTION);
    OneWord(s, i);
    WordHead(s, i, "chgen.assumeType");
    BlanksAre(s, i + 16, open);
    BoundsIff(s, open, comma, close);
    MacroStep(s, i, runtime);
    var inner := RewriteAt(s[open + 1..comma], 0, runtime);
    if inner.Some? {
      WrittenIs(inner.value, s[comma..close], runtime);
    }
  }

  lemma WrittenIs(inner: string, typeArgument: string, runtime: bool)
    ensures Lowered(inner, typeArgument, runtime) == Written(inner, typeArgument, runtime)
  {
    assert FUNCTION + "(" == "__chgen_assume_type(";
  }

  lemma OneWord(s: string, i: nat)
    ensures !(WordHere(s, i, "chgen.assumeType") && WordHere(s, i, "__chgen_assume_type"))
  {
    hide WordHere;
    if WordHere(s, i, "chgen.assumeType") && WordHere(s, i, "__chgen_assume_type") {
      WordHead(s, i, "chgen.assumeType");
      WordHead(s, i, "__chgen_assume_type");
    }
  }

  ghost predicate NoBounds(s: string, i: nat) {
    forall comma: nat, close: nat :: !AreBounds(s, i, comma, close)
  }

  /** Anything else behind the name is refused. */
  lemma OtherIsRefused(s: string, i: nat, open: nat, runtime: bool)
    requires i < |s| && ContractHere(s, i) && BlanksTo(s, i + 16, open)
    requires open == |s| || s[open] != '(' || NoBounds(s, open + 1)
    ensures RewriteAt(s, i, runtime) == None
  {
    hide RewriteAt, DataEnd, Turn, WordHere, KeywordAt, MACRO, FUNCTION, Append, BlanksTo, AreBounds, BoundsAt, SkipBlanks;
    Names();
    LexemeModes(s, i);
    WordIs(s, i, MACRO);
    WordIs(s, i, FUNCTION);
    OneWord(s, i);
    WordHead(s, i, "chgen.assumeType");
    BlanksAre(s, i + 16, open);
    MacroStep(s, i, runtime);
    if open < |s| && BoundsAt(s, open).Some? {
      BoundsIff(s, open, BoundsAt(s, open).value.0, BoundsAt(s, open).value.1);
    }
  }
}
