/**
 Which sources with optional blocks are accepted, and how they are cut, from the directive
 lines alone: their words are read here without the scanner of the parser.
 */
module CompositionDirectives {
  import opened Wrappers
  import opened SqlLexer
  import opened CodeBytes
  import opened TextLines
  import opened NamedArguments
  import opened CompositionText

  // ----- the words of a line -----

  predicate SpaceByte(c: char) {
    c in {' ', '\t', '\n', '\r', '\U{0B}', '\U{0C}'}
  }

  predicate IsGap(s: string) {
    forall k :: 0 <= k < |s| ==> SpaceByte(s[k])
  }

  /** The end of the line, behind its break. */
  predicate LineTo(s: string, i: nat, e: nat) {
    && i < e <= |s|
    && (forall k :: i <= k < e - 1 ==> s[k] != '\n')
    && (e < |s| ==> s[e - 1] == '\n')
  }

  /** Only blank space stands between the start of the line and i. */
  predicate FirstOnLine(s: string, i: nat)
    requires i <= |s|
  {
    forall k :: 0 <= k < i && (forall m :: k <= m < i ==> s[m] != '\n') ==> SpaceByte(s[k])
  }

  predicate StartsWith(s: string, i: nat, w: string) {
    i + |w| <= |s| && s[i..i + |w|] == w
  }

  /** An exported Go name, in ASCII. */
  predicate OptionName(name: string) {
    && name != "" && 'A' <= name[0] <= 'Z'
    && forall k :: 0 <= k < |name| ==> NameByte(name[k])
  }

  ghost predicate IsIfLine(line: string, name: string) {
    OptionName(name) && exists g: string, t: string :: IfText(line, g, name, t)
  }

  predicate IfText(line: string, g: string, name: string, t: string) {
    g != "" && IsGap(g) && IsGap(t) && line == "-- chgen:if" + g + name + t
  }

  predicate IsEndLine(line: string) {
    12 <= |line| && line[..12] == "-- chgen:end" && IsGap(line[12..])
  }

  /** A line that blocks are made of, where code is read. */
  predicate Directive(s: string, i: nat)
    requires i < |s|
  {
    && ModeAt(s, 0, i) == Code && FirstOnLine(s, i)
    && (StartsWith(s, i, "-- chgen:if") || StartsWith(s, i, "-- chgen:end") || StartsWith(s, i, "-- chgen:else"))
  }

  function LineEnd(s: string, i: nat): (e: nat)
    requires i < |s|
    ensures LineTo(s, i, e)
    decreases |s| - i
  {
    if s[i] == '\n' || i + 1 == |s| then i + 1 else LineEnd(s, i + 1)
  }

  /** The directive lines from i on. */
  function Marks(s: string, i: nat): (marks: seq<nat>)
    requires i <= |s|
    ensures forall k :: 0 <= k < |marks| ==> i <= marks[k] < |s|
    decreases |s| - i
  {
    if i == |s| then [] else (if Directive(s, i) then [i] else []) + Marks(s, i + 1)
  }

  function LineOf(s: string, i: nat): string
    requires i < |s|
  {
    s[i..LineEnd(s, i)]
  }

  // ----- gaps, and what trimming and splitting take away -----

  lemma {:induction false} TrimEndSplits(s: string)
    ensures var t := TrimEnd(s);
            t <= s && IsGap(s[|t|..]) && (t != "" ==> !SpaceByte(t[|t| - 1]))
    decreases |s|
  {
    if s != "" && IsSpace(s[|s| - 1]) {
      TrimEndSplits(s[..|s| - 1]);
      var t := TrimEnd(s);
      assert s[|t|..] == s[..|s| - 1][|t|..] + [s[|s| - 1]];
    }
  }

  /** The text that trimming leaves is the one that ends the line before a gap. */
  lemma TrimmedIff(s: string, w: string)
    requires s != "" && !SpaceByte(s[0]) && w != "" && !SpaceByte(w[|w| - 1])
    ensures Trim(s) <= s
    ensures Trim(s) == w <==> w <= s && IsGap(s[|w|..])
    ensures w <= Trim(s) <==> w <= s
  {
    TrimEndSplits(s);
    var t := Trim(s);
    assert t == TrimEnd(s);
  }

  predicate IsSolid(w: string) {
    w != "" && forall k :: 0 <= k < |w| ==> !SpaceByte(w[k])
  }

  /** A text of gaps around solid words splits into them. */
  lemma {:induction false} FieldsOfGap(g: string)
    requires IsGap(g)
    ensures Fields(g) == []
  {
    if g != "" {
      FieldsOfGap(g[1..]);
    }
  }

  lemma {:induction false} FieldsSkip(g: string, x: string)
    requires IsGap(g)
    ensures Fields(g + x) == Fields(x)
    decreases |g|
  {
    if g == "" {
      assert g + x == x;
    } else {
      assert (g + x)[1..] == g[1..] + x;
      FieldsSkip(g[1..], x);
    }
  }

  lemma {:induction false} WordIsTaken(w: string, x: string)
    requires IsSolid(w) && (x == "" || SpaceByte(x[0]))
    ensures !IsSpace((w + x)[0]) && WordEnd(w + x) == |w|
    decreases |w|
  {
    if |w| == 1 {
    } else {
      assert (w + x)[1..] == w[1..] + x;
      WordIsTaken(w[1..], x);
    }
  }

  lemma FieldsTake(w: string, x: string)
    requires IsSolid(w) && (x == "" || SpaceByte(x[0]))
    ensures Fields(w + x) == [w] + Fields(x)
  {
    WordIsTaken(w, x);
    assert (w + x)[..|w|] == w && (w + x)[|w|..] == x;
  }

  /** And the other way round: the first word of a text, and what stands around it. */
  lemma {:induction false} FieldsSplit(s: string) returns (g: string, x: string)
    ensures IsGap(g)
    ensures Fields(s) == [] ==> g == s
    ensures Fields(s) != [] ==>
              && s == g + Fields(s)[0] + x && IsSolid(Fields(s)[0])
              && (x == "" || SpaceByte(x[0])) && Fields(x) == Fields(s)[1..]
    decreases |s|
  {
    if s == "" {
      return "", "";
    } else if IsSpace(s[0]) {
      g, x := FieldsSplit(s[1..]);
      g := [s[0]] + g;
    } else {
      g, x := "", s[WordEnd(s)..];
      WordEnds(s);
      var w := s[..WordEnd(s)];
      assert Fields(s)[0] == w && s == "" + w + x;
    }
  }

  lemma {:induction false} WordEnds(s: string)
    requires s != "" && !IsSpace(s[0])
    ensures IsSolid(s[..WordEnd(s)]) && (WordEnd(s) < |s| ==> SpaceByte(s[WordEnd(s)]))
    decreases |s|
  {
    if |s| > 1 && !IsSpace(s[1]) {
      WordEnds(s[1..]);
      assert s[..WordEnd(s)] == [s[0]] + s[1..][..WordEnd(s[1..])];
    }
  }

  // ----- the words of a directive line -----

  lemma OptionNameIs(name: string)
    ensures OptionName(name) <==> IsOptionName(name)
  {
    if name != "" {
      assert forall c :: NameByte(c) <==> IsIdentByte(c);
      if 'A' <= name[0] <= 'Z' {
        NoKeyword(name);
      }
    }
  }

  lemma NoKeyword(name: string)
    requires name != "" && 'A' <= name[0] <= 'Z'
    ensures name !in GO_KEYWORDS
  {
    if name in GO_KEYWORDS {
      LowerKeywords(name);
    }
  }

  lemma LowerKeywords(name: string)
    requires name in GO_KEYWORDS
    ensures name != "" && 'a' <= name[0] <= 'z'
  {
  }

  lemma NameIsSolid(name: string)
    requires OptionName(name)
    ensures IsSolid(name)
  {
    assert forall c :: NameByte(c) ==> !SpaceByte(c);
  }

  lemma Literals()
    ensures IF == "-- chgen:if" && END == "-- chgen:end" && ELSE == "-- chgen:else"
    ensures DIRECTIVE == "-- chgen:" && IF_FIELD == "chgen:if"
    ensures IsSolid("--") && IsSolid("chgen:if") && IsGap(" ") && "-- chgen:if" == "--" + " " + "chgen:if"
  {
  }

  /** The words of a line of this form. */
  lemma FieldsOfIf(g: string, name: string)
    requires g != "" && IsGap(g) && IsSolid(name)
    ensures Fields("-- chgen:if" + g + name) == ["--", "chgen:if", name]
  {
    hide Fields;
    Literals();
    var tail := g + name;
    FieldsOfGap("");
    FieldsTake(name, "");
    assert name + "" == name;
    FieldsSkip(g, name);
    FieldsTake("chgen:if", tail);
    FieldsSkip(" ", "chgen:if" + tail);
    FieldsTake("--", " " + ("chgen:if" + tail));
    assert "-- chgen:if" + g + name == "--" + (" " + ("chgen:if" + tail));
  }

  /** And a text with these words has this form. */
  lemma FormOfIf(t: string)
    requires "-- chgen:" <= t && |Fields(t)| == 3 && Fields(t)[1] == "chgen:if"
    ensures exists g: string, x: string :: IfForm(t, g, Fields(t)[2], x)
    ensures "-- chgen:if" <= t
  {
    hide Fields;
    Literals();
    var f := Fields(t);
    var g0, x0 := FieldsSplit(t);
    var g1, x1 := FieldsSplit(x0);
    var g2, x2 := FieldsSplit(x1);
    var g3, x3 := FieldsSplit(x2);
    assert t == g0 + f[0] + (g1 + f[1] + (g2 + f[2] + x2));
    FirstIsDashes(t, g0, f[0], x0);
    SecondIsIf(t, g1, g2 + f[2] + x2);
    assert IfForm(t, g2, f[2], x2);
  }

  predicate IfForm(t: string, g: string, name: string, x: string) {
    g != "" && IsGap(g) && IsGap(x) && IsSolid(name) && t == "-- chgen:if" + g + name + x
  }

  lemma FirstIsDashes(t: string, g: string, w: string, x: string)
    requires "-- chgen:" <= t && t == g + w + x && IsGap(g) && IsSolid(w) && (x == "" || SpaceByte(x[0]))
    ensures g == "" && w == "--"
  {
    assert t[0] == '-' && t[1] == '-' && t[2] == ' ';
  }

  lemma SecondIsIf(t: string, g: string, rest: string)
    requires "-- chgen:" <= t && t == "--" + (g + "chgen:if" + rest) && IsGap(g)
    ensures g == " " && t == "-- chgen:if" + rest
  {
    assert t[2] == ' ' && t[3] == 'c';
    if g != "" {
      assert g[0] == t[2];
    }
  }

  /** What a comment at i means, from the words of its line. */
  lemma ControlIff(s: string, i: nat, name: string)
    requires i < |s| && ModeAt(s, 0, i) == Code
    ensures ControlAt(s, i) == If(name) <==> Directive(s, i) && IsIfLine(LineOf(s, i), name)
    ensures ControlAt(s, i) == End <==> Directive(s, i) && IsEndLine(LineOf(s, i))
    ensures ControlAt(s, i) == NoControl <==> !Directive(s, i)
    ensures Directive(s, i) ==> DataEnd(s, i) == LineEnd(s, i)
  {
    hide ModeAt, DataEnd, Trim, Fields, IsOptionName, OptionName, LineEnd, FirstOnLine, LineStart, AllSpace;
    hide IF, END, ELSE, DIRECTIVE, IF_FIELD, StartsWith, IsIfLine, IsEndLine;
    Literals();
    StandsAlone(s, i);
    if StartsWith(s, i, "-- chgen:") {
      CommentIsLine(s, i);
      PrefixesOf(s, i);
      assert LineOf(s, i) == s[i..DataEnd(s, i)];
      ControlWords(LineOf(s, i), name);
    } else {
      NoPrefix(s, i);
    }
  }

  lemma Shorter(s: string, i: nat, w: string, v: string)
    requires v <= w && StartsWith(s, i, w)
    ensures StartsWith(s, i, v)
  {
    assert s[i..i + |v|] == s[i..i + |w|][..|v|];
  }

  lemma NoPrefix(s: string, i: nat)
    requires i < |s| && !StartsWith(s, i, "-- chgen:")
    ensures !StartsWith(s, i, "-- chgen:if") && !StartsWith(s, i, "-- chgen:end") && !StartsWith(s, i, "-- chgen:else")
    ensures !("-- chgen:" <= s[i..])
  {
    hide StartsWith;
    if StartsWith(s, i, "-- chgen:if") {
      Shorter(s, i, "-- chgen:if", "-- chgen:");
    } else if StartsWith(s, i, "-- chgen:end") {
      Shorter(s, i, "-- chgen:end", "-- chgen:");
    } else if StartsWith(s, i, "-- chgen:else") {
      Shorter(s, i, "-- chgen:else", "-- chgen:");
    } else if "-- chgen:" <= s[i..] {
      HeadStarts(s, i, "-- chgen:");
    }
  }

  lemma HeadStarts(s: string, i: nat, w: string)
    requires i <= |s| && w <= s[i..]
    ensures StartsWith(s, i, w)
  {
    assert s[i..i + |w|] == s[i..][..|w|];
  }

  lemma {:induction false} LineStartIs(s: string, i: nat)
    requires i <= |s|
    ensures var k := LineStart(s, i);
            (forall m :: k <= m < i ==> s[m] != '\n') && (k > 0 ==> s[k - 1] == '\n')
    decreases i
  {
    if i > 0 && s[i - 1] != '\n' {
      LineStartIs(s, i - 1);
    }
  }

  lemma StandsAlone(s: string, i: nat)
    requires i <= |s|
    ensures FirstOnLine(s, i) <==> AllSpace(s[LineStart(s, i)..i])
  {
    LineStartIs(s, i);
    var k := LineStart(s, i);
    hide LineStart;
    assert forall c :: SpaceByte(c) <==> IsSpace(c);
    if FirstOnLine(s, i) {
      forall j | k <= j < i ensures IsSpace(s[j]) {
        assert forall m :: j <= m < i ==> s[m] != '\n';
      }
    }
    if AllSpace(s[k..i]) {
      forall j | 0 <= j < i && (forall m :: j <= m < i ==> s[m] != '\n') ensures SpaceByte(s[j]) {
        if j >= k {
          assert s[k..i][j - k] == s[j];
        }
      }
    }
  }

  lemma {:induction false} LineEndIs(s: string, i: nat)
    requires i < |s|
    ensures LineCommentEnd(s, i) == LineEnd(s, i)
    decreases |s| - i
  {
    if s[i] != '\n' && i + 1 < |s| {
      LineEndIs(s, i + 1);
    }
  }

  /** The comment is the rest of its line. */
  lemma CommentIsLine(s: string, i: nat)
    requires i < |s| && StartsWith(s, i, "-- chgen:")
    ensures DataEnd(s, i) == LineEnd(s, i) && "-- chgen:" <= s[i..] && LineOf(s, i) != "" && LineOf(s, i)[0] == '-'
  {
    var w := s[i..i + 9];
    assert w[0] == '-' && w[1] == '-';
    assert s[i] == w[0] && s[i + 1] == w[1];
    LineEndIs(s, i);
    assert s[i..][..9] == w;
  }

  /** A word without a break starts the text exactly when it starts the line. */
  lemma PrefixOfLine(s: string, i: nat, w: string)
    requires i < |s| && w != "" && '\n' !in w
    ensures StartsWith(s, i, w) <==> w <= LineOf(s, i)
  {
    var e := LineEnd(s, i);
    hide LineEnd;
    if StartsWith(s, i, w) {
      BreakOutside(s, i, w, e);
      assert LineOf(s, i)[..|w|] == s[i..i + |w|];
    }
    if w <= LineOf(s, i) {
      assert s[i..i + |w|] == LineOf(s, i)[..|w|];
    }
  }

  lemma BreakOutside(s: string, i: nat, w: string, e: nat)
    requires StartsWith(s, i, w) && '\n' !in w && i < e <= |s| && (e < |s| ==> s[e - 1] == '\n')
    ensures i + |w| <= e
  {
    if e < |s| {
      assert forall k :: 0 <= k < |w| ==> s[i + k] == s[i..i + |w|][k] && w[k] != '\n';
    }
  }

  lemma PrefixesOf(s: string, i: nat)
    requires i < |s|
    ensures StartsWith(s, i, "-- chgen:") <==> "-- chgen:" <= LineOf(s, i)
    ensures StartsWith(s, i, "-- chgen:if") <==> "-- chgen:if" <= LineOf(s, i)
    ensures StartsWith(s, i, "-- chgen:end") <==> "-- chgen:end" <= LineOf(s, i)
    ensures StartsWith(s, i, "-- chgen:else") <==> "-- chgen:else" <= LineOf(s, i)
  {
    hide LineEnd;
    PrefixOfLine(s, i, "-- chgen:");
    PrefixOfLine(s, i, "-- chgen:if");
    PrefixOfLine(s, i, "-- chgen:end");
    PrefixOfLine(s, i, "-- chgen:else");
  }

  /** The tests of the parser on a trimmed line, in the words of the line. */
  lemma ControlWords(line: string, name: string)
    requires line != "" && line[0] == '-'
    ensures "-- chgen:else" <= Trim(line) <==> "-- chgen:else" <= line
    ensures "-- chgen:if" <= Trim(line) <==> "-- chgen:if" <= line
    ensures "-- chgen:end" <= Trim(line) <==> "-- chgen:end" <= line
    ensures Trim(line) == "-- chgen:end" <==> IsEndLine(line)
    ensures IsEndLine(line) ==> "-- chgen:end" <= line && !("-- chgen:if" <= line) && !("-- chgen:else" <= line)
    ensures IsIfLine(line, name) <==>
            "-- chgen:" <= line && |Fields(Trim(line))| == 3 && Fields(Trim(line))[1] == "chgen:if"
            && Fields(Trim(line))[2] == name && IsOptionName(name)
    ensures "-- chgen:if" <= line ==> !("-- chgen:else" <= line) && !("-- chgen:end" <= line)
    ensures IsIfLine(line, name) ==> "-- chgen:if" <= line
  {
    hide Trim, Fields, IsOptionName, OptionName;
    TrimmedIff(line, "-- chgen:else");
    TrimmedIff(line, "-- chgen:if");
    TrimmedIff(line, "-- chgen:end");
    TrimmedIff(line, "-- chgen:");
    OptionNameIs(name);
    OneDirective(line);
    IfWords(line, name);
    if IsIfLine(line, name) {
      FormOfIf(Trim(line));
    }
  }

  lemma OneDirective(line: string)
    ensures "-- chgen:if" <= line ==> !("-- chgen:else" <= line) && !("-- chgen:end" <= line)
    ensures "-- chgen:end" <= line ==> !("-- chgen:else" <= line)
    ensures 12 <= |line| && line[..12] == "-- chgen:end" <==> "-- chgen:end" <= line
  {
    if "-- chgen:if" <= line {
      assert line[9] == 'i';
    }
    if "-- chgen:end" <= line {
      assert line[10] == 'n' && line[9] == 'e';
    }
    if "-- chgen:else" <= line {
      assert line[10] == 'l' && line[9] == 'e';
    }
  }

  lemma IfWords(line: string, name: string)
    requires line != "" && line[0] == '-' && ("-- chgen:" <= Trim(line) <==> "-- chgen:" <= line) && Trim(line) <= line
    ensures IsIfLine(line, name) <==>
            "-- chgen:" <= line && |Fields(Trim(line))| == 3 && Fields(Trim(line))[1] == "chgen:if"
            && Fields(Trim(line))[2] == name && OptionName(name)
  {
    hide Trim, Fields, OptionName;
    if IsIfLine(line, name) {
      var g, t :| IfText(line, g, name, t);
      NameIsSolid(name);
      var w := "-- chgen:if" + g + name;
      assert line == w + t && w[|w| - 1] == name[|name| - 1];
      TrimmedIff(line, w);
      assert line[|w|..] == t;
      FieldsOfIf(g, name);
      assert "-- chgen:" <= line;
    }
    if "-- chgen:" <= line && |Fields(Trim(line))| == 3 && Fields(Trim(line))[1] == "chgen:if"
       && Fields(Trim(line))[2] == name && OptionName(name) {
      var t := Trim(line);
      FormOfIf(t);
      var g, x :| IfForm(t, g, name, x);
      TailIsGap(line);
      GapsJoin(x, line[|t|..]);
      assert IfText(line, g, name, x + line[|t|..]);
    }
  }

  lemma TailIsGap(line: string)
    requires line != "" && line[0] == '-'
    ensures Trim(line) <= line && IsGap(line[|Trim(line)|..])
  {
    TrimEndSplits(line);
    assert Trim(line) == TrimEnd(line);
  }

  lemma GapsJoin(a: string, b: string)
    requires IsGap(a) && IsGap(b)
    ensures IsGap(a + b)
  {
  }

  // ----- the whole source -----

  ghost function NameAt(s: string, i: nat): (name: string)
    requires i < |s|
    ensures IsIfLine(LineOf(s, i), name) || (name == "" && forall n: string :: !IsIfLine(LineOf(s, i), n))
  {
    if exists n: string :: IsIfLine(LineOf(s, i), n) then
      var n: string :| IsIfLine(LineOf(s, i), n);
      n
    else ""
  }

  ghost predicate OpensBlock(s: string, i: nat)
    requires i < |s|
  {
    exists n: string :: IsIfLine(LineOf(s, i), n)
  }

  predicate AllIn(s: string, marks: seq<nat>) {
    forall k :: 0 <= k < |marks| ==> marks[k] < |s|
  }

  /** An if and an end by turns; open says that a block is open before the first of them. */
  ghost predicate Alternate(s: string, marks: seq<nat>, open: bool)
    requires AllIn(s, marks)
    decreases |marks|
  {
    if marks == [] then !open
    else if open then IsEndLine(LineOf(s, marks[0])) && Alternate(s, marks[1..], false)
    else OpensBlock(s, marks[0]) && Alternate(s, marks[1..], true)
  }

  /** What stands between the directive lines; a part between if and end has the name of the if. */
  ghost function Between(s: string, marks: seq<nat>, start: nat, name: string): seq<Part>
    requires AllIn(s, marks) && start <= |s|
    decreases |marks|
  {
    if marks == [] then [Part(s[start..], "")]
    else
      [Part(if start <= marks[0] then s[start..marks[0]] else "", name)]
      + Between(s, marks[1..], LineEnd(s, marks[0]), NameAt(s, marks[0]))
  }

  function LinesOf(s: string, marks: seq<nat>): seq<string>
    requires AllIn(s, marks)
    decreases |marks|
  {
    if marks == [] then [] else [LineOf(s, marks[0])] + LinesOf(s, marks[1..])
  }

  /** The names of the ifs, each once, in the order of the text. */
  ghost function NamesOf(s: string, marks: seq<nat>, names: seq<string>): seq<string>
    requires AllIn(s, marks)
    decreases |marks|
  {
    if marks == [] then names
    else
      var name := NameAt(s, marks[0]);
      NamesOf(s, marks[1..], if name == "" || name in names then names else names + [name])
  }

  /** What the directive lines from i on say about the parse. */
  ghost function Reading(s: string, i: nat, start: nat, name: string, names: seq<string>): Option<Parsed>
    requires i <= |s| && start <= |s|
  {
    var marks := Marks(s, i);
    if !Alternate(s, marks, name != "") then None
    else Some(Parsed(Between(s, marks, start, name), LinesOf(s, marks), NamesOf(s, marks, names)))
  }

  lemma {:induction false} MarksOver(s: string, i: nat, e: nat)
    requires i <= e <= |s| && forall k :: i <= k < e ==> ModeAt(s, 0, k) != Code
    ensures Marks(s, i) == Marks(s, e)
    decreases e - i
  {
    hide ModeAt, FirstOnLine, StartsWith;
    if i < e {
      MarksOver(s, i + 1, e);
    }
  }

  lemma NextMarks(s: string, i: nat)
    requires i < |s| && ModeAt(s, 0, i) == Code
    ensures Marks(s, i) == (if Directive(s, i) then [i] else []) + Marks(s, Next(s, i))
    ensures Next(s, i) < |s| ==> ModeAt(s, 0, Next(s, i)) == Code
  {
    LexemeModes(s, i);
    var n := Next(s, i);
    hide DataEnd, Turn, Directive, ModeAt;
    forall k | i + 1 <= k < n ensures ModeAt(s, 0, k) != Code {
      ModeVia(s, 0, i, k);
    }
    if n < |s| {
      ModeVia(s, 0, i, n);
    }
    MarksOver(s, i + 1, n);
  }

  /** One directive line more. */
  lemma ReadingStep(s: string, i: nat, start: nat, name: string, names: seq<string>)
    requires start <= i < |s| && ModeAt(s, 0, i) == Code && Directive(s, i)
    ensures var now := NameAt(s, i);
            var more := if now == "" || now in names then names else names + [now];
            Reading(s, i, start, name, names) ==
            if name != "" && IsEndLine(LineOf(s, i)) then
              CompositionText.Prepend([Part(s[start..i], name)], [LineOf(s, i)], Reading(s, Next(s, i), LineEnd(s, i), "", names))
            else if name == "" && OpensBlock(s, i) then
              CompositionText.Prepend([Part(s[start..i], "")], [LineOf(s, i)], Reading(s, Next(s, i), LineEnd(s, i), now, more))
            else None
  {
    NextMarks(s, i);
    EndOrIf(s, i);
    hide ModeAt, DataEnd, LineEnd, Marks, Directive, IsEndLine, IsIfLine;
    var marks := Marks(s, i);
    assert marks[0] == i && marks[1..] == Marks(s, Next(s, i));
  }

  /** An end line has no name, and an if line has one. */
  lemma EndOrIf(s: string, i: nat)
    requires i < |s|
    ensures IsEndLine(LineOf(s, i)) ==> NameAt(s, i) == "" && !OpensBlock(s, i)
    ensures OpensBlock(s, i) ==> NameAt(s, i) != "" && IsIfLine(LineOf(s, i), NameAt(s, i))
  {
    hide LineEnd;
    forall n: string | IsIfLine(LineOf(s, i), n) ensures !IsEndLine(LineOf(s, i)) && n != "" {
      var g, t :| IfText(LineOf(s, i), g, n, t);
      assert LineOf(s, i)[9] == 'i';
      OneDirective(LineOf(s, i));
    }
  }

  /** Main result: the directive lines alone decide acceptance, parts, lines and options. */
  lemma {:induction false} ParseIsReading(s: string, i: nat, start: nat, name: string, names: seq<string>)
    requires start <= i <= |s| && (i < |s| ==> ModeAt(s, 0, i) == Code)
    ensures ParseFrom(s, i, start, name, names) == Reading(s, i, start, name, names)
    decreases |s| - i
  {
    hide ModeAt, DataEnd, LineEnd, Directive, IsEndLine, IsIfLine, ControlAt, Reading, CompositionText.Prepend, WithOption;
    if i == |s| {
      ReadingEnds(s, start, name, names);
    } else {
      NextMarks(s, i);
      if !Directive(s, i) {
        ControlIff(s, i, "");
        ParseIsReading(s, Next(s, i), start, name, names);
        SameReading(s, i, start, name, names);
      } else {
        ParseStep(s, i, start, name, names);
      }
    }
  }

  lemma ReadingEnds(s: string, start: nat, name: string, names: seq<string>)
    requires start <= |s|
    ensures Reading(s, |s|, start, name, names) ==
            if name != "" then None else Some(Parsed([Part(s[start..], "")], [], names))
  {
  }

  lemma SameReading(s: string, i: nat, start: nat, name: string, names: seq<string>)
    requires start <= i < |s| && Marks(s, i) == Marks(s, Next(s, i))
    ensures Reading(s, i, start, name, names) == Reading(s, Next(s, i), start, name, names)
  {
    hide Alternate, Between, LinesOf, NamesOf, Marks;
  }

  lemma {:induction false} ParseStep(s: string, i: nat, start: nat, name: string, names: seq<string>)
    requires start <= i < |s| && ModeAt(s, 0, i) == Code && Directive(s, i)
    ensures ParseFrom(s, i, start, name, names) == Reading(s, i, start, name, names)
    decreases |s| - i, 0
  {
    hide ModeAt, DataEnd, LineEnd, Directive, IsEndLine, IsIfLine, ControlAt, Reading, CompositionText.Prepend;
    NextMarks(s, i);
    ReadingStep(s, i, start, name, names);
    EndOrIf(s, i);
    var now := NameAt(s, i);
    ControlIff(s, i, now);
    ControlKinds(s, i);
    if ControlAt(s, i).End? && name != "" {
      ParseIsReading(s, Next(s, i), LineEnd(s, i), "", names);
    } else if ControlAt(s, i).If? && name == "" {
      ParseIsReading(s, Next(s, i), LineEnd(s, i), now, WithOption(names, now));
    }
  }

  lemma ControlKinds(s: string, i: nat)
    requires i < |s| && ModeAt(s, 0, i) == Code && Directive(s, i)
    ensures ControlAt(s, i).If? <==> OpensBlock(s, i)
    ensures ControlAt(s, i).If? ==> ControlAt(s, i).option == NameAt(s, i)
    ensures Next(s, i) == LineEnd(s, i)
  {
    hide ModeAt, LineEnd, Directive, IsEndLine, IsIfLine, ControlAt;
    forall n: string ensures ControlAt(s, i) == If(n) <==> IsIfLine(LineOf(s, i), n) {
      ControlIff(s, i, n);
    }
    ControlIff(s, i, "");
    if ControlAt(s, i).If? {
      assert IsIfLine(LineOf(s, i), ControlAt(s, i).option);
    }
  }

  /** The lines at the places of one parity open a block, and the others end it. */
  ghost predicate TakesTurns(s: string, marks: seq<nat>, first: nat)
    requires AllIn(s, marks)
  {
    forall k :: 0 <= k < |marks| ==>
      if k % 2 == first then OpensBlock(s, marks[k]) else IsEndLine(LineOf(s, marks[k]))
  }

  lemma {:induction false} AlternateIff(s: string, marks: seq<nat>, open: bool)
    requires AllIn(s, marks)
    ensures Alternate(s, marks, open) <==>
            |marks| % 2 == (if open then 1 else 0) && TakesTurns(s, marks, if open then 1 else 0)
    decreases |marks|
  {
    hide OpensBlock, IsEndLine, LineEnd;
    if marks != [] {
      var rest := marks[1..];
      AlternateIff(s, rest, !open);
      var first := if open then 1 else 0;
      if TakesTurns(s, marks, first) {
        forall k | 0 <= k < |rest|
          ensures if k % 2 == 1 - first then OpensBlock(s, rest[k]) else IsEndLine(LineOf(s, rest[k]))
        {
          assert rest[k] == marks[k + 1];
        }
      }
      if TakesTurns(s, rest, 1 - first) {
        forall k | 1 <= k < |marks|
          ensures if k % 2 == first then OpensBlock(s, marks[k]) else IsEndLine(LineOf(s, marks[k]))
        {
          assert rest[k - 1] == marks[k];
        }
      }
    }
  }

  /**
   A source is accepted exactly when its directive lines are an if with an option name, an end,
   an if and so on, and the last is an end: no else, no malformed line, no nesting.
   */
  lemma AcceptedIff(s: string)
    ensures ParseFrom(s, 0, 0, "", []).Some? <==> |Marks(s, 0)| % 2 == 0 && TakesTurns(s, Marks(s, 0), 0)
  {
    hide TakesTurns, Alternate, Marks, ParseFrom;
    ParseIsReading(s, 0, 0, "", []);
    AlternateIff(s, Marks(s, 0), false);
  }
}
