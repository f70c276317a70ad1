/**
 A second reading of SQL text, one byte after the other: which bytes are code, and which
 belong to a quoted region or a comment.  The lexeme scanner of SqlLexer reads the same.
 */
module CodeBytes {
  import opened SqlLexer

  datatype Mode = Code | Quoted(q: char) | Escaped(q: char) | Line | Opening | Block | Ending

  predicate Follows(s: string, k: nat, c: char) {
    k < |s| && s[k] == c
  }

  /** The mode behind byte k, which is read in mode m. */
  function Turn(m: Mode, s: string, k: nat): Mode
    requires k < |s|
  {
    match m
    case Code =>
      if s[k] == '\'' || s[k] == '"' || s[k] == '`' then Quoted(s[k])
      else if s[k] == '-' && Follows(s, k + 1, '-') then Line
      else if s[k] == '/' && Follows(s, k + 1, '*') then Opening
      else Code
    case Quoted(q) =>
      if s[k] == '\\' || (s[k] == q && Follows(s, k + 1, q)) then Escaped(q)
      else if s[k] == q then Code
      else Quoted(q)
    case Escaped(q) => Quoted(q)
    case Line => if s[k] == '\n' then Code else Line
    case Opening => Block
    case Block => if s[k] == '*' && Follows(s, k + 1, '/') then Ending else Block
    case Ending => Code
  }

  /** The mode at k when code starts at i. */
  function ModeAt(s: string, i: nat, k: nat): Mode
    requires i <= k <= |s|
    decreases k
  {
    if k == i then Code else Turn(ModeAt(s, i, k - 1), s, k - 1)
  }

  /** Byte k is code, and no quote or comment starts with it. */
  predicate CodeByte(s: string, i: nat, k: nat)
    requires i <= k < |s|
  {
    ModeAt(s, i, k) == Code && ModeAt(s, i, k + 1) == Code
  }

  /** j is a lexeme boundary of a scan that starts at i. */
  predicate Reaches(s: string, i: nat, j: nat)
    requires i <= |s|
    decreases |s| - i
  {
    i == j || (i < j && i < |s| && Reaches(s, Next(s, i), j))
  }

  /** Reading may start at any place that is code. */
  lemma {:induction false} ModeVia(s: string, i: nat, j: nat, k: nat)
    requires i <= j <= k <= |s| && ModeAt(s, i, j) == Code
    ensures ModeAt(s, i, k) == ModeAt(s, j, k)
    decreases k - j
  {
    hide Turn;
    if j < k {
      ModeVia(s, i, j, k - 1);
    }
  }

  /** From j on, until e, no byte is read in code mode; at e, inside the text, code goes on. */
  predicate ClosedBy(s: string, i: nat, j: nat, e: nat) {
    && i <= j <= e <= |s|
    && (forall k :: j <= k < e ==> ModeAt(s, i, k) != Code)
    && (e < |s| ==> ModeAt(s, i, e) == Code)
  }

  lemma {:induction false} QuotedModes(s: string, i: nat, j: nat, q: char)
    requires i <= j <= |s| && ModeAt(s, i, j) == Quoted(q)
    ensures ClosedBy(s, i, j, QuotedEnd(s, j, q))
    decreases |s| - j
  {
    if j < |s| {
      assert ModeAt(s, i, j + 1) == Turn(Quoted(q), s, j);
      if s[j] == '\\' || (s[j] == q && Follows(s, j + 1, q)) {
        if j + 1 < |s| {
          assert ModeAt(s, i, j + 2) == Turn(Escaped(q), s, j + 1);
          QuotedModes(s, i, j + 2, q);
        }
      } else if s[j] != q {
        QuotedModes(s, i, j + 1, q);
      }
    }
  }

  lemma {:induction false} LineModes(s: string, i: nat, j: nat)
    requires i <= j <= |s| && ModeAt(s, i, j) == Line
    ensures ClosedBy(s, i, j, LineCommentEnd(s, j))
    decreases |s| - j
  {
    if j < |s| {
      assert ModeAt(s, i, j + 1) == Turn(Line, s, j);
      if s[j] != '\n' {
        LineModes(s, i, j + 1);
      }
    }
  }

  lemma {:induction false} BlockModes(s: string, i: nat, j: nat)
    requires i <= j <= |s| && ModeAt(s, i, j) == Block
    ensures ClosedBy(s, i, j, BlockCommentEnd(s, j))
    decreases |s| - j
  {
    if j < |s| {
      assert ModeAt(s, i, j + 1) == Turn(Block, s, j);
      if s[j] == '*' && Follows(s, j + 1, '/') {
        assert ModeAt(s, i, j + 2) == Turn(Ending, s, j + 1);
      } else {
        BlockModes(s, i, j + 1);
      }
    }
  }

  /** One lexeme: a data region is left only at its end, and a code byte at once. */
  lemma LexemeModes(s: string, j: nat)
    requires j < |s|
    ensures ClosedBy(s, j, j + 1, Next(s, j))
    ensures DataEnd(s, j) == j <==> ModeAt(s, j, j + 1) == Code
    ensures DataEnd(s, j) > j <==> ModeAt(s, j, j + 1) != Code
  {
    assert ModeAt(s, j, j + 1) == Turn(Code, s, j);
    if IsQuote(s[j]) {
      QuotedModes(s, j, j + 1, s[j]);
    } else if PairAt(s, j, '-', '-') {
      LineModes(s, j, j + 1);
      assert s[j] != '\n';
    } else if PairAt(s, j, '/', '*') {
      assert ModeAt(s, j, j + 2) == Turn(Opening, s, j + 1);
      BlockModes(s, j, j + 2);
    }
  }

  /** Main result: the scanner stops exactly where code is read. */
  lemma {:induction false} ReachesIsCode(s: string, i: nat, k: nat)
    requires i <= k < |s|
    ensures Reaches(s, i, k) <==> ModeAt(s, i, k) == Code
    decreases |s| - i
  {
    hide DataEnd, Turn;
    if i < k {
      LexemeModes(s, i);
      var n := Next(s, i);
      if n <= k {
        ModeVia(s, i, n, k);
        ReachesIsCode(s, n, k);
      } else {
        NotBackward(s, n, k);
      }
    }
  }

  lemma {:induction false} NotBackward(s: string, n: nat, k: nat)
    requires k < n <= |s|
    ensures !Reaches(s, n, k)
  {
  }

  /** The scanner takes byte k for code exactly when this reading does. */
  lemma CodeByteIs(s: string, i: nat, k: nat)
    requires i <= k < |s|
    ensures CodeByte(s, i, k) <==> Reaches(s, i, k) && DataEnd(s, k) == k
  {
    hide DataEnd, Turn;
    ReachesIsCode(s, i, k);
    LexemeModes(s, k);
    if ModeAt(s, i, k) == Code {
      ModeVia(s, i, k, k + 1);
    }
  }

  // ----- counting -----

  /** The code bytes a of s[i..k], less the code bytes z there. */
  function Count(s: string, i: nat, k: nat, a: char, z: char): int
    requires i <= k <= |s|
    decreases k
  {
    if k == i then 0
    else Count(s, i, k - 1, a, z) +
         if !CodeByte(s, i, k - 1) then 0 else if s[k - 1] == a then 1 else if s[k - 1] == z then -1 else 0
  }

  predicate NoCode(s: string, i: nat, j: nat, e: nat) {
    i <= j <= e <= |s| && forall k :: j <= k < e ==> !CodeByte(s, i, k)
  }

  lemma {:induction false} CountOver(s: string, i: nat, j: nat, e: nat, a: char, z: char)
    requires NoCode(s, i, j, e)
    ensures Count(s, i, e, a, z) == Count(s, i, j, a, z)
    decreases e - j
  {
    hide CodeByte;
    if j < e {
      CountOver(s, i, j, e - 1, a, z);
    }
  }

  /** A data region holds no code byte, and code goes on behind it. */
  lemma DataIsQuiet(s: string, i: nat, j: nat)
    requires i <= j < |s| && ModeAt(s, i, j) == Code && DataEnd(s, j) > j
    ensures NoCode(s, i, j, DataEnd(s, j))
    ensures DataEnd(s, j) < |s| ==> ModeAt(s, i, DataEnd(s, j)) == Code
  {
    var e := DataEnd(s, j);
    LexemeModes(s, j);
    hide DataEnd, Turn;
    forall k | j <= k < e ensures !CodeByte(s, i, k) {
      ModeVia(s, i, j, k);
      if k == j {
        ModeVia(s, i, j, j + 1);
      }
    }
    if e < |s| {
      ModeVia(s, i, j, e);
    }
  }

  // ----- words and blanks -----

  predicate SameLetter(a: char, b: char) {
    || a == b
    || ('A' <= a <= 'Z' && b as int == a as int + 32)
    || ('A' <= b <= 'Z' && a as int == b as int + 32)
  }

  /** The word w in any case. */
  predicate Reads(text: string, w: string) {
    |text| == |w| && forall k :: 0 <= k < |w| ==> SameLetter(text[k], w[k])
  }

  lemma FoldIs(text: string, w: string)
    ensures EqualFold(text, w) <==> Reads(text, w)
  {
    assert forall x, y :: Lower(x) == Lower(y) <==> SameLetter(x, y);
    if Reads(text, w) {
      forall k | 0 <= k < |text| ensures Lower(text[k]) == Lower(w[k]) {
        assert SameLetter(text[k], w[k]);
      }
    }
    if EqualFold(text, w) {
      forall k | 0 <= k < |w| ensures SameLetter(text[k], w[k]) {
        assert Lower(text[k]) == Lower(w[k]);
      }
    }
  }

  predicate NameByte(c: char) {
    'a' <= c <= 'z' || 'A' <= c <= 'Z' || '0' <= c <= '9' || c == '_'
  }

  lemma FoldAt(s: string, i: nat, w: string)
    requires i + |w| <= |s|
    ensures EqualFold(s[i..i + |w|], w) <==> forall k :: 0 <= k < |w| ==> SameLetter(s[i + k], w[k])
  {
    var a := s[i..i + |w|];
    FoldIs(a, w);
    hide EqualFold;
    assert forall k :: 0 <= k < |w| ==> a[k] == s[i + k];
    if Reads(a, w) {
      forall k | 0 <= k < |w| ensures SameLetter(s[i + k], w[k]) {
        assert SameLetter(a[k], w[k]);
      }
    }
  }

  /** The word w stands at i in any case, with no name byte next to it. */
  predicate WordHere(s: string, i: nat, w: string) {
    && i + |w| <= |s|
    && (forall k :: 0 <= k < |w| ==> SameLetter(s[i + k], w[k]))
    && (i == 0 || !NameByte(s[i - 1]))
    && (i + |w| == |s| || !NameByte(s[i + |w|]))
  }

  lemma WordIs(s: string, i: nat, w: string)
    requires i <= |s|
    ensures KeywordAt(s, i, w) <==> WordHere(s, i, w)
  {
    if i + |w| <= |s| {
      FoldAt(s, i, w);
      hide EqualFold;
      assert s[i..][..|w|] == s[i..i + |w|];
    }
  }

  predicate BlankByte(c: char) {
    c == ' ' || c == '\t' || c == '\n' || c == '\r'
  }

  /** Blanks from i up to e, and none at e. */
  predicate BlanksTo(s: string, i: nat, e: nat) {
    && i <= e <= |s|
    && (forall k :: i <= k < e ==> BlankByte(s[k]))
    && (e < |s| ==> !BlankByte(s[e]))
  }

  lemma BlanksAre(s: string, i: nat, e: nat)
    requires i <= |s|
    ensures BlanksTo(s, i, e) <==> e == SkipBlanks(s, i)
  {
  }

  lemma WordHead(s: string, i: nat, w: string)
    requires WordHere(s, i, w) && w != ""
    ensures i + |w| <= |s| && SameLetter(s[i], w[0])
  {
    assert SameLetter(s[i + 0], w[0]);
  }
}
