/**
 Scanner alignment.  Cut(a, b) says that a scan of a + b stops at the seam, so that
 the lexemes of a + b are those of a followed by those of b.
 */
module SqlCuts {
  import opened SqlLexer

  predicate Cut(a: string, b: string)
    decreases |a|
  {
    a == "" || (LexLen(a + b) <= |a| && Cut(a[LexLen(a + b)..], b))
  }

  /** The first lexeme of a is the first lexeme of a + b, and the cut is one of the rest. */
  lemma CutHead(a: string, b: string)
    requires a != "" && Cut(a, b)
    ensures LexLen(a) == LexLen(a + b) && (DataLen(a) > 0 <==> DataLen(a + b) > 0)
    ensures Cut(a[LexLen(a)..], b)
  {
    hide LexLen, DataLen;
    var n := LexLen(a + b);
    assert a + b == a[..n] + (a[n..] + b);
    assert a == a[..n] + a[n..];
    LexemeStable(a[..n], a[n..] + b, a[n..]);
  }

  lemma {:induction false} CutReplace(a: string, b: string, c: string)
    requires Cut(a, b) && SameHead(b, c)
    ensures Cut(a, c)
    decreases |a|
  {
    hide LexLen, DataLen;
    if a != "" {
      CutHead(a, b);
      var n := LexLen(a + b);
      assert a + b == a[..n] + (a[n..] + b);
      assert a + c == a[..n] + (a[n..] + c);
      LexemeStable(a[..n], a[n..] + b, a[n..] + c);
      CutReplace(a[n..], b, c);
    }
  }

  lemma {:induction false} CutConcat(a: string, b: string, c: string)
    requires Cut(a, b + c)
    ensures Cut(a + b, c) <==> Cut(b, c)
    decreases |a|
  {
    hide LexLen, DataLen;
    if a == "" {
      assert a + b == b;
    } else {
      CutHead(a, b + c);
      var n := LexLen(a + (b + c));
      assert a + (b + c) == (a + b) + c;
      assert (a + b)[n..] == a[n..] + b;
      CutConcat(a[n..], b, c);
    }
  }
}
