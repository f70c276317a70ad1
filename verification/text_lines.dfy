/** Line breaks and blank space of a text. */
module TextLines {

  function Newlines(s: string): nat {
    if s == "" then 0 else Newlines(s[..|s| - 1]) + if s[|s| - 1] == '\n' then 1 else 0
  }

  lemma {:induction false} NewlinesConcat(a: string, b: string)
    ensures Newlines(a + b) == Newlines(a) + Newlines(b)
    decreases |b|
  {
    if b == "" {
      assert a + b == a;
    } else {
      assert (a + b)[..|a + b| - 1] == a + b[..|b| - 1];
      NewlinesConcat(a, b[..|b| - 1]);
    }
  }

  /** Blank space as strings.TrimSpace and strings.Fields see it, for one-byte characters. */
  predicate IsSpace(c: char) {
    c == ' ' || c == '\t' || c == '\n' || c == '\r' || c == '\U{0B}' || c == '\U{0C}'
  }

  predicate AllSpace(s: string) {
    forall i :: 0 <= i < |s| ==> IsSpace(s[i])
  }

  function Trim(s: string): string {
    TrimEnd(TrimStart(s))
  }

  function TrimStart(s: string): string {
    if s != "" && IsSpace(s[0]) then TrimStart(s[1..]) else s
  }

  function TrimEnd(s: string): string {
    if s != "" && IsSpace(s[|s| - 1]) then TrimEnd(s[..|s| - 1]) else s
  }

  lemma {:induction false} TrimStartSkips(blank: string, s: string)
    requires AllSpace(blank) && (s == "" || !IsSpace(s[0]))
    ensures TrimStart(blank + s) == s
  {
    if blank == "" {
      assert blank + s == s;
    } else {
      assert (blank + s)[1..] == blank[1..] + s;
      TrimStartSkips(blank[1..], s);
    }
  }

  lemma {:induction false} TrimEndSkips(s: string, blank: string)
    requires AllSpace(blank) && (s == "" || !IsSpace(s[|s| - 1]))
    ensures TrimEnd(s + blank) == s
    decreases |blank|
  {
    if blank == "" {
      assert s + blank == s;
    } else {
      var n := |blank| - 1;
      assert (s + blank)[..|s + blank| - 1] == s + blank[..n];
      TrimEndSkips(s, blank[..n]);
    }
  }

  /** Trimming leaves the text between the blank ends, whatever that text holds inside. */
  lemma TrimLeaves(before: string, s: string, after: string)
    requires AllSpace(before) && AllSpace(after)
    requires s == "" || (!IsSpace(s[0]) && !IsSpace(s[|s| - 1]))
    ensures Trim(before + s + after) == s
  {
    hide TrimStart, TrimEnd;
    if s == "" {
      assert AllSpace(before + after);
      assert before + s + after == before + after + "";
      TrimStartSkips(before + after, "");
      TrimEndSkips("", "");
      assert "" + "" == "";
    } else {
      assert before + s + after == before + (s + after) && (s + after)[0] == s[0];
      TrimStartSkips(before, s + after);
      TrimEndSkips(s, after);
    }
  }

  /** The maximal runs of s without blank space. */
  function Fields(s: string): seq<string>
    decreases |s|
  {
    if s == "" then []
    else if IsSpace(s[0]) then Fields(s[1..])
    else [s[..WordEnd(s)]] + Fields(s[WordEnd(s)..])
  }

  function WordEnd(s: string): (n: nat)
    requires s != "" && !IsSpace(s[0])
    ensures 0 < n <= |s|
  {
    if |s| == 1 || IsSpace(s[1]) then 1 else 1 + WordEnd(s[1..])
  }
}
