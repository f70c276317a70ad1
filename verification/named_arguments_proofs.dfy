/**
 Positional binding is by name.  The lowering adds one code-level placeholder per
 name, and for a source without raw placeholders the k-th placeholder of the output
 stands where the macro of names[k] stood: writing the names back gives the source
 with its macros spelled canonically.
 */
module NamedArgumentsProofs {
  import opened Wrappers
  import opened SqlLexer
  import opened NamedArguments

  /** Number of placeholders of s that are code. */
  function Marks(s: string): nat
    decreases |s|
  {
    if s == "" then 0
    else if DataLen(s) > 0 then Marks(s[DataLen(s)..])
    else Marks(s[1..]) + if s[0] == '?' then 1 else 0
  }

  function Spelled(name: string): string {
    PREFIX + "('" + name + "')"
  }

  /** The source with every macro spelled canonically; defined when the macros parse. */
  function Canonical(prev: char, s: string): Option<string>
    decreases |s|
  {
    if s == "" then Some("")
    else if DataLen(s) > 0 then
      var rest :- Canonical(s[DataLen(s) - 1], s[DataLen(s)..]);
      Some(s[..DataLen(s)] + rest)
    else match ParseMacro(prev, s, PREFIX)
      case Invalid => None
      case NoMatch => (var rest :- Canonical(s[0], s[1..]); Some([s[0]] + rest))
      case Match(name, n) => (var rest :- Canonical(')', s[n..]); Some(Spelled(name) + rest))
  }

  /** What a driver does with the output: the next code-level placeholder takes the next name. */
  function Bind(s: string, names: seq<string>): Option<string>
    decreases |s|
  {
    if s == "" then if names == [] then Some("") else None
    else if DataLen(s) > 0 then
      var rest :- Bind(s[DataLen(s)..], names);
      Some(s[..DataLen(s)] + rest)
    else if s[0] == '?' then
      if names == [] then None
      else
        var rest :- Bind(s[1..], names[1..]);
        Some(Spelled(names[0]) + rest)
    else
      var rest :- Bind(s[1..], names);
      Some([s[0]] + rest)
  }

  // ----- a macro holds no placeholder -----

  predicate IsPlain(c: char) {
    IsIdentByte(c) || IsBlank(c) || c == '.' || c == '(' || c == ')'
  }

  lemma {:induction false} PlainMarks(s: string, i: nat, k: nat)
    requires i <= k <= |s| && forall j :: i <= j < k ==> IsPlain(s[j])
    ensures Marks(s[i..]) == Marks(s[k..])
    decreases k - i
  {
    if i < k {
      PlainIsCode(s[i..]);
      hide DataLen;
      PlainMarks(s, i + 1, k);
      assert s[i..][1..] == s[i + 1..];
    }
  }

  lemma PlainIsCode(s: string)
    requires s != "" && IsPlain(s[0])
    ensures DataLen(s) == 0 && s[0] != '?' && !IsQuote(s[0])
  {
  }

  lemma {:induction false} NameQuoted(s: string, i: nat, end: nat)
    requires i <= end < |s| && s[end] == '\'' && (end + 1 == |s| || s[end + 1] != '\'')
    requires forall k :: i <= k < end ==> IsIdentByte(s[k])
    ensures QuotedEnd(s, i, '\'') == end + 1
    decreases end - i
  {
    if i < end {
      NameQuoted(s, i + 1, end);
    }
  }

  /** The quoted name of a macro is one data region. */
  lemma NameIsData(s: string, quote: nat)
    requires quote < |s| && s[quote] == '\'' && ParseName(s, quote + 1).Match?
    ensures var end := IndexOf(s, quote + 1, '\'').value; DataEnd(s, quote) == end + 1
  {
    var end := IndexOf(s, quote + 1, '\'').value;
    var name := s[quote + 1..end];
    forall k | quote + 1 <= k < end ensures IsIdentByte(s[k]) {
      assert name[k - quote - 1] == s[k];
    }
    NameQuoted(s, quote + 1, end);
  }

  lemma NameMarks(s: string, quote: nat)
    requires quote < |s| && s[quote] == '\'' && ParseName(s, quote + 1).Match?
    ensures Marks(s[quote..]) == Marks(s[ParseName(s, quote + 1).length..])
  {
    hide DataEnd, IsGoIdentifier, SkipBlanks, IndexOf;
    NameIsData(s, quote);
    var end := IndexOf(s, quote + 1, '\'').value;
    DataLenAt(s, quote);
    assert s[quote..][end + 1 - quote..] == s[end + 1..];
    hide Marks, DataLen;
    PlainMarks(s, end + 1, SkipBlanks(s, end + 1) + 1);
  }

  /** The parts of a macro before its name. */
  lemma MacroParts(prev: char, s: string) returns (quote: nat)
    requires ParseMacro(prev, s, PREFIX).Match?
    ensures PrefixAt(prev, s, PREFIX) && |PREFIX| <= quote < |s| && s[quote] == '\''
    ensures forall k :: |PREFIX| <= k < quote ==> IsPlain(s[k])
    ensures ParseName(s, quote + 1) == ParseMacro(prev, s, PREFIX)
  {
    hide PREFIX, SkipBlanks, ParseName, PrefixAt;
    PrefixLength(prev, s);
    var open := SkipBlanks(s, |PREFIX|);
    quote := SkipBlanks(s, open + 1);
  }

  lemma PrefixLength(prev: char, s: string)
    ensures PrefixAt(prev, s, PREFIX) ==> |PREFIX| <= |s|
  {
  }

  lemma MacroMarks(prev: char, s: string)
    requires ParseMacro(prev, s, PREFIX).Match?
    ensures Marks(s) == Marks(s[ParseMacro(prev, s, PREFIX).length..])
    ensures !IsQuote(s[0]) && DataLen(s) == 0
  {
    hide *;
    var quote := MacroParts(prev, s);
    PrefixIsPlain(prev, s);
    PlainIsCode(s);
    NameMarks(s, quote);
    PlainMarks(s, 0, quote);
    assert s[0..] == s;
  }

  lemma PrefixIsPlain(prev: char, s: string)
    requires PrefixAt(prev, s, PREFIX)
    ensures 0 < |PREFIX| <= |s| && forall k :: 0 <= k < |PREFIX| ==> IsPlain(s[k])
  {
    forall k | 0 <= k < |PREFIX| ensures IsPlain(s[k]) {
      assert Lower(s[..|PREFIX|][k]) == Lower(PREFIX[k]);
    }
  }

  // ----- the lowered text lexes like the source -----

  lemma NormalizeHead(prev: char, s: string)
    requires Normalize(prev, s).Some?
    ensures SameHead(s, Normalize(prev, s).value.sql)
  {
    hide PREFIX, ParseMacro, DataEnd;
  }

  /** One lexeme that is copied, and the rest. */
  lemma CopiedLexeme(prev: char, s: string)
    requires s != "" && Normalize(prev, s).Some?
    requires DataLen(s) > 0 || ParseMacro(prev, s, PREFIX).NoMatch?
    ensures var n, out := LexLen(s), Normalize(prev, s).value.sql;
            var rest := Normalize(s[n - 1], s[n..]);
            && rest.Some? && Normalize(prev, s).value.names == rest.value.names
            && n <= |out| && out[..n] == s[..n] && out[n..] == rest.value.sql
            && LexLen(out) == n && (DataLen(out) > 0 <==> DataLen(s) > 0)
  {
    hide PREFIX, ParseMacro, DataLen, Normalize, Marks;
    var n := LexLen(s);
    CopiedHead(prev, s);
    var rest := Normalize(s[n - 1], s[n..]);
    NormalizeHead(s[n - 1], s[n..]);
    assert s == s[..n] + s[n..];
    LexemeStable(s[..n], s[n..], rest.value.sql);
  }

  lemma CopiedHead(prev: char, s: string)
    requires s != "" && Normalize(prev, s).Some?
    requires DataLen(s) > 0 || ParseMacro(prev, s, PREFIX).NoMatch?
    ensures var n := LexLen(s);
            var rest := Normalize(s[n - 1], s[n..]);
            && rest.Some? && Normalize(prev, s).value == Lowered(s[..n] + rest.value.sql, rest.value.names)
  {
    hide PREFIX, ParseMacro, DataLen;
    var n := LexLen(s);
    var rest := Normalize(s[n - 1], s[n..]);
    assert [] + rest.value.names == rest.value.names;
    assert s[..1] == [s[0]];
  }

  /** One macro that becomes a placeholder, and the rest. */
  lemma LoweredMacro(prev: char, s: string)
    requires s != "" && DataLen(s) == 0 && Normalize(prev, s).Some?
    requires ParseMacro(prev, s, PREFIX).Match?
    ensures var m, out := ParseMacro(prev, s, PREFIX), Normalize(prev, s).value;
            var rest := Normalize(')', s[m.length..]);
            && rest.Some? && out.sql == "?" + rest.value.sql && out.names == [m.name] + rest.value.names
            && DataLen(out.sql) == 0 && out.sql[1..] == rest.value.sql && out.names[1..] == rest.value.names
  {
    hide PREFIX, ParseMacro;
  }

  lemma {:induction false} MarksAdded(prev: char, s: string)
    requires Normalize(prev, s).Some?
    ensures var out := Normalize(prev, s).value; Marks(out.sql) == Marks(s) + |out.names|
    decreases |s|
  {
    hide PREFIX, ParseMacro, DataLen, Normalize;
    if s == "" {
      NormalizeEmpty(prev);
    } else if DataLen(s) > 0 || ParseMacro(prev, s, PREFIX).NoMatch? {
      CopiedLexeme(prev, s);
      var n := LexLen(s);
      assert Normalize(prev, s).value.sql[0] == s[0];
      MarksAdded(s[n - 1], s[n..]);
    } else {
      MatchOrCopied(prev, s);
      LoweredMacro(prev, s);
      MacroMarks(prev, s);
      MarksAdded(')', s[ParseMacro(prev, s, PREFIX).length..]);
    }
  }

  lemma NormalizeEmpty(prev: char)
    ensures Normalize(prev, "") == Some(Lowered("", []))
  {
  }

  lemma MatchOrCopied(prev: char, s: string)
    requires s != "" && DataLen(s) == 0 && Normalize(prev, s).Some?
    ensures !ParseMacro(prev, s, PREFIX).Invalid?
  {
    hide PREFIX, ParseMacro, DataLen;
  }

  lemma {:induction false} BindsByName(prev: char, s: string)
    requires Normalize(prev, s).Some?
    ensures var out := Normalize(prev, s).value;
            Bind(out.sql, out.names) == if Marks(s) == 0 then Canonical(prev, s) else None
    ensures Canonical(prev, s).Some?
    decreases |s|
  {
    hide PREFIX, ParseMacro, DataLen, Normalize, Spelled;
    if s == "" {
      NormalizeEmpty(prev);
    } else if DataLen(s) > 0 || ParseMacro(prev, s, PREFIX).NoMatch? {
      CopiedLexeme(prev, s);
      var n := LexLen(s);
      assert Normalize(prev, s).value.sql[0] == s[0];
      BindsByName(s[n - 1], s[n..]);
      if DataLen(s) == 0 && s[0] == '?' {
        TooFewNames(prev, s);
      }
    } else {
      MatchOrCopied(prev, s);
      LoweredMacro(prev, s);
      MacroMarks(prev, s);
      BindsByName(')', s[ParseMacro(prev, s, PREFIX).length..]);
    }
  }

  /** Binding needs exactly as many names as there are placeholders. */
  lemma {:induction false} BindNeeds(s: string, names: seq<string>)
    ensures Bind(s, names).Some? <==> Marks(s) == |names|
    decreases |s|
  {
    hide DataLen, Spelled;
    if s != "" {
      if DataLen(s) > 0 {
        BindNeeds(s[DataLen(s)..], names);
      } else if s[0] != '?' {
        BindNeeds(s[1..], names);
      } else if names != [] {
        BindNeeds(s[1..], names[1..]);
      }
    }
  }

  lemma TooFewNames(prev: char, s: string)
    requires Normalize(prev, s).Some? && Marks(s) > 0
    ensures var out := Normalize(prev, s).value; Bind(out.sql, out.names).None?
  {
    hide Marks, Normalize, Bind;
    MarksAdded(prev, s);
    var out := Normalize(prev, s).value;
    BindNeeds(out.sql, out.names);
  }

  lemma {:induction false} FirstMarkCounts(s: string, i: nat)
    requires i <= |s|
    ensures FirstMark(s, i).None? <==> Marks(s[i..]) == 0
    decreases |s| - i
  {
    hide DataEnd;
    if i < |s| {
      DataLenAt(s, i);
      var end := DataEnd(s, i);
      if end > i {
        FirstMarkCounts(s, end);
        assert s[i..][end - i..] == s[end..];
      } else {
        FirstMarkCounts(s, i + 1);
        assert s[i..][1..] == s[i + 1..];
      }
    }
  }

  /**
   Main result, for every source the lowering accepts: one placeholder more per name;
   and the placeholders can be bound by position, each to the name of its own macro,
   exactly when the raw-placeholder check passes.
   */
  lemma PositionsAreNames(sql: string)
    requires Normalize(' ', sql).Some?
    ensures var out := Normalize(' ', sql).value;
            && Marks(out.sql) == Marks(sql) + |out.names|
            && (Bind(out.sql, out.names).Some? <==> FirstMark(sql, 0).None?)
            && (FirstMark(sql, 0).None? ==> Bind(out.sql, out.names) == Canonical(' ', sql))
  {
    hide Marks, Normalize, Bind, FirstMark, Canonical;
    MarksAdded(' ', sql);
    BindsByName(' ', sql);
    FirstMarkCounts(sql, 0);
    assert sql[0..] == sql;
  }
}
