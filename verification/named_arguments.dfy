/**
 Lowering chgen.arg('Name') to positional placeholders.  The names are kept in a list
 beside the text, and the drivers bind them by position.
 */
module NamedArguments {
  import opened Wrappers
  import opened SqlLexer
  import opened TextLines

  const PREFIX: string := "chgen.arg"

  const GO_KEYWORDS: set<string> := {
    "break", "case", "chan", "const", "continue", "default", "defer", "else", "fallthrough", "for",
    "func", "go", "goto", "if", "import", "interface", "map", "package", "range", "return", "select",
    "struct", "switch", "type", "var"
  }

  predicate IsGoIdentifier(name: string) {
    && name != "" && name != "_" && name !in GO_KEYWORDS && !('0' <= name[0] <= '9')
    && forall k :: 0 <= k < |name| ==> IsIdentByte(name[k])
  }

  function IndexOf(s: string, i: nat, c: char): (k: Option<nat>)
    requires i <= |s|
    ensures k.Some? ==> i <= k.value < |s| && s[k.value] == c
    decreases |s| - i
  {
    if i == |s| then None else if s[i] == c then Some(i) else IndexOf(s, i + 1, c)
  }

  /** What a macro prefix at the head of a text turns out to be. */
  datatype Parse = NoMatch | Invalid | Match(name: string, length: nat)

  predicate PrefixAt(prev: char, s: string, prefix: string) {
    && |prefix| <= |s| && EqualFold(s[..|prefix|], prefix)
    && !IsIdentByte(prev) && prev != '.'
  }

  /** The call of a macro whose prefix ends at offset i; length is the offset after it. */
  function ParseCall(s: string, i: nat): (m: Parse)
    requires i <= |s|
    ensures m.Match? ==> i < m.length <= |s| && s[m.length - 1] == ')' && IsGoIdentifier(m.name)
  {
    var open := SkipBlanks(s, i);
    if open == |s| || s[open] != '(' then Invalid
    else
      var quote := SkipBlanks(s, open + 1);
      if quote == |s| || s[quote] != '\'' then Invalid else ParseName(s, quote + 1)
  }

  function ParseName(s: string, i: nat): (m: Parse)
    requires i <= |s|
    ensures m.Match? ==> i < m.length <= |s| && s[m.length - 1] == ')' && IsGoIdentifier(m.name)
  {
    match IndexOf(s, i, '\'')
    case None => Invalid
    case Some(end) =>
      if !IsGoIdentifier(s[i..end]) then Invalid
      else
        var close := SkipBlanks(s, end + 1);
        if close == |s| || s[close] != ')' then Invalid else Match(s[i..end], close + 1)
  }

  function ParseMacro(prev: char, s: string, prefix: string): (m: Parse)
    ensures m.Match? ==> 0 < m.length <= |s| && s[m.length - 1] == ')' && IsGoIdentifier(m.name)
  {
    if PrefixAt(prev, s, prefix) then ParseCall(s, |prefix|) else NoMatch
  }

  datatype Lowered = Lowered(sql: string, names: seq<string>)

  function Prepend(text: string, names: seq<string>, rest: Option<Lowered>): Option<Lowered> {
    if rest.None? then None else Some(Lowered(text + rest.value.sql, names + rest.value.names))
  }

  /** The positional text of s and its names, where prev is the byte before s. */
  function Normalize(prev: char, s: string): Option<Lowered>
    decreases |s|
  {
    if s == "" then Some(Lowered("", []))
    else if DataLen(s) > 0 then
      Prepend(s[..DataLen(s)], [], Normalize(s[DataLen(s) - 1], s[DataLen(s)..]))
    else match ParseMacro(prev, s, PREFIX)
      case Invalid => None
      case NoMatch => Prepend([s[0]], [], Normalize(s[0], s[1..]))
      case Match(name, n) => Prepend("?", [name], Normalize(')', s[n..]))
  }

  // ----- the same functions at an offset of the whole text -----

  predicate PrefixAtOffset(s: string, i: nat, prefix: string)
    requires i <= |s|
  {
    && i + |prefix| <= |s| && EqualFold(s[i..i + |prefix|], prefix)
    && !IsIdentByte(Before(s, i)) && Before(s, i) != '.'
  }

  /** As ParseMacro, with the offset after the macro in place of its length. */
  function ParseMacroAt(s: string, i: nat, prefix: string): (m: Parse)
    requires i <= |s|
    ensures m.Match? ==> i < m.length <= |s| && s[m.length - 1] == ')'
  {
    if PrefixAtOffset(s, i, prefix) then ParseCall(s, i + |prefix|) else NoMatch
  }

  lemma {:induction false} IndexOfShift(s: string, k: nat, i: nat, c: char)
    requires k <= i <= |s|
    ensures var at := IndexOf(s[k..], i - k, c);
            IndexOf(s, i, c) == if at.None? then None else Some(k + at.value)
    decreases |s| - i
  {
    if i < |s| && s[i] != c {
      IndexOfShift(s, k, i + 1, c);
    }
  }

  lemma PrefixShift(s: string, i: nat, prefix: string)
    requires i <= |s|
    ensures PrefixAtOffset(s, i, prefix) <==> PrefixAt(Before(s, i), s[i..], prefix)
  {
    hide EqualFold;
    if i + |prefix| <= |s| {
      assert s[i..][..|prefix|] == s[i..i + |prefix|];
    }
  }

  function Shift(m: Parse, k: nat): Parse {
    match m
    case Match(name, n) => Match(name, k + n)
    case other => other
  }

  lemma ParseNameShift(s: string, k: nat, i: nat)
    requires k <= i <= |s|
    ensures ParseName(s, i) == Shift(ParseName(s[k..], i - k), k)
  {
    hide IsGoIdentifier, SkipBlanks, IndexOf;
    IndexOfShift(s, k, i, '\'');
    var end := IndexOf(s, i, '\'');
    if end.Some? {
      assert s[k..][i - k..end.value - k] == s[i..end.value];
      SkipBlanksShift(s, k, end.value + 1);
    }
  }

  lemma ParseCallShift(s: string, k: nat, i: nat)
    requires k <= i <= |s|
    ensures ParseCall(s, i) == Shift(ParseCall(s[k..], i - k), k)
  {
    hide IsGoIdentifier, SkipBlanks, ParseName;
    SkipBlanksShift(s, k, i);
    var open := SkipBlanks(s, i);
    if open < |s| && s[open] == '(' {
      SkipBlanksShift(s, k, open + 1);
      var quote := SkipBlanks(s, open + 1);
      if quote < |s| && s[quote] == '\'' {
        ParseNameShift(s, k, quote + 1);
      }
    }
  }

  lemma ParseMacroShift(s: string, i: nat, prefix: string)
    requires i <= |s|
    ensures ParseMacroAt(s, i, prefix) == Shift(ParseMacro(Before(s, i), s[i..], prefix), i)
  {
    hide PrefixAt, PrefixAtOffset, IsGoIdentifier, ParseCall;
    PrefixShift(s, i, prefix);
    PrefixFits(s, i, prefix);
    if PrefixAtOffset(s, i, prefix) {
      ParseCallShift(s, i, i + |prefix|);
    }
  }

  lemma PrefixFits(s: string, i: nat, prefix: string)
    requires i <= |s|
    ensures PrefixAtOffset(s, i, prefix) ==> i + |prefix| <= |s|
  {
  }

  function NormalizeAt(s: string, i: nat): Option<Lowered>
    requires i <= |s|
    decreases |s| - i
  {
    if i == |s| then Some(Lowered("", []))
    else if DataEnd(s, i) > i then Prepend(s[i..DataEnd(s, i)], [], NormalizeAt(s, DataEnd(s, i)))
    else match ParseMacroAt(s, i, PREFIX)
      case Invalid => None
      case NoMatch => Prepend([s[i]], [], NormalizeAt(s, i + 1))
      case Match(name, end) => Prepend("?", [name], NormalizeAt(s, end))
  }

  lemma {:induction false} NormalizeShift(s: string, i: nat)
    requires i <= |s|
    ensures NormalizeAt(s, i) == Normalize(Before(s, i), s[i..])
    decreases |s| - i
  {
    hide PREFIX, DataEnd, ParseMacro, ParseMacroAt, Prepend;
    if i < |s| {
      var t := s[i..];
      DataLenAt(s, i);
      var end := DataEnd(s, i);
      if end > i {
        NormalizeShift(s, end);
        assert t[end - i..] == s[end..] && t[..end - i] == s[i..end];
      } else {
        ParseMacroShift(s, i, PREFIX);
        match ParseMacroAt(s, i, PREFIX) {
          case Invalid =>
          case NoMatch =>
            NormalizeShift(s, i + 1);
            assert t[1..] == s[i + 1..];
          case Match(name, end) =>
            NormalizeShift(s, end);
            assert t[end - i..] == s[end..] && t[end - i - 1] == s[end - 1];
        }
      }
    }
  }

  // ----- the loops of the source -----

  method ParseNamedMacroAt(sql: string, start: nat, prefix: string) returns (m: Parse)
    requires start <= |sql|
    ensures m == ParseMacroAt(sql, start, prefix)
  {
    hide EqualFold, IsGoIdentifier, SkipBlanks, IndexOf;
    if |sql| - start < |prefix| || !EqualFold(sql[start..start + |prefix|], prefix) {
      return NoMatch;
    }
    if start > 0 && (IsIdentByte(sql[start - 1]) || sql[start - 1] == '.') {
      return NoMatch;
    }
    var index := SkipWhitespace(sql, start + |prefix|);
    if index >= |sql| || sql[index] != '(' {
      return Invalid;
    }
    index := SkipWhitespace(sql, index + 1);
    if index >= |sql| || sql[index] != '\'' {
      return Invalid;
    }
    var nameStart := index + 1;
    var closing := IndexOf(sql, nameStart, '\'');
    if closing.None? {
      return Invalid;
    }
    index := closing.value;
    var name := sql[nameStart..index];
    if !IsGoIdentifier(name) {
      return Invalid;
    }
    index := SkipWhitespace(sql, index + 1);
    if index >= |sql| || sql[index] != ')' {
      return Invalid;
    }
    return Match(name, index + 1);
  }

  method NormalizeNamedArgs(sql: string) returns (lowered: Option<Lowered>)
    ensures lowered == Normalize(' ', sql)
  {
    hide PREFIX, ParseMacroAt, DataEnd, Normalize, Prepend;
    NormalizeShift(sql, 0);
    assert sql[0..] == sql;
    var out, names := "", [];
    var index := 0;
    PrependPrepend("", "", [], [], NormalizeAt(sql, 0));
    while index < |sql|
      invariant index <= |sql|
      invariant Prepend(out, names, NormalizeAt(sql, index)) == NormalizeAt(sql, 0)
      decreases |sql| - index
    {
      var end := SqlDataEnd(sql, index);
      if end > index {
        PrependPrepend(out, sql[index..end], names, [], NormalizeAt(sql, end));
        out := out + sql[index..end];
        index := end;
        continue;
      }
      var m := ParseNamedMacroAt(sql, index, PREFIX);
      if m.Invalid? {
        PrependNone(out, names);
        return None;
      } else if m.Match? {
        PrependPrepend(out, "?", names, [m.name], NormalizeAt(sql, m.length));
        out, names := out + "?", names + [m.name];
        index := m.length;
      } else {
        PrependPrepend(out, [sql[index]], names, [], NormalizeAt(sql, index + 1));
        out := out + [sql[index]];
        index := index + 1;
      }
    }
    PrependPrepend(out, "", names, [], Some(Lowered("", [])));
    return Some(Lowered(out, names));
  }

  lemma PrependNone(a: string, m: seq<string>)
    ensures Prepend(a, m, None) == None
  {
  }

  lemma PrependPrepend(a: string, b: string, m: seq<string>, n: seq<string>, rest: Option<Lowered>)
    ensures Prepend(a, m, Prepend(b, n, rest)) == Prepend(a + b, m + n, rest)
    ensures Prepend("", [], rest) == rest
    ensures Prepend(a, m, Some(Lowered("", []))) == Some(Lowered(a, m))
    ensures m + [] == m
  {
    if rest.Some? {
      assert a + (b + rest.value.sql) == (a + b) + rest.value.sql;
      assert m + (n + rest.value.names) == (m + n) + rest.value.names;
      assert "" + rest.value.sql == rest.value.sql && [] + rest.value.names == rest.value.names;
    }
    assert a + "" == a && m + [] == m;
  }

  // ----- raw placeholders -----

  /** Offset of the first placeholder of s that is code. */
  function FirstMark(s: string, i: nat): (k: Option<nat>)
    requires i <= |s|
    ensures k.Some? ==> i <= k.value < |s| && s[k.value] == '?'
    decreases |s| - i
  {
    if i == |s| then None
    else if DataEnd(s, i) > i then FirstMark(s, DataEnd(s, i))
    else if s[i] == '?' then Some(i)
    else FirstMark(s, i + 1)
  }

  /** The line of the first raw placeholder of a read query, None when there is none. */
  method RejectRawPlaceholders(isExec: bool, sql: string, sqlLine: nat) returns (at: Option<nat>)
    ensures at == if isExec || FirstMark(sql, 0).None? then None
                  else Some(sqlLine + Newlines(sql[..FirstMark(sql, 0).value]))
  {
    hide DataEnd;
    if isExec {
      return None;
    }
    var line, index := sqlLine, 0;
    while index < |sql|
      invariant index <= |sql|
      invariant line == sqlLine + Newlines(sql[..index])
      invariant FirstMark(sql, 0) == FirstMark(sql, index)
      decreases |sql| - index
    {
      var end := SqlDataEnd(sql, index);
      if end > index {
        assert sql[..end] == sql[..index] + sql[index..end];
        NewlinesConcat(sql[..index], sql[index..end]);
        line := line + Newlines(sql[index..end]);
        index := end;
        continue;
      }
      if sql[index] == '?' {
        return Some(line);
      }
      assert sql[..index + 1][..index] == sql[..index];
      if sql[index] == '\n' {
        line := line + 1;
      }
      index := index + 1;
    }
    return None;
  }
}
