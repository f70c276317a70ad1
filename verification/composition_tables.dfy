/**
 The tables in the text of a variant.  Each chgen.table('Slot') in code becomes the table
 that the variant selects; quotes, comments and all other code are copied.
 */
module CompositionTables {
  import opened Wrappers
  import opened SqlLexer
  import opened TextLines
  import opened NamedArguments
  import opened Composition
  import opened CompositionDispatch
  import opened CompositionText

  const SLOT: string := "chgen.table"

  datatype Filled = Filled(sql: string, used: set<string>)

  function Then(text: string, used: set<string>, rest: Option<Filled>): Option<Filled> {
    if rest.None? then None else Some(Filled(text + rest.value.sql, used + rest.value.used))
  }

  /** The text of s with its slots filled, where prev is the byte before s. */
  function Fill(prev: char, s: string, tables: map<string, string>): Option<Filled>
    decreases |s|
  {
    if s == "" then Some(Filled("", {}))
    else if DataLen(s) > 0 then
      Then(s[..DataLen(s)], {}, Fill(s[DataLen(s) - 1], s[DataLen(s)..], tables))
    else match ParseMacro(prev, s, SLOT)
      case Invalid => None
      case NoMatch => Then([s[0]], {}, Fill(s[0], s[1..], tables))
      case Match(name, n) =>
        if name !in tables then None else Then(tables[name], {name}, Fill(')', s[n..], tables))
  }

  /** The same at an offset of the whole text. */
  function FillAt(s: string, i: nat, tables: map<string, string>): Option<Filled>
    requires i <= |s|
    decreases |s| - i
  {
    if i == |s| then Some(Filled("", {}))
    else if DataEnd(s, i) > i then Then(s[i..DataEnd(s, i)], {}, FillAt(s, DataEnd(s, i), tables))
    else match ParseMacroAt(s, i, SLOT)
      case Invalid => None
      case NoMatch => Then([s[i]], {}, FillAt(s, i + 1, tables))
      case Match(name, end) =>
        if name !in tables then None else Then(tables[name], {name}, FillAt(s, end, tables))
  }

  lemma SliceOfSlice(s: string, i: nat, end: nat)
    requires i < end <= |s|
    ensures s[i..][end - i..] == s[end..] && s[i..][..end - i] == s[i..end] && s[i..][end - i - 1] == s[end - 1]
  {
  }

  lemma {:induction false} FillShift(s: string, i: nat, tables: map<string, string>)
    requires i <= |s|
    ensures FillAt(s, i, tables) == Fill(Before(s, i), s[i..], tables)
    decreases |s| - i
  {
    hide *;
    if i == |s| {
      FillsNothing(s, tables);
    } else {
      DataLenAt(s, i);
      ParseMacroShift(s, i, SLOT);
      var end := StepEnd(s, i);
      FillShift(s, end, tables);
      SliceOfSlice(s, i, end);
      FillStep(s, i, end, tables);
    }
  }

  lemma FillsNothing(s: string, tables: map<string, string>)
    ensures FillAt(s, |s|, tables) == Fill(Before(s, |s|), s[|s|..], tables)
  {
  }

  /** Where the next lexeme or slot ends. */
  function StepEnd(s: string, i: nat): (end: nat)
    requires i < |s|
    ensures i < end <= |s|
  {
    if DataEnd(s, i) > i then DataEnd(s, i)
    else if ParseMacroAt(s, i, SLOT).Match? then ParseMacroAt(s, i, SLOT).length
    else i + 1
  }

  /** What one lexeme or slot adds to the rest. */
  function OneStep(isData: bool, m: Parse, text: string, rest: Option<Filled>, tables: map<string, string>): Option<Filled> {
    if isData || m.NoMatch? then Then(text, {}, rest)
    else if m.Invalid? || m.name !in tables then None
    else Then(tables[m.name], {m.name}, rest)
  }

  function StepLength(prev: char, t: string): (n: nat)
    requires t != ""
    ensures 0 < n <= |t|
  {
    if DataLen(t) > 0 then DataLen(t)
    else if ParseMacro(prev, t, SLOT).Match? then ParseMacro(prev, t, SLOT).length
    else 1
  }

  lemma FillIs(prev: char, t: string, tables: map<string, string>)
    requires t != ""
    ensures var n := StepLength(prev, t);
            Fill(prev, t, tables) ==
            OneStep(DataLen(t) > 0, ParseMacro(prev, t, SLOT), t[..n], Fill(t[n - 1], t[n..], tables), tables)
  {
    hide *;
    StepLengthIs(prev, t);
    if DataLen(t) > 0 {
      FillsData(prev, t, tables);
    } else {
      FillsCode(prev, t, tables);
    }
    OneStepIs(DataLen(t) > 0, ParseMacro(prev, t, SLOT), t[..StepLength(prev, t)],
              Fill(t[StepLength(prev, t) - 1], t[StepLength(prev, t)..], tables), tables);
  }

  lemma StepLengthIs(prev: char, t: string)
    requires t != ""
    ensures StepLength(prev, t) ==
            if DataLen(t) > 0 then DataLen(t)
            else if ParseMacro(prev, t, SLOT).Match? then ParseMacro(prev, t, SLOT).length else 1
  {
    hide SLOT, DataLen, ParseMacro;
  }

  lemma OneStepIs(isData: bool, m: Parse, text: string, rest: Option<Filled>, tables: map<string, string>)
    ensures OneStep(isData, m, text, rest, tables) ==
            if isData || m.NoMatch? then Then(text, {}, rest)
            else if m.Invalid? || m.name !in tables then None
            else Then(tables[m.name], {m.name}, rest)
  {
    hide Then;
  }

  lemma FillsData(prev: char, t: string, tables: map<string, string>)
    requires t != "" && DataLen(t) > 0
    ensures Fill(prev, t, tables) == Then(t[..DataLen(t)], {}, Fill(t[DataLen(t) - 1], t[DataLen(t)..], tables))
  {
    hide SLOT, DataLen, ParseMacro, Then;
  }

  lemma FillsCode(prev: char, t: string, tables: map<string, string>)
    requires t != "" && DataLen(t) == 0
    ensures var m := ParseMacro(prev, t, SLOT);
            Fill(prev, t, tables) ==
            if m.Invalid? then None
            else if m.NoMatch? then Then(t[..1], {}, Fill(t[0], t[1..], tables))
            else if m.name !in tables then None
            else Then(tables[m.name], {m.name}, Fill(t[m.length - 1], t[m.length..], tables))
  {
    hide SLOT, DataLen, ParseMacro, Then;
    assert t[..1] == [t[0]];
  }

  lemma FillAtIs(s: string, i: nat, tables: map<string, string>)
    requires i < |s|
    ensures var end := StepEnd(s, i);
            FillAt(s, i, tables) ==
            OneStep(DataEnd(s, i) > i, ParseMacroAt(s, i, SLOT), s[i..end], FillAt(s, end, tables), tables)
  {
    hide SLOT, DataEnd, ParseMacroAt, Then;
    assert s[i..i + 1] == [s[i]];
  }

  lemma StepsAgree(s: string, i: nat)
    requires i < |s| && DataEnd(s, i) == i + DataLen(s[i..])
    requires ParseMacroAt(s, i, SLOT) == Shift(ParseMacro(Before(s, i), s[i..], SLOT), i)
    ensures StepEnd(s, i) == i + StepLength(Before(s, i), s[i..])
  {
    hide SLOT, DataEnd, DataLen, ParseMacro, ParseMacroAt;
  }

  lemma OneStepShift(isData: bool, m: Parse, k: nat, text: string, rest: Option<Filled>, tables: map<string, string>)
    ensures OneStep(isData, Shift(m, k), text, rest, tables) == OneStep(isData, m, text, rest, tables)
  {
  }

  lemma BeforeIs(s: string, i: nat)
    requires 0 < i <= |s|
    ensures Before(s, i) == s[i - 1]
  {
  }

  lemma FillStep(s: string, i: nat, end: nat, tables: map<string, string>)
    requires i < |s| && end == StepEnd(s, i) && end <= |s|
    requires DataEnd(s, i) == i + DataLen(s[i..])
    requires ParseMacroAt(s, i, SLOT) == Shift(ParseMacro(Before(s, i), s[i..], SLOT), i)
    requires s[i..][end - i..] == s[end..] && s[i..][..end - i] == s[i..end] && s[i..][end - i - 1] == s[end - 1]
    requires FillAt(s, end, tables) == Fill(Before(s, end), s[end..], tables)
    ensures FillAt(s, i, tables) == Fill(Before(s, i), s[i..], tables)
  {
    hide *;
    StepsAgree(s, i);
    FillAtIs(s, i, tables);
    FillIs(Before(s, i), s[i..], tables);
    BeforeIs(s, end);
    OneStepShift(DataEnd(s, i) > i, ParseMacro(Before(s, i), s[i..], SLOT), i, s[i..end], FillAt(s, end, tables), tables);
  }

  lemma Append(a: string, b: string, u: set<string>, v: set<string>, rest: Option<Filled>)
    ensures Then(a, u, Then(b, v, rest)) == Then(a + b, u + v, rest)
    ensures Then("", {}, rest) == rest
    ensures Then(a, u, Some(Filled("", {}))) == Some(Filled(a, u))
    ensures Then(a, u, None) == None
    ensures u + {} == u
  {
    if rest.Some? {
      assert a + (b + rest.value.sql) == (a + b) + rest.value.sql;
      assert u + (v + rest.value.used) == (u + v) + rest.value.used;
      assert "" + rest.value.sql == rest.value.sql && {} + rest.value.used == rest.value.used;
    }
    assert a + "" == a && u + {} == u;
  }

  method ReplaceTableChoices(sql: string, selected: map<string, string>) returns (filled: Option<Filled>)
    ensures filled == Fill(' ', sql, selected)
  {
    hide SLOT, ParseMacroAt, DataEnd, Fill, Then;
    FillShift(sql, 0, selected);
    assert sql[0..] == sql;
    var out, used := "", {};
    var i := 0;
    Append("", "", {}, {}, FillAt(sql, 0, selected));
    while i < |sql|
      invariant i <= |sql|
      invariant Then(out, used, FillAt(sql, i, selected)) == FillAt(sql, 0, selected)
      decreases |sql| - i
    {
      var end := SqlDataEnd(sql, i);
      if end > i {
        Append(out, sql[i..end], used, {}, FillAt(sql, end, selected));
        out := out + sql[i..end];
        i := end;
        continue;
      }
      var m := ParseNamedMacroAt(sql, i, SLOT);
      if m.Invalid? {
        Append(out, "", used, {}, None);
        return None;
      }
      if m.NoMatch? {
        Append(out, [sql[i]], used, {}, FillAt(sql, i + 1, selected));
        out := out + [sql[i]];
        i := i + 1;
        continue;
      }
      if m.name !in selected {
        Append(out, "", used, {}, None);
        return None;
      }
      Append(out, selected[m.name], used, {m.name}, FillAt(sql, m.length, selected));
      out, used := out + selected[m.name], used + {m.name};
      i := m.length;
    }
    Append(out, "", used, {}, Some(Filled("", {})));
    return Some(Filled(out, used));
  }

  // ----- the lexemes of the filled text -----

  /** A quote or comment as a whole, or one code byte. */
  datatype Lexeme = Data(text: string) | Code(c: char)

  function Lexemes(s: string): seq<Lexeme>
    decreases |s|
  {
    if s == "" then []
    else if DataLen(s) > 0 then [Data(s[..DataLen(s)])] + Lexemes(s[DataLen(s)..])
    else [Code(s[0])] + Lexemes(s[1..])
  }

  /** The source between its slots, and the slots. */
  datatype Chunk = Plain(lexeme: Lexeme) | Slot(name: string)

  function More(chunk: Chunk, rest: Option<seq<Chunk>>): Option<seq<Chunk>> {
    if rest.None? then None else Some([chunk] + rest.value)
  }

  /** The lexemes and slots of a source; None when a macro is ill formed. */
  function Chunks(prev: char, s: string): Option<seq<Chunk>>
    decreases |s|
  {
    if s == "" then Some([])
    else if DataLen(s) > 0 then More(Plain(Data(s[..DataLen(s)])), Chunks(s[DataLen(s) - 1], s[DataLen(s)..]))
    else match ParseMacro(prev, s, SLOT)
      case Invalid => None
      case NoMatch => More(Plain(Code(s[0])), Chunks(s[0], s[1..]))
      case Match(name, n) => More(Slot(name), Chunks(')', s[n..]))
  }

  predicate Declared(chunks: seq<Chunk>, tables: map<string, string>) {
    forall k :: 0 <= k < |chunks| && chunks[k].Slot? ==> chunks[k].name in tables
  }

  function Letters(name: string): (r: seq<Lexeme>)
    ensures |r| == |name| && forall k :: 0 <= k < |name| ==> r[k] == Code(name[k])
  {
    seq(|name|, k requires 0 <= k < |name| => Code(name[k]))
  }

  /** The chunks with each slot spelled as the code bytes of its table. */
  function Rendered(chunks: seq<Chunk>, tables: map<string, string>): seq<Lexeme>
    requires Declared(chunks, tables)
  {
    if chunks == [] then []
    else
      (if chunks[0].Plain? then [chunks[0].lexeme] else Letters(tables[chunks[0].name])) + Rendered(chunks[1..], tables)
  }

  function SlotNames(chunks: seq<Chunk>): set<string> {
    set k | 0 <= k < |chunks| && chunks[k].Slot? :: chunks[k].name
  }

  /** What a chgen:table line demands of a table name. */
  predicate AllNames(tables: map<string, string>) {
    forall k :: k in tables ==> IsGoIdentifier(tables[k])
  }

  lemma {:induction false} LettersFirst(name: string, rest: string)
    requires forall k :: 0 <= k < |name| ==> IsIdentByte(name[k])
    ensures Lexemes(name + rest) == Letters(name) + Lexemes(rest)
  {
    hide Lexemes, DataLen;
    if name == "" {
      assert name + rest == rest;
    } else {
      IdentStep(name[0], name[1..] + rest);
      LettersFirst(name[1..], rest);
      LettersStep(name);
      assert [name[0]] + (name[1..] + rest) == name + rest;
    }
  }

  lemma IdentStep(c: char, rest: string)
    requires IsIdentByte(c)
    ensures Lexemes([c] + rest) == [Code(c)] + Lexemes(rest)
  {
    hide DataLen;
    IdentIsCode([c] + rest);
    assert ([c] + rest)[1..] == rest;
  }

  lemma LettersStep(name: string)
    requires name != ""
    ensures Letters(name) == [Code(name[0])] + Letters(name[1..])
  {
  }

  lemma IdentIsCode(s: string)
    requires s != "" && IsIdentByte(s[0])
    ensures DataLen(s) == 0
  {
  }

  lemma FillHead(prev: char, s: string, tables: map<string, string>)
    requires AllNames(tables) && Fill(prev, s, tables).Some?
    ensures SameHead(s, Fill(prev, s, tables).value.sql)
  {
    hide SLOT, ParseMacro, DataEnd;
  }

  lemma MoreSlots(chunk: Chunk, rest: seq<Chunk>, tables: map<string, string>)
    ensures Declared([chunk] + rest, tables) <==> (chunk.Slot? ==> chunk.name in tables) && Declared(rest, tables)
    ensures SlotNames([chunk] + rest) == (if chunk.Slot? then {chunk.name} else {}) + SlotNames(rest)
    ensures Declared([chunk] + rest, tables) ==>
              Rendered([chunk] + rest, tables) ==
              (if chunk.Plain? then [chunk.lexeme] else Letters(tables[chunk.name])) + Rendered(rest, tables)
  {
    var all := [chunk] + rest;
    assert all[1..] == rest && all[0] == chunk;
    assert forall k :: 0 <= k < |rest| ==> all[k + 1] == rest[k];
  }

  /** One lexeme that is copied. */
  lemma FilledLexeme(prev: char, s: string, tables: map<string, string>)
    requires AllNames(tables) && s != "" && (DataLen(s) > 0 || ParseMacro(prev, s, SLOT).NoMatch?)
    ensures var n := LexLen(s);
            var rest := Fill(s[n - 1], s[n..], tables);
            var one := if DataLen(s) > 0 then Data(s[..n]) else Code(s[0]);
            && Chunks(prev, s) == More(Plain(one), Chunks(s[n - 1], s[n..]))
            && (Fill(prev, s, tables).Some? <==> rest.Some?)
            && (rest.Some? ==>
                  Lexemes(Fill(prev, s, tables).value.sql) == [one] + Lexemes(rest.value.sql)
                  && Fill(prev, s, tables).value.used == rest.value.used)
  {
    hide SLOT, ParseMacro, DataLen, Fill, Lexemes;
    var n := LexLen(s);
    var rest := Fill(s[n - 1], s[n..], tables);
    assert s[..1] == [s[0]] && s == s[..n] + s[n..];
    if DataLen(s) > 0 {
      FillsData(prev, s, tables);
    } else {
      FillsCode(prev, s, tables);
    }
    if rest.Some? {
      FillHead(s[n - 1], s[n..], tables);
      LexemeStable(s[..n], s[n..], rest.value.sql);
      FirstLexeme(s[..n], rest.value.sql);
      assert {} + rest.value.used == rest.value.used;
    }
  }

  lemma FirstLexeme(a: string, b: string)
    requires a != "" && LexLen(a + b) == |a|
    ensures Lexemes(a + b) == [if DataLen(a + b) > 0 then Data(a) else Code(a[0])] + Lexemes(b)
  {
    hide DataLen;
    assert (a + b)[..|a|] == a && (a + b)[|a|..] == b && (a + b)[0] == a[0];
  }

  /** One slot. */
  lemma FilledSlot(prev: char, s: string, tables: map<string, string>)
    requires AllNames(tables) && s != "" && DataLen(s) == 0 && ParseMacro(prev, s, SLOT).Match?
    ensures var m := ParseMacro(prev, s, SLOT);
            var rest := Fill(')', s[m.length..], tables);
            && Chunks(prev, s) == More(Slot(m.name), Chunks(')', s[m.length..]))
            && (Fill(prev, s, tables).Some? <==> m.name in tables && rest.Some?)
            && (m.name in tables && rest.Some? ==>
                  Lexemes(Fill(prev, s, tables).value.sql) == Letters(tables[m.name]) + Lexemes(rest.value.sql)
                  && Fill(prev, s, tables).value.used == {m.name} + rest.value.used)
  {
    hide SLOT, ParseMacro, DataLen;
    var m := ParseMacro(prev, s, SLOT);
    var rest := Fill(')', s[m.length..], tables);
    if m.name in tables && rest.Some? {
      assert IsGoIdentifier(tables[m.name]);
      LettersFirst(tables[m.name], rest.value.sql);
    }
  }

  /**
   Main result: the filled text has the quotes, the comments and the code of the source in
   their order, and in each slot the selected table as code.  It is refused exactly for an
   ill-formed or undeclared slot.
   */
  lemma {:induction false} FilledLexes(prev: char, s: string, tables: map<string, string>)
    requires AllNames(tables)
    ensures Fill(prev, s, tables).Some? <==> Chunks(prev, s).Some? && Declared(Chunks(prev, s).value, tables)
    ensures Fill(prev, s, tables).Some? ==>
              && Lexemes(Fill(prev, s, tables).value.sql) == Rendered(Chunks(prev, s).value, tables)
              && Fill(prev, s, tables).value.used == SlotNames(Chunks(prev, s).value)
    decreases |s|
  {
    hide SLOT, ParseMacro, DataLen, Fill, Chunks, Lexemes, Letters, Rendered, SlotNames, Declared;
    if s == "" {
      FilledEmpty(prev, tables);
    } else if DataLen(s) > 0 || ParseMacro(prev, s, SLOT).NoMatch? {
      FilledLexeme(prev, s, tables);
      var n := LexLen(s);
      FilledLexes(s[n - 1], s[n..], tables);
      var rest := Chunks(s[n - 1], s[n..]);
      if rest.Some? {
        MoreSlots(Chunks(prev, s).value[0], rest.value, tables);
      }
    } else if ParseMacro(prev, s, SLOT).Invalid? {
      FilledInvalid(prev, s, tables);
    } else {
      FilledSlot(prev, s, tables);
      var m := ParseMacro(prev, s, SLOT);
      FilledLexes(')', s[m.length..], tables);
      var rest := Chunks(')', s[m.length..]);
      if rest.Some? {
        MoreSlots(Slot(m.name), rest.value, tables);
      }
    }
  }

  lemma FilledEmpty(prev: char, tables: map<string, string>)
    ensures Fill(prev, "", tables) == Some(Filled("", {})) && Chunks(prev, "") == Some([])
    ensures Declared([], tables) && Rendered([], tables) == [] == Lexemes("") && SlotNames([]) == {}
  {
  }

  lemma FilledInvalid(prev: char, s: string, tables: map<string, string>)
    requires s != "" && DataLen(s) == 0 && ParseMacro(prev, s, SLOT).Invalid?
    ensures Fill(prev, s, tables).None? && Chunks(prev, s).None?
  {
  }

  // ----- the text behind an arm -----

  /** The table that the argument names in each slot. */
  function SlotsOf(tables: seq<TableChoice>, arg: Argument): map<string, string> {
    if tables == [] then map[]
    else
      var last := |tables| - 1;
      SlotsOf(tables[..last], arg)[tables[last].name := arg.Slot(tables[last].name)]
  }

  lemma {:induction false} SelectedAreSlots(tables: seq<TableChoice>, picks: seq<nat>, arg: Argument)
    requires |picks| == |tables| && forall k :: 0 <= k < |tables| ==> picks[k] < |tables[k].tables|
    requires forall k :: 0 <= k < |tables| ==> tables[k].tables[picks[k]] == arg.Slot(tables[k].name)
    ensures TableMap(tables, picks) == SlotsOf(tables, arg)
  {
    if tables != [] {
      var last := |tables| - 1;
      SelectedAreSlots(tables[..last], picks[..last], arg);
    }
  }

  /**
   Main result: the text of the arm that an argument takes is the text it asks for, with the
   tables it names in their slots.
   */
  lemma ArmHasTheWantedTables(s: string, tables: seq<TableChoice>, mask: nat, arg: Argument)
    requires ParseFrom(s, 0, 0, "", []).Some? && AllNonempty(tables)
    requires Matches(ParseFrom(s, 0, 0, "", []).value.options, tables, mask, arg)
    ensures var p := ParseFrom(s, 0, 0, "", []).value;
            && Listed(p.parts, p.options)
            && Fill(' ', Trim(Expand(p.parts, p.options, mask)), TableMap(tables, Decode(|p.options|, tables, mask).picks)) ==
               Fill(' ', Trim(Wanted(p.parts, arg.present)), SlotsOf(tables, arg))
  {
    hide ParseFrom, Expand, Wanted, Bits, Matches, Fill, TableMap, SlotsOf, Trim, Digits;
    var p := ParseFrom(s, 0, 0, "", []).value;
    ArmHasTheWantedText(s, tables, mask, arg);
    MatchesMeans(p.options, tables, mask, arg);
    SelectedAreSlots(tables, Decode(|p.options|, tables, mask).picks, arg);
  }
}
