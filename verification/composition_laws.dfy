/** The limits of a composition, and what one step of filling in the tables does. */
module CompositionLaws {
  import opened Wrappers
  import opened SqlLexer
  import opened CodeBytes
  import opened NamedArguments
  import opened NamedArgumentsLaws
  import opened Composition
  import opened CompositionTables

  /** Two variants per option, and for each of them one per table of every choice. */
  function Variants(options: nat, tables: seq<TableChoice>): nat {
    if options > 0 then Variants(options - 1, tables) + Variants(options - 1, tables)
    else if tables == [] then 1
    else |tables[|tables| - 1].tables| * Variants(0, tables[..|tables| - 1])
  }

  lemma {:induction false} VariantsAre(options: nat, tables: seq<TableChoice>)
    ensures Variants(options, tables) == Pow2(options) * Combinations(tables)
  {
    if options > 0 {
      VariantsAre(options - 1, tables);
    } else if tables != [] {
      var before, last := tables[..|tables| - 1], tables[|tables| - 1];
      VariantsAre(0, before);
      CombinationsSplit(before, [last]);
      assert tables == before + [last];
      assert [last][1..] == [];
    }
  }

  /** Admitted exactly up to 5 options and 32 variants, when there is one and no name is used twice. */
  lemma AdmissibleIff(options: seq<string>, tables: seq<TableChoice>)
    ensures Admissible(options, tables) <==>
            && |options| <= 5 && 1 <= Variants(|options|, tables) <= 32
            && (forall i, j :: 0 <= i < j < |tables| ==> tables[i].name != tables[j].name)
            && (forall k :: 0 <= k < |tables| ==> tables[k].name !in options)
  {
    VariantsAre(|options|, tables);
    FreshIs(options, tables);
    PositiveProduct(Pow2(|options|), Combinations(tables));
    hide Variants, Pow2, Combinations, FreshNames;
  }

  lemma PositiveProduct(a: nat, b: nat)
    requires a >= 1
    ensures a * b >= 1 <==> b > 0
  {
    if b > 0 {
      assert a * b >= b;
    }
  }

  lemma FreshIs(options: seq<string>, tables: seq<TableChoice>)
    ensures FreshNames(options, tables) <==>
            && (forall i, j :: 0 <= i < j < |tables| ==> tables[i].name != tables[j].name)
            && (forall k :: 0 <= k < |tables| ==> tables[k].name !in options)
  {
    var names := Names(tables);
    assert forall i, j :: 0 <= i < j < |tables| ==> (names[i] != names[j] <==> tables[i].name != tables[j].name);
  }

  // ----- tables in the text -----

  lemma SlotIs()
    ensures SLOT == "chgen.table"
  {
  }

  /** Data and other code are copied, and a slot without a call or without a table is refused. */
  lemma CopiedOrRefused(s: string, i: nat, tables: map<string, string>)
    requires i < |s|
    ensures !CodeByte(s, i, i) ==>
              FillAt(s, i, tables) == Then(s[i..DataEnd(s, i)], {}, FillAt(s, DataEnd(s, i), tables))
    ensures CodeByte(s, i, i) && !MacroHere(s, i, "chgen.table") ==>
              FillAt(s, i, tables) == Then([s[i]], {}, FillAt(s, i + 1, tables))
    ensures CodeByte(s, i, i) && MacroHere(s, i, "chgen.table") && !HasCall(s, i + 11) ==> FillAt(s, i, tables) == None
  {
    hide DataEnd, Turn, ParseMacroAt, MacroHere, CallHere, Then, SLOT;
    SlotIs();
    LexemeModes(s, i);
    MacroIff(s, i, SLOT, "", 0);
    match ParseMacroAt(s, i, SLOT)
    case Match(name, end) => MacroIff(s, i, SLOT, name, end);
    case _ =>
  }

  /** A slot becomes the table of its name, which is noted as used. */
  lemma SlotIsFilled(s: string, i: nat, name: string, end: nat, tables: map<string, string>)
    requires i < |s| && CodeByte(s, i, i) && MacroHere(s, i, "chgen.table") && CallHere(s, i + 11, name, end)
    ensures end <= |s|
    ensures FillAt(s, i, tables) == if name !in tables then None else Then(tables[name], {name}, FillAt(s, end, tables))
  {
    hide DataEnd, Turn, ParseMacroAt, MacroHere, CallHere, Then, SLOT;
    SlotIs();
    LexemeModes(s, i);
    MacroIff(s, i, SLOT, name, end);
  }
}
