/**
 The switch of the generated code.  Arm number `mask` tests every option for nil and
 every table slot for the table that variant `mask` was checked with.
 */
module CompositionDispatch {
  import opened Wrappers
  import opened Composition

  /** Tables by slot name; a later slot of the same name would win. */
  function TableMap(tables: seq<TableChoice>, picks: seq<nat>): map<string, string>
    requires |picks| == |tables| && forall k :: 0 <= k < |tables| ==> picks[k] < |tables[k].tables|
  {
    if tables == [] then map[]
    else
      var last := |tables| - 1;
      TableMap(tables[..last], picks[..last])[tables[last].name := tables[last].tables[picks[last]]]
  }

  method SelectedTables(options: seq<string>, tables: seq<TableChoice>, variant: nat)
      returns (selected: map<string, string>)
    requires AllNonempty(tables)
    ensures selected == TableMap(tables, Decode(|options|, tables, variant).picks)
  {
    hide Decode, Digits, Digit, Higher, TableMap, Pow2;
    var index := Higher(variant, Pow2(|options|));
    ghost var digits := Digits(tables, index);
    PicksAre(|options|, tables, variant);
    assert tables[0..] == tables && digits[0..] == digits;
    selected := map[];
    TableMapStart();
    assert tables[..0] == [] && digits[..0] == [];
    var k := 0;
    while k < |tables|
      invariant k <= |tables|
      invariant digits[k..] == Digits(tables[k..], index)
      invariant selected == TableMap(tables[..k], digits[..k])
    {
      DigitsStepAt(tables, digits, k, index);
      TableMapStep(tables, digits, k);
      var choice := tables[k];
      selected := selected[choice.name := choice.tables[Digit(index, |choice.tables|)]];
      index := Higher(index, |choice.tables|);
      k := k + 1;
    }
    assert tables[..k] == tables && digits[..k] == digits;
  }

  lemma PicksAre(n: nat, tables: seq<TableChoice>, variant: nat)
    requires AllNonempty(tables)
    ensures Decode(n, tables, variant).picks == Digits(tables, Higher(variant, Pow2(n)))
  {
  }

  lemma TableMapStart()
    ensures TableMap([], []) == map[]
  {
  }

  lemma DigitsStepAt(tables: seq<TableChoice>, digits: seq<nat>, k: nat, index: nat)
    requires AllNonempty(tables) && k < |tables| && |digits| == |tables|
    requires digits[k..] == Digits(tables[k..], index)
    ensures digits[k] == Digit(index, |tables[k].tables|)
    ensures digits[k + 1..] == Digits(tables[k + 1..], Higher(index, |tables[k].tables|))
  {
    assert tables[k..][1..] == tables[k + 1..] && digits[k..][1..] == digits[k + 1..];
    assert digits[k] == digits[k..][0] && tables[k] == tables[k..][0];
  }

  lemma TableMapStep(tables: seq<TableChoice>, picks: seq<nat>, k: nat)
    requires |picks| == |tables| && forall j :: 0 <= j < |tables| ==> picks[j] < |tables[j].tables|
    requires k < |tables|
    ensures TableMap(tables[..k + 1], picks[..k + 1]) ==
            TableMap(tables[..k], picks[..k])[tables[k].name := tables[k].tables[picks[k]]]
  {
    assert tables[..k + 1][..k] == tables[..k] && picks[..k + 1][..k] == picks[..k];
  }

  lemma {:induction false} TableMapAt(tables: seq<TableChoice>, picks: seq<nat>, k: nat)
    requires |picks| == |tables| && forall j :: 0 <= j < |tables| ==> picks[j] < |tables[j].tables|
    requires k < |tables| && Distinct(Names(tables))
    ensures tables[k].name in TableMap(tables, picks)
    ensures TableMap(tables, picks)[tables[k].name] == tables[k].tables[picks[k]]
  {
    var last := |tables| - 1;
    if k < last {
      var names, was := Names(tables), Names(tables[..last]);
      assert forall i :: 0 <= i < last ==> was[i] == names[i];
      assert names[k] != names[last];
      TableMapAt(tables[..last], picks[..last], k);
    }
  }

  /** One test of an arm. */
  datatype Condition = OptionIs(option: string, present: bool) | TableIs(choice: string, table: string)

  /** The argument struct: the options that are non-nil, and the table named in each slot. */
  datatype Argument = Argument(present: set<string>, slots: map<string, string>) {
    /** The zero value of a slot names no table. */
    function Slot(name: string): string {
      if name in slots then slots[name] else ""
    }

    predicate Holds(c: Condition) {
      match c
      case OptionIs(option, wanted) => (option in present) == wanted
      case TableIs(choice, table) => Slot(choice) == table
    }
  }

  method RenderConditions(options: seq<string>, tables: seq<TableChoice>, mask: nat)
      returns (conditions: seq<Condition>)
    requires AllNonempty(tables) && Distinct(Names(tables))
    ensures conditions == Conditions(options, tables, mask)
  {
    hide Bits, Bit, Digits, TableMap;
    conditions := [];
    for bit := 0 to |options|
      invariant conditions == OptionConditions(options, mask)[..bit]
    {
      conditions := conditions + [OptionIs(options[bit], Bit(mask, bit))];
    }
    var selected := SelectedTables(options, tables, mask);
    ghost var picks := Decode(|options|, tables, mask).picks;
    for k := 0 to |tables|
      invariant conditions == OptionConditions(options, mask) + TableConditions(tables, picks)[..k]
    {
      TableMapAt(tables, picks, k);
      conditions := conditions + [TableIs(tables[k].name, selected[tables[k].name])];
    }
  }

  function OptionConditions(options: seq<string>, mask: nat): (c: seq<Condition>)
    ensures |c| == |options|
  {
    seq(|options|, bit requires 0 <= bit < |options| => OptionIs(options[bit], Bit(mask, bit)))
  }

  function TableConditions(tables: seq<TableChoice>, picks: seq<nat>): (c: seq<Condition>)
    requires |picks| == |tables| && forall j :: 0 <= j < |tables| ==> picks[j] < |tables[j].tables|
    ensures |c| == |tables|
  {
    seq(|tables|, k requires 0 <= k < |tables| => TableIs(tables[k].name, tables[k].tables[picks[k]]))
  }

  function Conditions(options: seq<string>, tables: seq<TableChoice>, mask: nat): seq<Condition>
    requires AllNonempty(tables)
  {
    OptionConditions(options, mask) + TableConditions(tables, Decode(|options|, tables, mask).picks)
  }

  predicate Matches(options: seq<string>, tables: seq<TableChoice>, mask: nat, arg: Argument)
    requires AllNonempty(tables)
  {
    forall c :: c in Conditions(options, tables, mask) ==> arg.Holds(c)
  }

  // ----- which arm an argument takes -----

  /** What parseTableChoice and compositionVariantCount admit together. */
  predicate WellFormed(options: seq<string>, tables: seq<TableChoice>) {
    && Admissible(options, tables) && AllNonempty(tables)
    && forall k :: 0 <= k < |tables| ==> Distinct(tables[k].tables)
  }

  predicate NamesDeclaredTables(tables: seq<TableChoice>, arg: Argument) {
    forall k :: 0 <= k < |tables| ==> arg.Slot(tables[k].name) in tables[k].tables
  }

  function IndexIn(s: seq<string>, x: string): (i: nat)
    requires x in s
    ensures i < |s| && s[i] == x
  {
    if s[0] == x then 0 else 1 + IndexIn(s[1..], x)
  }

  function AssignmentOf(options: seq<string>, tables: seq<TableChoice>, arg: Argument): (a: Assignment)
    requires NamesDeclaredTables(tables, arg)
    ensures Fits(a, |options|, tables)
  {
    Assignment(
      seq(|options|, i requires 0 <= i < |options| => options[i] in arg.present),
      seq(|tables|, k requires 0 <= k < |tables| => IndexIn(tables[k].tables, arg.Slot(tables[k].name))))
  }

  lemma MatchesMeans(options: seq<string>, tables: seq<TableChoice>, mask: nat, arg: Argument)
    requires AllNonempty(tables)
    ensures var a := Decode(|options|, tables, mask);
            Matches(options, tables, mask, arg) <==>
            && (forall b :: 0 <= b < |options| ==> a.enabled[b] == (options[b] in arg.present))
            && (forall k :: 0 <= k < |tables| ==> tables[k].tables[a.picks[k]] == arg.Slot(tables[k].name))
  {
    var a := Decode(|options|, tables, mask);
    var left, right := OptionConditions(options, mask), TableConditions(tables, a.picks);
    forall b | 0 <= b < |options|
      ensures left[b] in Conditions(options, tables, mask)
      ensures arg.Holds(left[b]) <==> a.enabled[b] == (options[b] in arg.present)
    {
      BitsAre(mask, |options|, b);
    }
    forall k | 0 <= k < |tables|
      ensures right[k] in Conditions(options, tables, mask)
      ensures arg.Holds(right[k]) <==> tables[k].tables[a.picks[k]] == arg.Slot(tables[k].name)
    {
    }
    hide Bits, Bit, Digits;
  }

  /** Main result: an arm matches exactly the arguments that encode to its number. */
  lemma DispatchIsExact(options: seq<string>, tables: seq<TableChoice>, mask: nat, arg: Argument)
    requires WellFormed(options, tables) && mask < Count(options, tables)
    ensures Matches(options, tables, mask, arg) <==>
            NamesDeclaredTables(tables, arg) && mask == Encode(tables, AssignmentOf(options, tables, arg))
  {
    hide Matches, Encode, Bits, Digits, Count, Admissible;
    MatchesMeans(options, tables, mask, arg);
    var a := Decode(|options|, tables, mask);
    CountIs(options, tables);
    DecodeEncode(|options|, tables, mask);
    if Matches(options, tables, mask, arg) {
      forall k | 0 <= k < |tables| ensures arg.Slot(tables[k].name) in tables[k].tables {
        assert tables[k].tables[a.picks[k]] == arg.Slot(tables[k].name);
      }
      var b := AssignmentOf(options, tables, arg);
      forall k | 0 <= k < |tables| ensures a.picks[k] == b.picks[k] {
        OneIndex(tables[k].tables, a.picks[k], b.picks[k]);
      }
      assert a.enabled == b.enabled && a.picks == b.picks;
    }
    if NamesDeclaredTables(tables, arg) && mask == Encode(tables, AssignmentOf(options, tables, arg)) {
      EncodeDecode(|options|, tables, AssignmentOf(options, tables, arg));
    }
  }

  lemma CountIs(options: seq<string>, tables: seq<TableChoice>)
    ensures Count(options, tables) == Pow2(|options|) * Combinations(tables)
  {
  }

  lemma OneIndex(s: seq<string>, i: nat, j: nat)
    requires Distinct(s) && i < |s| && j < |s| && s[i] == s[j]
    ensures i == j
  {
  }

  /** An argument that names declared tables takes exactly one arm; any other takes default. */
  lemma DispatchIsTotal(options: seq<string>, tables: seq<TableChoice>, arg: Argument)
    requires WellFormed(options, tables)
    ensures NamesDeclaredTables(tables, arg) ==>
              exists mask: nat ::
                && mask < Count(options, tables) && Matches(options, tables, mask, arg)
                && forall other: nat :: other < Count(options, tables) && Matches(options, tables, other, arg) ==> other == mask
    ensures !NamesDeclaredTables(tables, arg) ==>
              forall mask: nat :: mask < Count(options, tables) ==> !Matches(options, tables, mask, arg)
  {
    hide Matches, Encode, Count;
    forall mask: nat | mask < Count(options, tables)
      ensures Matches(options, tables, mask, arg) <==>
              NamesDeclaredTables(tables, arg) && mask == Encode(tables, AssignmentOf(options, tables, arg))
    {
      DispatchIsExact(options, tables, mask, arg);
    }
    if NamesDeclaredTables(tables, arg) {
      var a := AssignmentOf(options, tables, arg);
      CountIs(options, tables);
      EncodeDecode(|options|, tables, a);
      assert Matches(options, tables, Encode(tables, a), arg);
    }
  }
}
