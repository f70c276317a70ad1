/**
 What the generated code reads.  A parameter with an owner is the field Owner.Name of
 the argument, behind a pointer that is nil when the option is off.
 */
module CompositionAccess {
  import opened Division
  import opened Wrappers
  import opened Composition
  import opened CompositionDispatch
  import opened CompositionMerge

  /** arg.Name, or arg.Owner.Name. */
  datatype Access = Top(name: string) | Under(owner: string, name: string)

  function AccessOf(owners: map<string, string>, name: string): Access {
    if name in owners && owners[name] != "" then Under(owners[name], name) else Top(name)
  }

  /** Reading the path does not dereference nil. */
  predicate IsSafe(access: Access, arg: Argument) {
    access.Under? ==> access.owner in arg.present
  }

  /** The paths that the arm of one variant reads, in binding order. */
  method ArmReads(owners: map<string, string>, variant: Query) returns (paths: seq<Access>)
    ensures paths == Reads(owners, variant)
  {
    paths := [];
    for k := 0 to |variant.params|
      invariant paths == Reads(owners, variant)[..k]
    {
      paths := paths + [AccessOf(owners, variant.params[k].name)];
    }
  }

  function Reads(owners: map<string, string>, variant: Query): (paths: seq<Access>)
    ensures |paths| == |variant.params|
  {
    seq(|variant.params|, k requires 0 <= k < |variant.params| => AccessOf(owners, variant.params[k].name))
  }

  /** Main result: no arm that matches an argument reads through a nil option. */
  lemma NoNilDereference(
      options: seq<string>, tables: seq<TableChoice>, variants: seq<Query>, mask: nat, arg: Argument,
      names: set<string>, access: Access)
    requires WellFormed(options, tables) && |variants| == Count(options, tables) && mask < |variants|
    requires Matches(options, tables, mask, arg)
    requires access in Reads(OwnersAmong(options, variants, |options|, names), variants[mask])
    ensures IsSafe(access, arg)
  {
    hide Matches, Count, OwnerBit, Owned, WellFormed, Admissible;
    var owners := OwnersAmong(options, variants, |options|, names);
    var k :| 0 <= k < |variants[mask].params| && access == Reads(owners, variants[mask])[k];
    var name := variants[mask].params[k].name;
    assert access == AccessOf(owners, name);
    if access.Under? {
      var bit := OwnerBit(variants, |options|, name).value;
      assert access.owner == options[bit];
      assert variants[mask].params[k] in variants[mask].params;
      OwnedHere(variants, bit, name, mask);
      BitsAre(mask, |options|, bit);
      WellFormedParts(options, tables);
      MatchesMeans(options, tables, mask, arg);
    }
  }

  lemma WellFormedParts(options: seq<string>, tables: seq<TableChoice>)
    requires WellFormed(options, tables)
    ensures AllNonempty(tables) && Pow2(|options|) <= Count(options, tables)
  {
    TimesGrows(1, Combinations(tables), Pow2(|options|));
  }

  lemma OwnedHere(variants: seq<Query>, bit: nat, name: string, mask: nat)
    requires Owned(variants, bit, name) && mask < |variants|
    ensures name in NamesOf(variants[mask].params) <==> Bit(mask, bit)
  {
  }

  /** Two options never own the same name. */
  lemma OwnerIsUnique(options: seq<string>, tables: seq<TableChoice>, variants: seq<Query>, a: nat, b: nat, name: string)
    requires WellFormed(options, tables) && |variants| == Count(options, tables)
    requires a < |options| && b < |options|
    requires Owned(variants, a, name) && Owned(variants, b, name)
    ensures a == b
  {
    hide Owned, WellFormed, Count;
    if a != b {
      WellFormedParts(options, tables);
      PowStrict(a, |options|);
      OwnedHere(variants, a, name, Pow2(a));
      OwnedHere(variants, b, name, Pow2(a));
      OnlyBit(a, b);
      OnlyBit(a, a);
    }
  }

  lemma {:induction false} PowStrict(a: nat, n: nat)
    requires a < n
    ensures Pow2(a) < Pow2(n)
    decreases n
  {
    if a < n - 1 {
      PowStrict(a, n - 1);
    }
  }

  lemma {:induction false} OnlyBit(a: nat, b: nat)
    ensures Bit(Pow2(a), b) <==> a == b
    decreases a + b
  {
    if a > 0 && b > 0 {
      OnlyBit(a - 1, b - 1);
      DivideTwice(Pow2(a), b);
      assert Pow2(a) / 2 == Pow2(a - 1);
    } else if a == 0 && b > 0 {
      assert 1 / Pow2(b) == 0 by { PowStrict(0, b); hide Pow2; SmallDivision(1, Pow2(b)); }
    } else if a > 0 {
      assert Pow2(a) == 2 * Pow2(a - 1);
    }
  }

  lemma SmallDivision(a: nat, b: nat)
    requires a < b
    ensures a / b == 0
  {
  }

  // ----- the parameter structs -----

  /** The fields of one struct; "" is the top-level one. */
  function StructFields(fields: seq<Param>, owners: map<string, string>, owner: string): seq<Param> {
    if fields == [] then []
    else
      var rest := StructFields(fields[..|fields| - 1], owners, owner);
      var last := fields[|fields| - 1];
      if OwnerName(owners, last.name) == owner then rest + [last] else rest
  }

  function OwnerName(owners: map<string, string>, name: string): string {
    if name in owners then owners[name] else ""
  }

  method RenderFields(fields: seq<Param>, owners: map<string, string>, owner: string) returns (out: seq<Param>)
    ensures out == StructFields(fields, owners, owner)
  {
    out := [];
    assert fields[..|fields|] == fields;
    for k := 0 to |fields|
      invariant out == StructFields(fields[..k], owners, owner)
    {
      assert fields[..k + 1][..k] == fields[..k];
      if OwnerName(owners, fields[k].name) == owner {
        out := out + [fields[k]];
      }
    }
  }

  lemma {:induction false} StructFieldsAre(fields: seq<Param>, owners: map<string, string>, owner: string, f: Param)
    ensures multiset(StructFields(fields, owners, owner))[f] ==
            if OwnerName(owners, f.name) == owner then multiset(fields)[f] else 0
  {
    if fields != [] {
      var last := |fields| - 1;
      assert fields == fields[..last] + [fields[last]];
      StructFieldsAre(fields[..last], owners, owner, f);
    }
  }

  /** How often a field is printed over all the given structs. */
  function Printed(structs: seq<string>, fields: seq<Param>, owners: map<string, string>, f: Param): nat {
    if structs == [] then 0
    else multiset(StructFields(fields, owners, structs[0]))[f] + Printed(structs[1..], fields, owners, f)
  }

  lemma {:induction false} PrintedIs(structs: seq<string>, fields: seq<Param>, owners: map<string, string>, f: Param)
    requires Distinct(structs)
    ensures Printed(structs, fields, owners, f) ==
            if OwnerName(owners, f.name) in structs then multiset(fields)[f] else 0
  {
    if structs != [] {
      assert Distinct(structs[1..]) by {
        forall i, j | 0 <= i < j < |structs[1..]| ensures structs[1..][i] != structs[1..][j] {
          assert structs[i + 1] != structs[j + 1];
        }
      }
      PrintedIs(structs[1..], fields, owners, f);
      StructFieldsAre(fields, owners, structs[0], f);
      assert structs == [structs[0]] + structs[1..];
    }
  }

  /** Every merged parameter is a field of exactly one struct. */
  lemma DeclaredOnce(options: seq<string>, variants: seq<Query>, f: Param)
    requires Distinct(options) && "" !in options
    requires MergeFirst(variants, |variants|).Some?
    ensures var merged := MergeFirst(variants, |variants|).value;
            var owners := OwnersAmong(options, variants, |options|, merged.types.Keys);
            Printed([""] + options, merged.fields, owners, f) == if f in merged.fields then 1 else 0
  {
    MergeMeans(variants, |variants|, f.name);
    var merged := MergeFirst(variants, |variants|).value;
    var owners := OwnersAmong(options, variants, |options|, merged.types.Keys);
    hide OwnerBit, MergeFirst;
    var structs := [""] + options;
    assert Distinct(structs) by {
      forall i, j | 0 <= i < j < |structs| ensures structs[i] != structs[j] {
        assert i > 0 ==> options[i - 1] != options[j - 1];
        assert structs[j] == options[j - 1];
      }
    }
    assert OwnerName(owners, f.name) in structs;
    PrintedIs(structs, merged.fields, owners, f);
    FieldOnce(merged.fields, f);
  }

  lemma {:induction false} FieldOnce(fields: seq<Param>, f: Param)
    requires forall i, j :: 0 <= i < j < |fields| ==> fields[i].name != fields[j].name
    ensures multiset(fields)[f] == if f in fields then 1 else 0
  {
    if fields != [] {
      var last := |fields| - 1;
      FieldOnce(fields[..last], f);
      assert fields == fields[..last] + [fields[last]];
    }
  }
}
