/**
 Merging the variants of a composition into one query.  Every variant must have the
 same result columns and the same shape for a shared parameter; a parameter that occurs
 exactly where one option is enabled belongs to that option's struct.
 */
module CompositionMerge {
  import opened Wrappers
  import opened Composition
  import opened CompositionDispatch

  /** A Go type with its ClickHouse type, or an external table's row schema. */
  datatype Shape = Value(text: string) | External(text: string)

  datatype Param = Param(name: string, shape: Shape)

  /** A result column; asserted marks a type taken from a contract. */
  datatype Column = Column(sqlName: string, goName: string, goType: string, chType: string, asserted: bool)

  /** One resolved variant; params holds the values first and the external tables after them. */
  datatype Query = Query(results: seq<Column>, params: seq<Param>)

  /** What the loop over the variants has collected. */
  datatype Merged = Merged(types: map<string, Shape>, presence: map<string, set<nat>>, fields: seq<Param>) {
    predicate Valid() {
      && presence.Keys == types.Keys
      && (forall f :: f in fields ==> f.name in types && types[f.name] == f.shape)
      && (forall name :: name in types ==> exists f :: f in fields && f.name == name)
      && (forall i, j :: 0 <= i < j < |fields| ==> fields[i].name != fields[j].name)
    }

    function Add(p: Param, index: nat): Option<Merged> {
      if p.name in types && types[p.name] != p.shape then None
      else
        var known := if p.name in presence then presence[p.name] else {};
        Some(Merged(
          types[p.name := p.shape],
          presence[p.name := known + {index}],
          if p.name in types then fields else fields + [p]))
    }

    function AddAll(ps: seq<Param>, index: nat): Option<Merged> {
      if ps == [] then Some(this)
      else
        var next :- AddAll(ps[..|ps| - 1], index);
        next.Add(ps[|ps| - 1], index)
    }
  }

  /** The first k variants, merged. */
  function MergeFirst(variants: seq<Query>, k: nat): Option<Merged>
    requires k <= |variants|
  {
    if k == 0 then Some(Merged(map[], map[], []))
    else
      var m :- MergeFirst(variants, k - 1);
      m.AddAll(variants[k - 1].params, k - 1)
  }

  function NamesOf(ps: seq<Param>): set<string> {
    set p | p in ps :: p.name
  }

  /** The variants among the first k that use a parameter of this name. */
  function Occurrences(variants: seq<Query>, k: nat, name: string): set<nat>
    requires k <= |variants|
  {
    if k == 0 then {}
    else Occurrences(variants, k - 1, name) + if name in NamesOf(variants[k - 1].params) then {k - 1} else {}
  }

  // ----- what merging promises, name by name -----

  lemma AddKeeps(m: Merged, p: Param, index: nat)
    requires m.Valid() && m.Add(p, index).Some?
    ensures m.Add(p, index).value.Valid()
  {
    var n := m.Add(p, index).value;
    if p.name !in m.types {
      assert p in n.fields;
      assert forall f :: f in m.fields ==> f in n.fields;
    }
  }

  function PresenceOf(m: Merged, name: string): set<nat> {
    if name in m.presence then m.presence[name] else {}
  }

  lemma AddMeans(m: Merged, p: Param, index: nat, name: string)
    requires m.Valid() && m.Add(p, index).Some?
    ensures var n := m.Add(p, index).value;
            && n.Valid()
            && (name in n.types <==> name in m.types || name == p.name)
            && (name in m.types ==> n.types[name] == m.types[name])
            && PresenceOf(n, name) == PresenceOf(m, name) + if name == p.name then {index} else {}
  {
    AddKeeps(m, p, index);
    NoPresence(m, p.name);
    hide Merged.Valid;
    AddReads(m, p, index, name);
  }

  lemma NoPresence(m: Merged, name: string)
    requires m.Valid()
    ensures name in m.presence <==> name in m.types
  {
  }

  lemma AddReads(m: Merged, p: Param, index: nat, name: string)
    requires m.Add(p, index).Some?
    ensures var n := m.Add(p, index).value;
            && (name in n.types <==> name in m.types || name == p.name)
            && (name in m.types ==> n.types[name] == m.types[name])
            && PresenceOf(n, name) == PresenceOf(m, name) + if name == p.name then {index} else {}
  {
  }

  lemma {:induction false} AddAllMeans(m: Merged, ps: seq<Param>, index: nat, name: string)
    requires m.Valid() && m.AddAll(ps, index).Some?
    ensures var n := m.AddAll(ps, index).value;
            && n.Valid()
            && (name in n.types <==> name in m.types || name in NamesOf(ps))
            && (name in m.types ==> n.types[name] == m.types[name])
            && PresenceOf(n, name) == PresenceOf(m, name) + if name in NamesOf(ps) then {index} else {}
    decreases |ps|
  {
    hide Merged.Valid, Merged.Add, PresenceOf;
    if ps != [] {
      var last := |ps| - 1;
      AddAllMeans(m, ps[..last], index, name);
      AddMeans(m.AddAll(ps[..last], index).value, ps[last], index, name);
      NamesOfLast(ps);
    }
  }

  lemma NamesOfLast(ps: seq<Param>)
    requires ps != []
    ensures NamesOf(ps) == NamesOf(ps[..|ps| - 1]) + {ps[|ps| - 1].name}
  {
    assert ps == ps[..|ps| - 1] + [ps[|ps| - 1]];
  }

  lemma {:induction false} AddAllShape(m: Merged, ps: seq<Param>, index: nat, p: Param)
    requires m.Valid() && m.AddAll(ps, index).Some? && p in ps
    ensures var n := m.AddAll(ps, index).value; p.name in n.types && n.types[p.name] == p.shape
    decreases |ps|
  {
    var last := |ps| - 1;
    if p in ps[..last] {
      AddAllShape(m, ps[..last], index, p);
    }
    hide Merged.Valid;
    assert ps == ps[..last] + [ps[last]];
  }

  lemma {:induction false} MergeMeans(variants: seq<Query>, k: nat, name: string)
    requires k <= |variants| && MergeFirst(variants, k).Some?
    ensures var m := MergeFirst(variants, k).value;
            && m.Valid() && PresenceOf(m, name) == Occurrences(variants, k, name)
            && (name in m.types <==> Occurrences(variants, k, name) != {})
  {
    if k > 0 {
      MergeMeans(variants, k - 1, name);
      AddAllMeans(MergeFirst(variants, k - 1).value, variants[k - 1].params, k - 1, name);
      hide Merged.Valid, Merged.AddAll, NamesOf;
    }
  }

  lemma {:induction false} MergeShape(variants: seq<Query>, k: nat, i: nat, p: Param)
    requires i < k <= |variants| && MergeFirst(variants, k).Some? && p in variants[i].params
    ensures var m := MergeFirst(variants, k).value; p.name in m.types && m.types[p.name] == p.shape
  {
    var was := MergeFirst(variants, k - 1).value;
    MergeMeans(variants, k - 1, p.name);
    if i == k - 1 {
      AddAllShape(was, variants[i].params, i, p);
    } else {
      MergeShape(variants, k - 1, i, p);
      AddAllMeans(was, variants[k - 1].params, k - 1, p.name);
    }
  }

  lemma {:induction false} OccurrencesAre(variants: seq<Query>, k: nat, name: string, i: nat)
    requires k <= |variants|
    ensures i in Occurrences(variants, k, name) <==> i < k && name in NamesOf(variants[i].params)
  {
    if k > 0 {
      OccurrencesAre(variants, k - 1, name, i);
    }
  }

  // ----- result columns -----

  predicate SameColumn(a: Column, b: Column) {
    a.(asserted := b.asserted) == b
  }

  predicate SameColumns(a: seq<Column>, b: seq<Column>) {
    |a| == |b| && forall i :: 0 <= i < |a| ==> SameColumn(a[i], b[i])
  }

  function Combined(a: seq<Column>, b: seq<Column>): seq<Column>
    requires |a| == |b|
  {
    seq(|a|, i requires 0 <= i < |a| => a[i].(asserted := a[i].asserted || b[i].asserted))
  }

  /** The columns of the first k variants, which must agree. */
  function MergeResults(variants: seq<Query>, k: nat): Option<seq<Column>>
    requires variants != [] && k <= |variants|
  {
    if k == 0 then Some(variants[0].results)
    else
      var so :- MergeResults(variants, k - 1);
      if SameColumns(so, variants[k - 1].results) then Some(Combined(so, variants[k - 1].results)) else None
  }

  method CombineResults(want: seq<Column>, got: seq<Column>) returns (results: Option<seq<Column>>)
    ensures results == if SameColumns(want, got) then Some(Combined(want, got)) else None
  {
    if |got| != |want| {
      return None;
    }
    var out := want;
    for i := 0 to |got|
      invariant |out| == |want|
      invariant forall j :: 0 <= j < i ==> SameColumn(want[j], got[j]) && out[j] == Combined(want, got)[j]
      invariant forall j :: i <= j < |want| ==> out[j] == want[j]
    {
      if !SameColumn(out[i], got[i]) {
        return None;
      }
      out := out[i := out[i].(asserted := out[i].asserted || got[i].asserted)];
    }
    assert out == Combined(want, got);
    return Some(out);
  }

  // ----- owners -----

  /** Parameter name is used exactly by the variants that enable option number bit. */
  predicate Owned(variants: seq<Query>, bit: nat, name: string) {
    forall index :: 0 <= index < |variants| ==> (name in NamesOf(variants[index].params) <==> Bit(index, bit))
  }

  /** The last owning option among the first k; at most one owns, see OwnerIsUnique. */
  function OwnerBit(variants: seq<Query>, k: nat, name: string): (bit: Option<nat>)
    ensures bit.Some? ==> bit.value < k && Owned(variants, bit.value, name)
    ensures bit.None? ==> forall b :: 0 <= b < k ==> !Owned(variants, b, name)
  {
    if k == 0 then None
    else if Owned(variants, k - 1, name) then Some(k - 1)
    else OwnerBit(variants, k - 1, name)
  }

  function OwnersAmong(options: seq<string>, variants: seq<Query>, k: nat, names: set<string>): map<string, string>
    requires k <= |options|
  {
    map name | name in names && OwnerBit(variants, k, name).Some? :: options[OwnerBit(variants, k, name).value]
  }

  /** The names that option number bit owns. */
  function OwnedBy(option: string, variants: seq<Query>, bit: nat, names: set<string>): map<string, string> {
    map name | name in names && Owned(variants, bit, name) :: option
  }

  lemma OwnedStart(option: string, variants: seq<Query>, bit: nat, before: map<string, string>)
    ensures before + OwnedBy(option, variants, bit, {}) == before
  {
  }

  lemma OwnedNext(option: string, variants: seq<Query>, bit: nat, before: map<string, string>, names: set<string>, name: string)
    ensures before + OwnedBy(option, variants, bit, names + {name}) ==
            var owners := before + OwnedBy(option, variants, bit, names);
            if Owned(variants, bit, name) then owners[name := option] else owners
  {
    hide Owned;
  }

  lemma OwnersStep(options: seq<string>, variants: seq<Query>, bit: nat, names: set<string>)
    requires bit < |options|
    ensures OwnersAmong(options, variants, bit, names) + OwnedBy(options[bit], variants, bit, names)
            == OwnersAmong(options, variants, bit + 1, names)
  {
    hide Owned;
  }

  class QueryComposition {
    const options: seq<string>
    const tables: seq<TableChoice>
    const variants: seq<Query>
    var owners: map<string, string>

    constructor (options: seq<string>, tables: seq<TableChoice>, variants: seq<Query>)
      ensures this.options == options && this.tables == tables && this.variants == variants
      ensures owners == map[]
    {
      this.options, this.tables, this.variants := options, tables, variants;
      owners := map[];
    }

    predicate Mergeable() {
      && variants != [] && MergeResults(variants, |variants|).Some?
      && MergeFirst(variants, |variants|).Some?
      && var types := MergeFirst(variants, |variants|).value.types;
         && (forall option :: option in options ==> option !in types)
         && forall choice :: choice in tables ==> choice.name !in types
    }

    method Merge() returns (query: Option<Query>)
      requires variants != [] && owners == map[]
      modifies this
      ensures query.Some? <==> Mergeable()
      ensures query.Some? ==>
                var merged := MergeFirst(variants, |variants|).value;
                && query.value == Query(MergeResults(variants, |variants|).value, merged.fields)
                && owners == OwnersAmong(options, variants, |options|, merged.types.Keys)
    {
      hide MergeFirst, MergeResults, OwnersAmong, SameColumns, Combined;
      MergeStart(variants);
      OwnersStart(options, variants);
      var results := variants[0].results;
      var merged := Merged(map[], map[], []);
      for index := 0 to |variants|
        invariant owners == map[]
        invariant MergeResults(variants, index) == Some(results)
        invariant MergeFirst(variants, index) == Some(merged)
      {
        MergeStep(variants, index);
        var combined := CombineResults(results, variants[index].results);
        if combined.None? {
          ResultsFail(variants, index + 1);
          return None;
        }
        results := combined.value;
        var next := AddParams(merged, variants[index].params, index);
        if next.None? {
          MergeFails(variants, index + 1);
          return None;
        }
        merged := next.value;
      }
      for bit := 0 to |options|
        invariant owners == OwnersAmong(options, variants, bit, merged.types.Keys)
        invariant forall b :: 0 <= b < bit ==> options[b] !in merged.types
      {
        if options[bit] in merged.types {
          return None;
        }
        SetOwners(bit, merged);
      }
      for k := 0 to |tables|
        invariant owners == OwnersAmong(options, variants, |options|, merged.types.Keys)
        invariant forall j :: 0 <= j < k ==> tables[j].name !in merged.types
      {
        if tables[k].name in merged.types {
          return None;
        }
      }
      return Some(Query(results, merged.fields));
    }

    /** The inner loops of the ownership pass, for one option. */
    method SetOwners(bit: nat, merged: Merged)
      requires bit < |options| && MergeFirst(variants, |variants|) == Some(merged)
      requires owners == OwnersAmong(options, variants, bit, merged.types.Keys)
      modifies this
      ensures owners == OwnersAmong(options, variants, bit + 1, merged.types.Keys)
    {
      hide Owned, OwnersAmong, OwnerBit, MergeFirst;
      ghost var before := owners;
      var names := merged.types.Keys;
      var done := {};
      OwnedStart(options[bit], variants, bit, before);
      while done != names
        invariant done <= names
        invariant owners == before + OwnedBy(options[bit], variants, bit, done)
        decreases names - done
      {
        assert names == done + (names - done);
        var name :| name in names - done;
        var owned := IsOwned(merged, bit, name);
        OwnedNext(options[bit], variants, bit, before, done, name);
        if owned {
          owners := owners[name := options[bit]];
        }
        done := done + {name};
      }
      OwnersStep(options, variants, bit, names);
    }

    method IsOwned(merged: Merged, bit: nat, name: string) returns (owned: bool)
      requires MergeFirst(variants, |variants|) == Some(merged) && name in merged.types
      ensures owned <==> Owned(variants, bit, name)
    {
      MergeMeans(variants, |variants|, name);
      for index := 0 to |variants|
        invariant forall i :: 0 <= i < index ==> (name in NamesOf(variants[i].params) <==> Bit(i, bit))
      {
        OccurrencesAre(variants, |variants|, name, index);
        if (index in merged.presence[name]) != Bit(index, bit) {
          return false;
        }
      }
      return true;
    }
  }

  lemma MergeStart(variants: seq<Query>)
    requires variants != []
    ensures MergeFirst(variants, 0) == Some(Merged(map[], map[], []))
    ensures MergeResults(variants, 0) == Some(variants[0].results)
  {
  }

  lemma OwnersStart(options: seq<string>, variants: seq<Query>)
    ensures forall names :: OwnersAmong(options, variants, 0, names) == map[]
  {
  }

  lemma MergeStep(variants: seq<Query>, k: nat)
    requires k < |variants| && MergeFirst(variants, k).Some? && MergeResults(variants, k).Some?
    ensures MergeFirst(variants, k + 1) == MergeFirst(variants, k).value.AddAll(variants[k].params, k)
    ensures var so := MergeResults(variants, k).value;
            MergeResults(variants, k + 1) ==
            if SameColumns(so, variants[k].results) then Some(Combined(so, variants[k].results)) else None
  {
  }

  method AddParams(m: Merged, ps: seq<Param>, index: nat) returns (next: Option<Merged>)
    ensures next == m.AddAll(ps, index)
  {
    var merged := m;
    assert ps[..|ps|] == ps;
    for k := 0 to |ps|
      invariant m.AddAll(ps[..k], index) == Some(merged)
    {
      assert ps[..k + 1][..k] == ps[..k];
      var step := merged.Add(ps[k], index);
      if step.None? {
        AddAllFails(m, ps, k + 1, index);
        return None;
      }
      merged := step.value;
    }
    return Some(merged);
  }

  lemma {:induction false} AddAllFails(m: Merged, ps: seq<Param>, k: nat, index: nat)
    requires k <= |ps| && m.AddAll(ps[..k], index).None?
    ensures m.AddAll(ps, index).None?
    decreases |ps| - k
  {
    if k < |ps| {
      assert ps[..k + 1][..k] == ps[..k];
      AddAllFails(m, ps, k + 1, index);
    } else {
      assert ps[..k] == ps;
    }
  }

  lemma {:induction false} ResultsFail(variants: seq<Query>, k: nat)
    requires variants != [] && k <= |variants| && MergeResults(variants, k).None?
    ensures MergeResults(variants, |variants|).None?
    decreases |variants| - k
  {
    if k < |variants| {
      ResultsFail(variants, k + 1);
    }
  }

  lemma {:induction false} MergeFails(variants: seq<Query>, k: nat)
    requires k <= |variants| && MergeFirst(variants, k).None?
    ensures MergeFirst(variants, |variants|).None?
    decreases |variants| - k
  {
    if k < |variants| {
      MergeFails(variants, k + 1);
    }
  }
}
