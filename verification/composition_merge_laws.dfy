/**
 When variants merge, what the merged query is, and which path reads a parameter: all from the
 parameters and columns of the variants.
 */
module CompositionMergeLaws {
  import opened Wrappers
  import opened Composition
  import opened CompositionDispatch
  import opened CompositionMerge
  import opened CompositionAccess

  // ----- parameters -----

  /** All parameters, variant by variant. */
  function AllParams(variants: seq<Query>, k: nat): seq<Param>
    requires k <= |variants|
  {
    if k == 0 then [] else AllParams(variants, k - 1) + variants[k - 1].params
  }

  /** A name has one shape. */
  predicate OneShape(ps: seq<Param>) {
    forall i, j :: 0 <= i < |ps| && 0 <= j < |ps| && ps[i].name == ps[j].name ==> ps[i].shape == ps[j].shape
  }

  /** The first parameter of each name. */
  function Firsts(ps: seq<Param>): seq<Param> {
    if ps == [] then []
    else
      var before, last := ps[..|ps| - 1], ps[|ps| - 1];
      if exists i :: 0 <= i < |before| && before[i].name == last.name then Firsts(before)
      else Firsts(before) + [last]
  }

  /** m is what was collected from the parameters ps. */
  predicate Collects(m: Merged, ps: seq<Param>) {
    m.Valid() && m.fields == Firsts(ps) && ShapesFit(m, ps) && NamesFit(m, ps)
  }

  predicate ShapesFit(m: Merged, ps: seq<Param>) {
    forall i :: 0 <= i < |ps| ==> ps[i].name in m.types && m.types[ps[i].name] == ps[i].shape
  }

  predicate NamesFit(m: Merged, ps: seq<Param>) {
    forall name :: name in m.types ==> exists i :: 0 <= i < |ps| && ps[i].name == name
  }

  lemma OneMore(ps: seq<Param>, p: Param)
    ensures (ps + [p])[..|ps|] == ps && (ps + [p])[|ps|] == p
  {
  }

  lemma CollectNext(m: Merged, ps: seq<Param>, p: Param, index: nat)
    requires Collects(m, ps) && OneShape(ps)
    ensures m.Add(p, index).Some? <==> OneShape(ps + [p])
    ensures m.Add(p, index).Some? ==> Collects(m.Add(p, index).value, ps + [p])
  {
    NextShape(m, ps, p);
    AddIs(m, p, index);
    if m.Add(p, index).Some? {
      NextValid(m, ps, p, index);
      NextTypes(m, ps, p, index);
      NextFields(m, ps, p, index);
    }
    hide OneShape, Merged.Valid, Firsts, Merged.Add, ShapesFit, NamesFit;
  }

  lemma AddIs(m: Merged, p: Param, index: nat)
    ensures m.Add(p, index).Some? <==> !(p.name in m.types && m.types[p.name] != p.shape)
  {
  }

  /** One more parameter fits exactly when its name has no other shape yet. */
  lemma NextShape(m: Merged, ps: seq<Param>, p: Param)
    requires Collects(m, ps) && OneShape(ps)
    ensures OneShape(ps + [p]) <==> !(p.name in m.types && m.types[p.name] != p.shape)
  {
    OneMore(ps, p);
    hide Merged.Valid, Firsts;
    var all := ps + [p];
    if p.name in m.types {
      var i :| 0 <= i < |ps| && ps[i].name == p.name;
      assert all[i].name == all[|ps|].name && m.types[ps[i].name] == ps[i].shape;
    }
    if !(p.name in m.types && m.types[p.name] != p.shape) {
      forall i | 0 <= i < |ps| && ps[i].name == p.name ensures ps[i].shape == p.shape {
        assert m.types[ps[i].name] == ps[i].shape;
      }
    }
  }

  lemma NextValid(m: Merged, ps: seq<Param>, p: Param, index: nat)
    requires Collects(m, ps) && m.Add(p, index).Some?
    ensures m.Add(p, index).value.Valid()
  {
    AddKeeps(m, p, index);
  }

  lemma NextTypes(m: Merged, ps: seq<Param>, p: Param, index: nat)
    requires Collects(m, ps) && m.Add(p, index).Some?
    ensures ShapesFit(m.Add(p, index).value, ps + [p]) && NamesFit(m.Add(p, index).value, ps + [p])
  {
    OneMore(ps, p);
    hide Merged.Valid, Firsts;
    var n, all := m.Add(p, index).value, ps + [p];
    forall i | 0 <= i < |all| ensures all[i].name in n.types && n.types[all[i].name] == all[i].shape {
      if i < |ps| {
        assert all[i] == ps[i];
      }
    }
    forall name | name in n.types ensures exists i :: 0 <= i < |all| && all[i].name == name {
      if name == p.name {
        assert all[|ps|].name == name;
      } else {
        var i :| 0 <= i < |ps| && ps[i].name == name;
        assert all[i].name == name;
      }
    }
  }

  lemma NextFields(m: Merged, ps: seq<Param>, p: Param, index: nat)
    requires Collects(m, ps) && m.Add(p, index).Some?
    ensures m.Add(p, index).value.fields == Firsts(ps + [p])
  {
    OneMore(ps, p);
    hide Merged.Valid;
    assert p.name in m.types <==> exists i :: 0 <= i < |ps| && ps[i].name == p.name;
  }

  lemma {:induction false} CollectAll(m: Merged, ps: seq<Param>, more: seq<Param>, index: nat)
    requires Collects(m, ps) && OneShape(ps)
    ensures m.AddAll(more, index).Some? <==> OneShape(ps + more)
    ensures m.AddAll(more, index).Some? ==> Collects(m.AddAll(more, index).value, ps + more)
    decreases |more|
  {
    hide Collects, Merged.Add, Firsts;
    if more == [] {
      assert ps + more == ps;
    } else {
      var last := |more| - 1;
      var before := more[..last];
      CollectAll(m, ps, before, index);
      assert ps + more == (ps + before) + [more[last]];
      if OneShape(ps + before) {
        CollectNext(m.AddAll(before, index).value, ps + before, more[last], index);
      } else {
        PrefixHasOneShape(ps + before, more[last]);
      }
    }
  }

  lemma PrefixHasOneShape(ps: seq<Param>, p: Param)
    ensures OneShape(ps + [p]) ==> OneShape(ps)
  {
    OneMore(ps, p);
    if OneShape(ps + [p]) {
      forall i, j | 0 <= i < |ps| && 0 <= j < |ps| && ps[i].name == ps[j].name ensures ps[i].shape == ps[j].shape {
        assert (ps + [p])[i] == ps[i] && (ps + [p])[j] == ps[j];
      }
    }
  }

  lemma {:induction false} LaterHasOneShape(ps: seq<Param>, more: seq<Param>)
    ensures OneShape(ps + more) ==> OneShape(ps)
    decreases |more|
  {
    if more == [] {
      assert ps + more == ps;
    } else {
      assert ps + more == (ps + more[..|more| - 1]) + [more[|more| - 1]];
      PrefixHasOneShape(ps + more[..|more| - 1], more[|more| - 1]);
      LaterHasOneShape(ps, more[..|more| - 1]);
    }
  }

  /** Main result: the parameters merge exactly when no name has two shapes, to the first of each name. */
  lemma {:induction false} MergeIff(variants: seq<Query>, k: nat)
    requires k <= |variants|
    ensures MergeFirst(variants, k).Some? <==> OneShape(AllParams(variants, k))
    ensures MergeFirst(variants, k).Some? ==> Collects(MergeFirst(variants, k).value, AllParams(variants, k))
  {
    hide Collects, Merged.AddAll, OneShape;
    StartCollects();
    if k > 0 {
      MergeIff(variants, k - 1);
      var before := AllParams(variants, k - 1);
      if OneShape(before) {
        CollectAll(MergeFirst(variants, k - 1).value, before, variants[k - 1].params, k - 1);
      } else {
        LaterHasOneShape(before, variants[k - 1].params);
      }
    }
  }

  lemma StartCollects()
    ensures Collects(Merged(map[], map[], []), []) && OneShape([])
  {
  }

  // ----- columns -----

  /** The same names and types, in the same order. */
  predicate SameNames(a: seq<Column>, b: seq<Column>) {
    && |a| == |b|
    && forall i :: 0 <= i < |a| ==>
         && a[i].sqlName == b[i].sqlName && a[i].goName == b[i].goName
         && a[i].goType == b[i].goType && a[i].chType == b[i].chType
  }

  lemma SameNamesAre(a: seq<Column>, b: seq<Column>)
    ensures SameNames(a, b) <==> SameColumns(a, b)
  {
  }

  /** Column i of one of the first k variants comes from a contract. */
  predicate AssertedIn(variants: seq<Query>, k: nat, i: nat)
    requires k <= |variants| && forall v :: 0 <= v < k ==> i < |variants[v].results|
  {
    exists v :: 0 <= v < k && variants[v].results[i].asserted
  }

  predicate AllAlike(variants: seq<Query>, k: nat)
    requires variants != [] && k <= |variants|
  {
    forall v :: 0 <= v < k ==> SameNames(variants[0].results, variants[v].results)
  }

  /** The columns merge exactly when all variants have those of the first, and any contract shows. */
  lemma {:induction false} ResultsIff(variants: seq<Query>, k: nat)
    requires variants != [] && k <= |variants|
    ensures MergeResults(variants, k).Some? <==> AllAlike(variants, k)
    ensures MergeResults(variants, k).Some? ==>
              var out := MergeResults(variants, k).value;
              && SameNames(variants[0].results, out)
              && forall i :: 0 <= i < |out| ==>
                   (out[i].asserted <==> variants[0].results[i].asserted || AssertedIn(variants, k, i))
  {
    if k > 0 {
      ResultsIff(variants, k - 1);
      if AllAlike(variants, k - 1) {
        var so, got := MergeResults(variants, k - 1).value, variants[k - 1].results;
        SameNamesAre(so, got);
        assert SameNames(so, got) <==> SameNames(variants[0].results, got);
        if SameNames(so, got) {
          forall i | 0 <= i < |so|
            ensures AssertedIn(variants, k, i) <==> AssertedIn(variants, k - 1, i) || got[i].asserted
          {
          }
        }
      } else {
        assert !AllAlike(variants, k);
      }
    }
  }

  // ----- the argument and its paths -----

  /** An option holds when its field is set, and a table when the slot names it. */
  lemma HoldsIff(arg: Argument, option: string, wanted: bool, choice: string, table: string)
    ensures arg.Holds(OptionIs(option, wanted)) <==> (wanted <==> option in arg.present)
    ensures choice in arg.slots ==> (arg.Holds(TableIs(choice, table)) <==> arg.slots[choice] == table)
    ensures choice !in arg.slots ==> (arg.Holds(TableIs(choice, table)) <==> table == "")
  {
  }

  /**
   A parameter is read, and declared, under an option exactly when that option owns it: it is used
   by the variants with the option and by no other.
   */
  lemma PathIff(options: seq<string>, tables: seq<TableChoice>, variants: seq<Query>, names: set<string>, name: string, b: nat)
    requires WellFormed(options, tables) && |variants| == Count(options, tables) && name in names
    requires b < |options| && Distinct(options) && "" !in options
    ensures var owners := OwnersAmong(options, variants, |options|, names);
            && (AccessOf(owners, name) == Under(options[b], name) <==> Owned(variants, b, name))
            && (OwnerName(owners, name) == options[b] <==> Owned(variants, b, name))
            && ((forall a :: 0 <= a < |options| ==> !Owned(variants, a, name)) ==>
                  AccessOf(owners, name) == Top(name) && OwnerName(owners, name) == "")
  {
    hide Owned, WellFormed, Count;
    var found := OwnerBit(variants, |options|, name);
    if found.Some? && Owned(variants, b, name) {
      OwnerIsUnique(options, tables, variants, found.value, b, name);
    }
  }
}
