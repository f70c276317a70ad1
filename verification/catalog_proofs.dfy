/** What every run of migrations keeps, and which steps undo each other. */
module CatalogProofs {
  import opened Wrappers
  import opened Catalog

  // ----- every step keeps the catalogs consistent -----

  lemma {:induction false} CreatedIsOrdered(name: string, columns: seq<Column>, engine: Option<Engine>)
    requires TableOf(name, columns, engine).Some?
    ensures var t := TableOf(name, columns, engine).value; t.name == name && WellOrdered(t)
  {
    if columns != [] {
      CreatedIsOrdered(name, columns[..|columns| - 1], engine);
    }
  }

  lemma CreatedTableIsOrdered(s: State, c: Create)
    requires Consistent(s) && CreatedTable(s, c).Some?
    ensures var t := CreatedTable(s, c).value; t.name == c.name && WellOrdered(t)
  {
    hide TableOf, EngineOfCopy;
    match c.source
    case Columns(columns) => CreatedIsOrdered(c.name, columns, c.engine);
    case CopyOf(_) =>
  }

  lemma InsertedIsOrdered(t: Table, at: nat, column: Column)
    requires WellOrdered(t) && at <= |t.order| && column.name !in t.columns
    ensures WellOrdered(t.(columns := t.columns[column.name := column], order := Inserted(t.order, at, column.name)))
  {
    var order := Inserted(t.order, at, column.name);
    forall i | 0 <= i < |order|
      ensures order[i] == if i < at then t.order[i] else if i == at then column.name else t.order[i - 1]
    {
    }
    forall c ensures c in order <==> c == column.name || c in t.order {
      InInserted(t.order, at, column.name, c);
    }
    hide Inserted;
  }

  lemma InInserted(order: seq<string>, at: nat, name: string, c: string)
    requires at <= |order|
    ensures c in Inserted(order, at, name) <==> c == name || c in order
  {
    assert order == order[..at] + order[at..];
  }

  lemma WithoutAt(order: seq<string>, name: string, i: nat)
    requires name in order && i < |Without(order, name)|
    ensures |Without(order, name)| == |order| - 1
    ensures var at := IndexOf(order, name);
            Without(order, name)[i] == order[if i < at then i else i + 1]
  {
    hide IndexOf;
    var at := IndexOf(order, name);
    assert Without(order, name) == order[..at] + order[at + 1..];
  }

  predicate Once(order: seq<string>) {
    forall i, j :: 0 <= i < j < |order| ==> order[i] != order[j]
  }

  lemma WithoutKeepsOnce(order: seq<string>, name: string)
    requires Once(order) && name in order
    ensures Once(Without(order, name))
  {
    var rest := Without(order, name);
    forall i, j | 0 <= i < j < |rest| ensures rest[i] != rest[j] {
      WithoutAt(order, name, i);
      WithoutAt(order, name, j);
    }
  }

  lemma InWithout(order: seq<string>, name: string, c: string)
    requires Once(order) && name in order
    ensures c in Without(order, name) <==> c in order && c != name
  {
    var at, rest := IndexOf(order, name), Without(order, name);
    if c in rest {
      var i :| 0 <= i < |rest| && rest[i] == c;
      WithoutAt(order, name, i);
    }
    if c in order && c != name {
      var k :| 0 <= k < |order| && order[k] == c;
      assert |rest| == |order| - 1;
      WithoutAt(order, name, if k < at then k else k - 1);
    }
  }

  lemma WithoutIsOrdered(t: Table, name: string)
    requires WellOrdered(t) && name in t.columns
    ensures WellOrdered(t.(columns := t.columns - {name}, order := Without(t.order, name)))
  {
    WithoutKeepsOnce(t.order, name);
    forall c ensures c in Without(t.order, name) <==> c in t.order && c != name {
      InWithout(t.order, name, c);
    }
    hide Without;
  }

  lemma ClauseIsOrdered(t: Table, clause: Clause)
    requires WellOrdered(t) && AfterClause(t, clause).Some?
    ensures var n := AfterClause(t, clause).value; n.name == t.name && WellOrdered(n)
  {
    match clause
    case AddColumn(column, _, after) =>
      if column.name !in t.columns {
        var at := if after.None? then |t.order| - 1 else IndexOf(t.order, after.value);
        InsertedIsOrdered(t, at + 1, column);
        hide WellOrdered, Inserted, IndexOf;
      }
    case DropColumn(name, _) =>
      if name in t.columns {
        WithoutIsOrdered(t, name);
        hide WellOrdered, Without;
      }
    case ModifyColumn(_, _) =>
    case _ =>
  }

  lemma {:induction false} ClausesAreOrdered(t: Table, clauses: seq<Clause>)
    requires WellOrdered(t) && AfterClauses(t, clauses).Some?
    ensures var n := AfterClauses(t, clauses).value; n.name == t.name && WellOrdered(n)
    decreases clauses
  {
    hide WellOrdered, AfterClause;
    if clauses != [] {
      ClauseIsOrdered(t, clauses[0]);
      ClausesAreOrdered(AfterClause(t, clauses[0]).value, clauses[1..]);
    }
  }

  /** A rename keeps the keys in step with the names, and takes no forbidden name. */
  lemma RenamedIsKeyed(tables: Tables, external: Tables, p: Pair)
    requires KeyedByName(tables) && Renames(tables, external, p)
    requires tables.Keys !! external.Keys && MIGRATIONS !in tables
    ensures var n := Renamed(tables, p); KeyedByName(n) && n.Keys !! external.Keys && MIGRATIONS !in n
  {
    var n := Renamed(tables, p);
    forall k | k in n ensures n[k].name == k && WellOrdered(n[k]) {
      assert WellOrdered(tables[if k == p.to then p.from else k]);
    }
  }

  lemma {:induction false} RenameAllIsKeyed(tables: Tables, external: Tables, pairs: seq<Pair>)
    requires KeyedByName(tables) && tables.Keys !! external.Keys && MIGRATIONS !in tables
    requires RenameAll(tables, external, pairs).Some?
    ensures var n := RenameAll(tables, external, pairs).value;
            KeyedByName(n) && n.Keys !! external.Keys && MIGRATIONS !in n
    decreases pairs
  {
    hide KeyedByName, Renamed, Permitted;
    if pairs != [] {
      RenamedIsKeyed(tables, external, pairs[0]);
      RenameAllIsKeyed(Renamed(tables, pairs[0]), external, pairs[1..]);
    }
  }

  lemma PutKeepsConsistent(s: State, name: string, t: Table)
    requires Consistent(s) && t.name == name && WellOrdered(t)
    ensures name !in s.external && name != MIGRATIONS ==> Consistent(s.(physical := s.physical[name := t]))
    ensures name !in s.physical ==> Consistent(s.(external := s.external[name := t]))
  {
    hide WellOrdered;
  }

  lemma ExchangeKeepsConsistent(s: State, pairs: seq<Pair>)
    requires Consistent(s) && AfterExchange(s, pairs).Some?
    ensures Consistent(AfterExchange(s, pairs).value)
  {
    var (a, b) := (pairs[0].from, pairs[0].to);
    RenameTable(s.physical[a], b);
    RenameTable(s.physical[b], a);
    hide WellOrdered;
  }

  lemma RenameTable(t: Table, name: string)
    ensures WellOrdered(t) ==> WellOrdered(t.(name := name))
  {
  }

  /** Main result, one step: no accepted statement breaks the invariant. */
  lemma StepKeepsConsistent(s: State, step: Step)
    requires Consistent(s) && After(s, step).Some?
    ensures Consistent(After(s, step).value)
  {
    match step
    case ExternalCreate(c) =>
      CreatedIsOrdered(c.name, c.source.columns, c.engine);
      PutKeepsConsistent(s, c.name, TableOf(c.name, c.source.columns, c.engine).value);
      hide Consistent, TableOf;
    case PhysicalCreate(c) =>
      if CreatedTable(s, c).Some? {
        CreatedTableIsOrdered(s, c);
        PutKeepsConsistent(s, c.name, CreatedTable(s, c).value);
      }
      hide Consistent, CreatedTable;
    case Drop(_, _, _) => hide WellOrdered;
    case Rename(pairs) =>
      RenameAllIsKeyed(s.physical, s.external, pairs);
      hide RenameAll, KeyedByName;
    case Exchange(pairs) =>
      ExchangeKeepsConsistent(s, pairs);
      hide Consistent, AfterExchange;
    case Alter(name, clauses, _) => AlterKeepsConsistent(s, name, clauses); hide Consistent, AfterAlter;
  }

  lemma AlterKeepsConsistent(s: State, name: string, clauses: seq<Clause>)
    requires Consistent(s) && AfterAlter(s, name, clauses).Some?
    ensures Consistent(AfterAlter(s, name, clauses).value)
  {
    hide AfterClauses, WellOrdered;
    if name != MIGRATIONS {
      ClausesAreOrdered(s.physical[name], clauses);
      PutKeepsConsistent(s, name, AfterClauses(s.physical[name], clauses).value);
    }
  }

  lemma {:induction false} RunKeepsConsistent(s: State, steps: seq<Step>)
    requires Consistent(s) && Run(s, steps).Some?
    ensures Consistent(Run(s, steps).value)
    decreases steps
  {
    hide Consistent, After;
    if steps != [] {
      StepKeepsConsistent(s, steps[0]);
      RunKeepsConsistent(After(s, steps[0]).value, steps[1..]);
    }
  }

  /** Main result: whatever is replayed from empty catalogs, they stay apart and keyed by name. */
  lemma ReplayIsConsistent(steps: seq<Step>)
    ensures var end := Run(State(map[], map[]), steps);
            end.Some? ==>
              && end.value.physical.Keys !! end.value.external.Keys
              && MIGRATIONS !in end.value.physical
              && (forall k :: k in end.value.physical ==> end.value.physical[k].name == k)
              && (forall k :: k in end.value.external ==> end.value.external[k].name == k)
  {
    hide Run;
    if Run(State(map[], map[]), steps).Some? {
      RunKeepsConsistent(State(map[], map[]), steps);
    }
  }

  // ----- renames undo each other -----

  function Reversed(p: Pair): Pair {
    Pair(p.to, p.from, p.qualified)
  }

  /** The inverse of each pair, last pair first. */
  function Inverse(pairs: seq<Pair>): seq<Pair> {
    if pairs == [] then [] else Inverse(pairs[1..]) + [Reversed(pairs[0])]
  }

  lemma RenameBack(tables: Tables, external: Tables, p: Pair)
    requires Renames(tables, external, p) && tables[p.from].name == p.from
    ensures var n := Renamed(tables, p);
            Renames(n, external, Reversed(p)) && Renamed(n, Reversed(p)) == tables
  {
    hide Permitted;
    PermittedBack(external, p);
    assert p.from != p.to;
    var back := Renamed(Renamed(tables, p), Reversed(p));
    assert back.Keys == tables.Keys;
  }

  lemma PermittedBack(external: Tables, p: Pair)
    ensures Permitted(external, Reversed(p)) == Permitted(external, p)
  {
  }

  lemma {:induction false} RenameAllThen(tables: Tables, external: Tables, a: seq<Pair>, b: seq<Pair>)
    ensures RenameAll(tables, external, a + b) ==
            (var middle := RenameAll(tables, external, a);
             if middle.None? then None else RenameAll(middle.value, external, b))
    decreases a
  {
    hide Permitted, Renamed;
    if a == [] {
      assert a + b == b;
    } else {
      assert (a + b)[1..] == a[1..] + b;
      if Renames(tables, external, a[0]) {
        RenameAllThen(Renamed(tables, a[0]), external, a[1..], b);
      }
    }
  }

  /** Main result: an accepted RENAME followed by its inverse is accepted and changes nothing. */
  lemma {:induction false} RenamesAreReversible(tables: Tables, external: Tables, pairs: seq<Pair>)
    requires KeyedByName(tables) && tables.Keys !! external.Keys && MIGRATIONS !in tables
    requires RenameAll(tables, external, pairs).Some?
    ensures RenameAll(RenameAll(tables, external, pairs).value, external, Inverse(pairs)) == Some(tables)
    decreases pairs
  {
    hide Permitted, Renamed, KeyedByName;
    if pairs != [] {
      var p, next := pairs[0], Renamed(tables, pairs[0]);
      assert Renames(tables, external, p);
      RenamedIsKeyed(tables, external, p);
      RenamesAreReversible(next, external, pairs[1..]);
      NameIsKey(tables, external, p);
      RenameBack(tables, external, p);
      var end := RenameAll(tables, external, pairs).value;
      RenameAllThen(end, external, Inverse(pairs[1..]), [Reversed(p)]);
      OnePair(next, external, Reversed(p));
    }
  }

  lemma NameIsKey(tables: Tables, external: Tables, p: Pair)
    requires KeyedByName(tables) && Renames(tables, external, p)
    ensures p.from in tables && tables[p.from].name == p.from
  {
  }

  lemma OnePair(tables: Tables, external: Tables, p: Pair)
    requires Renames(tables, external, p)
    ensures RenameAll(tables, external, [p]) == Some(Renamed(tables, p))
  {
    hide Permitted, Renamed;
    assert [p][1..] == [];
  }

  // ----- exchanges -----

  lemma ExchangeTwice(s: State, pairs: seq<Pair>)
    requires Consistent(s) && AfterExchange(s, pairs).Some?
    ensures AfterExchange(AfterExchange(s, pairs).value, pairs) == Some(s)
  {
    hide WellOrdered;
    var (a, b) := (pairs[0].from, pairs[0].to);
    var once := AfterExchange(s, pairs).value;
    assert once.physical[a] == s.physical[b].(name := a) && once.physical[b] == s.physical[a].(name := b);
    var twice := AfterExchange(once, pairs).value;
    assert twice.physical.Keys == s.physical.Keys;
    assert twice.physical == s.physical;
  }

  /** Main result: EXCHANGE is what three renames through any free name do. */
  lemma ExchangeIsThreeRenames(s: State, a: string, b: string, spare: string)
    requires Consistent(s) && a != b && Exchangeable(s, a) && Exchangeable(s, b)
    requires spare !in s.physical && spare !in s.external && spare != MIGRATIONS
    ensures AfterExchange(s, [Pair(a, b, false)]) ==
            AfterRename(s, [Pair(a, spare, false), Pair(b, a, false), Pair(spare, b, false)])
  {
    var (p, q, r) := (Pair(a, spare, false), Pair(b, a, false), Pair(spare, b, false));
    var one := Renamed(s.physical, p);
    var two := Renamed(one, q);
    var three := Renamed(two, r);
    assert Renames(s.physical, s.external, p) && Renames(one, s.external, q) && Renames(two, s.external, r);
    ThreePairs(s.physical, s.external, p, q, r);
    var swapped := AfterExchange(s, [Pair(a, b, false)]).value.physical;
    assert three.Keys == swapped.Keys;
    assert three == swapped;
    hide RenameAll, Renames, WellOrdered;
  }

  lemma ThreePairs(tables: Tables, external: Tables, p: Pair, q: Pair, r: Pair)
    requires Renames(tables, external, p) && Renames(Renamed(tables, p), external, q)
    requires Renames(Renamed(Renamed(tables, p), q), external, r)
    ensures RenameAll(tables, external, [p, q, r]) == Some(Renamed(Renamed(Renamed(tables, p), q), r))
  {
    hide Permitted, Renamed;
    OnePair(Renamed(Renamed(tables, p), q), external, r);
    assert [p, q, r][1..] == [q, r] && [q, r][1..] == [r];
  }

  // ----- what CREATE and ALTER put in, DROP takes out -----

  predicate DistinctNames(columns: seq<Column>) {
    forall i, j :: 0 <= i < j < |columns| ==> columns[i].name != columns[j].name
  }

  /** The table has these columns, in this order, and no others. */
  predicate HasColumns(t: Table, columns: seq<Column>) {
    && |t.order| == |columns|
    && (forall i :: 0 <= i < |columns| ==>
          t.order[i] == columns[i].name && columns[i].name in t.columns && t.columns[columns[i].name] == columns[i])
    && (forall c :: c in t.columns.Keys ==> c in t.order)
  }

  lemma {:induction false} CreatedHasColumns(name: string, columns: seq<Column>, engine: Option<Engine>)
    requires TableOf(name, columns, engine).Some?
    ensures var t := TableOf(name, columns, engine).value;
            HasColumns(t, columns) && t.name == name && t.engine == engine
  {
    if columns != [] {
      var n := |columns| - 1;
      var before := columns[..n];
      CreatedHasColumns(name, before, engine);
      OneMoreColumn(TableOf(name, before, engine).value, columns);
      hide HasColumns;
    }
  }

  lemma OneMoreColumn(t: Table, columns: seq<Column>)
    requires columns != [] && HasColumns(t, columns[..|columns| - 1]) && columns[|columns| - 1].name !in t.columns
    ensures var last := columns[|columns| - 1];
            HasColumns(t.(columns := t.columns[last.name := last], order := t.order + [last.name]), columns)
  {
    var n := |columns| - 1;
    var before := columns[..n];
    assert forall i :: 0 <= i < n ==> before[i] == columns[i];
  }

  /** A column list is refused exactly for a repeated name. */
  lemma {:induction false} CreatedIsDistinct(name: string, columns: seq<Column>, engine: Option<Engine>)
    ensures TableOf(name, columns, engine).Some? <==> DistinctNames(columns)
  {
    if columns != [] {
      var n := |columns| - 1;
      var before := columns[..n];
      CreatedIsDistinct(name, before, engine);
      hide DistinctNames;
      PrefixIsDistinct(columns);
      if TableOf(name, before, engine).Some? {
        CreatedHasColumns(name, before, engine);
        LastDecides(columns, TableOf(name, before, engine).value);
      }
    }
  }

  lemma PrefixIsDistinct(columns: seq<Column>)
    requires columns != []
    ensures DistinctNames(columns) ==> DistinctNames(columns[..|columns| - 1])
  {
  }

  lemma LastDecides(columns: seq<Column>, t: Table)
    requires columns != [] && DistinctNames(columns[..|columns| - 1]) && HasColumns(t, columns[..|columns| - 1])
    ensures DistinctNames(columns) <==> columns[|columns| - 1].name !in t.columns
  {
    var n := |columns| - 1;
    var before, last := columns[..n], columns[n];
    assert forall i :: 0 <= i < n ==> before[i] == columns[i];
    if last.name in t.columns {
      assert last.name in t.order;
      var i :| 0 <= i < |t.order| && t.order[i] == last.name;
      assert columns[i].name == columns[n].name;
    } else {
      forall i, j | 0 <= i < j < |columns| ensures columns[i].name != columns[j].name {
        assert before[i].name in t.columns;
        if j < n {
          assert before[i].name != before[j].name;
        }
      }
    }
  }

  /** A CREATE adds its name and nothing else, and DROP TABLE takes it out again. */
  lemma CreateThenDrop(s: State, c: Create)
    requires AfterPhysicalCreate(s, c).Some? && c.name !in s.physical && c.name != MIGRATIONS
    ensures var n := AfterPhysicalCreate(s, c).value;
            && n.physical.Keys == s.physical.Keys + {c.name} && n.external == s.external
            && AfterDrop(n, TableTarget, c.name, false) == Some(s)
  {
    hide CreatedTable;
    var n := AfterPhysicalCreate(s, c).value;
    assert n.physical - {c.name} == s.physical;
  }

  /** A copy has the columns of its source, under its own name. */
  lemma CopyHasColumns(s: State, c: Create)
    requires AfterPhysicalCreate(s, c).Some? && c.name !in s.physical && c.name != MIGRATIONS && c.source.CopyOf?
    ensures var n := AfterPhysicalCreate(s, c).value;
            && c.source.table in s.physical
            && n.physical[c.name].columns == s.physical[c.source.table].columns
            && n.physical[c.name].order == s.physical[c.source.table].order
            && (c.engine.None? ==> n.physical[c.name].engine == s.physical[c.source.table].engine)
  {
  }

  lemma {:induction false} FirstIndexIs(order: seq<string>, i: nat, x: string)
    requires i < |order| && order[i] == x && x !in order[..i]
    ensures IndexOf(order, x) == i
  {
    if i > 0 {
      assert order[..i][0] == order[0];
      assert order[1..][..i - 1] == order[..i][1..];
      FirstIndexIs(order[1..], i - 1, x);
    }
  }

  lemma WithoutInserted(order: seq<string>, at: nat, name: string)
    requires at <= |order| && name !in order
    ensures Without(Inserted(order, at, name), name) == order
  {
    hide IndexOf;
    var more := Inserted(order, at, name);
    assert more[..at] == order[..at] && more[at + 1..] == order[at..] && more[at] == name;
    FirstIndexIs(more, at, name);
    assert order[..at] + order[at..] == order;
  }

  /** DROP COLUMN undoes ADD COLUMN. */
  lemma AddThenDropColumn(t: Table, column: Column, after: Option<string>)
    requires WellOrdered(t) && column.name !in t.columns
    requires AfterClause(t, AddColumn(column, false, after)).Some?
    ensures AfterClause(AfterClause(t, AddColumn(column, false, after)).value, DropColumn(column.name, false)) == Some(t)
  {
    assert column.name !in t.order;
    hide WellOrdered, Inserted, Without, IndexOf;
    var at := if after.None? then |t.order| - 1 else IndexOf(t.order, after.value);
    var n := t.(columns := t.columns[column.name := column], order := Inserted(t.order, at + 1, column.name));
    assert AfterClause(t, AddColumn(column, false, after)) == Some(n);
    WithoutInserted(t.order, at + 1, column.name);
    DropIs(n, column.name);
    hide AfterClause;
    assert n.columns - {column.name} == t.columns;
  }

  lemma DropIs(t: Table, name: string)
    requires name in t.columns
    ensures AfterClause(t, DropColumn(name, false)) ==
            Some(t.(columns := t.columns - {name}, order := Without(t.order, name)))
  {
    hide Without;
  }

  /** ADD COLUMN puts the column last, or right after the first place of the named one. */
  lemma AddedColumnIsPlaced(t: Table, column: Column, after: Option<string>)
    requires WellOrdered(t) && column.name !in t.columns
    requires AfterClause(t, AddColumn(column, false, after)).Some?
    ensures var n := AfterClause(t, AddColumn(column, false, after)).value;
            && column.name in n.columns && n.columns[column.name] == column
            && (if after.None? then n.order == t.order + [column.name]
                else
                  var i := IndexOf(n.order, after.value);
                  && 0 <= i && i + 1 < |n.order| && n.order[i + 1] == column.name
                  && n.order[..i + 1] == t.order[..i + 1] && n.order[i + 2..] == t.order[i + 1..])
  {
    hide WellOrdered, IndexOf, Inserted;
    if after.None? {
      InsertedLast(t.order, column.name);
    } else {
      InsertedAfter(t.order, column.name, after.value);
    }
  }

  lemma InsertedLast(order: seq<string>, name: string)
    ensures Inserted(order, |order|, name) == order + [name]
  {
    assert order[..|order|] == order && order[|order|..] == [];
  }

  lemma InsertedAfter(order: seq<string>, name: string, x: string)
    requires x in order
    ensures var i := IndexOf(order, x);
            var more := Inserted(order, i + 1, name);
            && IndexOf(more, x) == i && i + 1 < |more| && more[i + 1] == name
            && more[..i + 1] == order[..i + 1] && more[i + 2..] == order[i + 1..]
  {
    hide IndexOf;
    var i := IndexOf(order, x);
    var more := Inserted(order, i + 1, name);
    assert more[..i] == order[..i] && more[i] == order[i];
    FirstIndexIs(more, i, x);
  }
}
