/** The catalogs as the replay changes them in place. */
module CatalogReplay {
  import opened Wrappers
  import opened Catalog
  import opened CatalogProofs
  import opened CatalogAlter

  /** The columns of a CREATE TABLE, one after the other. */
  method ParseCreateTable(name: string, columns: seq<Column>, engine: Option<Engine>) returns (table: Option<Table>)
    ensures table == TableOf(name, columns, engine)
  {
    var t := Table(name, map[], [], engine);
    for i := 0 to |columns|
      invariant TableOf(name, columns[..i], engine) == Some(t)
    {
      var column := columns[i];
      assert columns[..i + 1][..i] == columns[..i];
      if column.name in t.columns {
        TableOfPrefix(name, columns, engine, i + 1);
        return None;
      }
      t := t.(columns := t.columns[column.name := column], order := t.order + [column.name]);
    }
    assert columns[..|columns|] == columns;
    return Some(t);
  }

  lemma {:induction false} TableOfPrefix(name: string, columns: seq<Column>, engine: Option<Engine>, n: nat)
    requires n <= |columns| && TableOf(name, columns[..n], engine).None?
    ensures TableOf(name, columns, engine).None?
    decreases |columns|
  {
    if n < |columns| {
      assert columns[..|columns| - 1][..n] == columns[..n];
      TableOfPrefix(name, columns[..|columns| - 1], engine, n);
    } else {
      assert columns[..n] == columns;
    }
  }

  class SchemaCatalogs {
    var physical: Tables
    var external: Tables

    constructor ()
      ensures Now() == State(map[], map[])
    {
      physical := map[];
      external := map[];
    }

    function Now(): State
      reads this
    {
      State(physical, external)
    }

    method ApplyExternalCreate(c: Create) returns (ok: bool)
      modifies this
      ensures ok <==> AfterExternalCreate(old(Now()), c).Some?
      ensures Now() == if ok then AfterExternalCreate(old(Now()), c).value else old(Now())
    {
      if c.source.CopyOf? {
        return false;
      }
      var table := ParseCreateTable(c.name, c.source.columns, c.engine);
      if table.None? || c.engine.Some? || c.name in physical || c.name in external {
        return false;
      }
      external := external[c.name := table.value];
      return true;
    }

    method ApplyPhysicalCreate(c: Create) returns (ok: bool)
      modifies this
      ensures ok <==> AfterPhysicalCreate(old(Now()), c).Some?
      ensures Now() == if ok then AfterPhysicalCreate(old(Now()), c).value else old(Now())
    {
      if c.name == MIGRATIONS {
        return true;
      }
      if c.name in external {
        return false;
      }
      if c.name in physical {
        return c.ifNotExists;
      }
      var table: Option<Table>;
      match c.source {
        case Columns(columns) => table := ParseCreateTable(c.name, columns, c.engine);
        case CopyOf(source) =>
          if source !in physical {
            return false;
          }
          table := Some(physical[source].(name := c.name, engine := EngineOfCopy(physical[source].engine, c.engine)));
      }
      if table.None? {
        return false;
      }
      physical := physical[c.name := table.value];
      return true;
    }

    method ApplyCatalogDrop(target: Target, name: string, ifExists: bool) returns (ok: bool)
      modifies this
      ensures ok <==> AfterDrop(old(Now()), target, name, ifExists).Some?
      ensures Now() == if ok then AfterDrop(old(Now()), target, name, ifExists).value else old(Now())
    {
      match target {
        case ViewTarget => return true;
        case OtherTarget => return false;
        case TableTarget =>
      }
      if name == MIGRATIONS {
        return true;
      }
      if name in external {
        return false;
      }
      if name !in physical {
        return ifExists;
      }
      physical := physical - {name};
      return true;
    }

    /** The pairs work on a copy, which is published only when all of them are accepted. */
    method ApplyCatalogRename(pairs: seq<Pair>) returns (ok: bool)
      modifies this
      ensures ok <==> AfterRename(old(Now()), pairs).Some?
      ensures Now() == if ok then AfterRename(old(Now()), pairs).value else old(Now())
    {
      if pairs == [] {
        return false;
      }
      var tables := physical;
      assert pairs[0..] == pairs;
      for i := 0 to |pairs|
        invariant unchanged(this)
        invariant RenameAll(tables, external, pairs[i..]) == RenameAll(physical, external, pairs)
      {
        var pair := pairs[i];
        assert pairs[i..][0] == pair && pairs[i..][1..] == pairs[i + 1..];
        if pair.qualified || pair.from == MIGRATIONS || pair.to == MIGRATIONS || pair.from in external || pair.to in external {
          return false;
        }
        if pair.from !in tables || pair.to in tables {
          return false;
        }
        var table := tables[pair.from];
        tables := tables - {pair.from};
        tables := tables[pair.to := table.(name := pair.to)];
      }
      physical := tables;
      return true;
    }

    method ApplyCatalogExchange(pairs: seq<Pair>) returns (ok: bool)
      modifies this
      ensures ok <==> AfterExchange(old(Now()), pairs).Some?
      ensures Now() == if ok then AfterExchange(old(Now()), pairs).value else old(Now())
    {
      if |pairs| != 1 || pairs[0].qualified || pairs[0].from == pairs[0].to {
        return false;
      }
      var (a, b) := (pairs[0].from, pairs[0].to);
      if !Exchangeable(Now(), a) || !Exchangeable(Now(), b) {
        return false;
      }
      var left, right := physical[a], physical[b];
      left, right := left.(name := b), right.(name := a);
      physical := physical[a := right][b := left];
      return true;
    }

    /**
     The columns are a map that the catalog shares, and so is the array of the column order
     while it has room: the clauses write into both at once.  Only the length of the order, and
     an array that had to grow, are published when all clauses are accepted.
     */
    method ApplyCatalogAlter(name: string, clauses: seq<Clause>, spare: nat) returns (ok: bool)
      modifies this
      ensures ok <==> AfterAlter(old(Now()), name, clauses).Some?
      ensures Now() == LeftByAlter(old(Now()), name, clauses, spare)
    {
      hide Inserted, Without, IndexOf, Modified, Overlay, AfterClauses, WorkedAll;
      if name == MIGRATIONS {
        return true;
      }
      if name in external || Rejected in clauses || name !in physical {
        return false;
      }
      var table := physical[name];
      var room := Some(spare);
      ghost var was := table;
      ghost var all := WorkedAll(Start(was, spare), clauses);
      ClausesAgree(was, Start(was, spare), clauses);
      PutSame(physical, name);
      assert clauses[0..] == clauses;
      for i := 0 to |clauses|
        invariant external == old(external) && name in physical
        invariant physical == old(physical)[name := physical[name]]
        invariant physical[name] == was.(columns := table.columns, order := physical[name].order)
        invariant table == was.(columns := table.columns, order := table.order)
        invariant WorkedAll(Work(table.columns, table.order, physical[name].order, room), clauses[i..]) == all
      {
        var clause := clauses[i];
        WorkedStep(Work(table.columns, table.order, physical[name].order, room), clauses, i);
        match clause {
          case AddColumn(column, ifNotExists, after) =>
            if column.name in table.columns {
              if !ifNotExists {
                return false;
              }
            } else {
              table := table.(columns := table.columns[column.name := column]);
              physical := physical[name := physical[name].(columns := table.columns)];
              var at := if after.None? then |table.order| - 1 else IndexOf(table.order, after.value);
              if after.Some? && at < 0 {
                return false;
              }
              table := table.(order := Inserted(table.order, at + 1, column.name));
              if room.None? || room == Some(0) {
                room := None;
              } else {
                room := Some(room.value - 1);
                physical := physical[name := physical[name].(order := Overlay(table.order, physical[name].order))];
              }
            }
          case ModifyColumn(column, ifExists) =>
            if column.name !in table.columns {
              if !ifExists {
                return false;
              }
            } else {
              table := table.(columns := table.columns[column.name := Modified(table.columns[column.name], column)]);
              physical := physical[name := physical[name].(columns := table.columns)];
            }
          case DropColumn(dropped, ifExists) =>
            if dropped !in table.columns {
              if !ifExists {
                return false;
              }
            } else {
              table := table.(columns := table.columns - {dropped}, order := Without(table.order, dropped));
              physical := physical[name := physical[name].(columns := table.columns)];
              if room.Some? {
                room := Some(room.value + 1);
                physical := physical[name := physical[name].(order := Overlay(table.order, physical[name].order))];
              }
            }
          case Ignored =>
          case Rejected =>
            return false;
        }
      }
      NothingLeft(Work(table.columns, table.order, physical[name].order, room));
      assert clauses[|clauses|..] == [];
      physical := physical[name := table];
      return true;
    }

    /** A step, as the statement loop of the source dispatches it. */
    method Apply(step: Step) returns (ok: bool)
      modifies this
      ensures ok <==> After(old(Now()), step).Some?
      ensures Now() == LeftBy(old(Now()), step)
    {
      match step {
        case ExternalCreate(create) => ok := ApplyExternalCreate(create);
        case PhysicalCreate(create) => ok := ApplyPhysicalCreate(create);
        case Drop(target, name, ifExists) => ok := ApplyCatalogDrop(target, name, ifExists);
        case Rename(pairs) => ok := ApplyCatalogRename(pairs);
        case Exchange(pairs) => ok := ApplyCatalogExchange(pairs);
        case Alter(name, clauses, spare) => ok := ApplyCatalogAlter(name, clauses, spare);
      }
    }

    /** The whole stream of statements; it ends at the first refusal. */
    method Replay(steps: seq<Step>) returns (ok: bool)
      requires Consistent(Now())
      modifies this
      ensures ok <==> Run(old(Now()), steps).Some?
      ensures ok ==> Now() == Run(old(Now()), steps).value && Consistent(Now())
      ensures Now() == LeftByRun(old(Now()), steps)
    {
      assert steps[0..] == steps;
      for i := 0 to |steps|
        invariant Consistent(Now()) && Run(Now(), steps[i..]) == Run(old(Now()), steps)
        invariant LeftByRun(Now(), steps[i..]) == LeftByRun(old(Now()), steps)
      {
        hide LeftBy, After, Consistent;
        assert steps[i..][0] == steps[i] && steps[i..][1..] == steps[i + 1..];
        ghost var before := Now();
        var accepted := Apply(steps[i]);
        if !accepted {
          return false;
        }
        AcceptedStepLeaves(before, steps[i]);
        StepKeepsConsistent(before, steps[i]);
      }
      return true;
    }
  }

  lemma PutSame(tables: Tables, name: string)
    ensures name in tables ==> tables[name := tables[name]] == tables
  {
  }

  lemma WorkedStep(w: Work, clauses: seq<Clause>, i: nat)
    requires i < |clauses|
    ensures WorkedAll(w, clauses[i..]) ==
            (var next := Worked(w, clauses[i]); if !next.ok then next else WorkedAll(next.work, clauses[i + 1..]))
  {
    hide Worked;
    assert clauses[i..][0] == clauses[i] && clauses[i..][1..] == clauses[i + 1..];
  }

  lemma NothingLeft(w: Work)
    ensures WorkedAll(w, []) == Result(w, true)
  {
  }
}
