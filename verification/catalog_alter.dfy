/**
 What a refused ALTER TABLE leaves behind.  The clauses write into the column map of the
 published table, and into the array of its column order until that array is full; only
 the length of the order, and a grown array, are published at the end.
 */
module CatalogAlter {
  import opened Wrappers
  import opened Catalog
  import opened CatalogProofs

  /**
   The columns, which the catalog shares; the order as the clauses see it; the order as the
   catalog sees it; and the room behind the order, or None once it has an array of its own.
   */
  datatype Work = Work(columns: map<string, Column>, order: seq<string>, seen: seq<string>, room: Option<nat>)

  /** The cells of a longer view of an array, after order is written to its start. */
  function Overlay(order: seq<string>, seen: seq<string>): (r: seq<string>)
    ensures |r| == |seen|
    ensures forall k :: 0 <= k < |seen| ==> r[k] == if k < |order| then order[k] else seen[k]
  {
    seq(|seen|, k requires 0 <= k < |seen| => if k < |order| then order[k] else seen[k])
  }

  /** append: in place while there is room, and else in a new array. */
  function Grown(w: Work, order: seq<string>): Work {
    if w.room.None? || w.room == Some(0) then w.(order := order, room := None)
    else w.(order := order, seen := Overlay(order, w.seen), room := Some(w.room.value - 1))
  }

  /** The later names move down in place. */
  function Shrunk(w: Work, order: seq<string>): Work {
    if w.room.None? then w.(order := order)
    else w.(order := order, seen := Overlay(order, w.seen), room := Some(w.room.value + 1))
  }

  datatype Result = Result(work: Work, ok: bool)

  /** One clause of the loop: what it writes, and whether it goes on. */
  function Worked(w: Work, clause: Clause): Result {
    match clause
    case AddColumn(column, ifNotExists, after) =>
      if column.name in w.columns then Result(w, ifNotExists)
      else
        var added := w.(columns := w.columns[column.name := column]);
        var at := if after.None? then |w.order| - 1 else IndexOf(w.order, after.value);
        if after.Some? && at < 0 then Result(added, false)
        else Result(Grown(added, Inserted(w.order, at + 1, column.name)), true)
    case ModifyColumn(column, ifExists) =>
      if column.name !in w.columns then Result(w, ifExists)
      else Result(w.(columns := w.columns[column.name := Modified(w.columns[column.name], column)]), true)
    case DropColumn(name, ifExists) =>
      if name !in w.columns then Result(w, ifExists)
      else Result(Shrunk(w.(columns := w.columns - {name}), Without(w.order, name)), true)
    case Ignored => Result(w, true)
    case Rejected => Result(w, false)
  }

  function WorkedAll(w: Work, clauses: seq<Clause>): Result
    decreases clauses
  {
    if clauses == [] then Result(w, true)
    else
      var next := Worked(w, clauses[0]);
      if !next.ok then next else WorkedAll(next.work, clauses[1..])
  }

  function Start(t: Table, spare: nat): Work {
    Work(t.columns, t.order, t.order, Some(spare))
  }

  /** The table in the catalog while the clauses are at w. */
  function Seen(t: Table, w: Work): Table {
    t.(columns := w.columns, order := w.seen)
  }

  /** The state that an ALTER leaves, whether it is accepted or not. */
  function LeftByAlter(s: State, name: string, clauses: seq<Clause>, spare: nat): State {
    if name == MIGRATIONS || name in s.external || Rejected in clauses || name !in s.physical then s
    else
      var t := s.physical[name];
      var end := WorkedAll(Start(t, spare), clauses);
      s.(physical := s.physical[name := if end.ok then t.(columns := end.work.columns, order := end.work.order)
                                        else Seen(t, end.work)])
  }

  // ----- an accepted ALTER does not depend on the array -----

  lemma ClauseAgrees(t: Table, w: Work, clause: Clause)
    requires w.columns == t.columns && w.order == t.order
    ensures var next := Worked(w, clause);
            && next.ok == AfterClause(t, clause).Some?
            && (next.ok ==> AfterClause(t, clause) == Some(t.(columns := next.work.columns, order := next.work.order)))
  {
    hide Inserted, Without, IndexOf, Modified, Overlay;
  }

  lemma {:induction false} ClausesAgree(t: Table, w: Work, clauses: seq<Clause>)
    requires w.columns == t.columns && w.order == t.order
    ensures var end := WorkedAll(w, clauses);
            && end.ok == AfterClauses(t, clauses).Some?
            && (end.ok ==> AfterClauses(t, clauses) == Some(t.(columns := end.work.columns, order := end.work.order)))
    decreases clauses
  {
    hide Worked, AfterClause;
    if clauses != [] {
      ClauseAgrees(t, w, clauses[0]);
      var next := Worked(w, clauses[0]);
      if next.ok {
        ClausesAgree(AfterClause(t, clauses[0]).value, next.work, clauses[1..]);
      }
    }
  }

  /** For an accepted ALTER, the state it leaves is the one of the value model. */
  lemma AcceptedLeaves(s: State, name: string, clauses: seq<Clause>, spare: nat)
    requires AfterAlter(s, name, clauses).Some?
    ensures LeftByAlter(s, name, clauses, spare) == AfterAlter(s, name, clauses).value
  {
    hide WorkedAll, AfterClauses;
    if name != MIGRATIONS {
      ClausesAgree(s.physical[name], Start(s.physical[name], spare), clauses);
    }
  }

  // ----- when a refused ALTER changes nothing -----

  /** A clause that is accepted and changes nothing. */
  predicate IsIdle(t: Table, clause: Clause) {
    match clause
    case AddColumn(column, ifNotExists, _) => column.name in t.columns && ifNotExists
    case ModifyColumn(column, ifExists) =>
      if column.name in t.columns then Modified(t.columns[column.name], column) == t.columns[column.name] else ifExists
    case DropColumn(name, ifExists) => name !in t.columns && ifExists
    case Ignored => true
    case Rejected => false
  }

  /** A new column behind an unknown one: refused after the column is in. */
  predicate AddsLate(t: Table, clause: Clause) {
    clause.AddColumn? && clause.column.name !in t.columns && clause.after.Some? && clause.after.value !in t.order
  }

  /** Every clause before the refused one is idle, and that one does not add late. */
  predicate RefusesIdly(t: Table, clauses: seq<Clause>)
    decreases clauses
  {
    && clauses != []
    && if AfterClause(t, clauses[0]).None? then !AddsLate(t, clauses[0])
       else IsIdle(t, clauses[0]) && RefusesIdly(t, clauses[1..])
  }

  function NameOf(clause: Clause): Option<string> {
    match clause
    case AddColumn(column, _, _) => Some(column.name)
    case ModifyColumn(column, _) => Some(column.name)
    case DropColumn(name, _) => Some(name)
    case _ => None
  }

  /** No two clauses name one column. */
  predicate NamesOnce(clauses: seq<Clause>) {
    forall i, j :: 0 <= i < j < |clauses| && NameOf(clauses[i]).Some? ==> NameOf(clauses[i]) != NameOf(clauses[j])
  }

  lemma IdleKeeps(t: Table, w: Work, clause: Clause)
    requires w.columns == t.columns && w.order == t.order && IsIdle(t, clause)
    ensures Worked(w, clause) == Result(w, true) && AfterClause(t, clause) == Some(t)
  {
    hide Inserted, Without, IndexOf, Modified;
    if clause.ModifyColumn? && clause.column.name in t.columns {
      assert t.columns[clause.column.name := t.columns[clause.column.name]] == t.columns;
    }
  }

  /** A refused clause writes nothing, or adds late. */
  lemma RefusedClause(t: Table, w: Work, clause: Clause)
    requires w.columns == t.columns && w.order == t.order && AfterClause(t, clause).None?
    ensures !Worked(w, clause).ok
    ensures var now := Worked(w, clause).work;
            if AddsLate(t, clause) then
              now == w.(columns := w.columns[clause.column.name := clause.column]) && now.columns != w.columns
            else now == w
  {
    hide Inserted, Without, Modified;
    if AddsLate(t, clause) {
      assert clause.column.name in Worked(w, clause).work.columns;
    }
  }

  /** An accepted clause that is not idle changes the column that it names. */
  lemma BusyChanges(t: Table, w: Work, clause: Clause)
    requires w.columns == t.columns && w.order == t.order && AfterClause(t, clause).Some? && !IsIdle(t, clause)
    ensures NameOf(clause).Some?
    ensures ColumnAt(Worked(w, clause).work.columns, NameOf(clause).value) != ColumnAt(t.columns, NameOf(clause).value)
  {
    hide Inserted, Without, IndexOf, Modified;
  }

  function ColumnAt(columns: map<string, Column>, name: string): Option<Column> {
    if name in columns then Some(columns[name]) else None
  }

  /** A column that no clause names stays. */
  lemma {:induction false} UnnamedStays(w: Work, clauses: seq<Clause>, name: string)
    requires forall k :: 0 <= k < |clauses| ==> NameOf(clauses[k]) != Some(name)
    ensures ColumnAt(WorkedAll(w, clauses).work.columns, name) == ColumnAt(w.columns, name)
    decreases clauses
  {
    hide Worked, ColumnAt;
    if clauses != [] {
      UnnamedStep(w, clauses[0], name);
      UnnamedStays(Worked(w, clauses[0]).work, clauses[1..], name);
    }
  }

  lemma UnnamedStep(w: Work, clause: Clause, name: string)
    requires NameOf(clause) != Some(name)
    ensures ColumnAt(Worked(w, clause).work.columns, name) == ColumnAt(w.columns, name)
  {
    hide Inserted, Without, IndexOf, Modified, Overlay;
  }

  /** Idle clauses before the refusal leave all as it was, whatever the clauses name. */
  lemma {:induction false} IdleLeaves(t: Table, w: Work, clauses: seq<Clause>)
    requires w.columns == t.columns && w.order == t.order && RefusesIdly(t, clauses)
    ensures WorkedAll(w, clauses) == Result(w, false)
    decreases clauses
  {
    hide Worked, AfterClause, IsIdle, AddsLate;
    if AfterClause(t, clauses[0]).None? {
      RefusedClause(t, w, clauses[0]);
    } else {
      IdleKeeps(t, w, clauses[0]);
      IdleLeaves(t, w, clauses[1..]);
    }
  }

  /** When no column is named twice, any other refusal leaves other columns. */
  lemma {:induction false} BusyLeaves(t: Table, w: Work, clauses: seq<Clause>)
    requires w.columns == t.columns && w.order == t.order && NamesOnce(clauses)
    requires AfterClauses(t, clauses).None? && !RefusesIdly(t, clauses)
    ensures WorkedAll(w, clauses).work.columns != w.columns
    decreases clauses
  {
    hide Worked, AfterClause, IsIdle, AddsLate, NameOf;
    if AfterClause(t, clauses[0]).None? {
      RefusedClause(t, w, clauses[0]);
    } else if IsIdle(t, clauses[0]) {
      IdleKeeps(t, w, clauses[0]);
      BusyLeaves(t, w, clauses[1..]);
    } else {
      BusyChanges(t, w, clauses[0]);
      ClauseAgrees(t, w, clauses[0]);
      var name := NameOf(clauses[0]).value;
      forall k | 0 <= k < |clauses[1..]| ensures NameOf(clauses[1..][k]) != Some(name) {
        assert NameOf(clauses[0]) != NameOf(clauses[k + 1]);
      }
      UnnamedStays(Worked(w, clauses[0]).work, clauses[1..], name);
    }
  }

  /**
   Main result: a refused ALTER whose clauses name each column once changes nothing exactly
   when all clauses before the refused one are idle, and that one adds no column late.
   */
  lemma RefusedChangesNothingIff(s: State, name: string, clauses: seq<Clause>, spare: nat)
    requires name != MIGRATIONS && name !in s.external && Rejected !in clauses && name in s.physical
    requires AfterAlter(s, name, clauses).None? && NamesOnce(clauses)
    ensures LeftByAlter(s, name, clauses, spare) == s <==> RefusesIdly(s.physical[name], clauses)
  {
    hide WorkedAll, AfterClauses, RefusesIdly, NamesOnce;
    var t := s.physical[name];
    var w := Start(t, spare);
    ClausesAgree(t, w, clauses);
    if RefusesIdly(t, clauses) {
      IdleLeaves(t, w, clauses);
      assert LeftByAlter(s, name, clauses, spare).physical == s.physical;
    } else {
      BusyLeaves(t, w, clauses);
      assert LeftByAlter(s, name, clauses, spare).physical[name] != t;
    }
  }

  // ----- columns named more than once -----

  /** The clauses before the one that is refused. */
  function Accepted(t: Table, clauses: seq<Clause>): (p: seq<Clause>)
    ensures |p| <= |clauses|
    decreases clauses
  {
    if clauses == [] || AfterClause(t, clauses[0]).None? then []
    else [clauses[0]] + Accepted(AfterClause(t, clauses[0]).value, clauses[1..])
  }

  lemma {:induction false} LengthIsColumns(order: seq<string>, columns: set<string>)
    requires (forall c :: c in columns <==> c in order) && Once(order)
    ensures |order| == |columns|
  {
    if order != [] {
      var last, before := order[|order| - 1], order[..|order| - 1];
      assert order == before + [last];
      assert Once(before) && last !in before;
      LengthIsColumns(before, columns - {last});
    }
  }

  // The array of the column order, from the tables that the clauses pass through.

  /** A clause that adds a column while the array is full. */
  predicate Outgrows(t: Table, clause: Clause, cap: nat) {
    clause.AddColumn? && clause.column.name !in t.columns && |t.order| >= cap
  }

  predicate Stops(t: Table, clauses: seq<Clause>) {
    clauses == [] || AfterClause(t, clauses[0]).None?
  }

  /** No clause before the refused one outgrows the array. */
  predicate Fits(t: Table, clauses: seq<Clause>, cap: nat)
    decreases clauses
  {
    Stops(t, clauses) ||
    (!Outgrows(t, clauses[0], cap) && Fits(AfterClause(t, clauses[0]).value, clauses[1..], cap))
  }

  /** The last table whose order is in the array that the catalog sees. */
  function LastShared(t: Table, clauses: seq<Clause>, cap: nat): Table
    decreases clauses
  {
    if Stops(t, clauses) || Outgrows(t, clauses[0], cap) then t
    else LastShared(AfterClause(t, clauses[0]).value, clauses[1..], cap)
  }

  /** The cell at k of that array: the name at k in the last of its orders that is longer than k. */
  function Cell(t: Table, clauses: seq<Clause>, cap: nat, k: nat, was: string): string
    decreases clauses
  {
    var now := if k < |t.order| then t.order[k] else was;
    if Stops(t, clauses) || Outgrows(t, clauses[0], cap) then now
    else Cell(AfterClause(t, clauses[0]).value, clauses[1..], cap, k, now)
  }

  predicate CellsReturn(t: Table, clauses: seq<Clause>, cap: nat) {
    forall k :: 0 <= k < |t.order| ==> Cell(t, clauses, cap, k, t.order[k]) == t.order[k]
  }

  /** The columns that the clauses leave, with the one that the refused clause adds late. */
  function ColumnsLeft(t: Table, clauses: seq<Clause>): map<string, Column>
    decreases clauses
  {
    if clauses == [] then t.columns
    else if AfterClause(t, clauses[0]).Some? then ColumnsLeft(AfterClause(t, clauses[0]).value, clauses[1..])
    else if AddsLate(t, clauses[0]) then t.columns[clauses[0].column.name := clauses[0].column]
    else t.columns
  }

  /** The work w is at table t, and still writes into the array of cap cells that the catalog sees. */
  predicate Shares(t: Table, w: Work, cap: nat) {
    && w.columns == t.columns && w.order == t.order
    && |t.order| <= cap && w.room == Some(cap - |t.order|)
    && forall k :: 0 <= k < |w.seen| && k < |w.order| ==> w.seen[k] == w.order[k]
  }

  /** A clause that does not outgrow the array writes the new order to its start. */
  lemma StepShares(t: Table, w: Work, clause: Clause, cap: nat)
    requires Shares(t, w, cap) && AfterClause(t, clause).Some? && !Outgrows(t, clause, cap)
    requires WellOrdered(t)
    ensures var n, now := AfterClause(t, clause).value, Worked(w, clause).work;
            Shares(n, now, cap) && now.seen == Overlay(n.order, w.seen)
  {
    hide Inserted, Without, IndexOf, Modified, WellOrdered;
    match clause
    case DropColumn(name, _) =>
      if name in t.columns {
        DroppedIsShorter(t, name);
      } else {
        Unmoved(w);
      }
    case AddColumn(column, _, after) =>
      if column.name in t.columns {
        Unmoved(w);
      } else {
        InsertedIsLonger(t.order, if after.None? then |t.order| else IndexOf(t.order, after.value) + 1, column.name);
      }
    case _ => Unmoved(w);
  }

  lemma Unmoved(w: Work)
    requires forall k :: 0 <= k < |w.seen| && k < |w.order| ==> w.seen[k] == w.order[k]
    ensures Overlay(w.order, w.seen) == w.seen
  {
  }

  lemma InsertedIsLonger(order: seq<string>, at: nat, name: string)
    requires at <= |order|
    ensures |Inserted(order, at, name)| == |order| + 1
  {
  }

  lemma DroppedIsShorter(t: Table, name: string)
    requires WellOrdered(t) && name in t.columns
    ensures |Without(t.order, name)| == |t.order| - 1
  {
    assert name in t.order;
  }

  /** An array that was outgrown keeps its cells. */
  lemma {:induction false} OutgrownStays(w: Work, clauses: seq<Clause>)
    requires w.room.None?
    ensures WorkedAll(w, clauses).work.seen == w.seen
    decreases clauses
  {
    hide Inserted, Without, IndexOf, Modified, Overlay;
    if clauses != [] {
      OutgrownStays(Worked(w, clauses[0]).work, clauses[1..]);
    }
  }

  lemma OutgrownAt(t: Table, w: Work, clause: Clause, cap: nat)
    requires Shares(t, w, cap) && AfterClause(t, clause).Some? && Outgrows(t, clause, cap)
    ensures var now := Worked(w, clause).work; now.seen == w.seen && now.room.None?
  {
    hide Inserted, Without, IndexOf, Modified;
  }

  /** What the catalog sees, cell by cell, for any clauses and any array. */
  lemma {:induction false} CellsAre(t: Table, w: Work, clauses: seq<Clause>, cap: nat)
    requires Shares(t, w, cap) && WellOrdered(t)
    ensures var end := WorkedAll(w, clauses).work;
            && |end.seen| == |w.seen|
            && forall k :: 0 <= k < |w.seen| ==> end.seen[k] == Cell(t, clauses, cap, k, w.seen[k])
    decreases clauses
  {
    hide Worked, AfterClause, WellOrdered, Outgrows, AddsLate;
    if clauses != [] {
      ClauseAgrees(t, w, clauses[0]);
      if AfterClause(t, clauses[0]).None? {
        RefusedClause(t, w, clauses[0]);
      } else if Outgrows(t, clauses[0], cap) {
        OutgrownAt(t, w, clauses[0], cap);
        OutgrownStays(Worked(w, clauses[0]).work, clauses[1..]);
      } else {
        CellsAfterStep(t, w, clauses, cap);
      }
    }
  }

  lemma {:induction false} CellsAfterStep(t: Table, w: Work, clauses: seq<Clause>, cap: nat)
    requires Shares(t, w, cap) && WellOrdered(t) && clauses != []
    requires AfterClause(t, clauses[0]).Some? && !Outgrows(t, clauses[0], cap) && Worked(w, clauses[0]).ok
    ensures var end := WorkedAll(w, clauses).work;
            && |end.seen| == |w.seen|
            && forall k :: 0 <= k < |w.seen| ==> end.seen[k] == Cell(t, clauses, cap, k, w.seen[k])
    decreases clauses, 0
  {
    hide Worked, AfterClause, WellOrdered, Outgrows, AddsLate;
    var n, now := AfterClause(t, clauses[0]).value, Worked(w, clauses[0]).work;
    StepShares(t, w, clauses[0], cap);
    ClauseIsOrdered(t, clauses[0]);
    CellsAre(n, now, clauses[1..], cap);
    var end := WorkedAll(w, clauses).work;
    forall k | 0 <= k < |w.seen| ensures end.seen[k] == Cell(t, clauses, cap, k, w.seen[k]) {
      CellStep(t, clauses, cap, k, w.seen[k]);
      CellForgets(n, clauses[1..], cap, k, now.seen[k], w.seen[k]);
    }
  }

  lemma CellStep(t: Table, clauses: seq<Clause>, cap: nat, k: nat, was: string)
    requires !Stops(t, clauses) && !Outgrows(t, clauses[0], cap) && (k < |t.order| ==> was == t.order[k])
    ensures Cell(t, clauses, cap, k, was) == Cell(AfterClause(t, clauses[0]).value, clauses[1..], cap, k, was)
  {
    hide AfterClause, Outgrows;
  }

  /** What a cell held before counts only if the order is not that long. */
  lemma CellForgets(t: Table, clauses: seq<Clause>, cap: nat, k: nat, a: string, b: string)
    requires k >= |t.order| ==> a == b
    ensures Cell(t, clauses, cap, k, a) == Cell(t, clauses, cap, k, b)
  {
    hide AfterClause, Outgrows;
  }

  lemma {:induction false} ColumnsAre(t: Table, w: Work, clauses: seq<Clause>)
    requires w.columns == t.columns && w.order == t.order
    ensures WorkedAll(w, clauses).work.columns == ColumnsLeft(t, clauses)
    decreases clauses
  {
    hide Worked, AfterClause, AddsLate;
    if clauses != [] {
      ClauseAgrees(t, w, clauses[0]);
      if AfterClause(t, clauses[0]).None? {
        RefusedClause(t, w, clauses[0]);
      } else {
        ColumnsAre(AfterClause(t, clauses[0]).value, Worked(w, clauses[0]).work, clauses[1..]);
      }
    }
  }

  /** The clauses of this ALTER are reached, and one of them is refused. */
  predicate RefusedInClauses(s: State, name: string, clauses: seq<Clause>) {
    && name != MIGRATIONS && name !in s.external && Rejected !in clauses && name in s.physical
    && AfterAlter(s, name, clauses).None?
  }

  /**
   Main result, for any refused ALTER and any array: it changes nothing exactly when its table
   or a clause is refused at once, or the columns return and every cell of the order holds its
   name again.
   */
  lemma RefusedIff(s: State, name: string, clauses: seq<Clause>, spare: nat)
    requires Consistent(s) && AfterAlter(s, name, clauses).None?
    ensures LeftByAlter(s, name, clauses, spare) == s <==>
            RefusedInClauses(s, name, clauses) ==>
              var t := s.physical[name];
              ColumnsLeft(t, clauses) == t.columns && CellsReturn(t, clauses, |t.order| + spare)
  {
    hide WorkedAll, AfterClauses, WellOrdered, Start, Cell, ColumnsLeft, CellsReturn;
    if RefusedInClauses(s, name, clauses) {
      var t := s.physical[name];
      StartIs(t, spare);
      ClausesAgree(t, Start(t, spare), clauses);
      StartReturns(t, clauses, spare);
      LeftIs(s, name, clauses, spare, WorkedAll(Start(t, spare), clauses).work);
    }
  }

  lemma StartReturns(t: Table, clauses: seq<Clause>, spare: nat)
    requires WellOrdered(t)
    ensures var end := WorkedAll(Start(t, spare), clauses).work;
            && (end.seen == t.order <==> CellsReturn(t, clauses, |t.order| + spare))
            && end.columns == ColumnsLeft(t, clauses)
  {
    hide WorkedAll, WellOrdered, Start, Cell, ColumnsLeft;
    var w := Start(t, spare);
    StartIs(t, spare);
    CellsAre(t, w, clauses, |t.order| + spare);
    ColumnsAre(t, w, clauses);
  }

  // The same in three cases: the array is outgrown, or the refused clause adds late, or neither.

  lemma {:induction false} LastCell(t: Table, clauses: seq<Clause>, cap: nat, k: nat, was: string)
    requires k < |LastShared(t, clauses, cap).order|
    ensures Cell(t, clauses, cap, k, was) == LastShared(t, clauses, cap).order[k]
    decreases clauses
  {
    hide AfterClause, Outgrows;
    if !Stops(t, clauses) && !Outgrows(t, clauses[0], cap) {
      var now := if k < |t.order| then t.order[k] else was;
      LastCell(AfterClause(t, clauses[0]).value, clauses[1..], cap, k, now);
    }
  }

  lemma {:induction false} OutgrownIsFull(t: Table, clauses: seq<Clause>, cap: nat)
    requires !Fits(t, clauses, cap)
    ensures |LastShared(t, clauses, cap).order| >= cap
    decreases clauses
  {
    hide AfterClause;
    if !Outgrows(t, clauses[0], cap) {
      OutgrownIsFull(AfterClause(t, clauses[0]).value, clauses[1..], cap);
    }
  }

  /** While the array fits, the last order in it is that of the clauses before the refusal. */
  lemma {:induction false} FittingIsLast(t: Table, clauses: seq<Clause>, cap: nat)
    requires Fits(t, clauses, cap)
    ensures AfterClauses(t, Accepted(t, clauses)) == Some(LastShared(t, clauses, cap))
    decreases clauses
  {
    hide AfterClause, Outgrows;
    if !Stops(t, clauses) {
      var n, p := AfterClause(t, clauses[0]).value, Accepted(t, clauses);
      FittingIsLast(n, clauses[1..], cap);
      assert p[0] == clauses[0] && p[1..] == Accepted(n, clauses[1..]);
    }
  }

  lemma {:induction false} ColumnsOfRefused(t: Table, clauses: seq<Clause>)
    requires AfterClauses(t, clauses).None?
    ensures var p := Accepted(t, clauses);
            && |p| < |clauses| && AfterClauses(t, p).Some?
            && var (n, c) := (AfterClauses(t, p).value, clauses[|p|]);
               ColumnsLeft(t, clauses) == if AddsLate(n, c) then n.columns[c.column.name := c.column] else n.columns
    decreases clauses
  {
    hide AfterClause, AddsLate;
    if AfterClause(t, clauses[0]).Some? {
      var n, p := AfterClause(t, clauses[0]).value, Accepted(t, clauses);
      ColumnsOfRefused(n, clauses[1..]);
      assert p[0] == clauses[0] && p[1..] == Accepted(n, clauses[1..]);
      assert clauses[|p|] == clauses[1..][|p| - 1];
    }
  }

  /** How many names the accepted clauses leave, when the columns return. */
  lemma LengthLeft(t: Table, n: Table, columns: map<string, Column>, c: Clause)
    requires WellOrdered(t) && WellOrdered(n) && columns == t.columns
    requires columns == if AddsLate(n, c) then n.columns[c.column.name := c.column] else n.columns
    ensures |n.order| == if AddsLate(n, c) then |t.order| - 1 else |t.order|
  {
    LengthIsColumns(t.order, t.columns.Keys);
    LengthIsColumns(n.order, n.columns.Keys);
    if AddsLate(n, c) {
      assert t.columns.Keys == n.columns.Keys + {c.column.name};
    }
  }

  /** The cells return exactly when the last order does, as far as it reaches, and the rest of them. */
  lemma CellsReturnIff(t: Table, clauses: seq<Clause>, cap: nat)
    ensures CellsReturn(t, clauses, cap) <==>
            && forall k :: 0 <= k < |t.order| ==>
                 if k < |LastShared(t, clauses, cap).order| then LastShared(t, clauses, cap).order[k] == t.order[k]
                 else Cell(t, clauses, cap, k, t.order[k]) == t.order[k]
  {
    hide Cell, LastShared;
    forall k | 0 <= k < |LastShared(t, clauses, cap).order| && k < |t.order|
      ensures Cell(t, clauses, cap, k, t.order[k]) == LastShared(t, clauses, cap).order[k]
    {
      LastCell(t, clauses, cap, k, t.order[k]);
    }
  }

  /** One cell alone lies behind an order that is shorter by one. */
  lemma CellsOfLast(t: Table, clauses: seq<Clause>, cap: nat)
    ensures var (l, last) := (|t.order|, LastShared(t, clauses, cap).order);
            && (|last| >= l ==> (CellsReturn(t, clauses, cap) <==> t.order <= last))
            && (|last| == l - 1 ==>
                  (CellsReturn(t, clauses, cap) <==>
                   last == t.order[..l - 1] && Cell(t, clauses, cap, l - 1, t.order[l - 1]) == t.order[l - 1]))
  {
    hide Cell, LastShared, CellsReturn;
    CellsReturnIff(t, clauses, cap);
  }

  /** The clauses before the refused one leave n, and late says whether that one adds late. */
  predicate OrderReturns(t: Table, n: Table, late: bool, clauses: seq<Clause>, cap: nat) {
    var l := |t.order|;
    if !Fits(t, clauses, cap) then t.order <= LastShared(t, clauses, cap).order
    else if !late then n.order == t.order
    else l > 0 && n.order == t.order[..l - 1] && Cell(t, clauses, cap, l - 1, t.order[l - 1]) == t.order[l - 1]
  }

  lemma OrderReturnsIff(t: Table, n: Table, late: bool, clauses: seq<Clause>, cap: nat)
    requires |t.order| <= cap && AfterClauses(t, Accepted(t, clauses)) == Some(n)
    requires |n.order| == if late then |t.order| - 1 else |t.order|
    ensures CellsReturn(t, clauses, cap) <==> OrderReturns(t, n, late, clauses, cap)
  {
    hide Accepted, AfterClauses, LastShared, Fits, Cell, CellsReturn;
    CellsOfLast(t, clauses, cap);
    if Fits(t, clauses, cap) {
      FittingIsLast(t, clauses, cap);
    } else {
      OutgrownIsFull(t, clauses, cap);
    }
  }

  /**
   The three cases.  Once the array is outgrown, its order must start with that of the table.
   Else the accepted clauses must return the table; or, before a late column, all but the last
   name, which the last long order must have left in its cell.
   */
  lemma RefusedCases(s: State, name: string, clauses: seq<Clause>, spare: nat)
    requires Consistent(s) && RefusedInClauses(s, name, clauses)
    ensures var t := s.physical[name];
            var p := Accepted(t, clauses);
            && |p| < |clauses| && AfterClauses(t, p).Some?
            && var (n, c) := (AfterClauses(t, p).value, clauses[|p|]);
               LeftByAlter(s, name, clauses, spare) == s <==>
               && (if AddsLate(n, c) then n.columns[c.column.name := c.column] else n.columns) == t.columns
               && OrderReturns(t, n, AddsLate(n, c), clauses, |t.order| + spare)
  {
    hide Accepted, AfterClauses, AfterAlter, AddsLate, WellOrdered, CellsReturn, ColumnsLeft, LeftByAlter, OrderReturns;
    var t := s.physical[name];
    RefusedIff(s, name, clauses, spare);
    NoneFromClauses(s, name, clauses);
    ColumnsOfRefused(t, clauses);
    var p := Accepted(t, clauses);
    var n, late := AfterClauses(t, p).value, AddsLate(AfterClauses(t, p).value, clauses[|p|]);
    if ColumnsLeft(t, clauses) == t.columns {
      ClausesAreOrdered(t, p);
      LengthLeft(t, n, t.columns, clauses[|p|]);
      OrderReturnsIff(t, n, late, clauses, |t.order| + spare);
    }
  }

  /** Every clause adds at most one name. */
  lemma {:induction false} RoomFits(t: Table, clauses: seq<Clause>, cap: nat)
    requires WellOrdered(t) && |t.order| + |clauses| <= cap
    ensures Fits(t, clauses, cap)
    decreases clauses
  {
    hide AfterClause, WellOrdered;
    if !Stops(t, clauses) {
      OneLonger(t, clauses[0]);
      ClauseIsOrdered(t, clauses[0]);
      RoomFits(AfterClause(t, clauses[0]).value, clauses[1..], cap);
    }
  }

  lemma OneLonger(t: Table, clause: Clause)
    requires AfterClause(t, clause).Some?
    ensures |AfterClause(t, clause).value.order| <= |t.order| + 1
  {
    hide IndexOf, Modified;
  }

  /**
   When the array has room for the clauses: a refusal that adds no column late changes nothing
   exactly when the clauses before it, as an ALTER of their own, change nothing.
   */
  lemma RefusedWithRoomIff(s: State, name: string, clauses: seq<Clause>, spare: nat)
    requires Consistent(s) && RefusedInClauses(s, name, clauses) && spare >= |clauses|
    ensures var t := s.physical[name];
            var p := Accepted(t, clauses);
            && |p| < |clauses| && AfterClauses(t, p).Some?
            && (!AddsLate(AfterClauses(t, p).value, clauses[|p|]) ==>
                  (LeftByAlter(s, name, clauses, spare) == s <==> AfterClauses(t, p).value == t))
  {
    hide Accepted, AfterClauses, AfterAlter, AddsLate, WellOrdered, LeftByAlter, Fits, Cell, LastShared;
    var t := s.physical[name];
    RefusedCases(s, name, clauses, spare);
    RoomFits(t, clauses, |t.order| + spare);
    var n := AfterClauses(t, Accepted(t, clauses)).value;
    ClausesKeepRest(t, Accepted(t, clauses));
    assert n.columns == t.columns && n.order == t.order ==> n == t;
  }

  /** ALTER changes columns and order only. */
  lemma {:induction false} ClausesKeepRest(t: Table, clauses: seq<Clause>)
    requires AfterClauses(t, clauses).Some?
    ensures var n := AfterClauses(t, clauses).value; n.name == t.name && n.engine == t.engine
    decreases clauses
  {
    hide Inserted, Without, IndexOf, Modified;
    if clauses != [] {
      ClausesKeepRest(AfterClause(t, clauses[0]).value, clauses[1..]);
    }
  }

  lemma NoneFromClauses(s: State, name: string, clauses: seq<Clause>)
    requires RefusedInClauses(s, name, clauses)
    ensures AfterClauses(s.physical[name], clauses).None?
  {
    hide AfterClauses;
  }

  lemma StartIs(t: Table, spare: nat)
    ensures var w := Start(t, spare); w.columns == t.columns && w.order == w.seen == t.order && w.room == Some(spare)
  {
  }

  /** A table is left as it was when its columns and the order that the catalog sees are. */
  lemma LeftIs(s: State, name: string, clauses: seq<Clause>, spare: nat, w: Work)
    requires name != MIGRATIONS && name !in s.external && Rejected !in clauses && name in s.physical
    requires WorkedAll(Start(s.physical[name], spare), clauses) == Result(w, false)
    ensures LeftByAlter(s, name, clauses, spare) == s <==>
            w.columns == s.physical[name].columns && w.seen == s.physical[name].order
  {
    hide WorkedAll, Start;
    var left := LeftByAlter(s, name, clauses, spare);
    assert left.physical[name] == Seen(s.physical[name], w);
    if w.columns == s.physical[name].columns && w.seen == s.physical[name].order {
      assert Seen(s.physical[name], w) == s.physical[name];
      assert left.physical == s.physical;
    }
  }

  // ----- two refusals from a consistent state -----

  function C(name: string): Column {
    Column(name, "Int32", None, None, None, None)
  }

  function Abc(): State {
    State(map["t" := Table("t", map["a" := C("a"), "b" := C("b"), "c" := C("c")], ["a", "b", "c"], None)], map[])
  }

  lemma AbcIsConsistent()
    ensures Consistent(Abc()) && "t" != MIGRATIONS
  {
    assert "t" != MIGRATIONS by { assert |"t"| != |MIGRATIONS|; }
    var t := Abc().physical["t"];
    assert t.order[0] == "a" && t.order[1] == "b" && t.order[2] == "c";
    assert forall c :: c in t.columns <==> c in t.order;
  }

  /** DROP of a column, then of an unknown one: the later names have moved down over the first. */
  lemma DropThenUnknown(t: Table, name: string, unknown: string, spare: nat)
    requires name in t.columns && unknown !in t.columns
    ensures var clauses := [DropColumn(name, false), DropColumn(unknown, false)];
            var end := WorkedAll(Start(t, spare), clauses);
            !end.ok && end.work.columns == t.columns - {name} && end.work.seen == Overlay(Without(t.order, name), t.order)
  {
    hide Overlay, Without;
    var clauses := [DropColumn(name, false), DropColumn(unknown, false)];
    var next := Worked(Start(t, spare), clauses[0]).work;
    assert clauses[1..][0] == clauses[1];
    assert Worked(next, clauses[1]) == Result(next, false);
    assert WorkedAll(next, clauses[1..]) == Result(next, false);
  }

  lemma AbcTable()
    ensures "t" in Abc().physical && "t" !in Abc().external
    ensures var t := Abc().physical["t"]; "a" in t.columns && "d" !in t.columns && t.order == ["a", "b", "c"]
  {
  }

  lemma FirstDropped()
    ensures Overlay(Without(["a", "b", "c"], "a"), ["a", "b", "c"]) == ["b", "c", "c"]
  {
    var order := ["a", "b", "c"];
    assert IndexOf(order, "a") == 0;
    assert Without(order, "a") == order[..0] + order[1..] == ["b", "c"];
    hide Without, IndexOf;
    assert Overlay(["b", "c"], order) == ["b", "c", "c"];
  }

  /** DROP COLUMN a, DROP COLUMN d: refused at d, and the order in the catalog is b, c, c. */
  lemma RefusedDropOverwrites(spare: nat)
    ensures var clauses := [DropColumn("a", false), DropColumn("d", false)];
            && Consistent(Abc()) && AfterAlter(Abc(), "t", clauses).None?
            && "t" in LeftByAlter(Abc(), "t", clauses, spare).physical
            && LeftByAlter(Abc(), "t", clauses, spare).physical["t"].order == ["b", "c", "c"]
            && !Consistent(LeftByAlter(Abc(), "t", clauses, spare))
  {
    hide Abc, WorkedAll, AfterClauses, Consistent, Overlay, Without, IndexOf, MIGRATIONS;
    AbcIsConsistent();
    AbcTable();
    FirstDropped();
    var t := Abc().physical["t"];
    var clauses := [DropColumn("a", false), DropColumn("d", false)];
    NoneRejected("a", "d");
    DropThenUnknown(t, "a", "d", spare);
    ClausesAgree(t, Start(t, spare), clauses);
    NamedTwice(LeftByAlter(Abc(), "t", clauses, spare), "t", 1, 2);
  }

  lemma NoneRejected(x: string, y: string)
    ensures Rejected !in [DropColumn(x, false), DropColumn(y, false)]
  {
  }

  lemma NamedTwice(s: State, name: string, i: nat, j: nat)
    requires name in s.physical && i < j < |s.physical[name].order|
    requires s.physical[name].order[i] == s.physical[name].order[j]
    ensures !Consistent(s)
  {
    assert !WellOrdered(s.physical[name]);
  }

  /** ADD COLUMN x AFTER d: refused, and the column is in the catalog but not in its order. */
  lemma RefusedAddLeavesColumn(spare: nat)
    ensures var clauses := [AddColumn(C("x"), false, Some("d"))];
            && Consistent(Abc()) && AfterAlter(Abc(), "t", clauses).None?
            && "t" in LeftByAlter(Abc(), "t", clauses, spare).physical
            && "x" in LeftByAlter(Abc(), "t", clauses, spare).physical["t"].columns
            && "x" !in LeftByAlter(Abc(), "t", clauses, spare).physical["t"].order
            && !Consistent(LeftByAlter(Abc(), "t", clauses, spare))
  {
    AbcIsConsistent();
    var t := Abc().physical["t"];
    var clauses := [AddColumn(C("x"), false, Some("d"))];
    var w := Start(t, spare);
    assert "d" !in t.order && "x" !in t.order && "x" !in t.columns;
    assert Worked(w, clauses[0]) == Result(w.(columns := w.columns["x" := C("x")]), false);
    assert WorkedAll(w, clauses) == Worked(w, clauses[0]);
    ClausesAgree(t, w, clauses);
    var left := LeftByAlter(Abc(), "t", clauses, spare).physical["t"];
    assert "x" in left.columns;
    assert !WellOrdered(left);
  }

  // ----- runs -----

  /** The state that a statement leaves; a refusal other than that of an ALTER changes nothing. */
  function LeftBy(s: State, step: Step): State {
    if step.Alter? then LeftByAlter(s, step.name, step.clauses, step.spare)
    else if After(s, step).Some? then After(s, step).value
    else s
  }

  /** The state that a run leaves: it ends at the first refusal. */
  function LeftByRun(s: State, steps: seq<Step>): State
    decreases steps
  {
    if steps == [] then s
    else if After(s, steps[0]).None? then LeftBy(s, steps[0])
    else LeftByRun(LeftBy(s, steps[0]), steps[1..])
  }

  /** For an accepted run, that is the state of the value model. */
  lemma {:induction false} AcceptedRunLeaves(s: State, steps: seq<Step>)
    requires Run(s, steps).Some?
    ensures LeftByRun(s, steps) == Run(s, steps).value
    decreases steps
  {
    if steps != [] {
      AcceptedStepLeaves(s, steps[0]);
      hide After, LeftBy;
      AcceptedRunLeaves(After(s, steps[0]).value, steps[1..]);
    }
  }

  lemma AcceptedStepLeaves(s: State, step: Step)
    requires After(s, step).Some?
    ensures LeftBy(s, step) == After(s, step).value
  {
    if step.Alter? {
      AcceptedLeaves(s, step.name, step.clauses, step.spare);
      hide AfterAlter, LeftByAlter;
    }
  }
}
