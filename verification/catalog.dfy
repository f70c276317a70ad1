/**
 Replay of schema migrations.  Two catalogs, physical tables and external row schemas, are
 changed step by step; a step that cannot be applied is refused.
 */
module Catalog {
  import opened Wrappers

  const MIGRATIONS: string := "schema_migrations"

  /** A column; the clauses that a definition leaves out are None. */
  datatype Column = Column(
    name: string, typeText: string,
    expression: Option<string>, codec: Option<string>, comment: Option<string>, ttl: Option<string>)

  datatype Engine = Engine(
    name: string, orderBy: Option<string>, partitionBy: Option<string>,
    primaryKey: Option<string>, sampleBy: Option<string>)

  datatype Table = Table(name: string, columns: map<string, Column>, order: seq<string>, engine: Option<Engine>)

  type Tables = map<string, Table>

  /** The order lists every column once. */
  ghost predicate WellOrdered(t: Table) {
    && (forall c :: c in t.columns <==> c in t.order)
    && (forall i, j :: 0 <= i < j < |t.order| ==> t.order[i] != t.order[j])
    && (forall c :: c in t.columns ==> t.columns[c].name == c)
  }

  datatype State = State(physical: Tables, external: Tables)

  ghost predicate KeyedByName(tables: Tables) {
    forall k :: k in tables ==> tables[k].name == k && WellOrdered(tables[k])
  }

  /** What holds between any two steps. */
  ghost predicate Consistent(s: State) {
    && s.physical.Keys !! s.external.Keys
    && KeyedByName(s.physical) && KeyedByName(s.external)
    && MIGRATIONS !in s.physical
  }

  // ----- CREATE -----

  /** A table with these columns, in this order; None when a name is used twice. */
  function TableOf(name: string, columns: seq<Column>, engine: Option<Engine>): Option<Table> {
    if columns == [] then Some(Table(name, map[], [], engine))
    else
      var last := columns[|columns| - 1];
      var before := TableOf(name, columns[..|columns| - 1], engine);
      if before.None? || last.name in before.value.columns then None
      else Some(before.value.(columns := before.value.columns[last.name := last], order := before.value.order + [last.name]))
  }

  datatype Source = Columns(columns: seq<Column>) | CopyOf(table: string)

  datatype Create = Create(name: string, source: Source, engine: Option<Engine>, ifNotExists: bool)

  function Or(a: Option<string>, b: Option<string>): Option<string> {
    if a.None? then b else a
  }

  predicate IsMergeTree(name: string) {
    |name| >= 9 && name[|name| - 9..] == "MergeTree"
  }

  /** The engine of a copy: a MergeTree takes over the keys that it does not state. */
  function EngineOfCopy(source: Option<Engine>, stated: Option<Engine>): Option<Engine> {
    if stated.None? then source
    else if source.None? || !IsMergeTree(stated.value.name) then stated
    else
      var (e, was) := (stated.value, source.value);
      Some(Engine(e.name, Or(e.orderBy, was.orderBy), Or(e.partitionBy, was.partitionBy),
                  Or(e.primaryKey, was.primaryKey), Or(e.sampleBy, was.sampleBy)))
  }

  function CreatedTable(s: State, c: Create): Option<Table> {
    match c.source
    case Columns(columns) => TableOf(c.name, columns, c.engine)
    case CopyOf(source) =>
      if source !in s.physical then None
      else Some(s.physical[source].(name := c.name, engine := EngineOfCopy(s.physical[source].engine, c.engine)))
  }

  function AfterExternalCreate(s: State, c: Create): Option<State> {
    if c.source.CopyOf? then None
    else
      var table := TableOf(c.name, c.source.columns, c.engine);
      if table.None? || c.engine.Some? || c.name in s.physical || c.name in s.external then None
      else Some(s.(external := s.external[c.name := table.value]))
  }

  function AfterPhysicalCreate(s: State, c: Create): Option<State> {
    if c.name == MIGRATIONS then Some(s)
    else if c.name in s.external then None
    else if c.name in s.physical then if c.ifNotExists then Some(s) else None
    else
      var table := CreatedTable(s, c);
      if table.None? then None else Some(s.(physical := s.physical[c.name := table.value]))
  }

  // ----- DROP -----

  datatype Target = TableTarget | ViewTarget | OtherTarget

  function AfterDrop(s: State, target: Target, name: string, ifExists: bool): Option<State> {
    match target
    case ViewTarget => Some(s)
    case OtherTarget => None
    case TableTarget =>
      if name == MIGRATIONS then Some(s)
      else if name in s.external then None
      else if name !in s.physical then if ifExists then Some(s) else None
      else Some(s.(physical := s.physical - {name}))
  }

  // ----- RENAME and EXCHANGE -----

  datatype Pair = Pair(from: string, to: string, qualified: bool)

  /** A pair that the names alone permit. */
  predicate Permitted(external: Tables, p: Pair) {
    && !p.qualified
    && p.from != MIGRATIONS && p.to != MIGRATIONS
    && p.from !in external && p.to !in external
  }

  predicate Renames(tables: Tables, external: Tables, p: Pair) {
    Permitted(external, p) && p.from in tables && p.to !in tables
  }

  function Renamed(tables: Tables, p: Pair): Tables
    requires p.from in tables
  {
    (tables - {p.from})[p.to := tables[p.from].(name := p.to)]
  }

  /** The pairs in source order; each sees the names that earlier pairs freed or took. */
  function RenameAll(tables: Tables, external: Tables, pairs: seq<Pair>): Option<Tables>
    decreases pairs
  {
    if pairs == [] then Some(tables)
    else if !Renames(tables, external, pairs[0]) then None
    else RenameAll(Renamed(tables, pairs[0]), external, pairs[1..])
  }

  function AfterRename(s: State, pairs: seq<Pair>): Option<State> {
    if pairs == [] then None
    else
      var tables := RenameAll(s.physical, s.external, pairs);
      if tables.None? then None else Some(s.(physical := tables.value))
  }

  predicate Exchangeable(s: State, name: string) {
    name != MIGRATIONS && name !in s.external && name in s.physical
  }

  function AfterExchange(s: State, pairs: seq<Pair>): Option<State> {
    if |pairs| != 1 || pairs[0].qualified || pairs[0].from == pairs[0].to then None
    else
      var (a, b) := (pairs[0].from, pairs[0].to);
      if !Exchangeable(s, a) || !Exchangeable(s, b) then None
      else Some(s.(physical := s.physical[a := s.physical[b].(name := a)][b := s.physical[a].(name := b)]))
  }

  // ----- ALTER -----

  datatype Clause =
    | AddColumn(column: Column, ifNotExists: bool, after: Option<string>)
    | ModifyColumn(column: Column, ifExists: bool)
    | DropColumn(name: string, ifExists: bool)
    | Ignored
    | Rejected

  function IndexOf(s: seq<string>, x: string): (i: int)
    ensures -1 <= i < |s|
    ensures i >= 0 ==> s[i] == x && x !in s[..i]
    ensures i == -1 <==> x !in s
  {
    if s == [] then -1
    else if s[0] == x then 0
    else
      var i := IndexOf(s[1..], x);
      assert s == [s[0]] + s[1..];
      assert i >= 0 ==> s[..i + 1] == [s[0]] + s[1..][..i];
      if i < 0 then -1 else i + 1
  }

  function Inserted(order: seq<string>, at: nat, name: string): seq<string>
    requires at <= |order|
  {
    order[..at] + [name] + order[at..]
  }

  function Without(order: seq<string>, name: string): seq<string> {
    var i := IndexOf(order, name);
    if i < 0 then order else order[..i] + order[i + 1..]
  }

  /** A MODIFY keeps what its definition leaves out. */
  function Modified(was: Column, column: Column): Column {
    column.(expression := Or(column.expression, was.expression), codec := Or(column.codec, was.codec),
            comment := Or(column.comment, was.comment), ttl := Or(column.ttl, was.ttl))
  }

  function AfterClause(t: Table, clause: Clause): Option<Table> {
    match clause
    case AddColumn(column, ifNotExists, after) =>
      if column.name in t.columns then if ifNotExists then Some(t) else None
      else
        var at := if after.None? then |t.order| - 1 else IndexOf(t.order, after.value);
        if after.Some? && at < 0 then None
        else Some(t.(columns := t.columns[column.name := column], order := Inserted(t.order, at + 1, column.name)))
    case ModifyColumn(column, ifExists) =>
      if column.name !in t.columns then if ifExists then Some(t) else None
      else Some(t.(columns := t.columns[column.name := Modified(t.columns[column.name], column)]))
    case DropColumn(name, ifExists) =>
      if name !in t.columns then if ifExists then Some(t) else None
      else Some(t.(columns := t.columns - {name}, order := Without(t.order, name)))
    case Ignored => Some(t)
    case Rejected => None
  }

  function AfterClauses(t: Table, clauses: seq<Clause>): Option<Table>
    decreases clauses
  {
    if clauses == [] then Some(t)
    else
      var next := AfterClause(t, clauses[0]);
      if next.None? then None else AfterClauses(next.value, clauses[1..])
  }

  function AfterAlter(s: State, name: string, clauses: seq<Clause>): Option<State> {
    if name == MIGRATIONS then Some(s)
    else if name in s.external || Rejected in clauses || name !in s.physical then None
    else
      var table := AfterClauses(s.physical[name], clauses);
      if table.None? then None else Some(s.(physical := s.physical[name := table.value]))
  }

  // ----- one statement after the other -----

  /** The spare of an ALTER is the room behind the column order in its array. */
  datatype Step =
    | ExternalCreate(create: Create)
    | PhysicalCreate(create: Create)
    | Drop(target: Target, name: string, ifExists: bool)
    | Rename(pairs: seq<Pair>)
    | Exchange(pairs: seq<Pair>)
    | Alter(name: string, clauses: seq<Clause>, spare: nat)

  function After(s: State, step: Step): Option<State> {
    match step
    case ExternalCreate(create) => AfterExternalCreate(s, create)
    case PhysicalCreate(create) => AfterPhysicalCreate(s, create)
    case Drop(target, name, ifExists) => AfterDrop(s, target, name, ifExists)
    case Rename(pairs) => AfterRename(s, pairs)
    case Exchange(pairs) => AfterExchange(s, pairs)
    case Alter(name, clauses, _) => AfterAlter(s, name, clauses)
  }

  /** A run stops at the first refusal. */
  function Run(s: State, steps: seq<Step>): Option<State>
    decreases steps
  {
    if steps == [] then Some(s)
    else
      var next := After(s, steps[0]);
      if next.None? then None else Run(next.value, steps[1..])
  }
}
