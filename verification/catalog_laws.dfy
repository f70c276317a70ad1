/**
 Laws of single statements, in terms of the catalogs before and after: the table of the
 migration tool, what MODIFY keeps, the engine of a copied table, and what EXCHANGE accepts.
 */
module CatalogLaws {
  import opened Wrappers
  import opened Catalog

  // ----- the table of the migration tool -----

  /** CREATE, DROP and ALTER of schema_migrations are passed over, whatever they say. */
  lemma MigrationsArePassedOver(s: State, c: Create, clauses: seq<Clause>, ifExists: bool)
    ensures AfterPhysicalCreate(s, c.(name := "schema_migrations")) == Some(s)
    ensures AfterDrop(s, TableTarget, "schema_migrations", ifExists) == Some(s)
    ensures AfterAlter(s, "schema_migrations", clauses) == Some(s)
  {
  }

  /** A RENAME or EXCHANGE that names it is refused. */
  lemma MigrationsAreNotMoved(s: State, other: string, qualified: bool)
    ensures var there, back := Pair(other, "schema_migrations", qualified), Pair("schema_migrations", other, qualified);
            && AfterRename(s, [there]) == AfterRename(s, [back]) == None
            && AfterExchange(s, [there]) == AfterExchange(s, [back]) == None
  {
  }

  // ----- MODIFY COLUMN -----

  /** A stated clause is the new one, and an unstated clause the old one. */
  predicate Takes(now: Option<string>, stated: Option<string>, was: Option<string>) {
    match stated
    case Some(text) => now == Some(text)
    case None => now == was
  }

  /** MODIFY changes the type, takes the clauses that it states, and changes no other column. */
  lemma ModifyKeeps(t: Table, column: Column, ifExists: bool)
    requires column.name in t.columns
    ensures AfterClause(t, ModifyColumn(column, ifExists)).Some?
    ensures var n := AfterClause(t, ModifyColumn(column, ifExists)).value;
            && n.order == t.order && n.columns.Keys == t.columns.Keys
            && (forall c :: c in t.columns && c != column.name ==> n.columns[c] == t.columns[c])
            && var (now, was) := (n.columns[column.name], t.columns[column.name]);
               && now.name == column.name && now.typeText == column.typeText
               && Takes(now.expression, column.expression, was.expression)
               && Takes(now.codec, column.codec, was.codec)
               && Takes(now.comment, column.comment, was.comment)
               && Takes(now.ttl, column.ttl, was.ttl)
  {
  }

  // ----- CREATE TABLE AS -----

  predicate EndsWith(name: string, suffix: string) {
    exists k :: 0 <= k <= |name| && name[k..] == suffix
  }

  lemma MergeTreeIs(name: string)
    ensures IsMergeTree(name) <==> EndsWith(name, "MergeTree")
  {
    if IsMergeTree(name) {
      assert name[|name| - 9..] == "MergeTree";
    }
    if EndsWith(name, "MergeTree") {
      var k :| 0 <= k <= |name| && name[k..] == "MergeTree";
      assert k == |name| - 9;
    }
  }

  /**
   The engine of a copy: that of the source when none is stated, and the stated one otherwise;
   a stated engine of the MergeTree family takes over each key that it leaves out.
   */
  lemma EngineOfCopyIs(s: State, c: Create)
    requires c.source.CopyOf? && c.source.table in s.physical && c.name != "schema_migrations"
    requires c.name !in s.external && c.name !in s.physical
    ensures AfterPhysicalCreate(s, c).Some? && c.name in AfterPhysicalCreate(s, c).value.physical
    ensures var (now, was) := (AfterPhysicalCreate(s, c).value.physical[c.name].engine, s.physical[c.source.table].engine);
            match c.engine
            case None => now == was
            case Some(stated) =>
              if was.None? || !EndsWith(stated.name, "MergeTree") then now == Some(stated)
              else
                && now.Some? && now.value.name == stated.name
                && Takes(now.value.orderBy, stated.orderBy, was.value.orderBy)
                && Takes(now.value.partitionBy, stated.partitionBy, was.value.partitionBy)
                && Takes(now.value.primaryKey, stated.primaryKey, was.value.primaryKey)
                && Takes(now.value.sampleBy, stated.sampleBy, was.value.sampleBy)
  {
    if c.engine.Some? {
      MergeTreeIs(c.engine.value.name);
    }
    hide IsMergeTree, EndsWith;
  }

  // ----- EXCHANGE -----

  /** EXCHANGE is accepted exactly for two different physical tables without a database. */
  lemma ExchangeIff(s: State, pairs: seq<Pair>)
    ensures AfterExchange(s, pairs).Some? <==>
            && |pairs| == 1 && !pairs[0].qualified && pairs[0].from != pairs[0].to
            && pairs[0].from in s.physical && pairs[0].from !in s.external && pairs[0].from != "schema_migrations"
            && pairs[0].to in s.physical && pairs[0].to !in s.external && pairs[0].to != "schema_migrations"
  {
  }
}
