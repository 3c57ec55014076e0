/** The CREATE TABLE text that rDB/Builder/TableSqlBuilder.cs assembles, as functions of the
    builder's fields. TableSqlBuilders.TableSqlBuilder.Build produces it step by step. */
module TableStatements {
  import opened Types
  import opened Wrappers
  import opened Errors
  import opened Text
  import opened DependencySolving
  import opened ColumnAttributes
  import opened ColumnContexts
  import opened ForeignKeys
  import opened Indices
  import opened Groupings

  /** The builder's fields. `name`, `options`, `foreignKeys`, `indices` and `typeMap` may be null. */
  datatype BuilderState = BuilderState(
    createIndicesSeparately: bool,
    name: Option<string>,
    options: Option<seq<string>>,
    quoteColumnNames: bool,
    columnSet: seq<ColumnContext>,
    foreignKeys: Option<Groups<ForeignKeyAttribute>>,
    ifNotExists: bool,
    indices: Option<Groups<IndexAttribute>>,
    typeMap: Option<map<TypeId, string>>)

  /** The item separator, "," followed by a line break. */
  const Separator: string := "," + NewLine
  /** The indentation of every line inside the parentheses. */
  const Indent: string := "    "

  function Header(ifNotExists: bool, name: string): string {
    (if ifNotExists then "CREATE TABLE IF NOT EXISTS " else "CREATE TABLE ") + name + "( " + NewLine
  }

  /** One indented line per column whose IsCreated flag is set, in the column set's order. */
  function CreatedLines(cols: seq<ColumnContext>): (r: seq<string>)
    ensures |r| <= |cols|
    ensures forall x :: x in r <==> exists c :: c in cols && c.column.isCreated && x == Indent + ColumnSql(c)
  {
    if |cols| == 0 then []
    else
      var c := cols[|cols| - 1];
      assert cols == cols[..|cols| - 1] + [c];
      var front := CreatedLines(cols[..|cols| - 1]);
      if c.column.isCreated then front + [Indent + ColumnSql(c)] else front
  }

  /** The names of the primary-key columns, each once, in order of first occurrence. */
  function PrimaryKeyNames(cols: seq<ColumnContext>): (r: seq<string>)
    ensures Distinct(r)
    ensures forall x :: x in r <==> exists c :: c in cols && c.column.isPrimaryKey && c.name == x
  {
    if |cols| == 0 then []
    else
      var c := cols[|cols| - 1];
      assert cols == cols[..|cols| - 1] + [c];
      var front := PrimaryKeyNames(cols[..|cols| - 1]);
      if c.column.isPrimaryKey && c.name !in front then front + [c.name] else front
  }

  /** BuildPrimaryKey: the clause exists iff some column is a primary key, and then lists every such
      name once, quoted iff the flag is set. */
  function PrimaryKeyClause(cols: seq<ColumnContext>, quote: bool): (r: Option<string>)
    ensures r.Some? <==> exists c :: c in cols && c.column.isPrimaryKey
    ensures r.Some? ==> r.value == "PRIMARY KEY (" + Join(", ", QuoteAll(PrimaryKeyNames(cols), quote)) + ")"
  {
    var names := PrimaryKeyNames(cols);
    assert forall c :: c in cols && c.column.isPrimaryKey ==> c.name in names;
    assert |names| > 0 ==> names[0] in names;
    if |names| < 1 then None
    else Some("PRIMARY KEY (" + Join(", ", QuoteAll(names, quote)) + ")")
  }

  /** The number of entries of a dictionary that may be null. */
  function ItemCount<K>(g: Option<Groups<K>>): nat {
    if g.None? then 0 else |g.value.keys|
  }

  /** The set a dictionary entry holds, as the sequence passed to GenerateSql. */
  function MembersOf<K>(g: Groups<K>, k: K): seq<string> {
    if k in g.members then g.members[k] else []
  }

  /** One index statement or clause per entry, in the dictionary's order. */
  function IndexSqls(g: Groups<IndexAttribute>, keys: seq<IndexAttribute>, quote: bool, table: Option<string>): (r: seq<string>)
    ensures |r| == |keys|
  {
    if |keys| == 0 then []
    else IndexSqls(g, keys[..|keys| - 1], quote, table) + [IndexSql(keys[|keys| - 1], MembersOf(g, keys[|keys| - 1]), quote, table)]
  }

  /** Entry i of the dictionary yields text i. */
  lemma {:induction false} IndexSqlsAt(g: Groups<IndexAttribute>, keys: seq<IndexAttribute>, quote: bool, table: Option<string>, i: nat)
    requires i < |keys|
    ensures IndexSqls(g, keys, quote, table)[i] == IndexSql(keys[i], MembersOf(g, keys[i]), quote, table)
  {
    if i < |keys| - 1 {
      IndexSqlsAt(g, keys[..|keys| - 1], quote, table, i);
    }
  }

  /** BuildIndices: nothing for a null or empty dictionary; otherwise the type map must be set (the
      source checks it although indices never use it) and every entry yields its text. */
  function IndexClauses(indices: Option<Groups<IndexAttribute>>, typeMap: Option<map<TypeId, string>>, quote: bool, table: Option<string>)
    : (r: Result<seq<string>, Error>)
    ensures r.Err? <==> ItemCount(indices) > 0 && typeMap.None?
    ensures r.Err? ==> r.error == MissingTypeMap
    ensures r.Ok? ==> |r.value| == ItemCount(indices)
  {
    if ItemCount(indices) == 0 then Ok([])
    else if typeMap.None? then Err(MissingTypeMap)
    else Ok(IndexSqls(indices.value, indices.value.keys, quote, table))
  }

  /** One step of BuildForeignKeyOptions: the target type is looked up in the type map and the
      attribute renders its clause against that table name. */
  function ForeignKeyClause(fk: ForeignKeyAttribute, columns: seq<string>, typeMap: Option<map<TypeId, string>>, quote: bool)
    : (r: Result<string, Error>)
    ensures typeMap.None? ==> r == Err(MissingTypeMap)
    ensures typeMap.Some? && fk.table !in typeMap.value ==> r == Err(UnresolvedForeignKey(fk.table))
    ensures typeMap.Some? && fk.table in typeMap.value ==> r == ForeignKeySql(fk, typeMap.value[fk.table], Some(columns), quote)
  {
    if typeMap.None? then Err(MissingTypeMap)
    else if fk.table !in typeMap.value then Err(UnresolvedForeignKey(fk.table))
    else ForeignKeySql(fk, typeMap.value[fk.table], Some(columns), quote)
  }

  /** The clauses of the entries `keys`, in order, or the error of the first entry that fails. */
  function ForeignKeyClauses(g: Groups<ForeignKeyAttribute>, keys: seq<ForeignKeyAttribute>, typeMap: Option<map<TypeId, string>>, quote: bool)
    : Result<seq<string>, Error>
  {
    if |keys| == 0 then Ok([])
    else
      var last := keys[|keys| - 1];
      var front :- ForeignKeyClauses(g, keys[..|keys| - 1], typeMap, quote);
      var clause :- ForeignKeyClause(last, MembersOf(g, last), typeMap, quote);
      Ok(front + [clause])
  }

  /** A successful run yields one clause per entry, in the dictionary's order, each the entry's own
      clause. */
  lemma {:induction false} ForeignKeyClausesOk(g: Groups<ForeignKeyAttribute>, keys: seq<ForeignKeyAttribute>,
                                              typeMap: Option<map<TypeId, string>>, quote: bool)
    requires ForeignKeyClauses(g, keys, typeMap, quote).Ok?
    ensures |ForeignKeyClauses(g, keys, typeMap, quote).value| == |keys|
    ensures forall i :: 0 <= i < |keys| ==>
      ForeignKeyClause(keys[i], MembersOf(g, keys[i]), typeMap, quote) == Ok(ForeignKeyClauses(g, keys, typeMap, quote).value[i])
  {
    if |keys| > 0 {
      var front := keys[..|keys| - 1];
      var last := keys[|keys| - 1];
      var all := ForeignKeyClauses(g, keys, typeMap, quote);
      var f := ForeignKeyClauses(g, front, typeMap, quote);
      var c := ForeignKeyClause(last, MembersOf(g, last), typeMap, quote);
      assert f.Ok? && c.Ok? && all.value == f.value + [c.value];
      ForeignKeyClausesOk(g, front, typeMap, quote);
      forall i | 0 <= i < |keys|
        ensures ForeignKeyClause(keys[i], MembersOf(g, keys[i]), typeMap, quote) == Ok(all.value[i])
      {
        if i < |front| {
          assert front[i] == keys[i] && all.value[i] == f.value[i];
        }
      }
    }
  }

  /** The clauses fail exactly when some entry's clause does. */
  lemma {:induction false} ForeignKeyClausesErr(g: Groups<ForeignKeyAttribute>, keys: seq<ForeignKeyAttribute>,
                                               typeMap: Option<map<TypeId, string>>, quote: bool)
    ensures ForeignKeyClauses(g, keys, typeMap, quote).Err? <==>
      exists i :: 0 <= i < |keys| && ForeignKeyClause(keys[i], MembersOf(g, keys[i]), typeMap, quote).Err?
  {
    if |keys| > 0 {
      var front := keys[..|keys| - 1];
      ForeignKeyClausesErr(g, front, typeMap, quote);
      assert forall i :: 0 <= i < |front| ==> front[i] == keys[i];
    }
  }

  /** BuildForeignKeyOptions over a dictionary that may be null. */
  function ForeignKeyOptions(fks: Option<Groups<ForeignKeyAttribute>>, typeMap: Option<map<TypeId, string>>, quote: bool)
    : Result<seq<string>, Error>
  {
    if ItemCount(fks) == 0 then Ok([]) else ForeignKeyClauses(fks.value, fks.value.keys, typeMap, quote)
  }

  /** BuildConditions over the option list (null in every builder the source constructs). */
  function ConditionsText(options: Option<seq<string>>): string {
    if options.None? then "" else Join(Separator, options.value)
  }

  /** The pieces of a table statement, in output order. */
  datatype TableParts = TableParts(
    header: string,
    columnLines: seq<string>,
    primaryKey: Option<string>,
    inlineIndices: seq<string>,
    foreignKeys: seq<string>,
    conditions: string,
    separate: bool,
    separateIndices: seq<string>)

  /** The text between the header and the conditions: the column lines, then each of the primary
      key, the inline indices and the foreign keys on a line of its own, then the closing line. */
  function ColumnsBlock(lines: seq<string>, primaryKey: Option<string>, inline: seq<string>, fks: seq<string>): string {
    Join(Separator, lines) + PrimaryKeyLine(primaryKey) + Wrapped(Separator + Indent, inline, "") +
    Wrapped(Separator + Indent, fks, "") + Closing
  }

  /** The primary-key clause on a line of its own, when there is one. */
  function PrimaryKeyLine(primaryKey: Option<string>): string {
    if primaryKey.Some? then Separator + Indent + primaryKey.value else ""
  }

  /** The line break, the closing parenthesis and another line break. */
  const Closing: string := NewLine + ")" + NewLine

  /** After the conditions: with separate indices a ";" ends the table statement and every index
      follows on its own line, each ended by ";". */
  function Trailer(p: TableParts): string {
    if p.separate then ";" + Wrapped(NewLine, p.separateIndices, ";") else ""
  }

  /** Everything after the header. */
  function Body(p: TableParts): string {
    ColumnsBlock(p.columnLines, p.primaryKey, p.inlineIndices, p.foreignKeys) + p.conditions + Trailer(p)
  }

  /** What Build computes, in the source's order of checks and steps. */
  function PartsOf(s: BuilderState): Result<TableParts, Error> {
    if s.name.None? then Err(MissingTableName)
    else if ItemCount(s.foreignKeys) > 0 && s.typeMap.None? then Err(MissingTypeMap)
    else
      var inline :- if s.createIndicesSeparately then Ok([]) else IndexClauses(s.indices, s.typeMap, s.quoteColumnNames, None);
      var fks :- ForeignKeyOptions(s.foreignKeys, s.typeMap, s.quoteColumnNames);
      var separate :- if s.createIndicesSeparately then IndexClauses(s.indices, s.typeMap, s.quoteColumnNames, s.name) else Ok([]);
      Ok(TableParts(
        Header(s.ifNotExists, s.name.value),
        CreatedLines(s.columnSet),
        PrimaryKeyClause(s.columnSet, s.quoteColumnNames),
        inline,
        fks,
        ConditionsText(s.options),
        s.createIndicesSeparately,
        separate))
  }

  /** Build's result: the rendered parts, or the first error. */
  function TableSql(s: BuilderState): (r: Result<string, Error>)
    ensures s.name.None? ==> r == Err(MissingTableName)
    ensures s.name.Some? && ItemCount(s.foreignKeys) > 0 && s.typeMap.None? ==> r == Err(MissingTypeMap)
    ensures r.Ok? ==> s.name.Some? && StartsWith(r.value, Header(s.ifNotExists, s.name.value))
  {
    var parts :- PartsOf(s);
    StartsWithConcat(parts.header, Body(parts));
    Ok(parts.header + Body(parts))
  }

  /** The header is fixed text around the name; IF NOT EXISTS is there iff the flag is set. */
  lemma HeaderShape(ifNotExists: bool, name: string)
    ensures StartsWith(Header(ifNotExists, name), "CREATE TABLE ")
    ensures EndsWith(Header(ifNotExists, name), name + "( " + NewLine)
    ensures ifNotExists ==> StartsWith(Header(ifNotExists, name), "CREATE TABLE IF NOT EXISTS ")
    ensures ifNotExists ==> Header(ifNotExists, name)[27..] == name + "( " + NewLine
    ensures !ifNotExists ==> Header(ifNotExists, name)[13..] == name + "( " + NewLine
  {
    var h := Header(ifNotExists, name);
    var lead := if ifNotExists then "CREATE TABLE IF NOT EXISTS " else "CREATE TABLE ";
    assert h == lead + (name + "( " + NewLine);
    StartsWithConcat(lead, name + "( " + NewLine);
    StartsWithTransitive(h, lead, "CREATE TABLE ");
    assert h[|h| - |name + "( " + NewLine|..] == name + "( " + NewLine;
  }

  /** The column lines and the primary key of a successful build come from the column set, under the
      header for the builder's name. */
  lemma PartsOfColumns(s: BuilderState)
    requires PartsOf(s).Ok?
    ensures s.name.Some? && PartsOf(s).value.header == Header(s.ifNotExists, s.name.value)
    ensures PartsOf(s).value.columnLines == CreatedLines(s.columnSet)
    ensures PartsOf(s).value.primaryKey == PrimaryKeyClause(s.columnSet, s.quoteColumnNames)
  {
  }

  /** A successful build has one foreign-key clause per dictionary entry, in order: the entry's
      attribute rendered against the table name its target type maps to. */
  lemma PartsOfForeignKeys(s: BuilderState)
    requires PartsOf(s).Ok?
    ensures |PartsOf(s).value.foreignKeys| == ItemCount(s.foreignKeys)
    ensures forall i :: 0 <= i < |PartsOf(s).value.foreignKeys| ==>
      var k := s.foreignKeys.value.keys[i];
      && s.typeMap.Some? && k.table in s.typeMap.value
      && ForeignKeySql(k, s.typeMap.value[k.table], Some(MembersOf(s.foreignKeys.value, k)), s.quoteColumnNames)
         == Ok(PartsOf(s).value.foreignKeys[i])
  {
    var fks := PartsOf(s).value.foreignKeys;
    if ItemCount(s.foreignKeys) > 0 {
      var g := s.foreignKeys.value;
      assert ForeignKeyClauses(g, g.keys, s.typeMap, s.quoteColumnNames) == Ok(fks);
      ForeignKeyClausesOk(g, g.keys, s.typeMap, s.quoteColumnNames);
    }
  }

  /** Indices sit either inline, without the CREATE prefix, or after the table statement, with it;
      never both, and one per dictionary entry. */
  lemma PartsOfIndices(s: BuilderState)
    requires PartsOf(s).Ok?
    ensures PartsOf(s).value.separate == s.createIndicesSeparately
    ensures s.createIndicesSeparately ==>
      PartsOf(s).value.inlineIndices == [] && |PartsOf(s).value.separateIndices| == ItemCount(s.indices)
    ensures !s.createIndicesSeparately ==>
      PartsOf(s).value.separateIndices == [] && |PartsOf(s).value.inlineIndices| == ItemCount(s.indices)
    ensures forall x :: x in PartsOf(s).value.separateIndices ==> StartsWith(x, "CREATE ")
    ensures forall x :: x in PartsOf(s).value.inlineIndices ==> !StartsWith(x, "CREATE ")
  {
    var p := PartsOf(s).value;
    if ItemCount(s.indices) > 0 {
      var g := s.indices.value;
      IndexSqlsPrefix(g, g.keys, s.quoteColumnNames, s.name);
      IndexSqlsPrefix(g, g.keys, s.quoteColumnNames, None);
    }
  }

  /** Each index text starts with CREATE exactly when a table is given. */
  lemma IndexSqlsPrefix(g: Groups<IndexAttribute>, keys: seq<IndexAttribute>, quote: bool, table: Option<string>)
    ensures forall x :: x in IndexSqls(g, keys, quote, table) ==> (StartsWith(x, "CREATE ") <==> table.Some?)
  {
    var r := IndexSqls(g, keys, quote, table);
    forall x | x in r
      ensures StartsWith(x, "CREATE ") <==> table.Some?
    {
      var i :| 0 <= i < |r| && r[i] == x;
      IndexSqlsAt(g, keys, quote, table, i);
      IndexSqlTableToggle(keys[i], MembersOf(g, keys[i]), quote, table);
    }
  }

  /** A foreign key whose target type is missing from the type map makes the build fail. */
  lemma UnresolvedForeignKeyFails(s: BuilderState, k: ForeignKeyAttribute)
    requires s.foreignKeys.Some? && k in s.foreignKeys.value.keys
    requires s.typeMap.Some? && k.table !in s.typeMap.value
    ensures TableSql(s).Err?
  {
    var g := s.foreignKeys.value;
    var i :| 0 <= i < |g.keys| && g.keys[i] == k;
    ForeignKeyClausesErr(g, g.keys, s.typeMap, s.quoteColumnNames);
    assert ForeignKeyClause(g.keys[i], MembersOf(g, g.keys[i]), s.typeMap, s.quoteColumnNames).Err?;
  }
}
