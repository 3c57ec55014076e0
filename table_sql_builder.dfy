/** rDB/Builder/TableSqlBuilder.cs: the fluent builder whose Build appends the CREATE TABLE text to a
    string builder piece by piece. The string builder is a local `string` that each step extends;
    every step is proved to produce its part of TableStatements.TableSql. */
module TableSqlBuilders {
  import opened Types
  import opened Wrappers
  import opened Errors
  import opened Text
  import opened ColumnContexts
  import opened ForeignKeys
  import opened Indices
  import opened Groupings
  import opened Entries
  import opened TableStatements

  /** BuildColumns' loop: every created column's line followed by the separator, then, if anything
      was appended, the last separator cut off again. */
  method AppendColumnLines(sb: string, cols: seq<ColumnContext>) returns (out: string)
    ensures out == sb + Join(Separator, CreatedLines(cols))
  {
    out := sb;
    var anyAppended := false;
    var i := 0;
    while i < |cols|
      invariant 0 <= i <= |cols|
      invariant out == sb + Wrapped("", CreatedLines(cols[..i]), Separator)
      invariant anyAppended <==> |CreatedLines(cols[..i])| > 0
    {
      assert cols[..i + 1][..i] == cols[..i];
      if cols[i].column.isCreated {
        var line := Indent + ColumnSql(cols[i]);
        AppendItem(sb, CreatedLines(cols[..i]), line);
        out := out + line + Separator;
        anyAppended := true;
      }
      i := i + 1;
    }
    assert cols[..i] == cols;
    if anyAppended {
      CutLastSeparator(sb, CreatedLines(cols));
      out := out[..|out| - |Separator|];
    } else {
      assert sb + "" == sb;
    }
  }

  /** BuildConditions: every option followed by the separator, the last separator cut off. */
  method AppendConditions(sb: string, options: Option<seq<string>>) returns (out: string)
    ensures out == sb + ConditionsText(options)
  {
    out := sb;
    if options.None? {
      assert sb + "" == sb;
      return;
    }
    var items := options.value;
    var anyAppended := false;
    var i := 0;
    while i < |items|
      invariant 0 <= i <= |items|
      invariant out == sb + Wrapped("", items[..i], Separator)
      invariant anyAppended <==> i > 0
    {
      AppendItem(sb, items[..i], items[i]);
      assert items[..i + 1] == items[..i] + [items[i]];
      out := out + items[i] + Separator;
      anyAppended := true;
      i := i + 1;
    }
    assert items[..i] == items;
    if anyAppended {
      CutLastSeparator(sb, items);
      out := out[..|out| - |Separator|];
    } else {
      assert sb + "" == sb;
    }
  }

  /** One step of the append-then-separate loops. */
  lemma AppendItem(sb: string, done: seq<string>, x: string)
    ensures sb + Wrapped("", done, Separator) + x + Separator == sb + Wrapped("", done + [x], Separator)
  {
    WrappedSnoc("", done, x, Separator);
    var w := Wrapped("", done, Separator);
    assert w + "" + x + Separator == w + x + Separator;
  }

  /** Cutting the last separator off the appended items leaves their join. */
  lemma CutLastSeparator(sb: string, parts: seq<string>)
    requires |parts| > 0
    ensures var t := sb + Wrapped("", parts, Separator); |Separator| <= |t| && t[..|t| - |Separator|] == sb + Join(Separator, parts)
  {
    WrappedIsJoinThenSep(parts, Separator);
    var j := Join(Separator, parts);
    var t := sb + Wrapped("", parts, Separator);
    assert t == (sb + j) + Separator;
    assert t[..|t| - |Separator|] == sb + j;
  }

  /** BuildIndices with a callback that appends `prefix`, the index text and `suffix`. */
  method AppendIndices(sb: string, indices: Option<Groups<IndexAttribute>>, typeMap: Option<map<TypeId, string>>,
                       quote: bool, table: Option<string>, prefix: string, suffix: string)
    returns (out: string, r: Outcome<Error>)
    ensures IndexClauses(indices, typeMap, quote, table).Ok? ==>
      r == Pass && out == sb + Wrapped(prefix, IndexClauses(indices, typeMap, quote, table).value, suffix)
    ensures IndexClauses(indices, typeMap, quote, table).Err? ==> r == Fail(IndexClauses(indices, typeMap, quote, table).error)
  {
    out, r := sb, Pass;
    if indices.None? || |indices.value.keys| < 1 {
      return;
    }
    // The source tests the type map inside the loop; it never changes there, so the first
    // iteration decides.
    if typeMap.None? {
      return sb, Fail(MissingTypeMap);
    }
    var g := indices.value;
    var i := 0;
    while i < |g.keys|
      invariant 0 <= i <= |g.keys|
      invariant out == sb + Wrapped(prefix, IndexSqls(g, g.keys[..i], quote, table), suffix)
    {
      var sql := IndexSql(g.keys[i], MembersOf(g, g.keys[i]), quote, table);
      IndexSqlsSnoc(g, g.keys, i, quote, table);
      AppendWrappedWithSuffix(sb, prefix, IndexSqls(g, g.keys[..i], quote, table), sql, suffix);
      out := out + prefix + sql + suffix;
      i := i + 1;
    }
    assert g.keys[..i] == g.keys;
  }

  /** Once an entry has failed, later entries do not change the error. */
  lemma {:induction false} ForeignKeyClausesErrSticks(g: Groups<ForeignKeyAttribute>, keys: seq<ForeignKeyAttribute>, n: nat,
                                                      typeMap: Option<map<TypeId, string>>, quote: bool)
    requires n <= |keys| && ForeignKeyClauses(g, keys[..n], typeMap, quote).Err?
    ensures ForeignKeyClauses(g, keys, typeMap, quote) == ForeignKeyClauses(g, keys[..n], typeMap, quote)
    decreases |keys| - n
  {
    if n < |keys| {
      assert keys[..n + 1][..n] == keys[..n];
      ForeignKeyClausesErrSticks(g, keys, n + 1, typeMap, quote);
    } else {
      assert keys[..n] == keys;
    }
  }

  lemma AppendWrapped(sb: string, prefix: string, done: seq<string>, x: string)
    ensures sb + Wrapped(prefix, done, "") + prefix + x == sb + Wrapped(prefix, done + [x], "")
  {
    WrappedSnoc(prefix, done, x, "");
  }

  lemma AppendWrappedWithSuffix(sb: string, prefix: string, done: seq<string>, x: string, suffix: string)
    ensures sb + Wrapped(prefix, done, suffix) + prefix + x + suffix == sb + Wrapped(prefix, done + [x], suffix)
  {
    WrappedSnoc(prefix, done, x, suffix);
  }

  lemma IndexSqlsSnoc(g: Groups<IndexAttribute>, keys: seq<IndexAttribute>, i: nat, quote: bool, table: Option<string>)
    requires i < |keys|
    ensures IndexSqls(g, keys[..i + 1], quote, table) ==
      IndexSqls(g, keys[..i], quote, table) + [IndexSql(keys[i], MembersOf(g, keys[i]), quote, table)]
  {
    assert keys[..i + 1][..i] == keys[..i];
  }

  /** One more entry extends the clauses by that entry's clause, or fails with its error. */
  lemma ForeignKeyClausesStep(g: Groups<ForeignKeyAttribute>, keys: seq<ForeignKeyAttribute>, i: nat,
                              typeMap: Option<map<TypeId, string>>, quote: bool, done: seq<string>)
    requires i < |keys| && ForeignKeyClauses(g, keys[..i], typeMap, quote) == Ok(done)
    ensures ForeignKeyClause(keys[i], MembersOf(g, keys[i]), typeMap, quote).Ok? ==>
      ForeignKeyClauses(g, keys[..i + 1], typeMap, quote) == Ok(done + [ForeignKeyClause(keys[i], MembersOf(g, keys[i]), typeMap, quote).value])
    ensures ForeignKeyClause(keys[i], MembersOf(g, keys[i]), typeMap, quote).Err? ==>
      ForeignKeyClauses(g, keys[..i + 1], typeMap, quote) == Err(ForeignKeyClause(keys[i], MembersOf(g, keys[i]), typeMap, quote).error)
  {
    assert keys[..i + 1][..i] == keys[..i];
  }

  /** The body of BuildForeignKeyOptions' loop for one entry: resolve the target type's table name,
      then render the clause. */
  method ForeignKeyStep(fk: ForeignKeyAttribute, columns: seq<string>, typeMap: map<TypeId, string>, quote: bool)
    returns (r: Result<string, Error>)
    ensures r == ForeignKeyClause(fk, columns, Some(typeMap), quote)
  {
    if fk.table !in typeMap {
      return Err(UnresolvedForeignKey(fk.table));
    }
    var referencedTableName := typeMap[fk.table];
    r := ForeignKeySql(fk, referencedTableName, Some(columns), quote);
  }

  /** BuildForeignKeyOptions with the BuildColumns callback: each clause goes on a line of its own.
      The type map check, the target lookup and GenerateSql can each throw. */
  method AppendForeignKeys(sb: string, fks: Option<Groups<ForeignKeyAttribute>>, typeMap: Option<map<TypeId, string>>, quote: bool)
    returns (out: string, r: Outcome<Error>)
    ensures ForeignKeyOptions(fks, typeMap, quote).Ok? ==>
      r == Pass && out == sb + Wrapped(Separator + Indent, ForeignKeyOptions(fks, typeMap, quote).value, "")
    ensures ForeignKeyOptions(fks, typeMap, quote).Err? ==> r == Fail(ForeignKeyOptions(fks, typeMap, quote).error)
  {
    out, r := sb, Pass;
    if fks.None? || |fks.value.keys| < 1 {
      return;
    }
    var g := fks.value;
    // As in BuildIndices, the per-entry type map test fails on the first entry if at all.
    if typeMap.None? {
      ForeignKeyClausesStep(g, g.keys, 0, typeMap, quote, []);
      ForeignKeyClausesErrSticks(g, g.keys, 1, typeMap, quote);
      return sb, Fail(MissingTypeMap);
    }
    ghost var done: seq<string> := [];
    var i := 0;
    while i < |g.keys|
      invariant 0 <= i <= |g.keys|
      invariant ForeignKeyClauses(g, g.keys[..i], typeMap, quote) == Ok(done)
      invariant out == sb + Wrapped(Separator + Indent, done, "")
    {
      var fk := g.keys[i];
      var sql := ForeignKeyStep(fk, MembersOf(g, fk), typeMap.value, quote);
      ForeignKeyClausesStep(g, g.keys, i, typeMap, quote, done);
      if sql.Err? {
        ForeignKeyClausesErrSticks(g, g.keys, i + 1, typeMap, quote);
        return out, Fail(sql.error);
      }
      AppendWrapped(sb, Separator + Indent, done, sql.value);
      out := out + (Separator + Indent) + sql.value;
      done := done + [sql.value];
      i := i + 1;
    }
    assert g.keys[..i] == g.keys;
  }

  /** BuildColumns: the column lines, the primary key, the inline indices when indices are not
      created separately, the foreign keys, and the closing parenthesis line. */
  method AppendColumnsBlock(sb: string, s: BuilderState) returns (out: string, r: Outcome<Error>)
    ensures var inline := if s.createIndicesSeparately then Ok([]) else IndexClauses(s.indices, s.typeMap, s.quoteColumnNames, None);
      var fks := ForeignKeyOptions(s.foreignKeys, s.typeMap, s.quoteColumnNames);
      && (inline.Err? ==> r == Fail(inline.error))
      && (inline.Ok? && fks.Err? ==> r == Fail(fks.error))
      && (inline.Ok? && fks.Ok? ==> r == Pass && out == sb + ColumnsBlock(CreatedLines(s.columnSet),
            PrimaryKeyClause(s.columnSet, s.quoteColumnNames), inline.value, fks.value))
  {
    out := AppendColumnLines(sb, s.columnSet);
    ghost var lines := Join(Separator, CreatedLines(s.columnSet));
    var pk := PrimaryKeyClause(s.columnSet, s.quoteColumnNames);
    if pk.Some? {
      out := out + (Separator + Indent + pk.value);
    }
    assert out == sb + lines + PrimaryKeyLine(pk);
    ghost var inline: seq<string> := [];
    if !s.createIndicesSeparately {
      out, r := AppendIndices(out, s.indices, s.typeMap, s.quoteColumnNames, None, Separator + Indent, "");
      if r.Fail? {
        return;
      }
      inline := IndexClauses(s.indices, s.typeMap, s.quoteColumnNames, None).value;
    }
    ghost var wi := Wrapped(Separator + Indent, inline, "");
    assert out == sb + lines + PrimaryKeyLine(pk) + wi;
    out, r := AppendForeignKeys(out, s.foreignKeys, s.typeMap, s.quoteColumnNames);
    if r.Fail? {
      return;
    }
    ghost var wf := Wrapped(Separator + Indent, ForeignKeyOptions(s.foreignKeys, s.typeMap, s.quoteColumnNames).value, "");
    out := out + Closing;
    ConcatAssoc5(sb, lines, PrimaryKeyLine(pk), wi, wf, Closing);
  }

  /** Build: the checks, the header, then the body. */
  method RenderTable(s: BuilderState) returns (r: Result<string, Error>)
    ensures r == TableSql(s)
  {
    if s.name.None? {
      return Err(MissingTableName);
    }
    if s.foreignKeys.Some? && |s.foreignKeys.value.keys| > 0 && s.typeMap.None? {
      return Err(MissingTypeMap);
    }
    var header := if s.ifNotExists then "CREATE TABLE IF NOT EXISTS " else "CREATE TABLE ";
    var sb := header + s.name.value + "( " + NewLine;
    assert sb == Header(s.ifNotExists, s.name.value);
    var o;
    sb, o := AppendBody(sb, s);
    if o.Fail? {
      return Err(o.error);
    }
    r := Ok(sb);
  }

  /** The rest of Build once the checks have passed: BuildColumns, BuildConditions and, with separate
      indices, ";" and one statement per index. */
  method AppendBody(sb: string, s: BuilderState) returns (out: string, r: Outcome<Error>)
    requires s.name.Some? && !(ItemCount(s.foreignKeys) > 0 && s.typeMap.None?)
    ensures PartsOf(s).Err? ==> r == Fail(PartsOf(s).error)
    ensures PartsOf(s).Ok? ==> r == Pass && out == sb + Body(PartsOf(s).value)
  {
    out, r := AppendColumnsBlock(sb, s);
    if r.Fail? {
      return;
    }
    ghost var inline := if s.createIndicesSeparately then [] else IndexClauses(s.indices, s.typeMap, s.quoteColumnNames, None).value;
    ghost var fks := ForeignKeyOptions(s.foreignKeys, s.typeMap, s.quoteColumnNames).value;
    ghost var block := ColumnsBlock(CreatedLines(s.columnSet), PrimaryKeyClause(s.columnSet, s.quoteColumnNames), inline, fks);
    ghost var mid := out;
    out, r := AppendTrailer(out, s);
    if r.Fail? {
      return;
    }
    ghost var separate := if s.createIndicesSeparately then IndexClauses(s.indices, s.typeMap, s.quoteColumnNames, s.name).value else [];
    ghost var p := TableParts(Header(s.ifNotExists, s.name.value), CreatedLines(s.columnSet),
      PrimaryKeyClause(s.columnSet, s.quoteColumnNames), inline, fks, ConditionsText(s.options), s.createIndicesSeparately, separate);
    assert PartsOf(s) == Ok(p);
    assert out == mid + (p.conditions + Trailer(p));
    assert Body(p) == block + p.conditions + Trailer(p);
    ConcatRegroup(sb, block, p.conditions, Trailer(p));
  }

  /** BuildConditions, then ";" and one statement per index when indices are created separately. */
  method AppendTrailer(sb: string, s: BuilderState) returns (out: string, r: Outcome<Error>)
    ensures var separate := if s.createIndicesSeparately then IndexClauses(s.indices, s.typeMap, s.quoteColumnNames, s.name) else Ok([]);
      && (separate.Err? ==> r == Fail(separate.error))
      && (separate.Ok? ==>
            r == Pass && out == sb + (ConditionsText(s.options) +
            (if s.createIndicesSeparately then ";" + Wrapped(NewLine, separate.value, ";") else "")))
  {
    out := AppendConditions(sb, s.options);
    r := Pass;
    if s.createIndicesSeparately {
      out, r := AppendIndices(out + ";", s.indices, s.typeMap, s.quoteColumnNames, s.name, NewLine, ";");
      if r.Pass? {
        ConcatRightNest(sb, ConditionsText(s.options), ";", Wrapped(NewLine, IndexClauses(s.indices, s.typeMap, s.quoteColumnNames, s.name).value, ";"));
      }
    } else {
      assert ConditionsText(s.options) + "" == ConditionsText(s.options);
    }
  }

  lemma ConcatRegroup(a: string, b: string, c: string, d: string)
    ensures (a + b) + (c + d) == a + (b + c + d)
  {
  }

  lemma ConcatRightNest(a: string, b: string, c: string, d: string)
    ensures a + b + c + d == a + (b + (c + d))
  {
  }

  lemma ConcatAssoc5(sb: string, a: string, b: string, c: string, d: string, e: string)
    ensures sb + a + b + c + d + e == sb + (a + b + c + d + e)
  {
  }

  class TableSqlBuilder {
    const createIndicesSeparately: bool
    /** The entry whose foreign keys and indices WithForeignKeys() and WithIndices() read. */
    const instance: TypeDesc
    const name: Option<string>
    /** Never assigned in the source: it stays null. */
    const options: Option<seq<string>>
    const quoteColumnNames: bool
    var columnSet: seq<ColumnContext>
    var foreignKeys: Option<Groups<ForeignKeyAttribute>>
    var ifNotExists: bool
    var indices: Option<Groups<IndexAttribute>>
    var typeMap: Option<map<TypeId, string>>

    function State(): BuilderState
      reads this
    {
      BuilderState(createIndicesSeparately, name, options, quoteColumnNames, columnSet, foreignKeys, ifNotExists,
                   indices, typeMap)
    }

    /** The constructor: the table is named by the naming rule, a null type map falls back to the
        reflection scan's map (`scannedTypeMap`) and a null column set to the entry's columns. */
    constructor (typeMap: Option<map<TypeId, string>>, columns: Option<seq<ColumnContext>>, instance: TypeDesc,
                 quoteColumnNames: bool, createIndicesSeparately: bool, scannedTypeMap: map<TypeId, string>)
      ensures this.instance == instance
      ensures State() == BuilderState(createIndicesSeparately, Some(TableNameOf(instance)), None, quoteColumnNames,
        columns.GetOr(GetColumns(instance.properties)), None, true, None, Some(typeMap.GetOr(scannedTypeMap)))
    {
      this.instance := instance;
      this.name := Some(TableNameOf(instance));
      this.options := None;
      this.typeMap := Some(typeMap.GetOr(scannedTypeMap));
      this.columnSet := columns.GetOr(GetColumns(instance.properties));
      this.quoteColumnNames := quoteColumnNames;
      this.createIndicesSeparately := createIndicesSeparately;
      this.ifNotExists := true;
      this.foreignKeys := None;
      this.indices := None;
    }

    /** Each With* setter changes one setting and returns the builder itself, for chaining. */
    method WithIfNotExists(value: bool) returns (self: TableSqlBuilder)
      modifies this
      ensures self == this
      ensures State() == old(State()).(ifNotExists := value)
    {
      ifNotExists := value;
      self := this;
    }

    method WithTypeMap(map_: Option<map<TypeId, string>>) returns (self: TableSqlBuilder)
      modifies this
      ensures self == this
      ensures State() == old(State()).(typeMap := map_)
    {
      typeMap := map_;
      self := this;
    }

    /** WithForeignKeys(): the entry's own grouped foreign keys. */
    method WithEntryForeignKeys() returns (self: TableSqlBuilder)
      modifies this
      ensures self == this
      ensures State() == old(State()).(foreignKeys := Some(GroupSpec(ForeignKeyMembers(instance.properties))))
    {
      var g := GetForeignKeys(instance);
      foreignKeys := Some(g);
      self := this;
    }

    method WithIndices() returns (self: TableSqlBuilder)
      modifies this
      ensures self == this
      ensures State() == old(State()).(indices := Some(GroupSpec(IndexMembers(instance.properties))))
    {
      var g := GetIndices(instance);
      indices := Some(g);
      self := this;
    }

    /** WithForeignKeys(dictionary). */
    method WithForeignKeys(fks: Option<Groups<ForeignKeyAttribute>>) returns (self: TableSqlBuilder)
      modifies this
      ensures self == this
      ensures State() == old(State()).(foreignKeys := fks)
    {
      foreignKeys := fks;
      self := this;
    }

    method WithColumnSet(set_: seq<ColumnContext>) returns (self: TableSqlBuilder)
      modifies this
      ensures self == this
      ensures State() == old(State()).(columnSet := set_)
    {
      columnSet := set_;
      self := this;
    }

    /** Build: renders the statement from the builder's current settings. */
    method Build() returns (r: Result<string, Error>)
      ensures r == TableSql(State())
    {
      r := RenderTable(State());
    }
  }
}
