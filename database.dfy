/** rDB/Database.cs: the one-shot configuration of a database, the membership check behind Table<T>
    and the CREATE TABLE round-trips. The execution collaborator is a function from a statement to
    the affected-row count it reports, or to the fault it throws (a connection that cannot be opened,
    a command the server rejects); connections and their bookkeeping are not modelled. */
module Databases {
  import opened Types
  import opened Wrappers
  import opened Errors
  import opened Text
  import opened ColumnContexts
  import opened Entries
  import opened TableStatements
  import opened TableSqlBuilders

  /** Database.AtomicBoolean: a flag whose Set reports whether it changed the stored value. */
  class AtomicBoolean {
    var state: bool

    constructor (state: bool)
      ensures this.state == state
    {
      this.state := state;
    }

    method Set(newState: bool) returns (isUpdate: bool)
      modifies this
      ensures isUpdate <==> old(state) != newState
      ensures state == newState
    {
      isUpdate := state != newState;
      state := newState;
    }

    method Get() returns (b: bool)
      ensures b == state
    {
      b := state;
    }
  }

  /** What Table<T> hands to the table connection context: the table's name and its columns. */
  datatype TableContext = TableContext(name: string, columns: seq<ColumnContext>)

  /** The builder CreateTable constructs: TableSqlBuilder.Create with the default flags (quoted
      column names, indices as separate statements), and no foreign keys or indices requested. */
  function CreateTableState(typeMap: Option<map<TypeId, string>>, columns: Option<seq<ColumnContext>>,
                            instance: TypeDesc, scannedTypeMap: map<TypeId, string>): BuilderState
  {
    BuilderState(true, Some(TableNameOf(instance)), None, true, columns.GetOr(GetColumns(instance.properties)), None,
                 true, None, Some(typeMap.GetOr(scannedTypeMap)))
  }

  /** The column set CreateTable passes on: the configured one, or null when the type has none. */
  function ConfiguredColumns(columnMap: map<TypeId, seq<ColumnContext>>, t: TypeId): Option<seq<ColumnContext>> {
    if t in columnMap then Some(columnMap[t]) else None
  }

  /** The statement CreateTable executes: the header, the column lines, the primary key, the
      closing line and the ";" that precedes the (here absent) separate index statements. No
      FOREIGN KEY clause and no index is ever rendered on this path. */
  lemma CreateTableSqlShape(typeMap: Option<map<TypeId, string>>, columns: Option<seq<ColumnContext>>,
                            instance: TypeDesc, scannedTypeMap: map<TypeId, string>)
    ensures var cols := columns.GetOr(GetColumns(instance.properties));
      TableSql(CreateTableState(typeMap, columns, instance, scannedTypeMap)) ==
        Ok(Header(true, TableNameOf(instance)) + (ColumnsBlock(CreatedLines(cols), PrimaryKeyClause(cols, true), [], []) + ";"))
  {
    var s := CreateTableState(typeMap, columns, instance, scannedTypeMap);
    var p := PartsOf(s).value;
    assert PartsOf(s).Ok?;
    assert p.inlineIndices == [] && p.foreignKeys == [] && p.separateIndices == [] && p.conditions == "";
    assert Trailer(p) == ";";
    var cb := ColumnsBlock(p.columnLines, p.primaryKey, [], []);
    assert Body(p) == cb + "" + ";";
    assert cb + "" == cb;
  }

  /** The statement CreateTable renders for `instance` once the column map is set. */
  function CreateTableSql(columnMap: map<TypeId, seq<ColumnContext>>, instance: TypeDesc): string {
    var cols := ConfiguredColumns(columnMap, instance.id).GetOr(GetColumns(instance.properties));
    Header(true, TableNameOf(instance)) + (ColumnsBlock(CreatedLines(cols), PrimaryKeyClause(cols, true), [], []) + ";")
  }

  /** CreateTable's result: a null column map throws, otherwise the statement is executed; a fault
      of the execution propagates, and success means a positive affected-row count. */
  function CreateTableResult(typeMap: Option<map<TypeId, string>>, columnMap: Option<map<TypeId, seq<ColumnContext>>>,
                             instance: TypeDesc, exec: string -> Result<int, Error>, scannedTypeMap: map<TypeId, string>)
    : Result<bool, Error>
  {
    if columnMap.None? then Err(NotConfigured)
    else
      var sql :- TableSql(CreateTableState(typeMap, ConfiguredColumns(columnMap.value, instance.id), instance, scannedTypeMap));
      var affected :- exec(sql);
      Ok(affected > 0)
  }

  /** Once the column map is set, rendering cannot fail: CreateTable throws exactly when executing
      the rendered statement faults, with that fault, and otherwise reports success exactly when
      at least one row was affected. */
  lemma CreateTableReportsExecution(typeMap: Option<map<TypeId, string>>, columnMap: map<TypeId, seq<ColumnContext>>,
                                    instance: TypeDesc, exec: string -> Result<int, Error>, scannedTypeMap: map<TypeId, string>)
    ensures var executed := exec(CreateTableSql(columnMap, instance));
      CreateTableResult(typeMap, Some(columnMap), instance, exec, scannedTypeMap) ==
        if executed.Err? then Err(executed.error) else Ok(executed.value > 0)
  {
    CreateTableSqlShape(typeMap, ConfiguredColumns(columnMap, instance.id), instance, scannedTypeMap);
  }

  /** CreateTables over a create step: the entries in order, each created once; the first thrown
      error ends the loop, otherwise the result counts the creates that reported success. */
  function CountCreated<T>(create: T -> Result<bool, Error>, entries: seq<T>): Result<nat, Error> {
    if |entries| == 0 then Ok(0)
    else
      var count :- CountCreated(create, entries[..|entries| - 1]);
      var created :- create(entries[|entries| - 1]);
      Ok(if created then count + 1 else count)
  }

  /** The count never exceeds the number of entries. */
  lemma {:induction false} CountCreatedBound<T>(create: T -> Result<bool, Error>, entries: seq<T>)
    ensures CountCreated(create, entries).Ok? ==> CountCreated(create, entries).value <= |entries|
  {
    if |entries| > 0 {
      CountCreatedBound(create, entries[..|entries| - 1]);
    }
  }

  /** When every create reports success the count is the number of entries. */
  lemma {:induction false} CountCreatedAll<T>(create: T -> Result<bool, Error>, entries: seq<T>)
    requires forall i :: 0 <= i < |entries| ==> create(entries[i]) == Ok(true)
    ensures CountCreated(create, entries) == Ok(|entries|)
  {
    if |entries| > 0 {
      CountCreatedAll(create, entries[..|entries| - 1]);
    }
  }

  /** The loop throws exactly when some create throws. */
  lemma {:induction false} CountCreatedOkIff<T>(create: T -> Result<bool, Error>, entries: seq<T>)
    ensures CountCreated(create, entries).Ok? <==> forall i :: 0 <= i < |entries| ==> create(entries[i]).Ok?
  {
    if |entries| > 0 {
      var init := entries[..|entries| - 1];
      CountCreatedOkIff(create, init);
      assert forall i :: 0 <= i < |init| ==> init[i] == entries[i];
    }
  }

  /** A thrown loop names the first create that throws, every earlier one having returned. */
  lemma {:induction false} CountCreatedFirstErr<T>(create: T -> Result<bool, Error>, entries: seq<T>)
    ensures CountCreated(create, entries).Err? ==>
      exists i :: 0 <= i < |entries| && create(entries[i]).Err? && (forall j :: 0 <= j < i ==> create(entries[j]).Ok?)
        && CountCreated(create, entries) == Err(create(entries[i]).error)
  {
    if |entries| > 0 && CountCreated(create, entries).Err? {
      var init := entries[..|entries| - 1];
      assert forall i :: 0 <= i < |init| ==> init[i] == entries[i];
      CountCreatedFirstErr(create, init);
      if CountCreated(create, init).Ok? {
        CountCreatedOkIff(create, init);
        var i := |entries| - 1;
        assert create(entries[i]).Err? && forall j :: 0 <= j < i ==> create(entries[j]).Ok?;
      }
    }
  }

  lemma CountCreatedStep<T>(create: T -> Result<bool, Error>, entries: seq<T>, i: nat, count: nat)
    requires i < |entries| && CountCreated(create, entries[..i]) == Ok(count)
    ensures var created := create(entries[i]);
      CountCreated(create, entries[..i + 1]) ==
        if created.Err? then Err(created.error) else Ok(if created.value then count + 1 else count)
  {
    assert entries[..i + 1][..i] == entries[..i];
  }

  /** A failure on a prefix is the failure of the whole sequence. */
  lemma {:induction false} CountCreatedErrSticks<T>(create: T -> Result<bool, Error>, entries: seq<T>, n: nat)
    requires n <= |entries|
    requires CountCreated(create, entries[..n]).Err?
    ensures CountCreated(create, entries) == CountCreated(create, entries[..n])
    decreases |entries| - n
  {
    if n < |entries| {
      assert entries[..n + 1][..n] == entries[..n];
      CountCreatedErrSticks(create, entries, n + 1);
    } else {
      assert entries[..n] == entries;
    }
  }

  /** The create step CreateTables runs on each entry of a configured database. */
  function CreateStep(typeMap: Option<map<TypeId, string>>, columnMap: Option<map<TypeId, seq<ColumnContext>>>,
                      exec: string -> Result<int, Error>, scannedTypeMap: map<TypeId, string>): TypeDesc -> Result<bool, Error>
  {
    e => CreateTableResult(typeMap, columnMap, e, exec, scannedTypeMap)
  }

  /** Once the column map is set, CreateTables throws exactly when executing some entry's
      statement faults; it then throws the first such fault, every earlier statement having been
      executed. When every statement reports a row it returns the number of entries. */
  lemma CreateTablesConfigured(typeMap: Option<map<TypeId, string>>, columnMap: map<TypeId, seq<ColumnContext>>,
                               entries: seq<TypeDesc>, exec: string -> Result<int, Error>, scannedTypeMap: map<TypeId, string>)
    ensures var r := CountCreated(CreateStep(typeMap, Some(columnMap), exec, scannedTypeMap), entries);
      r.Ok? <==> forall i :: 0 <= i < |entries| ==> exec(CreateTableSql(columnMap, entries[i])).Ok?
    ensures var r := CountCreated(CreateStep(typeMap, Some(columnMap), exec, scannedTypeMap), entries);
      r.Err? ==>
        exists i :: 0 <= i < |entries| && exec(CreateTableSql(columnMap, entries[i])).Err?
          && (forall j :: 0 <= j < i ==> exec(CreateTableSql(columnMap, entries[j])).Ok?)
          && r == Err(exec(CreateTableSql(columnMap, entries[i])).error)
    ensures (forall i :: 0 <= i < |entries| ==> exec(CreateTableSql(columnMap, entries[i])).Ok?
                                                && exec(CreateTableSql(columnMap, entries[i])).value > 0) ==>
      CountCreated(CreateStep(typeMap, Some(columnMap), exec, scannedTypeMap), entries) == Ok(|entries|)
  {
    var create := CreateStep(typeMap, Some(columnMap), exec, scannedTypeMap);
    var r := CountCreated(create, entries);
    forall i | 0 <= i < |entries|
      ensures create(entries[i]).Ok? <==> exec(CreateTableSql(columnMap, entries[i])).Ok?
    {
      CreateStepExecutes(typeMap, columnMap, exec, scannedTypeMap, entries[i]);
    }
    CountCreatedOkIff(create, entries);
    CountCreatedFirstErr(create, entries);
    if r.Err? {
      var i :| 0 <= i < |entries| && create(entries[i]).Err? && (forall j :: 0 <= j < i ==> create(entries[j]).Ok?)
        && r == Err(create(entries[i]).error);
      CreateStepExecutes(typeMap, columnMap, exec, scannedTypeMap, entries[i]);
    }
    if forall i :: 0 <= i < |entries| ==> exec(CreateTableSql(columnMap, entries[i])).Ok?
                                          && exec(CreateTableSql(columnMap, entries[i])).value > 0 {
      forall i | 0 <= i < |entries| ensures create(entries[i]) == Ok(true) {
        CreateStepExecutes(typeMap, columnMap, exec, scannedTypeMap, entries[i]);
      }
      CountCreatedAll(create, entries);
    }
  }

  lemma CreateStepExecutes(typeMap: Option<map<TypeId, string>>, columnMap: map<TypeId, seq<ColumnContext>>,
                           exec: string -> Result<int, Error>, scannedTypeMap: map<TypeId, string>, e: TypeDesc)
    ensures var executed := exec(CreateTableSql(columnMap, e));
      CreateStep(typeMap, Some(columnMap), exec, scannedTypeMap)(e) == if executed.Err? then Err(executed.error) else Ok(executed.value > 0)
  {
    CreateTableReportsExecution(typeMap, columnMap, e, exec, scannedTypeMap);
  }

  class Database {
    const isConfigured: AtomicBoolean
    /** `_typeMap`: null until Configure. */
    var typeMap: Option<map<TypeId, string>>
    /** `ColumnMap`: null until Configure. */
    var columnMap: Option<map<TypeId, seq<ColumnContext>>>

    /** The maps are only ever set by a Configure that also raised the flag. */
    ghost predicate Valid()
      reads this, isConfigured
    {
      (typeMap.Some? || columnMap.Some?) ==> isConfigured.state
    }

    constructor ()
      ensures Valid() && fresh(isConfigured)
      ensures !isConfigured.state && typeMap.None? && columnMap.None?
    {
      isConfigured := new AtomicBoolean(false);
      typeMap := None;
      columnMap := None;
    }

    /** Stores both maps the first time; every later call throws before touching them. */
    method Configure(typeMap: map<TypeId, string>, columnMap: map<TypeId, seq<ColumnContext>>) returns (r: Outcome<Error>)
      requires Valid()
      modifies this, isConfigured
      ensures Valid() && isConfigured.state
      ensures old(isConfigured.state) ==>
        r == Fail(AlreadyConfigured) && this.typeMap == old(this.typeMap) && this.columnMap == old(this.columnMap)
      ensures !old(isConfigured.state) ==>
        r == Pass && this.typeMap == Some(typeMap) && this.columnMap == Some(columnMap)
    {
      var updated := isConfigured.Set(true);
      if !updated {
        return Fail(AlreadyConfigured);
      }
      this.typeMap := Some(typeMap);
      this.columnMap := Some(columnMap);
      r := Pass;
    }

    /** Table<T>: the type must have a column-map entry; its name then comes from the type map's
        indexer. A null map throws as well. */
    method Table(t: TypeId) returns (r: Result<TableContext, Error>)
      ensures columnMap.None? ==> r == Err(NotConfigured)
      ensures columnMap.Some? && t !in columnMap.value ==> r == Err(TableNotInDatabase(t))
      ensures r.Ok? <==> columnMap.Some? && t in columnMap.value && typeMap.Some? && t in typeMap.value
      ensures r.Ok? ==> r.value == TableContext(typeMap.value[t], columnMap.value[t])
      ensures columnMap.Some? && t in columnMap.value && typeMap.Some? && t !in typeMap.value ==> r == Err(KeyNotFound)
    {
      if columnMap.None? {
        return Err(NotConfigured);
      }
      if t !in columnMap.value {
        return Err(TableNotInDatabase(t));
      }
      var columns := columnMap.value[t];
      if typeMap.None? {
        return Err(NotConfigured);
      }
      if t !in typeMap.value {
        return Err(KeyNotFound);
      }
      r := Ok(TableContext(typeMap.value[t], columns));
    }

    /** CreateTable(instance): a builder over the configured type map and the type's configured
        columns (null when absent), built and executed. */
    method CreateTable(instance: TypeDesc, exec: string -> Result<int, Error>, scannedTypeMap: map<TypeId, string>)
      returns (r: Result<bool, Error>)
      ensures r == CreateTableResult(typeMap, columnMap, instance, exec, scannedTypeMap)
    {
      if columnMap.None? {
        return Err(NotConfigured);
      }
      var columns := if instance.id in columnMap.value then Some(columnMap.value[instance.id]) else None;
      var builder := new TableSqlBuilder(typeMap, columns, instance, true, true, scannedTypeMap);
      var sql := builder.Build();
      if sql.Err? {
        return Err(sql.error);
      }
      var affected := exec(sql.value);
      if affected.Err? {
        return Err(affected.error);
      }
      r := Ok(affected.value > 0);
    }

    /** CreateTables: CreateTable on each entry in order, counting the successes. */
    method CreateTables(entries: seq<TypeDesc>, exec: string -> Result<int, Error>, scannedTypeMap: map<TypeId, string>)
      returns (r: Result<nat, Error>)
      ensures var tm, cm := typeMap, columnMap;
        r == CountCreated(CreateStep(tm, cm, exec, scannedTypeMap), entries)
      ensures r.Ok? ==> r.value <= |entries|
    {
      var tm, cm := typeMap, columnMap;
      ghost var create := CreateStep(tm, cm, exec, scannedTypeMap);
      var state: nat := 0;
      var i := 0;
      while i < |entries|
        invariant 0 <= i <= |entries|
        invariant CountCreated(create, entries[..i]) == Ok(state)
      {
        var created := CreateTable(entries[i], exec, scannedTypeMap);
        CountCreatedStep(create, entries, i, state);
        if created.Err? {
          CountCreatedErrSticks(create, entries, i + 1);
          return Err(created.error);
        }
        if created.value {
          state := state + 1;
        }
        i := i + 1;
      }
      assert entries[..i] == entries;
      CountCreatedBound(create, entries);
      r := Ok(state);
    }
  }
}
