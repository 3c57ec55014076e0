# rDB schema provisioning, modelled in Dafny

rDB is a small C# data-access library. Entry types derive from `DatabaseEntry`, and annotations on their properties describe columns, foreign keys and indices. This project models rDB's schema-provisioning engine:

- **Dependency solver.** `DependencyGraph<T>` orders keys so that each key comes after the keys it depends on. It repeatedly takes the first key, in dictionary order, whose dependency set is empty, and removes that key from the graph and from every other key's set. It fails when keys remain but none is ready.
- **DDL renderer.** `TableSqlBuilder.Build` assembles a `CREATE TABLE` statement from these pieces:
  - one line per created column (`DatabaseColumnContext.GenerateSql`);
  - a de-duplicated `PRIMARY KEY (...)` clause;
  - the `FOREIGN KEY ... REFERENCES ... ON DELETE ... ON UPDATE ...` clauses (`ForeignKeyAttribute.GenerateSql`);
  - the index clauses (`IndexAttribute.GenerateSql`), either inline or as separate `CREATE ... INDEX` statements.
- **Metadata aggregation.** `DatabaseEntry` provides `GetColumns`, `GetForeignKeys` and `GetIndices`; the last two group the properties under structurally equal attributes. It also provides `Save`, `Get` and the type-map naming rule.
- **Orchestration.** `DatabaseBuilder` registers tables and rejects duplicates. It derives the creation order from the foreign keys. Its `Build` configures the database once, drops the tables in reverse creation order, then creates them in creation order; the first drop or create that throws ends it.
- **Supporting state.**
  - `Database` guards `Configure` with a one-shot `AtomicBoolean`, checks membership in `Table<T>`, and counts successful creates.
  - `TypeMapBuilder` accumulates type-to-name pairs.
  - `SchemaContext` is an immutable lookup snapshot.

How the source's constructs are represented:

- **Reflection.** A type is a `TypeDesc` value: its identity, short name, optional table-annotation name, whether it derives from `DatabaseEntry`, whether it is a concrete class, and its properties in declaration order, each with its optional column, foreign-key and index annotation.
- **Collection order.** `Dictionary`, `HashSet` and `ImmutableHashSet` enumeration order is taken to be insertion order. Keys are kept as duplicate-free sequences beside maps.
- **Exceptions.** A thrown exception is an `Err`/`Fail` value naming the throw site.
- **Execution.** The database's execution of a statement is a function parameter `exec` giving the affected-row count or the fault it throws. The awaited `DropTable(type, suffix)` call of `Build` is a parameter `dropTable` saying whether it throws.
- **Build's output.** `Build` returns the trace of the actions it issues (`Configure`, `Drop`, `Create`) and its outcome. The first drop or create that throws ends the trace and is its last action.

Modules, in dependency order:

| module | file |
|---|---|
| `Wrappers`, `Errors`, `Dictionaries` | wrappers.dfy |
| `Text` | text.dfy |
| `DependencySolving` (the solver as functions) | dependency_solver.dfy |
| `DependencyGraphs` (the class) | dependency_graph.dfy |
| `ColumnAttributes`, `ColumnContexts` | columns.dfy |
| `ForeignKeys` | foreign_key.dfy |
| `Indices` | index_attribute.dfy |
| `Groupings`, `Entries` | grouping.dfy, entry.dfy |
| `TableStatements` (the statement as a function of the builder's state) | table_sql.dfy |
| `TableSqlBuilders` (the appending methods and the builder class) | table_sql_builder.dfy |
| `Databases` | database.dfy |
| `DatabaseBuilders` | database_builder.dfy |
| `TypeMaps` | type_map_builder.dfy |
| `SchemaContexts` | schema_context.dfy |

Where two definitions in the source disagree, the model follows the callee:

- `TableSqlBuilder.BuildColumns` calls `GenerateSql(bool)` on a column context. The defined `DatabaseColumnContext.GenerateSql()` takes no argument and always quotes the name, so column lines are always quoted.
- `DatabaseBuilder.Build` calls `Database.DropTable(Type, string)`, which `Database` does not define. A drop is therefore an abstract `Drop(type, " CASCADE" or "")` action.

## Model

| member | source | states |
|---|---|---|
| DependencySolving.FindSpec | rDB/DependencyGraph.cs:42-60 | Find as a function: no value for an empty graph, the first ready key, or the unsolvable-dependencies error when keys remain and none is ready; FirstReady and the Find method are proved against it |
| DependencySolving.SolveSpec | rDB/DependencyGraph.cs:31-40 | Solve as a function: emit the key Find picks, remove it, repeat until Find yields none, passing on Find's error; SolveSound, SolveFailureWitness and SolveCorrect state what it computes |
| DependencySolving.FirstReady | rDB/DependencyGraph.cs:50-57 | no value iff every key's set is non-empty; otherwise the first key in dictionary order whose set is empty, with no ready key before it |
| DependencySolving.FirstReadyAt | rDB/DependencyGraph.cs:50-57 | a ready key preceded only by keys that are not ready is the one Find picks |
| DependencySolving.Without | rDB/DependencyGraph.cs:62-64 | removing a key keeps the other keys and their order, and keeps them duplicate-free |
| DependencySolving.RemoveFromTree | rDB/DependencyGraph.cs:62-68 | the removed key is gone, every other key stays, and each remaining set loses exactly that key |
| DependencySolving.RemoveKeepsWellFormed | rDB/DependencyGraph.cs:62-68 | after a removal the key sequence still matches the dictionary's keys |
| DependencySolving.SolveEmpty | rDB/DependencyGraph.cs:44-48 | solving an empty graph yields an empty sequence |
| DependencySolving.ConsIsTopologicalOrder | rDB/DependencyGraph.cs:35-39 | emitting a ready key, then an order of the graph without it, orders the whole graph |
| DependencySolving.SolveSound | rDB/DependencyGraph.cs:31-40 | a successful solve emits every key exactly once, each after all of its dependencies |
| DependencySolving.SolveFailureWitness | rDB/DependencyGraph.cs:59 | a failing solve leaves a non-empty set of keys, each waiting on a key of that set or on a key never added |
| DependencySolving.BlockedViolation | rDB/DependencyGraph.cs:59 | against such a blocked set, every ordering of the keys puts some key before one of its dependencies |
| DependencySolving.SolveCorrect | rDB/DependencyGraph.cs:31-60 | Solve succeeds exactly when a dependencies-first order of the keys exists, and then it returns one |
| DependencySolving.CycleFails | rDB/DependencyGraph.cs:50-59 | a cycle of any length, a self-loop included, makes Solve fail |
| DependencySolving.UnresolvedDependencyFails | rDB/DependencyGraph.cs:23-24 | a dependency on a key that was never added makes Solve fail |
| DependencyGraphs.DependencyGraph.constructor | rDB/DependencyGraph.cs:10-15 | a new graph has no keys |
| DependencyGraphs.DependencyGraph.Copy | rDB/DependencyGraph.cs:17-21 | the copy has the same keys, in the same order, with equal dependency sets |
| DependencyGraphs.DependencyGraph.Add | rDB/DependencyGraph.cs:23-24 | a key already present fails and changes nothing; otherwise the key is appended, and its duplicate dependencies collapse into one set |
| DependencyGraphs.DependencyGraph.Find | rDB/DependencyGraph.cs:42-60 | returns no value iff the graph is empty and fails iff no key is ready; a returned key is present and has an empty set |
| DependencyGraphs.DependencyGraph.Remove | rDB/DependencyGraph.cs:62-68 | deletes the key, strips it from every remaining set, and changes nothing else |
| DependencyGraphs.StripFromSets | rDB/DependencyGraph.cs:66-67 | every set loses the removed key and no key is added or dropped |
| DependencyGraphs.DependencyGraph.Solve | rDB/DependencyGraph.cs:31-40 | agrees with the solver specification; success is a dependencies-first order; failure means none exists; the registered graph is not modified |
| ColumnAttributes.NewColumnAttribute | rDB/Attributes/DatabaseColumnAttribute.cs:8-22 | the type is the argument; inserted and created default to true; primary key, auto-increment and not-null default to false; Default defaults to null |
| ColumnContexts.NewColumnContext | rDB/DatabaseColumnContext.cs:12-16 | the name and the declaration are stored unchanged |
| ColumnContexts.ColumnSql | rDB/DatabaseColumnContext.cs:18-29 | the line begins with the double-quoted name, a space and the type |
| ColumnContexts.ColumnSqlTail | rDB/DatabaseColumnContext.cs:20-28 | the text after the head reads back as exactly the NOT NULL flag and the DEFAULT literal, in that order |
| ColumnContexts.ColumnSqlIgnoresKeyFlags | rDB/DatabaseColumnContext.cs:18-29 | the line does not depend on the primary-key, auto-increment, inserted or created flags |
| ForeignKeys.NewForeignKey | rDB/Attributes/ForeignKeyAttribute.cs:20-43 | a null or empty target list is rejected; otherwise table and columns are stored, IndexName is null, and both actions are Restrict |
| ForeignKeys.ForeignKeySql | rDB/Attributes/ForeignKeyAttribute.cs:45-67 | fails exactly for null or zero local columns or a count different from the target columns, with the matching error |
| ForeignKeys.ForeignKeySqlShape | rDB/Attributes/ForeignKeyAttribute.cs:62-66 | the clause starts with FOREIGN KEY, the optional index name and the local columns before REFERENCES and the table, and ends with the table, the target columns and the two actions |
| ForeignKeys.ReferenceOptionName | rDB/Attributes/ForeignKeyAttribute.cs:76-88 | the SQL keyword of each referential action; the two lemmas below prove it total and injective, with a left inverse |
| ForeignKeys.ReferenceOptionNameRoundTrip | rDB/Attributes/ForeignKeyAttribute.cs:76-88 | every action has a keyword, and the keyword reads back as that action |
| ForeignKeys.ReferenceOptionNameInjective | rDB/Attributes/ForeignKeyAttribute.cs:76-88 | distinct actions have distinct keywords |
| ForeignKeys.Equals | rDB/Attributes/ForeignKeyAttribute.cs:90-97 | Equals(object) over Table, Columns, IndexName and both actions, false for null or another type; EqualsIsValueEquality states its meaning |
| ForeignKeys.EqualsIsValueEquality | rDB/Attributes/ForeignKeyAttribute.cs:90-97 | Equals holds iff all five fields agree; it is reflexive and symmetric, and false against null |
| ForeignKeys.HashInputs | rDB/Attributes/ForeignKeyAttribute.cs:103-110 | the hash reads the five fixed items followed by every target column |
| ForeignKeys.HashCode | rDB/Attributes/ForeignKeyAttribute.cs:99-116 | GetHashCode as an accumulation over HashInputs with an abstract mixing step; EqualsImpliesEqualHash is its contract with Equals |
| ForeignKeys.EqualsImpliesEqualHash | rDB/Attributes/ForeignKeyAttribute.cs:99-116 | equal declarations hash equally, whatever the mixing function |
| ForeignKeys.OperatorEquals | rDB/Attributes/ForeignKeyAttribute.cs:118-126 | operator ==: null equals null only, otherwise Equals; OperatorEqualsMeaning states its meaning |
| ForeignKeys.OperatorNotEquals | rDB/Attributes/ForeignKeyAttribute.cs:128-134 | operator !=: the negation of ==; OperatorEqualsMeaning states its meaning |
| ForeignKeys.OperatorEqualsMeaning | rDB/Attributes/ForeignKeyAttribute.cs:118-134 | == is true for null/null and false for null/non-null, agrees with Equals otherwise, and != is its negation |
| Indices.NewIndexAttribute | rDB/Attributes/IndexAttribute.cs:10-12 | the name and type are null and the index is unique |
| Indices.IndexSql | rDB/Attributes/IndexAttribute.cs:14-22 | GenerateSql: the CREATE prefix with a table, UNIQUE when unique, INDEX, then the tail; the four lemmas below state its shape |
| Indices.IndexSqlTableToggle | rDB/Attributes/IndexAttribute.cs:14-22 | the text starts with CREATE iff a table is given; without one it starts with UNIQUE/INDEX |
| Indices.IndexTailByTable | rDB/Attributes/IndexAttribute.cs:21 | IF NOT EXISTS and ON table are present with a table and absent without one; a null name renders as empty text |
| Indices.IndexSqlUnique | rDB/Attributes/IndexAttribute.cs:24-29 | UNIQUE follows the CREATE prefix iff the index is unique |
| Indices.IndexSqlEnding | rDB/Attributes/IndexAttribute.cs:31-36 | the parenthesised column list closes the text, preceded by USING type when a type is given |
| Groupings.GroupSpec | rDB/DatabaseEntry.cs:96-107 | the grouping the aggregation loop builds, member by member; GroupSpecValid, GroupSpecKeys and GroupSpecMembers state what it holds |
| Groupings.AddName | rDB/DatabaseEntry.cs:101-102 | adding a name to a group keeps the group duplicate-free and adds exactly that name |
| Groupings.GroupSpecValid | rDB/DatabaseEntry.cs:96-107 | keys are distinct, and every key has a non-empty, duplicate-free set of names |
| Groupings.GroupSpecKeys | rDB/DatabaseEntry.cs:96-107 | the keys are exactly the attributes that occur, structurally equal ones being one key |
| Groupings.GroupSpecMembers | rDB/DatabaseEntry.cs:96-107 | a name is in a key's set exactly when a property with that name carries that attribute |
| Groupings.ExactlyOneGroup | rDB/DatabaseEntry.cs:96-107 | with distinct property names, each annotated property is in the set of exactly one key |
| Groupings.Aggregate | rDB/DatabaseEntry.cs:94-107 | the loop builds the specified grouping: keys are the occurring attributes, and sets are the properties carrying them |
| Entries.GetColumns | rDB/DatabaseEntry.cs:61-70 | one column context per property with a column annotation, named by that property, and no others |
| Entries.ForeignKeyMembers | rDB/DatabaseEntry.cs:93 | the (property, foreign key) pairs are exactly the annotated properties |
| Entries.IndexMembers | rDB/DatabaseEntry.cs:112 | the (property, index) pairs are exactly the annotated properties |
| Entries.GetForeignKeys | rDB/DatabaseEntry.cs:90-108 | keys are the foreign keys that occur on the type; a key's set is exactly the properties carrying it |
| Entries.GetIndices | rDB/DatabaseEntry.cs:110-127 | the same grouping over index annotations |
| Entries.Get | rDB/DatabaseEntry.cs:146-168 | a property's value when the property exists, the missing-column error otherwise |
| Entries.Save | rDB/DatabaseEntry.cs:137-144 | the saver is called once per column, in order, with that column's value; the first missing column stops it with Get's error |
| Entries.SaveColumns | rDB/DatabaseEntry.cs:129-135 | the same calls over the column contexts' names |
| Entries.TableNameOf | rDB/DatabaseEntry.cs:48-49 | the naming rule: the table annotation's name, else the type's short name; TypeMapSpecMeaning and the TableSqlBuilder constructor use it |
| Entries.TypeMapSpec | rDB/DatabaseEntry.cs:44-52 | the scan as a function: DictAdd of each entry class under its table name, the first throw ending it; the TypeMapSpec lemmas state what it maps |
| Entries.BuildTypeMap | rDB/DatabaseEntry.cs:44-52 | the loop computes the type-map specification over the scanned types |
| Entries.TypeMapSpecErrSticks | rDB/DatabaseEntry.cs:46-50 | once an Add has thrown, later types do not change the outcome |
| Entries.TypeMapSpecMeaning | rDB/DatabaseEntry.cs:36-52 | a successful scan maps exactly the concrete entry classes, each to its annotation name or else its type name |
| Entries.TypeMapSpecDistinctOk | rDB/DatabaseEntry.cs:44-52 | with distinct identities among entry classes, the scan cannot fail |
| TableStatements.CreatedLines | rDB/Builder/TableSqlBuilder.cs:225-231 | the lines are exactly the indented renderings of the columns whose IsCreated flag is set |
| TableStatements.PrimaryKeyNames | rDB/Builder/TableSqlBuilder.cs:144-148 | the primary-key names are exactly those of the primary-key columns, each once |
| TableStatements.PrimaryKeyClause | rDB/Builder/TableSqlBuilder.cs:142-158 | the clause exists iff some column is a primary key, and then lists the distinct names, quoted iff the flag is set |
| TableStatements.IndexSqls | rDB/Builder/TableSqlBuilder.cs:165-176 | one text per index entry |
| TableStatements.IndexSqlsAt | rDB/Builder/TableSqlBuilder.cs:171-175 | entry i's text is that index rendered over its own property set |
| TableStatements.IndexClauses | rDB/Builder/TableSqlBuilder.cs:160-177 | fails iff there are indices and no type map; otherwise one text per entry |
| TableStatements.IndexSqlsPrefix | rDB/Builder/TableSqlBuilder.cs:241-291 | each index text starts with CREATE exactly when a table name is passed |
| TableStatements.ForeignKeyClause | rDB/Builder/TableSqlBuilder.cs:125-138 | a missing type map or an unresolved target type fails; otherwise the clause names the target's table |
| TableStatements.ForeignKeyClauses | rDB/Builder/TableSqlBuilder.cs:118-140 | the foreign-key loop as a function, the first failing entry ending it; ForeignKeyClausesOk and ForeignKeyClausesErr state its result |
| TableStatements.ForeignKeyClausesOk | rDB/Builder/TableSqlBuilder.cs:118-140 | a successful run yields one clause per entry, in order, each that entry's own clause |
| TableStatements.ForeignKeyClausesErr | rDB/Builder/TableSqlBuilder.cs:118-140 | the run fails exactly when some entry's clause fails |
| TableStatements.TableSql | rDB/Builder/TableSqlBuilder.cs:256-295 | a null name fails; foreign keys with no type map fail; a result starts with the header |
| TableStatements.Header | rDB/Builder/TableSqlBuilder.cs:269-277 | the statement's first line; HeaderShape states its text |
| TableStatements.HeaderShape | rDB/Builder/TableSqlBuilder.cs:269-277 | the header is CREATE TABLE [IF NOT EXISTS ] then the name, "( " and a line break, with IF NOT EXISTS as the flag says |
| TableStatements.PartsOf | rDB/Builder/TableSqlBuilder.cs:256-295 | the checks of Build in order, then the pieces of the statement; the PartsOf lemmas state what each piece is |
| TableStatements.PartsOfColumns | rDB/Builder/TableSqlBuilder.cs:208-239 | a built statement has the header, the created column lines and the primary-key clause of the builder's column set |
| TableStatements.PartsOfForeignKeys | rDB/Builder/TableSqlBuilder.cs:248-251 | a built statement has one foreign-key clause per entry, in order, each referencing its target's table |
| TableStatements.PartsOfIndices | rDB/Builder/TableSqlBuilder.cs:241-291 | indices are inline and without CREATE, or separate and with CREATE, as the flag says |
| TableStatements.UnresolvedForeignKeyFails | rDB/Builder/TableSqlBuilder.cs:132-135 | a foreign key whose target is missing from the type map makes Build fail |
| TableSqlBuilders.AppendItem | rDB/Builder/TableSqlBuilder.cs:193-200 | appending an item and the separator extends the appended list by that item |
| TableSqlBuilders.CutLastSeparator | rDB/Builder/TableSqlBuilder.cs:204-205 | cutting the last separator off leaves the items joined with no trailing separator |
| Text.WrappedIsJoinThenSep | rDB/Builder/TableSqlBuilder.cs:215-234 | every item followed by the separator is the join followed by one separator |
| TableSqlBuilders.AppendColumnLines | rDB/Builder/TableSqlBuilder.cs:210-234 | appends exactly the created column lines joined by "," and a line break |
| TableSqlBuilders.AppendConditions | rDB/Builder/TableSqlBuilder.cs:188-206 | appends the options joined by the separator, or nothing when they are null |
| TableSqlBuilders.AppendIndices | rDB/Builder/TableSqlBuilder.cs:160-177 | appends each index text between the given prefix and suffix, or fails as the index specification says |
| TableSqlBuilders.ForeignKeyClausesErrSticks | rDB/Builder/TableSqlBuilder.cs:123-139 | once an entry has thrown, later entries do not change the error |
| TableSqlBuilders.ForeignKeyStep | rDB/Builder/TableSqlBuilder.cs:129-138 | one loop step computes that entry's clause |
| TableSqlBuilders.AppendForeignKeys | rDB/Builder/TableSqlBuilder.cs:248-251 | appends each clause on its own indented line, or fails with the first entry's error |
| TableSqlBuilders.AppendColumnsBlock | rDB/Builder/TableSqlBuilder.cs:208-254 | appends column lines, primary key, inline indices and foreign keys in that order, then the closing line |
| TableSqlBuilders.AppendBody | rDB/Builder/TableSqlBuilder.cs:279-291 | after the checks, appends the statement's body or fails with the first error |
| TableSqlBuilders.AppendTrailer | rDB/Builder/TableSqlBuilder.cs:280-291 | appends the conditions, then, with separate indices, ";" and one line per index statement, each ending in ";" |
| TableSqlBuilders.RenderTable | rDB/Builder/TableSqlBuilder.cs:256-295 | the statement built step by step equals the specified statement, errors included |
| TableSqlBuilders.TableSqlBuilder.constructor | rDB/Builder/TableSqlBuilder.cs:29-46 | the name follows the naming rule; a null type map falls back to the scanned one and a null column set to the entry's columns; if-not-exists is on |
| TableSqlBuilders.TableSqlBuilder.WithIfNotExists | rDB/Builder/TableSqlBuilder.cs:74-78 | sets only the if-not-exists flag; returns the builder itself |
| TableSqlBuilders.TableSqlBuilder.WithTypeMap | rDB/Builder/TableSqlBuilder.cs:86-90 | sets only the type map; returns the builder itself |
| TableSqlBuilders.TableSqlBuilder.WithEntryForeignKeys | rDB/Builder/TableSqlBuilder.cs:92-96 | sets only the foreign keys, to the entry's grouped foreign keys; returns the builder itself |
| TableSqlBuilders.TableSqlBuilder.WithIndices | rDB/Builder/TableSqlBuilder.cs:98-102 | sets only the indices, to the entry's grouped indices; returns the builder itself |
| TableSqlBuilders.TableSqlBuilder.WithForeignKeys | rDB/Builder/TableSqlBuilder.cs:104-110 | sets only the foreign keys, to the given dictionary; returns the builder itself |
| TableSqlBuilders.TableSqlBuilder.WithColumnSet | rDB/Builder/TableSqlBuilder.cs:112-116 | sets only the column set; returns the builder itself |
| TableSqlBuilders.TableSqlBuilder.Build | rDB/Builder/TableSqlBuilder.cs:256-295 | returns the statement specified for the builder's current settings, or its error |
| Databases.AtomicBoolean.constructor | rDB/Database.cs:175-178 | the flag holds the given value |
| Databases.AtomicBoolean.Set | rDB/Database.cs:184-193 | returns true iff the stored value differed; afterwards the stored value is the new one |
| Databases.AtomicBoolean.Get | rDB/Database.cs:195-199 | returns the stored value |
| Databases.Database.constructor | rDB/Database.cs:21-43 | not configured, with no type map and no column map |
| Databases.Database.Configure | rDB/Database.cs:45-52 | the first call stores both maps; a later call fails and leaves the first maps in place |
| Databases.Database.Table | rDB/Database.cs:72-85 | fails when the type has no column-map entry; otherwise yields its table name and its columns |
| Databases.CreateTableResult | rDB/Database.cs:129-141 | CreateTable as a function: the null column map throws; otherwise the statement is rendered and executed, a fault propagating; CreateTableReportsExecution states its result |
| Databases.CreateTableSql | rDB/Database.cs:131-138 | the statement CreateTable renders on a configured database; CreateTableSqlShape proves it is what TableSql yields |
| Databases.CreateTableSqlShape | rDB/Database.cs:129-141 | CreateTable's statement is the header, the column block and ";": no foreign-key clause and no index |
| Databases.CreateTableReportsExecution | rDB/Database.cs:100-141 | on a configured database rendering cannot fail: CreateTable throws exactly when executing the statement faults, with that fault, and otherwise reports true iff at least one row was affected |
| Databases.Database.CreateTable | rDB/Database.cs:129-141 | renders the statement for the type's configured columns, executes it, passes on a fault of the execution, and reports whether rows were affected |
| Databases.CountCreated | rDB/Database.cs:147-157 | the counting loop as a function over a create step; the CountCreated lemmas state its result |
| Databases.CountCreatedBound | rDB/Database.cs:147-157 | the count is at most the number of entries |
| Databases.CountCreatedAll | rDB/Database.cs:147-157 | when every create succeeds, the count is the number of entries |
| Databases.CountCreatedOkIff | rDB/Database.cs:150-154 | the loop throws exactly when some create throws |
| Databases.CountCreatedFirstErr | rDB/Database.cs:150-154 | a loop that throws throws the first create's fault, every earlier create having returned |
| Databases.CountCreatedErrSticks | rDB/Database.cs:150-154 | a create that throws ends the loop with its error |
| Databases.CreateTablesConfigured | rDB/Database.cs:100-157 | on a configured database CreateTables throws exactly when executing some entry's statement faults, then with the first such fault, every earlier statement executed; when every statement affects rows it counts every entry |
| Databases.Database.CreateTables | rDB/Database.cs:147-157 | creates the entries in order and counts the creates that reported success, at most the number of entries |
| DatabaseBuilders.EmptyRegistry | rDB/Builder/DatabaseBuilder.cs:21-30 | a new builder's registry is empty and consistent |
| DatabaseBuilders.RegisterValid | rDB/Builder/DatabaseBuilder.cs:94-99 | registering a new type keeps TableMap, its order and `_tables` consistent |
| DatabaseBuilders.RegisterAll | rDB/Builder/DatabaseBuilder.cs:83-103 | WithTable as a function over the registry; the RegisterAll lemmas state its result |
| DatabaseBuilders.RegisterAllValid | rDB/Builder/DatabaseBuilder.cs:83-103 | WithTable keeps the registry consistent whether or not it throws |
| DatabaseBuilders.RegisterAllKeeps | rDB/Builder/DatabaseBuilder.cs:87-99 | tables registered before the call stay registered, unchanged and in their place |
| DatabaseBuilders.RegisterAllPass | rDB/Builder/DatabaseBuilder.cs:87-92 | the call succeeds iff the new types are distinct and none was registered before |
| DatabaseBuilders.RegisterAllFail | rDB/Builder/DatabaseBuilder.cs:87-99 | a failure names the first type that is already registered or repeats an earlier one; the tables before it in the same call stay registered |
| DatabaseBuilders.RegisterAllAppends | rDB/Builder/DatabaseBuilder.cs:94-99 | each accepted table adds exactly one TableMap entry and one (type, columns) pair, in order |
| DatabaseBuilders.RegisterAllEntries | rDB/Builder/DatabaseBuilder.cs:94 | each accepted type maps to its own entry |
| DatabaseBuilders.ColumnMapOf | rDB/Builder/DatabaseBuilder.cs:130-131 | ImmutableDictionary.CreateRange over `_tables`; the ColumnMap lemmas state its keys and values |
| DatabaseBuilders.ColumnMapKeys | rDB/Builder/DatabaseBuilder.cs:130-131 | the configured column map's keys are the types of `_tables` |
| DatabaseBuilders.ColumnMapValues | rDB/Builder/DatabaseBuilder.cs:130-131 | with no type repeated, each type maps to its own columns |
| DatabaseBuilders.ColumnMapDomain | rDB/Builder/DatabaseBuilder.cs:126-131 | Build configures exactly the registered types |
| DatabaseBuilders.ColumnMapColumns | rDB/Builder/DatabaseBuilder.cs:94-99 | each registered type is configured with the columns GetColumns finds on it |
| DatabaseBuilders.Dependencies | rDB/Builder/DatabaseBuilder.cs:110-111 | a table's dependencies are the target types of its grouped foreign keys |
| DatabaseBuilders.DependenciesMeaning | rDB/Builder/DatabaseBuilder.cs:110-113 | a table depends on a type iff one of its properties has a foreign key to that type |
| DatabaseBuilders.CreationTree | rDB/Builder/DatabaseBuilder.cs:107-114 | the dependency sets the graph receives, one per registered table; CreationTreeWellFormed and ReferenceIsEdge state them |
| DatabaseBuilders.CreationTreeWellFormed | rDB/Builder/DatabaseBuilder.cs:107-114 | the graph has exactly the registered types as keys, in TableMap order |
| DatabaseBuilders.ReferenceIsEdge | rDB/Builder/DatabaseBuilder.cs:108-114 | a foreign key on a registered table is an edge of the graph |
| DatabaseBuilders.CreationOrder | rDB/Builder/DatabaseBuilder.cs:105-118 | a computed order holds exactly the registered types |
| DatabaseBuilders.Lookup | rDB/Builder/DatabaseBuilder.cs:116-117 | each solved type is replaced by its registered entry, in order |
| DatabaseBuilders.TablesInCreationOrder | rDB/Builder/DatabaseBuilder.cs:105-118 | the entries are those of the solved order, in the same order, or the solver's error |
| DatabaseBuilders.TablesInCreationOrderCovers | rDB/Builder/DatabaseBuilder.cs:105-118 | the creation order lists as many tables as are registered |
| DatabaseBuilders.CreationOrderCorrect | rDB/Builder/DatabaseBuilder.cs:105-118 | each registered table appears once, after every table its foreign keys target; failure means no such order exists |
| DatabaseBuilders.UnregisteredTargetFails | rDB/Builder/DatabaseBuilder.cs:105-118 | a foreign key to a type that was never registered makes the order fail |
| DatabaseBuilders.MutualReferenceFails | rDB/Builder/DatabaseBuilder.cs:105-118 | two tables referencing each other make the order fail |
| DatabaseBuilders.SelfReferenceFails | rDB/Builder/DatabaseBuilder.cs:105-118 | a table with a foreign key to its own type makes the order fail, so Build fails at its first drop or create step |
| DatabaseBuilders.NewCreationGraph | rDB/Builder/DatabaseBuilder.cs:107-114 | the filled graph has the registered types in TableMap order, each depending on its targets |
| DatabaseBuilders.DropActions | rDB/Builder/DatabaseBuilder.cs:135-143 | one awaited drop per table in reverse order, with CASCADE as the flag says; the first drop that throws ends the loop |
| DatabaseBuilders.IssueAll | rDB/Builder/DatabaseBuilder.cs:139-147 | awaiting one statement per table in order, the first that throws ending the run; IssueAllPass and IssueAllFirstFail state its result |
| DatabaseBuilders.IssueAllPass | rDB/Builder/DatabaseBuilder.cs:139-147 | a run completes exactly when no statement throws, and then issues one action per table, in order |
| DatabaseBuilders.IssueAllFirstFail | rDB/Builder/DatabaseBuilder.cs:139-147 | a run that throws stops at the first statement that throws: every earlier one completed, and the actions issued end with it |
| DatabaseBuilders.IssueAllFailSticks | rDB/Builder/DatabaseBuilder.cs:139-143 | once a statement has thrown, later tables change nothing |
| DatabaseBuilders.CountCreatedIssue | rDB/Builder/DatabaseBuilder.cs:120-124 | awaiting CreateTables throws exactly when one of its creates throws, with the same fault |
| DatabaseBuilders.BuildSpec | rDB/Builder/DatabaseBuilder.cs:126-150 | what Build issues after Configure and how it ends, given the order and how each drop and create completes; the Build lemmas below state its properties |
| DatabaseBuilders.BuildConfiguresFirst | rDB/Builder/DatabaseBuilder.cs:126-131 | the trace starts with the single Configure, before any drop or create |
| DatabaseBuilders.BuildDropsInReverse | rDB/Builder/DatabaseBuilder.cs:133-147 | with both flags set and no statement throwing, Build completes and the drop sequence is exactly the reverse of the create sequence |
| DatabaseBuilders.BuildDefaults | rDB/Builder/DatabaseBuilder.cs:24-27 | with the default flags Build issues one create per table in creation order when no create throws, and fails with the solver's error when there is no order; with neither flag, only Configure happens |
| DatabaseBuilders.BuildStopsAtFirstFault | rDB/Builder/DatabaseBuilder.cs:133-147 | Build completes exactly when no drop and no create throws; a drop that throws ends it with no later drop and no create issued; a create that throws ends it after all drops and every earlier create |
| DatabaseBuilders.DatabaseBuilder.constructor | rDB/Builder/DatabaseBuilder.cs:21-37 | nothing registered, create on, drop and cascade off, no type map |
| DatabaseBuilders.DatabaseBuilder.WithDropTables | rDB/Builder/DatabaseBuilder.cs:43-51 | sets the drop flag and the cascade flag to true whatever the argument, and nothing else; returns the builder itself |
| DatabaseBuilders.DatabaseBuilder.WithDatabase | rDB/Builder/DatabaseBuilder.cs:53-59 | replaces only the database; returns the builder itself |
| DatabaseBuilders.DatabaseBuilder.WithCreateTables | rDB/Builder/DatabaseBuilder.cs:61-67 | sets only the create flag; returns the builder itself |
| DatabaseBuilders.DatabaseBuilder.WithTypeMap | rDB/Builder/DatabaseBuilder.cs:69-73 | sets only the type map; returns the builder itself |
| DatabaseBuilders.DatabaseBuilder.WithTable | rDB/Builder/DatabaseBuilder.cs:83-103 | registers the tables in order, stopping at the first duplicate, and keeps the registry consistent; returns the builder itself |
| DatabaseBuilders.DatabaseBuilder.GetTablesInCreationOrder | rDB/Builder/DatabaseBuilder.cs:105-118 | returns the registered entries in creation order, or the solver's error |
| DatabaseBuilders.DatabaseBuilder.CreateAllTables | rDB/Builder/DatabaseBuilder.cs:120-124 | hands the tables in creation order to CreateTables and passes on its result, a thrown execution fault included, or fails with the solver's error |
| DatabaseBuilders.DatabaseBuilder.CreateAll | rDB/Builder/DatabaseBuilder.cs:146-147 | creates the tables in creation order until one create throws, or fails with the solver's error |
| DatabaseBuilders.DatabaseBuilder.DropAll | rDB/Builder/DatabaseBuilder.cs:133-144 | drops the tables in reverse creation order until one drop throws, or fails with the solver's error |
| DatabaseBuilders.DatabaseBuilder.Provision | rDB/Builder/DatabaseBuilder.cs:133-149 | the drops and creates after Configure, and the first fault that ends them, are exactly those the build specification prescribes |
| DatabaseBuilders.DatabaseBuilder.Build | rDB/Builder/DatabaseBuilder.cs:126-150 | fills in the scanned type map when none is set and configures the database once; the trace and the outcome, a thrown drop or create included, are the specified ones; a second Build fails at Configure |
| TypeMaps.RangeSpec | rDB/Builder/TypeMapBuilder.cs:22-28 | WithRange as a function, the first rejected pair ending it; the RangeSpec lemmas state its result |
| TypeMaps.WithSpec | rDB/Builder/TypeMapBuilder.cs:35-43 | a non-entry type, or a type mapped to another name, is rejected; otherwise the pair is added |
| TypeMaps.RangeSpecKeepsEntries | rDB/Builder/TypeMapBuilder.cs:22-28 | pairs already present keep their names, whether or not the range fails |
| TypeMaps.RangeSpecPass | rDB/Builder/TypeMapBuilder.cs:22-28 | a successful range holds every given pair, and nothing besides what was there |
| TypeMaps.RangeSpecFail | rDB/Builder/TypeMapBuilder.cs:22-28 | a failing range stops at the first pair With rejects, and earlier pairs stay added |
| TypeMaps.RangeSpecFailSticks | rDB/Builder/TypeMapBuilder.cs:24-25 | once a pair has thrown, later pairs change nothing |
| TypeMaps.TypeMapBuilder.constructor | rDB/Builder/TypeMapBuilder.cs:10-15 | a new builder holds no pairs |
| TypeMaps.TypeMapBuilder.With | rDB/Builder/TypeMapBuilder.cs:35-43 | adds the pair, or fails as specified and changes nothing; returns the builder itself |
| TypeMaps.TypeMapBuilder.WithType | rDB/Builder/TypeMapBuilder.cs:50-55 | With under the annotation's name, else the type's name; returns the builder itself |
| TypeMaps.TypeMapBuilder.WithRange | rDB/Builder/TypeMapBuilder.cs:22-28 | With on each pair in order, stopping at the first failure; returns the builder itself |
| TypeMaps.TypeMapBuilder.Build | rDB/Builder/TypeMapBuilder.cs:57-60 | the map of exactly the pairs added |
| SchemaContexts.NewSchemaContext | rDB/SchemaContext.cs:17-23 | both maps are stored unchanged |
| SchemaContexts.TableName | rDB/SchemaContext.cs:25-26 | the type map's entry for the type; fails when the type is absent |
| SchemaContexts.Columns | rDB/SchemaContext.cs:28-30 | the column map's entry for the type; fails when the type is absent |
| Dictionaries.DictAdd | rDB/DatabaseEntry.cs:49 | a new key is added; re-adding a key with another value throws; re-adding it with the same value changes nothing |

## Left out

- **The reflection scan.** The assembly scan (rDB/DatabaseEntry.cs:27-42) and ReflectionExtensions are replaced by given `TypeDesc` values. Where the source calls `BuildTypeMap()` itself (the `TableSqlBuilder` constructor, `DatabaseBuilder.Build`), its result is the `scannedTypeMap` parameter.
- **PropertyCache, FillColumns and the PropertyInfo lookup.** The cache has no observable effect. FillColumns adds to an immutable set and discards the result. `Get` is a lookup by property name.
- **Connections and I/O.** The model leaves out `GetConnection`, `GetConnectionContext`, the open-connection count, the connection dictionary, the async plumbing, `Select` and the connection contexts. `Execute` is the `exec` parameter: its result is the affected-row count or the fault that opening the connection or running the command throws, and that fault propagates through `CreateTable`, `CreateTables`, `CreateAllTables` and `Build`. Its parameter substitution is left out because it only applies to `Type` parameters, which never occur.
- **DropTable.** `DropTable<T>()` and the `DropTable(Type, string)` overload that `Build` calls but `Database` does not define are not modelled. A drop is an abstract `Drop` action in Build's trace, and the `dropTable` parameter says whether it throws.
- **The query layer.** QueryProcessor, QueryProcessorBuilder and QueryExtensions are not part of this model.
- **Hash values.** `HashCode` mixing is randomized per process. The hash is an accumulator over an arbitrary mixing function, so only "equal implies equal hash" is proved.
- **Line terminator.** `Environment.NewLine` is taken as "\n".
- **Laziness.** `Solve` and `GetTablesInCreationOrder` are lazy iterators in the source. Every caller forces them with `ToArray` before using any element, so the model returns the whole sequence or the error.
- **The Create factories.** The `TableSqlBuilder.Create` factories and their unused `quoteTableNames` parameter are covered only through the constructor. `Database.CreateTable` goes through `CreateTableState`, which applies the factory's defaults.
- **The TypeMapBuilder range constructor and the generic overloads.** `TypeMapBuilder(entries)` is `WithRange` on a new builder. `With<T>(name)` and `With<T>()` are `With` and `WithType` on `typeof(T)`.
- **AUTO_INCREMENT.** `DatabaseColumnAttribute` has an `AutoIncrement` flag, but `DatabaseColumnContext.GenerateSql` never reads it, so no column line carries AUTO_INCREMENT. The model follows the code; `ColumnSqlIgnoresKeyFlags` proves the line does not depend on that flag.
- **Table options.** `TableSqlBuilder._options` is never assigned, so it is always null and `BuildConditions` appends nothing. `ConditionsText` still models a non-null list.
- **Foreign keys and indices in Database.CreateTable.** `Database.CreateTable` builds without `WithForeignKeys()` or `WithIndices()`, so its statements carry neither. This is modelled as written; see `CreateTableSqlShape`.
- **One annotation of each kind per property.** A property carries at most one column, one foreign-key and one index annotation. The source allows only one of each (no `AllowMultiple`).
- **Configure's maps.** `Database.Table` reads the type map with the indexer after the column-map check. A type that is in the column map but not in the type map fails with `KeyNotFound`.
- **The parameterless DatabaseBuilder constructor.** `DatabaseBuilder()` (rDB/Builder/DatabaseBuilder.cs:39-41) leaves `Database` null until `WithDatabase`, and `Build` on such a builder throws a null reference at its `Configure` call. The model's builder always holds a database, so only the constructor that takes one is modelled and that throw is not represented.
- **Null values in a foreign-key dictionary.** A dictionary passed to `WithForeignKeys(dictionary)` may hold a null member set. `ForeignKeyAttribute.GenerateSql` then throws the column-count error, since a null count is not below one but differs from the target count. The model holds member sets that are never null. `MembersOf` reads a key listed without a set as the empty set, which gives the zero-columns error instead, so a null set is not represented.
