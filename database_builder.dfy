/** rDB/Builder/DatabaseBuilder.cs: registers the tables of a database, orders them so that every
    table comes after the tables its foreign keys reference, and provisions the database: configure
    once, drop in reverse order, create in forward order. The asynchronous statements Build issues
    are returned as a trace of actions. */
module DatabaseBuilders {
  import opened Types
  import opened Wrappers
  import opened Errors
  import opened ColumnContexts
  import opened ForeignKeys
  import opened Groupings
  import opened Entries
  import opened DependencySolving
  import opened DependencyGraphs
  import opened Databases

  /** What the builder has registered: TableMap's keys in insertion order (its enumeration order),
      TableMap itself, and the `_tables` list of (type, columns) pairs. */
  datatype Registry = Registry(order: seq<TypeId>, entries: map<TypeId, TypeDesc>, tables: seq<(TypeId, seq<ColumnContext>)>)

  /** The three views agree: each registered type once, keyed by its own identity, paired with the
      columns GetColumns finds on it. */
  ghost predicate RegistryValid(reg: Registry) {
    && Distinct(reg.order)
    && (forall t :: t in reg.entries <==> t in reg.order)
    && (forall t | t in reg.entries :: reg.entries[t].id == t)
    && |reg.tables| == |reg.order|
    && forall i :: 0 <= i < |reg.order| ==> reg.tables[i] == (reg.order[i], GetColumns(reg.entries[reg.order[i]].properties))
  }

  function EmptyRegistry(): (reg: Registry)
    ensures RegistryValid(reg)
  {
    Registry([], map[], [])
  }

  /** One accepted table: one TableMap entry and one (type, columns) pair. */
  function Register(reg: Registry, t: TypeDesc): Registry {
    Registry(reg.order + [t.id], reg.entries[t.id := t], reg.tables + [(t.id, GetColumns(t.properties))])
  }

  /** WithTable(tables): the tables in order, each registered unless its type is already there, in
      which case the loop throws and the earlier tables stay registered. */
  function RegisterAll(reg: Registry, ts: seq<TypeDesc>): (Registry, Outcome<Error>)
    decreases |ts|
  {
    if |ts| == 0 then (reg, Pass)
    else if ts[0].id in reg.entries then (reg, Fail(DuplicateTable(ts[0].id)))
    else RegisterAll(Register(reg, ts[0]), ts[1..])
  }

  function Ids(ts: seq<TypeDesc>): (r: seq<TypeId>)
    ensures |r| == |ts| && forall i :: 0 <= i < |ts| ==> r[i] == ts[i].id
  {
    seq(|ts|, i requires 0 <= i < |ts| => ts[i].id)
  }

  function Pairs(ts: seq<TypeDesc>): (r: seq<(TypeId, seq<ColumnContext>)>)
    ensures |r| == |ts| && forall i :: 0 <= i < |ts| ==> r[i] == (ts[i].id, GetColumns(ts[i].properties))
  {
    seq(|ts|, i requires 0 <= i < |ts| => (ts[i].id, GetColumns(ts[i].properties)))
  }

  lemma RegisterValid(reg: Registry, t: TypeDesc)
    requires RegistryValid(reg) && t.id !in reg.entries
    ensures RegistryValid(Register(reg, t))
  {
    var r := Register(reg, t);
    forall i | 0 <= i < |r.order|
      ensures r.tables[i] == (r.order[i], GetColumns(r.entries[r.order[i]].properties))
    {
      if i < |reg.order| {
        assert reg.order[i] in reg.entries;
      }
    }
  }

  /** Registration keeps the registry consistent, whatever the outcome. */
  lemma {:induction false} RegisterAllValid(reg: Registry, ts: seq<TypeDesc>)
    requires RegistryValid(reg)
    ensures RegistryValid(RegisterAll(reg, ts).0)
    decreases |ts|
  {
    if |ts| > 0 && ts[0].id !in reg.entries {
      RegisterValid(reg, ts[0]);
      RegisterAllValid(Register(reg, ts[0]), ts[1..]);
    }
  }

  /** Tables registered before the call stay registered, unchanged and in their place. */
  lemma {:induction false} RegisterAllKeeps(reg: Registry, ts: seq<TypeDesc>)
    ensures var r := RegisterAll(reg, ts).0;
      && reg.order <= r.order && reg.tables <= r.tables
      && forall t | t in reg.entries :: t in r.entries && r.entries[t] == reg.entries[t]
    decreases |ts|
  {
    if |ts| > 0 && ts[0].id !in reg.entries {
      RegisterAllKeeps(Register(reg, ts[0]), ts[1..]);
    }
  }

  /** The call succeeds iff the new types are distinct and none was registered before. */
  lemma {:induction false} RegisterAllPass(reg: Registry, ts: seq<TypeDesc>)
    ensures RegisterAll(reg, ts).1 == Pass <==> Distinct(Ids(ts)) && forall i :: 0 <= i < |ts| ==> ts[i].id !in reg.entries
    decreases |ts|
  {
    if |ts| > 0 && ts[0].id !in reg.entries {
      var rest := ts[1..];
      var reg' := Register(reg, ts[0]);
      RegisterAllPass(reg', rest);
      if Distinct(Ids(ts)) && forall i :: 0 <= i < |ts| ==> ts[i].id !in reg.entries {
        forall i | 0 <= i < |rest| ensures rest[i].id !in reg'.entries {
          assert ts[i + 1] == rest[i];
          assert Ids(ts)[i + 1] != Ids(ts)[0];
        }
        forall i, j | 0 <= i < j < |rest| ensures Ids(rest)[i] != Ids(rest)[j] {
          assert Ids(ts)[i + 1] != Ids(ts)[j + 1];
        }
      }
      if RegisterAll(reg, ts).1 == Pass {
        forall i | 0 <= i < |ts| ensures ts[i].id !in reg.entries {
          if i > 0 { assert rest[i - 1] == ts[i]; }
        }
        forall i, j | 0 <= i < j < |ts| ensures Ids(ts)[i] != Ids(ts)[j] {
          assert rest[j - 1] == ts[j];
          if i > 0 { assert rest[i - 1] == ts[i]; }
        }
      }
    }
  }

  /** A successful call appends each new type, in order, to the order and to `_tables`. */
  lemma {:induction false} RegisterAllAppends(reg: Registry, ts: seq<TypeDesc>)
    requires RegisterAll(reg, ts).1 == Pass
    ensures RegisterAll(reg, ts).0.order == reg.order + Ids(ts)
    ensures RegisterAll(reg, ts).0.tables == reg.tables + Pairs(ts)
    decreases |ts|
  {
    if |ts| > 0 {
      var rest := ts[1..];
      var reg' := Register(reg, ts[0]);
      RegisterAllAppends(reg', rest);
      assert RegisterAll(reg, ts).0 == RegisterAll(reg', rest).0;
      IdsCons(ts);
      SnocThenAppend(reg.order, ts[0].id, Ids(rest));
      PairsCons(ts);
      SnocThenAppend(reg.tables, (ts[0].id, GetColumns(ts[0].properties)), Pairs(rest));
    }
  }

  /** After a successful call each new type maps to its own entry. */
  lemma {:induction false} RegisterAllEntries(reg: Registry, ts: seq<TypeDesc>)
    requires RegisterAll(reg, ts).1 == Pass
    ensures forall i :: 0 <= i < |ts| ==> ts[i].id in RegisterAll(reg, ts).0.entries && RegisterAll(reg, ts).0.entries[ts[i].id] == ts[i]
    decreases |ts|
  {
    if |ts| > 0 {
      var rest := ts[1..];
      var reg' := Register(reg, ts[0]);
      RegisterAllEntries(reg', rest);
      RegisterAllKeeps(reg', rest);
      var r := RegisterAll(reg, ts).0;
      assert r == RegisterAll(reg', rest).0;
      forall i | 0 <= i < |ts| ensures ts[i].id in r.entries && r.entries[ts[i].id] == ts[i] {
        if i > 0 { assert rest[i - 1] == ts[i]; }
      }
    }
  }

  lemma IdsCons(ts: seq<TypeDesc>)
    requires |ts| > 0
    ensures Ids(ts) == [ts[0].id] + Ids(ts[1..])
  {
    assert forall i :: 0 <= i < |ts| ==> Ids(ts)[i] == ([ts[0].id] + Ids(ts[1..]))[i];
  }

  lemma PairsCons(ts: seq<TypeDesc>)
    requires |ts| > 0
    ensures Pairs(ts) == [(ts[0].id, GetColumns(ts[0].properties))] + Pairs(ts[1..])
  {
    assert forall i :: 0 <= i < |ts| ==> Pairs(ts)[i] == ([(ts[0].id, GetColumns(ts[0].properties))] + Pairs(ts[1..]))[i];
  }

  lemma SnocThenAppend<T>(a: seq<T>, x: T, b: seq<T>)
    ensures (a + [x]) + b == a + ([x] + b)
  {
  }

  /** The failure names the first type that is already registered or repeats an earlier one, and
      the tables before it stay registered exactly as a successful call on them alone leaves them. */
  lemma {:induction false} RegisterAllFail(reg: Registry, ts: seq<TypeDesc>) returns (k: nat)
    requires RegisterAll(reg, ts).1.Fail?
    ensures k < |ts| && (ts[k].id in reg.entries || ts[k].id in Ids(ts[..k]))
    ensures RegisterAll(reg, ts).1 == Fail(DuplicateTable(ts[k].id))
    ensures RegisterAll(reg, ts[..k]) == (RegisterAll(reg, ts).0, Pass)
    decreases |ts|
  {
    if ts[0].id in reg.entries {
      k := 0;
    } else {
      var reg' := Register(reg, ts[0]);
      var j := RegisterAllFail(reg', ts[1..]);
      k := j + 1;
      assert ts[..k][1..] == ts[1..][..j];
      assert ts[k] == ts[1..][j];
      if ts[k].id !in reg.entries {
        assert ts[k].id == ts[0].id || ts[k].id in Ids(ts[1..][..j]);
        if ts[k].id == ts[0].id {
          assert Ids(ts[..k])[0] == ts[0].id;
        } else {
          var m :| 0 <= m < j && Ids(ts[1..][..j])[m] == ts[k].id;
          assert Ids(ts[..k])[m + 1] == ts[k].id;
        }
      }
    }
  }

  /** The type-map entries ImmutableDictionary.CreateRange builds from `_tables`. */
  function ColumnMapOf(tables: seq<(TypeId, seq<ColumnContext>)>): map<TypeId, seq<ColumnContext>> {
    if |tables| == 0 then map[]
    else ColumnMapOf(tables[..|tables| - 1])[tables[|tables| - 1].0 := tables[|tables| - 1].1]
  }

  /** The map's keys are the pairs' types. */
  lemma {:induction false} ColumnMapKeys(tables: seq<(TypeId, seq<ColumnContext>)>)
    ensures forall t :: t in ColumnMapOf(tables) <==> exists i :: 0 <= i < |tables| && tables[i].0 == t
  {
    if |tables| > 0 {
      var front := tables[..|tables| - 1];
      ColumnMapKeys(front);
      forall t | t in ColumnMapOf(tables) ensures exists i :: 0 <= i < |tables| && tables[i].0 == t {
        if t != tables[|tables| - 1].0 {
          assert t in ColumnMapOf(front);
          var i :| 0 <= i < |front| && front[i].0 == t;
          assert tables[i] == front[i];
        }
      }
      forall t | exists i :: 0 <= i < |tables| && tables[i].0 == t ensures t in ColumnMapOf(tables) {
        var i :| 0 <= i < |tables| && tables[i].0 == t;
        if i < |front| {
          assert front[i] == tables[i];
        }
      }
    }
  }

  /** With no type repeated, each type maps to the columns of its own pair. */
  lemma {:induction false} ColumnMapValues(tables: seq<(TypeId, seq<ColumnContext>)>)
    requires forall i, j :: 0 <= i < j < |tables| ==> tables[i].0 != tables[j].0
    ensures forall i :: 0 <= i < |tables| ==> tables[i].0 in ColumnMapOf(tables) && ColumnMapOf(tables)[tables[i].0] == tables[i].1
  {
    if |tables| > 0 {
      var front := tables[..|tables| - 1];
      ColumnMapValues(front);
      forall i | 0 <= i < |tables|
        ensures tables[i].0 in ColumnMapOf(tables) && ColumnMapOf(tables)[tables[i].0] == tables[i].1
      {
        if i < |front| {
          assert front[i] == tables[i];
        }
      }
    }
  }

  /** The column map Build configures holds exactly the registered types. */
  lemma ColumnMapDomain(reg: Registry)
    requires RegistryValid(reg)
    ensures forall t :: t in ColumnMapOf(reg.tables) <==> t in reg.entries
  {
    ColumnMapKeys(reg.tables);
    forall t ensures t in ColumnMapOf(reg.tables) <==> t in reg.entries {
      if t in reg.entries {
        var i :| 0 <= i < |reg.order| && reg.order[i] == t;
        assert reg.tables[i].0 == t;
      }
      if t in ColumnMapOf(reg.tables) {
        var i :| 0 <= i < |reg.tables| && reg.tables[i].0 == t;
        assert reg.order[i] == t;
      }
    }
  }

  /** Each registered type is configured with the columns GetColumns finds on it. */
  lemma ColumnMapColumns(reg: Registry)
    requires RegistryValid(reg)
    ensures forall t | t in reg.entries :: t in ColumnMapOf(reg.tables) && ColumnMapOf(reg.tables)[t] == GetColumns(reg.entries[t].properties)
  {
    forall i, j | 0 <= i < j < |reg.tables| ensures reg.tables[i].0 != reg.tables[j].0 {
      assert reg.tables[i].0 == reg.order[i] && reg.tables[j].0 == reg.order[j];
    }
    ColumnMapValues(reg.tables);
    forall t | t in reg.entries
      ensures t in ColumnMapOf(reg.tables) && ColumnMapOf(reg.tables)[t] == GetColumns(reg.entries[t].properties)
    {
      var i :| 0 <= i < |reg.order| && reg.order[i] == t;
      assert reg.tables[i] == (t, GetColumns(reg.entries[t].properties));
    }
  }

  /** The dependencies GetTablesInCreationOrder adds for one entry: the target type of each of its
      foreign-key groups, in group order. */
  function Dependencies(t: TypeDesc): (r: seq<TypeId>)
    ensures var keys := GroupSpec(ForeignKeyMembers(t.properties)).keys;
      |r| == |keys| && forall i :: 0 <= i < |keys| ==> r[i] == keys[i].table
  {
    var keys := GroupSpec(ForeignKeyMembers(t.properties)).keys;
    seq(|keys|, i requires 0 <= i < |keys| => keys[i].table)
  }

  /** A table depends on a type iff one of its properties carries a foreign key to that type. */
  lemma DependenciesMeaning(t: TypeDesc, d: TypeId)
    ensures d in Dependencies(t) <==> exists p :: p in t.properties && p.foreignKey.Some? && p.foreignKey.value.table == d
  {
    var ms := ForeignKeyMembers(t.properties);
    var keys := GroupSpec(ms).keys;
    if d in Dependencies(t) {
      var i :| 0 <= i < |keys| && Dependencies(t)[i] == d;
      GroupSpecKeys(ms);
      assert keys[i] in keys;
      var j :| 0 <= j < |ms| && ms[j].1 == keys[i];
      assert (ms[j].0, keys[i]) in ms;
    }
    if exists p :: p in t.properties && p.foreignKey.Some? && p.foreignKey.value.table == d {
      var p :| p in t.properties && p.foreignKey.Some? && p.foreignKey.value.table == d;
      var fk := p.foreignKey.value;
      assert (p.name, fk) in ms;
      var j :| 0 <= j < |ms| && ms[j] == (p.name, fk);
      GroupSpecKeys(ms);
      assert fk in keys;
      var i :| 0 <= i < |keys| && keys[i] == fk;
      assert Dependencies(t)[i] == d;
    }
  }

  /** The dependency graph of the registered tables: each type waits on the types it references. */
  function CreationTree(reg: Registry): map<TypeId, set<TypeId>> {
    map t | t in reg.entries :: set d | d in Dependencies(reg.entries[t])
  }

  lemma CreationTreeWellFormed(reg: Registry)
    requires RegistryValid(reg)
    ensures WellFormed(reg.order, CreationTree(reg))
  {
  }

  /** A foreign key on a registered table is an edge of the graph. */
  lemma ReferenceIsEdge(reg: Registry, t: TypeId, p: Property)
    requires t in reg.entries && p in reg.entries[t].properties && p.foreignKey.Some?
    ensures t in CreationTree(reg) && p.foreignKey.value.table in CreationTree(reg)[t]
  {
    DependenciesMeaning(reg.entries[t], p.foreignKey.value.table);
  }

  /** The types in the order the solver emits them. */
  function CreationOrder(reg: Registry): (r: Result<seq<TypeId>, Error>)
    requires RegistryValid(reg)
    ensures r.Ok? ==> forall t :: t in r.value <==> t in reg.entries
  {
    SolveCorrect(reg.order, CreationTree(reg));
    SolveSpec(reg.order, CreationTree(reg))
  }

  /** TableMap[entry] for each solved entry, in order. */
  function Lookup(entries: map<TypeId, TypeDesc>, ids: seq<TypeId>): (r: seq<TypeDesc>)
    requires forall t | t in ids :: t in entries
    ensures |r| == |ids| && forall i :: 0 <= i < |ids| ==> r[i] == entries[ids[i]]
  {
    seq(|ids|, i requires 0 <= i < |ids| => entries[ids[i]])
  }

  /** GetTablesInCreationOrder: the registered entries in creation order. */
  function TablesInCreationOrder(reg: Registry): (r: Result<seq<TypeDesc>, Error>)
    requires RegistryValid(reg)
    ensures CreationOrder(reg).Err? ==> r == Err(CreationOrder(reg).error)
    ensures CreationOrder(reg).Ok? ==> r.Ok? && Ids(r.value) == CreationOrder(reg).value
  {
    var ids :- CreationOrder(reg);
    LookupIds(reg.entries, ids);
    Ok(Lookup(reg.entries, ids))
  }

  /** Looking up entries keyed by their own identity gives back the identities. */
  lemma LookupIds(entries: map<TypeId, TypeDesc>, ids: seq<TypeId>)
    requires forall t | t in ids :: t in entries
    requires forall t | t in entries :: entries[t].id == t
    ensures Ids(Lookup(entries, ids)) == ids
  {
    var r := Ids(Lookup(entries, ids));
    assert forall i :: 0 <= i < |ids| ==> r[i] == ids[i];
  }

  /** The graph GetTablesInCreationOrder fills: one node per registered table, in TableMap order,
      waiting on its foreign keys' target types. */
  method NewCreationGraph(reg: Registry) returns (graph: DependencyGraph<TypeId>)
    requires RegistryValid(reg)
    ensures fresh(graph) && graph.Valid()
    ensures graph.keys == reg.order && graph.tree == CreationTree(reg)
  {
    graph := new DependencyGraph<TypeId>();
    var i := 0;
    while i < |reg.order|
      invariant 0 <= i <= |reg.order|
      invariant fresh(graph) && graph.Valid()
      invariant graph.keys == reg.order[..i]
      invariant forall t :: t in graph.tree <==> t in reg.order[..i]
      invariant forall t | t in graph.tree :: graph.tree[t] == CreationTree(reg)[t]
    {
      var t := reg.order[i];
      assert t !in reg.order[..i];
      var foreignKeys := GetForeignKeys(reg.entries[t]);
      var dependencies := seq(|foreignKeys.keys|, j requires 0 <= j < |foreignKeys.keys| => foreignKeys.keys[j].table);
      assert dependencies == Dependencies(reg.entries[t]);
      var added := graph.Add(t, dependencies);
      assert reg.order[..i + 1] == reg.order[..i] + [t];
      i := i + 1;
    }
    assert reg.order[..i] == reg.order;
  }

  /** Build's drop loop: one awaited drop per table, the tables taken in reverse order; a drop
      that throws ends the loop. */
  method DropActions(tables: seq<TypeDesc>, cascade: bool, dropTable: (TypeId, string) -> Outcome<Error>)
    returns (drops: seq<Action>, r: Outcome<Error>)
    ensures (drops, r) == IssueAll(Reversed(tables), DropOf(cascade), DropStep(dropTable, cascade))
  {
    var reversed := Reversed(tables);
    drops := [];
    var i := 0;
    while i < |reversed|
      invariant 0 <= i <= |reversed|
      invariant IssueAll(reversed[..i], DropOf(cascade), DropStep(dropTable, cascade)) == (drops, Pass)
    {
      IssueAllStep(reversed, DropOf(cascade), DropStep(dropTable, cascade), i, drops);
      drops := drops + [Drop(reversed[i].id, Suffix(cascade))];
      var dropped := dropTable(reversed[i].id, Suffix(cascade));
      if dropped.Fail? {
        IssueAllFailSticks(reversed, DropOf(cascade), DropStep(dropTable, cascade), i + 1);
        return drops, dropped;
      }
      i := i + 1;
    }
    assert reversed[..i] == reversed;
    r := Pass;
  }

  /** Creation order is a dependencies-first order: each registered table exactly once, every table
      after the tables its foreign keys reference. When computing it fails, no such order exists,
      as with a cycle or a reference to a type that was never registered. */
  lemma CreationOrderCorrect(reg: Registry)
    requires RegistryValid(reg)
    ensures CreationOrder(reg).Ok? ==>
      var order := CreationOrder(reg).value;
      && Distinct(order)
      && (forall t :: t in order <==> t in reg.entries)
      && forall i, p :: 0 <= i < |order| && p in reg.entries[order[i]].properties && p.foreignKey.Some? ==>
           p.foreignKey.value.table in order[..i]
    ensures CreationOrder(reg).Err? ==> forall order :: !IsTopologicalOrder(reg.order, CreationTree(reg), order)
  {
    SolveCorrect(reg.order, CreationTree(reg));
    if CreationOrder(reg).Ok? {
      var order := CreationOrder(reg).value;
      forall i, p | 0 <= i < |order| && p in reg.entries[order[i]].properties && p.foreignKey.Some?
        ensures p.foreignKey.value.table in order[..i]
      {
        DependenciesMeaning(reg.entries[order[i]], p.foreignKey.value.table);
      }
    }
  }

  /** A foreign key to a type that is not registered makes computing the order fail. */
  lemma UnregisteredTargetFails(reg: Registry, t: TypeId, p: Property)
    requires RegistryValid(reg)
    requires t in reg.entries && p in reg.entries[t].properties && p.foreignKey.Some?
    requires p.foreignKey.value.table !in reg.entries
    ensures CreationOrder(reg).Err?
  {
    DependenciesMeaning(reg.entries[t], p.foreignKey.value.table);
    UnresolvedDependencyFails(reg.order, CreationTree(reg), t, p.foreignKey.value.table);
  }

  /** Two registered tables referencing each other make computing the order fail. */
  lemma MutualReferenceFails(reg: Registry, a: TypeId, b: TypeId, pa: Property, pb: Property)
    requires RegistryValid(reg)
    requires a in reg.entries && pa in reg.entries[a].properties && pa.foreignKey.Some? && pa.foreignKey.value.table == b
    requires b in reg.entries && pb in reg.entries[b].properties && pb.foreignKey.Some? && pb.foreignKey.value.table == a
    ensures CreationOrder(reg).Err?
  {
    CreationTreeWellFormed(reg);
    ReferenceIsEdge(reg, a, pa);
    ReferenceIsEdge(reg, b, pb);
    assert a in reg.order && b in reg.order;
    CycleFails(reg.order, CreationTree(reg), [a, b]);
  }

  /** A table whose foreign key references its own type makes computing the order fail: the
      table waits on itself. */
  lemma SelfReferenceFails(reg: Registry, t: TypeId, p: Property)
    requires RegistryValid(reg)
    requires t in reg.entries && p in reg.entries[t].properties && p.foreignKey.Some? && p.foreignKey.value.table == t
    ensures CreationOrder(reg).Err?
  {
    CreationTreeWellFormed(reg);
    ReferenceIsEdge(reg, t, p);
    assert t in reg.order;
    CycleFails(reg.order, CreationTree(reg), [t]);
  }

  /** The statements Build issues. Drop stands for the DropTable(Type, string) call, whose target
      Database.cs does not define; its text is the " CASCADE" suffix or "". */
  datatype Action =
    | Configure(typeMap: map<TypeId, string>, columnMap: map<TypeId, seq<ColumnContext>>)
    | Drop(table: TypeId, suffix: string)
    | Create(table: TypeId)

  function Reversed<T>(s: seq<T>): (r: seq<T>)
    ensures |r| == |s| && forall i :: 0 <= i < |s| ==> r[i] == s[|s| - 1 - i]
  {
    seq(|s|, i requires 0 <= i < |s| => s[|s| - 1 - i])
  }

  function Suffix(cascade: bool): string {
    if cascade then " CASCADE" else ""
  }

  /** The action issued for each item. */
  function Issued<T>(items: seq<T>, act: T -> Action): (r: seq<Action>)
    ensures |r| == |items| && forall i :: 0 <= i < |items| ==> r[i] == act(items[i])
  {
    seq(|items|, i requires 0 <= i < |items| => act(items[i]))
  }

  function DropOf(cascade: bool): TypeDesc -> Action {
    (t: TypeDesc) => Drop(t.id, Suffix(cascade))
  }

  function CreateOf(): TypeDesc -> Action {
    (t: TypeDesc) => Create(t.id)
  }

  function Drops(tables: seq<TypeDesc>, cascade: bool): (r: seq<Action>)
    ensures |r| == |tables| && forall i :: 0 <= i < |tables| ==> r[i] == Drop(tables[i].id, Suffix(cascade))
  {
    Issued(tables, DropOf(cascade))
  }

  function Creates(tables: seq<TypeDesc>): (r: seq<Action>)
    ensures |r| == |tables| && forall i :: 0 <= i < |tables| ==> r[i] == Create(tables[i].id)
  {
    Issued(tables, CreateOf())
  }

  /** A statement that may throw, seen only for whether it throws: Build awaits each drop and
      create and ignores what it returns. */
  function Thrown<T>(r: Result<T, Error>): Outcome<Error> {
    if r.Err? then Fail(r.error) else Pass
  }

  function ThrownStep<T>(step: T -> Result<bool, Error>): T -> Outcome<Error> {
    t => Thrown(step(t))
  }

  /** The awaited DropTable(type, suffix) call for a table. */
  function DropStep(dropTable: (TypeId, string) -> Outcome<Error>, cascade: bool): TypeDesc -> Outcome<Error> {
    (t: TypeDesc) => dropTable(t.id, Suffix(cascade))
  }

  /** Awaiting one statement per item in order: the actions issued and the outcome. The first
      statement that throws ends the run, its action being the last one issued. */
  function IssueAll<T>(items: seq<T>, act: T -> Action, step: T -> Outcome<Error>): (seq<Action>, Outcome<Error>) {
    if |items| == 0 then ([], Pass)
    else
      var run := IssueAll(items[..|items| - 1], act, step);
      if run.1.Fail? then run
      else (run.0 + [act(items[|items| - 1])], step(items[|items| - 1]))
  }

  /** The run completes exactly when no statement throws, and then it has issued one action per
      item, in order. */
  lemma {:induction false} IssueAllPass<T>(items: seq<T>, act: T -> Action, step: T -> Outcome<Error>)
    ensures IssueAll(items, act, step).1 == Pass <==> forall i :: 0 <= i < |items| ==> step(items[i]) == Pass
    ensures IssueAll(items, act, step).1 == Pass ==> IssueAll(items, act, step).0 == Issued(items, act)
  {
    if |items| > 0 {
      var init := items[..|items| - 1];
      IssueAllPass(init, act, step);
      assert forall i :: 0 <= i < |init| ==> init[i] == items[i];
      if IssueAll(items, act, step).1 == Pass {
        assert Issued(items, act) == Issued(init, act) + [act(items[|items| - 1])];
      }
    }
  }

  /** A run that throws stops at the first statement that throws: every earlier one completed,
      and the actions issued are those of the items up to and including it. */
  lemma {:induction false} IssueAllFirstFail<T>(items: seq<T>, act: T -> Action, step: T -> Outcome<Error>)
    ensures IssueAll(items, act, step).1.Fail? ==>
      exists i :: 0 <= i < |items| && step(items[i]).Fail? && (forall j :: 0 <= j < i ==> step(items[j]) == Pass)
        && IssueAll(items, act, step) == (Issued(items[..i + 1], act), step(items[i]))
  {
    if |items| > 0 && IssueAll(items, act, step).1.Fail? {
      var init := items[..|items| - 1];
      assert forall i :: 0 <= i < |init| ==> init[i] == items[i];
      IssueAllFirstFail(init, act, step);
      if IssueAll(init, act, step).1.Fail? {
        var i :| 0 <= i < |init| && step(init[i]).Fail? && (forall j :: 0 <= j < i ==> step(init[j]) == Pass)
          && IssueAll(init, act, step) == (Issued(init[..i + 1], act), step(init[i]));
        assert init[..i + 1] == items[..i + 1];
      } else {
        IssueAllPass(init, act, step);
        var i := |items| - 1;
        assert items[..i + 1] == items;
        assert Issued(items, act) == Issued(init, act) + [act(items[i])];
        assert step(items[i]).Fail? && forall j :: 0 <= j < i ==> step(items[j]) == Pass;
      }
    }
  }

  lemma IssueAllStep<T>(items: seq<T>, act: T -> Action, step: T -> Outcome<Error>, i: nat, issued: seq<Action>)
    requires i < |items| && IssueAll(items[..i], act, step) == (issued, Pass)
    ensures IssueAll(items[..i + 1], act, step) == (issued + [act(items[i])], step(items[i]))
  {
    assert items[..i + 1][..i] == items[..i];
  }

  /** A run that threw on a prefix is the run of the whole sequence. */
  lemma {:induction false} IssueAllFailSticks<T>(items: seq<T>, act: T -> Action, step: T -> Outcome<Error>, n: nat)
    requires n <= |items| && IssueAll(items[..n], act, step).1.Fail?
    ensures IssueAll(items, act, step) == IssueAll(items[..n], act, step)
    decreases |items| - n
  {
    if n < |items| {
      assert items[..n + 1][..n] == items[..n];
      IssueAllFailSticks(items, act, step, n + 1);
    } else {
      assert items[..n] == items;
    }
  }

  /** Awaiting each create of CreateTables throws exactly when the counting loop throws, with the
      same fault. */
  lemma {:induction false} CountCreatedIssue<T>(create: T -> Result<bool, Error>, items: seq<T>, act: T -> Action)
    ensures CountCreated(create, items).Err? <==> IssueAll(items, act, ThrownStep(create)).1.Fail?
    ensures CountCreated(create, items).Err? ==> IssueAll(items, act, ThrownStep(create)).1 == Fail(CountCreated(create, items).error)
  {
    if |items| > 0 {
      CountCreatedIssue(create, items[..|items| - 1], act);
    }
  }

  /** What Build issues once Configure has succeeded, given what GetTablesInCreationOrder yields
      and how each drop and each create completes: the drops in reverse creation order when the
      drop flag is set, then the creates in creation order when the create flag is set. Computing
      the order (done for either step) fails the build, and so does the first drop or create that
      throws, ending it. */
  function BuildSpec(typeMap: map<TypeId, string>, columnMap: map<TypeId, seq<ColumnContext>>,
                     ordered: Result<seq<TypeDesc>, Error>, dropTables: bool, cascade: bool, createTables: bool,
                     dropStep: TypeDesc -> Outcome<Error>, createStep: TypeDesc -> Outcome<Error>)
    : (seq<Action>, Outcome<Error>)
  {
    var configured := [Configure(typeMap, columnMap)];
    if (dropTables || createTables) && ordered.Err? then (configured, Fail(ordered.error))
    else
      var dropped := if dropTables then IssueAll(Reversed(ordered.value), DropOf(cascade), dropStep) else ([], Pass);
      if dropped.1.Fail? then (configured + dropped.0, dropped.1)
      else
        var created := if createTables then IssueAll(ordered.value, CreateOf(), createStep) else ([], Pass);
        (configured + dropped.0 + created.0, created.1)
  }

  /** Build configures the database before issuing any drop or create, and only once. */
  lemma BuildConfiguresFirst(typeMap: map<TypeId, string>, columnMap: map<TypeId, seq<ColumnContext>>,
                             ordered: Result<seq<TypeDesc>, Error>, dropTables: bool, cascade: bool, createTables: bool,
                             dropStep: TypeDesc -> Outcome<Error>, createStep: TypeDesc -> Outcome<Error>)
    ensures var trace := BuildSpec(typeMap, columnMap, ordered, dropTables, cascade, createTables, dropStep, createStep).0;
      |trace| > 0 && trace[0] == Configure(typeMap, columnMap) &&
      forall i :: 0 < i < |trace| ==> !trace[i].Configure?
  {
    var trace := BuildSpec(typeMap, columnMap, ordered, dropTables, cascade, createTables, dropStep, createStep).0;
    if ordered.Ok? {
      var dropped := if dropTables then IssueAll(Reversed(ordered.value), DropOf(cascade), dropStep) else ([], Pass);
      var created := if createTables then IssueAll(ordered.value, CreateOf(), createStep) else ([], Pass);
      IssueAllIssuesNoConfigure(Reversed(ordered.value), DropOf(cascade), dropStep);
      IssueAllIssuesNoConfigure(ordered.value, CreateOf(), createStep);
      assert trace[1..] == dropped.0 || trace[1..] == dropped.0 + created.0;
      forall i | 0 < i < |trace| ensures !trace[i].Configure? {
        assert trace[i] in trace[1..];
      }
    }
  }

  /** A drop run issues only drops and a create run only creates: neither issues a Configure. */
  lemma {:induction false} IssueAllIssuesNoConfigure<T>(items: seq<T>, act: T -> Action, step: T -> Outcome<Error>)
    requires forall x :: !act(x).Configure?
    ensures forall a :: a in IssueAll(items, act, step).0 ==> !a.Configure?
  {
    if |items| > 0 {
      IssueAllIssuesNoConfigure(items[..|items| - 1], act, step);
    }
  }

  /** When no drop and no create throws, with both flags set, the trace is Configure, one drop
      per table, one create per table; the drops name the tables exactly in the reverse of the
      creates' order. */
  lemma BuildDropsInReverse(typeMap: map<TypeId, string>, columnMap: map<TypeId, seq<ColumnContext>>,
                            tables: seq<TypeDesc>, cascade: bool,
                            dropStep: TypeDesc -> Outcome<Error>, createStep: TypeDesc -> Outcome<Error>)
    requires forall i :: 0 <= i < |tables| ==> dropStep(tables[i]) == Pass && createStep(tables[i]) == Pass
    ensures var (trace, r) := BuildSpec(typeMap, columnMap, Ok(tables), true, cascade, true, dropStep, createStep);
      r == Pass && |trace| == 1 + 2 * |tables|
    ensures var trace := BuildSpec(typeMap, columnMap, Ok(tables), true, cascade, true, dropStep, createStep).0;
      var n := |tables|;
      var drops, creates := trace[1..1 + n], trace[1 + n..];
      && (forall i :: 0 <= i < n ==> drops[i].Drop? && creates[i] == Create(tables[i].id))
      && forall i :: 0 <= i < n ==> drops[i].table == creates[n - 1 - i].table
  {
    var rev := Reversed(tables);
    assert forall i :: 0 <= i < |rev| ==> dropStep(rev[i]) == Pass by {
      forall i | 0 <= i < |rev| ensures dropStep(rev[i]) == Pass {
        assert rev[i] == tables[|tables| - 1 - i];
      }
    }
    IssueAllPass(rev, DropOf(cascade), dropStep);
    IssueAllPass(tables, CreateOf(), createStep);
  }

  /** With the defaults (create, no drop) the trace is Configure followed by one create per table
      in creation order when no create throws; with neither flag nothing but Configure is issued,
      even for a graph that has no order. */
  lemma BuildDefaults(typeMap: map<TypeId, string>, columnMap: map<TypeId, seq<ColumnContext>>,
                      ordered: Result<seq<TypeDesc>, Error>, cascade: bool,
                      dropStep: TypeDesc -> Outcome<Error>, createStep: TypeDesc -> Outcome<Error>)
    ensures ordered.Ok? && (forall i :: 0 <= i < |ordered.value| ==> createStep(ordered.value[i]) == Pass) ==>
      BuildSpec(typeMap, columnMap, ordered, false, cascade, true, dropStep, createStep) ==
        ([Configure(typeMap, columnMap)] + Creates(ordered.value), Pass)
    ensures ordered.Err? ==>
      BuildSpec(typeMap, columnMap, ordered, false, cascade, true, dropStep, createStep) ==
        ([Configure(typeMap, columnMap)], Fail(ordered.error))
    ensures BuildSpec(typeMap, columnMap, ordered, false, cascade, false, dropStep, createStep) ==
      ([Configure(typeMap, columnMap)], Pass)
  {
    var c := [Configure(typeMap, columnMap)];
    assert c + [] + [] == c;
    if ordered.Ok? {
      IssueAllPass(ordered.value, CreateOf(), createStep);
      assert c + [] + Creates(ordered.value) == c + Creates(ordered.value);
    }
  }

  /** On a computable order Build completes exactly when no drop it issues and no create it
      issues throws. A drop that throws ends the build there: no later drop and no create is
      issued. A create that throws ends it after every drop has completed and every earlier
      create has completed. */
  lemma BuildStopsAtFirstFault(typeMap: map<TypeId, string>, columnMap: map<TypeId, seq<ColumnContext>>,
                               tables: seq<TypeDesc>, dropTables: bool, cascade: bool, createTables: bool,
                               dropStep: TypeDesc -> Outcome<Error>, createStep: TypeDesc -> Outcome<Error>)
    ensures var (trace, r) := BuildSpec(typeMap, columnMap, Ok(tables), dropTables, cascade, createTables, dropStep, createStep);
      var rev := Reversed(tables);
      r == Pass <==>
        && (dropTables ==> forall i :: 0 <= i < |rev| ==> dropStep(rev[i]) == Pass)
        && (createTables ==> forall i :: 0 <= i < |tables| ==> createStep(tables[i]) == Pass)
    ensures var (trace, r) := BuildSpec(typeMap, columnMap, Ok(tables), dropTables, cascade, createTables, dropStep, createStep);
      var rev := Reversed(tables);
      dropTables && (exists i :: 0 <= i < |rev| && dropStep(rev[i]).Fail?) ==>
        exists i :: 0 <= i < |rev| && dropStep(rev[i]).Fail? && (forall j :: 0 <= j < i ==> dropStep(rev[j]) == Pass)
          && trace == [Configure(typeMap, columnMap)] + Drops(rev[..i + 1], cascade) && r == dropStep(rev[i])
    ensures var (trace, r) := BuildSpec(typeMap, columnMap, Ok(tables), dropTables, cascade, createTables, dropStep, createStep);
      var rev := Reversed(tables);
      r.Fail? && (dropTables ==> forall i :: 0 <= i < |rev| ==> dropStep(rev[i]) == Pass) ==>
        createTables &&
        exists i :: 0 <= i < |tables| && createStep(tables[i]).Fail? && (forall j :: 0 <= j < i ==> createStep(tables[j]) == Pass)
          && trace == [Configure(typeMap, columnMap)] + (if dropTables then Drops(rev, cascade) else []) + Creates(tables[..i + 1])
          && r == createStep(tables[i])
  {
    var rev := Reversed(tables);
    IssueAllPass(rev, DropOf(cascade), dropStep);
    IssueAllFirstFail(rev, DropOf(cascade), dropStep);
    IssueAllPass(tables, CreateOf(), createStep);
    IssueAllFirstFail(tables, CreateOf(), createStep);
    var c := [Configure(typeMap, columnMap)];
    assert c + [] == c;
  }

  /** The creation order lists every registered table exactly once. */
  lemma TablesInCreationOrderCovers(reg: Registry)
    requires RegistryValid(reg) && CreationOrder(reg).Ok?
    ensures |TablesInCreationOrder(reg).value| == |reg.order|
  {
    CreationOrderCorrect(reg);
    DistinctCardinality(CreationOrder(reg).value, reg.order);
  }

  /** Two duplicate-free sequences with the same elements have the same length. */
  lemma {:induction false} DistinctCardinality<T>(a: seq<T>, b: seq<T>)
    requires Distinct(a) && Distinct(b) && forall x :: x in a <==> x in b
    ensures |a| == |b|
    decreases |a|
  {
    assert |b| > 0 ==> b[0] in b;
    if |a| > 0 {
      var x := a[|a| - 1];
      assert x in a;
      var i :| 0 <= i < |b| && b[i] == x;
      var a' := a[..|a| - 1];
      var b' := b[..i] + b[i + 1..];
      assert forall y :: y in a' <==> y in b' by {
        forall y ensures y in a' <==> y in b' {
          if y in a' {
            var j :| 0 <= j < |a'| && a'[j] == y;
            assert a[j] == y && y != x;
            assert y in a;
            var k :| 0 <= k < |b| && b[k] == y;
            if k < i { assert b'[k] == y; } else { assert b'[k - 1] == y; }
          }
          if y in b' {
            var j :| 0 <= j < |b'| && b'[j] == y;
            if j < i { assert b'[j] == b[j]; } else { assert b'[j] == b[j + 1]; }
            assert y in b && y != x;
            var k :| 0 <= k < |a| && a[k] == y;
            assert a'[k] == y;
          }
        }
      }
      assert Distinct(b') by {
        forall j, k | 0 <= j < k < |b'| ensures b'[j] != b'[k] {
          var j' := if j < i then j else j + 1;
          var k' := if k < i then k else k + 1;
          assert b'[j] == b[j'] && b'[k] == b[k'];
        }
      }
      DistinctCardinality(a', b');
    }
  }

  class DatabaseBuilder {
    /** `_tables`. */
    var tables: seq<(TypeId, seq<ColumnContext>)>
    var createTables: bool
    var database: Database
    var dropTables: bool
    var dropTablesCascade: bool
    /** `TableMap` and its enumeration order. */
    var tableMap: map<TypeId, TypeDesc>
    var tableOrder: seq<TypeId>
    var typeMap: Option<map<TypeId, string>>

    function Registered(): Registry
      reads this
    {
      Registry(tableOrder, tableMap, tables)
    }

    ghost predicate Valid()
      reads this, database, database.isConfigured
    {
      RegistryValid(Registered()) && database.Valid()
    }

    constructor (database: Database)
      requires database.Valid()
      ensures Valid() && this.database == database
      ensures Registered() == EmptyRegistry()
      ensures createTables && !dropTables && !dropTablesCascade && typeMap.None?
    {
      this.database := database;
      tables := [];
      createTables := true;
      dropTables := false;
      dropTablesCascade := false;
      tableMap := map[];
      tableOrder := [];
      typeMap := None;
    }

    /** Sets both flags, whatever the argument says. Like every With* setter it returns the
        builder itself, so that calls chain. */
    method WithDropTables(cascade: bool) returns (self: DatabaseBuilder)
      modifies this
      ensures self == this
      ensures dropTables && dropTablesCascade
      ensures Registered() == old(Registered()) && database == old(database)
      ensures createTables == old(createTables) && typeMap == old(typeMap)
    {
      dropTables := true;
      dropTablesCascade := true;
      self := this;
    }

    method WithDatabase(database: Database) returns (self: DatabaseBuilder)
      modifies this
      ensures self == this
      ensures this.database == database
      ensures Registered() == old(Registered()) && typeMap == old(typeMap)
      ensures createTables == old(createTables) && dropTables == old(dropTables) && dropTablesCascade == old(dropTablesCascade)
    {
      this.database := database;
      self := this;
    }

    method WithCreateTables(state: bool) returns (self: DatabaseBuilder)
      modifies this
      ensures self == this
      ensures createTables == state
      ensures Registered() == old(Registered()) && database == old(database) && typeMap == old(typeMap)
      ensures dropTables == old(dropTables) && dropTablesCascade == old(dropTablesCascade)
    {
      createTables := state;
      self := this;
    }

    method WithTypeMap(map_: Option<map<TypeId, string>>) returns (self: DatabaseBuilder)
      modifies this
      ensures self == this
      ensures typeMap == map_
      ensures Registered() == old(Registered()) && database == old(database)
      ensures createTables == old(createTables) && dropTables == old(dropTables) && dropTablesCascade == old(dropTablesCascade)
    {
      typeMap := map_;
      self := this;
    }

    /** WithTable(tables): registers each table in order, rejecting a type that is already there;
        the builder itself comes back unless a duplicate throws. */
    method WithTable(ts: seq<TypeDesc>) returns (self: DatabaseBuilder, r: Outcome<Error>)
      requires Valid()
      modifies this
      ensures self == this
      ensures Valid()
      ensures (Registered(), r) == RegisterAll(old(Registered()), ts)
      ensures database == old(database) && typeMap == old(typeMap)
      ensures createTables == old(createTables) && dropTables == old(dropTables) && dropTablesCascade == old(dropTablesCascade)
    {
      self := this;
      var i := 0;
      while i < |ts|
        invariant 0 <= i <= |ts|
        invariant Valid()
        invariant RegisterAll(Registered(), ts[i..]) == RegisterAll(old(Registered()), ts)
        invariant database == old(database) && typeMap == old(typeMap)
        invariant createTables == old(createTables) && dropTables == old(dropTables) && dropTablesCascade == old(dropTablesCascade)
      {
        var table := ts[i];
        assert ts[i..][0] == table && ts[i..][1..] == ts[i + 1..];
        if table.id in tableMap {
          return this, Fail(DuplicateTable(table.id));
        }
        RegisterValid(Registered(), table);
        tableMap := tableMap[table.id := table];
        tableOrder := tableOrder + [table.id];
        tables := tables + [(table.id, GetColumns(table.properties))];
        i := i + 1;
      }
      r := Pass;
    }

    /** GetTablesInCreationOrder: a fresh graph with one node per registered table, depending on
        its foreign keys' target types, solved and mapped back to the entries. */
    method GetTablesInCreationOrder() returns (r: Result<seq<TypeDesc>, Error>)
      requires RegistryValid(Registered())
      ensures r == TablesInCreationOrder(Registered())
    {
      var graph := NewCreationGraph(Registered());
      var ids := graph.Solve();
      if ids.Err? {
        return Err(ids.error);
      }
      SolveCorrect(tableOrder, CreationTree(Registered()));
      r := Ok(Lookup(tableMap, ids.value));
    }

    /** CreateAllTables: the tables in creation order, handed to the database's CreateTables;
        `tables` is what it was handed. */
    method CreateAllTables(exec: string -> Result<int, Error>, scannedTypeMap: map<TypeId, string>)
      returns (tables: seq<TypeDesc>, r: Result<nat, Error>)
      requires RegistryValid(Registered())
      ensures var ordered := TablesInCreationOrder(Registered());
        var tm, cm := database.typeMap, database.columnMap;
        && (ordered.Err? ==> r == Err(ordered.error))
        && (ordered.Ok? ==>
              tables == ordered.value && r == CountCreated(CreateStep(tm, cm, exec, scannedTypeMap), tables))
    {
      var ordered := GetTablesInCreationOrder();
      if ordered.Err? {
        return [], Err(ordered.error);
      }
      tables := ordered.value;
      r := database.CreateTables(tables, exec, scannedTypeMap);
    }

    /** Build's create step on a configured database: the tables are created in creation order
        until one create throws (its statement's execution faults), or computing the order
        fails. `creates` lists the creates issued. */
    method CreateAll(exec: string -> Result<int, Error>, scannedTypeMap: map<TypeId, string>) returns (creates: seq<Action>, r: Outcome<Error>)
      requires RegistryValid(Registered()) && database.typeMap.Some? && database.columnMap.Some?
      ensures var ordered := TablesInCreationOrder(Registered());
        var step := ThrownStep(CreateStep(database.typeMap, database.columnMap, exec, scannedTypeMap));
        && (ordered.Err? ==> r == Fail(ordered.error))
        && (ordered.Ok? ==> (creates, r) == IssueAll(ordered.value, CreateOf(), step))
    {
      var tables, created := CreateAllTables(exec, scannedTypeMap);
      if TablesInCreationOrder(Registered()).Err? {
        return [], Fail(created.error);
      }
      var create := CreateStep(database.typeMap, database.columnMap, exec, scannedTypeMap);
      assert CountCreated(create, tables) == created;
      CountCreatedIssue(create, tables, CreateOf());
      if created.Err? {
        creates, r := IssueAll(tables, CreateOf(), ThrownStep(create)).0, Fail(created.error);
      } else {
        CountCreatedOkIff(create, tables);
        IssueAllPass(tables, CreateOf(), ThrownStep(create));
        creates, r := Creates(tables), Pass;
      }
    }

    /** Build's drop step: the tables dropped in reverse creation order until one drop throws, or
        computing the order fails. */
    method DropAll(dropTable: (TypeId, string) -> Outcome<Error>) returns (drops: seq<Action>, r: Outcome<Error>)
      requires RegistryValid(Registered())
      ensures var ordered := TablesInCreationOrder(Registered());
        && (ordered.Err? ==> r == Fail(ordered.error))
        && (ordered.Ok? ==>
              (drops, r) == IssueAll(Reversed(ordered.value), DropOf(dropTablesCascade), DropStep(dropTable, dropTablesCascade)))
    {
      var tables := GetTablesInCreationOrder();
      if tables.Err? {
        return [], Fail(tables.error);
      }
      drops, r := DropActions(tables.value, dropTablesCascade, dropTable);
    }

    /** The part of Build after Configure: the drops, then the creates, as the flags say; the
        first failure ends it. */
    method Provision(tm: map<TypeId, string>, cm: map<TypeId, seq<ColumnContext>>, exec: string -> Result<int, Error>,
                     dropTable: (TypeId, string) -> Outcome<Error>, scannedTypeMap: map<TypeId, string>)
      returns (trace: seq<Action>, r: Outcome<Error>)
      requires RegistryValid(Registered()) && database.typeMap == Some(tm) && database.columnMap == Some(cm)
      ensures (trace, r) == BuildSpec(tm, cm, TablesInCreationOrder(Registered()), dropTables, dropTablesCascade, createTables,
                                      DropStep(dropTable, dropTablesCascade),
                                      ThrownStep(CreateStep(Some(tm), Some(cm), exec, scannedTypeMap)))
    {
      var configured := [Configure(tm, cm)];
      var drops: seq<Action> := [];
      if dropTables {
        drops, r := DropAll(dropTable);
        if r.Fail? {
          if TablesInCreationOrder(Registered()).Err? {
            return configured, r;
          }
          return configured + drops, r;
        }
      }
      var creates: seq<Action> := [];
      r := Pass;
      if createTables {
        creates, r := CreateAll(exec, scannedTypeMap);
        if r.Fail? && TablesInCreationOrder(Registered()).Err? {
          return configured, r;
        }
      }
      trace := configured + drops + creates;
    }

    /** Build: fills in the scanned type map when none was given, configures the database with the
        registered columns, then drops and creates as the flags say. A database that is already
        configured makes Build throw before anything is issued. `dropTable` stands for the awaited
        DropTable(type, suffix) call. */
    method Build(exec: string -> Result<int, Error>, dropTable: (TypeId, string) -> Outcome<Error>,
                 scannedTypeMap: map<TypeId, string>) returns (trace: seq<Action>, r: Outcome<Error>)
      requires Valid()
      modifies this, database, database.isConfigured
      ensures Valid()
      ensures typeMap == Some(old(typeMap).GetOr(scannedTypeMap))
      ensures Registered() == old(Registered()) && database == old(database)
      ensures createTables == old(createTables) && dropTables == old(dropTables) && dropTablesCascade == old(dropTablesCascade)
      ensures old(database.isConfigured.state) ==>
        && trace == [] && r == Fail(AlreadyConfigured)
        && database.typeMap == old(database.typeMap) && database.columnMap == old(database.columnMap)
      ensures !old(database.isConfigured.state) ==>
        && database.typeMap == Some(typeMap.value) && database.columnMap == Some(ColumnMapOf(tables))
        && (trace, r) == BuildSpec(typeMap.value, ColumnMapOf(tables), TablesInCreationOrder(Registered()), dropTables,
                                   dropTablesCascade, createTables, DropStep(dropTable, dropTablesCascade),
                                   ThrownStep(CreateStep(Some(typeMap.value), Some(ColumnMapOf(tables)), exec, scannedTypeMap)))
    {
      if typeMap.None? {
        typeMap := Some(scannedTypeMap);
      }
      var columnMap := ColumnMapOf(tables);
      var configured := database.Configure(typeMap.value, columnMap);
      if configured.Fail? {
        return [], configured;
      }
      trace, r := Provision(typeMap.value, columnMap, exec, dropTable, scannedTypeMap);
    }
  }
}
