/** rDB/DatabaseEntry.cs: what the core reads off a persisted type. Reflection is replaced by a
    description of the type: its identity, short name, optional table annotation and its public
    properties in declaration order, each with its optional column, foreign-key and index
    annotations. */
module Entries {
  import opened Types
  import opened Wrappers
  import opened Errors
  import opened Dictionaries
  import opened ColumnAttributes
  import opened ColumnContexts
  import opened ForeignKeys
  import opened Indices
  import opened Groupings

  /** One public property of an entry type and the annotations it carries. */
  datatype Property = Property(
    name: string,
    column: Option<ColumnAttribute>,
    foreignKey: Option<ForeignKeyAttribute>,
    index: Option<IndexAttribute>)

  /** A type as reflection sees it. `tableName` is the Name of its table annotation, None when the
      annotation or its Name is absent. `derivesFromEntry` is "assignable to DatabaseEntry";
      `isConcreteClass` is "a class and not abstract". */
  datatype TypeDesc = TypeDesc(
    id: TypeId,
    name: string,
    tableName: Option<string>,
    derivesFromEntry: bool,
    isConcreteClass: bool,
    properties: seq<Property>)

  /** An instance: its runtime type and the value each property reads. */
  datatype Entry<V> = Entry(desc: TypeDesc, read: string -> V)

  /** The naming rule: the table annotation's name, else the type's own name. */
  function TableNameOf(t: TypeDesc): string {
    t.tableName.GetOr(t.name)
  }

  /** GetColumns: one column context per property that carries a column annotation, named by that
      property, in declaration order. */
  function GetColumns(props: seq<Property>): (r: seq<ColumnContext>)
    ensures |r| <= |props|
    ensures forall c :: c in r <==> exists p :: p in props && p.column.Some? && c == ColumnContext(p.name, p.column.value)
  {
    if |props| == 0 then []
    else
      var front := GetColumns(props[..|props| - 1]);
      var p := props[|props| - 1];
      assert props == props[..|props| - 1] + [p];
      if p.column.Some? then front + [ColumnContext(p.name, p.column.value)] else front
  }

  /** The (property name, foreign-key attribute) pairs of the annotated properties, in order. */
  function ForeignKeyMembers(props: seq<Property>): (r: seq<(string, ForeignKeyAttribute)>)
    ensures forall x, k :: (x, k) in r <==> exists p :: p in props && p.name == x && p.foreignKey == Some(k)
  {
    if |props| == 0 then []
    else
      var front := ForeignKeyMembers(props[..|props| - 1]);
      var p := props[|props| - 1];
      assert props == props[..|props| - 1] + [p];
      if p.foreignKey.Some? then front + [(p.name, p.foreignKey.value)] else front
  }

  /** The (property name, index attribute) pairs of the annotated properties, in order. */
  function IndexMembers(props: seq<Property>): (r: seq<(string, IndexAttribute)>)
    ensures forall x, k :: (x, k) in r <==> exists p :: p in props && p.name == x && p.index == Some(k)
  {
    if |props| == 0 then []
    else
      var front := IndexMembers(props[..|props| - 1]);
      var p := props[|props| - 1];
      assert props == props[..|props| - 1] + [p];
      if p.index.Some? then front + [(p.name, p.index.value)] else front
  }

  lemma PairKeys<K>(ms: seq<(string, K)>, k: K)
    ensures (exists i :: 0 <= i < |ms| && ms[i].1 == k) <==> exists x :: (x, k) in ms
  {
    if exists i :: 0 <= i < |ms| && ms[i].1 == k {
      var i :| 0 <= i < |ms| && ms[i].1 == k;
      assert (ms[i].0, k) in ms;
    }
  }

  /** GetForeignKeys: the annotated properties grouped under structurally equal attributes. Each
      distinct attribute is one key, and its set holds exactly the properties that carry it. */
  method GetForeignKeys(t: TypeDesc) returns (g: Groups<ForeignKeyAttribute>)
    ensures g == GroupSpec(ForeignKeyMembers(t.properties))
    ensures Valid(g)
    ensures forall k :: k in g.keys <==> exists p :: p in t.properties && p.foreignKey == Some(k)
    ensures forall k, x :: k in g.members ==>
      (x in g.members[k] <==> exists p :: p in t.properties && p.name == x && p.foreignKey == Some(k))
  {
    var ms := ForeignKeyMembers(t.properties);
    g := Aggregate(ms);
    forall k
      ensures k in g.keys <==> exists p :: p in t.properties && p.foreignKey == Some(k)
    {
      PairKeys(ms, k);
      if exists p :: p in t.properties && p.foreignKey == Some(k) {
        var p :| p in t.properties && p.foreignKey == Some(k);
        assert (p.name, k) in ms;
      }
    }
  }

  /** GetIndices: the same grouping applied to index annotations. */
  method GetIndices(t: TypeDesc) returns (g: Groups<IndexAttribute>)
    ensures g == GroupSpec(IndexMembers(t.properties))
    ensures Valid(g)
    ensures forall k :: k in g.keys <==> exists p :: p in t.properties && p.index == Some(k)
    ensures forall k, x :: k in g.members ==>
      (x in g.members[k] <==> exists p :: p in t.properties && p.name == x && p.index == Some(k))
  {
    var ms := IndexMembers(t.properties);
    g := Aggregate(ms);
    forall k
      ensures k in g.keys <==> exists p :: p in t.properties && p.index == Some(k)
    {
      PairKeys(ms, k);
      if exists p :: p in t.properties && p.index == Some(k) {
        var p :| p in t.properties && p.index == Some(k);
        assert (p.name, k) in ms;
      }
    }
  }

  predicate HasProperty(t: TypeDesc, column: string) {
    exists p :: p in t.properties && p.name == column
  }

  /** Get: the value of the named property, or the "non existing column" error. */
  function Get<V>(e: Entry<V>, column: string): (r: Result<V, Error>)
    ensures r.Ok? <==> HasProperty(e.desc, column)
    ensures r.Ok? ==> r.value == e.read(column)
    ensures r.Err? ==> r.error == MissingColumn(column)
  {
    if HasProperty(e.desc, column) then Ok(e.read(column)) else Err(MissingColumn(column))
  }

  /** Save: the saver callback is invoked once per column, in order, with that column's value; a
      column with no property stops the loop with the Get error after the calls already made. The
      calls are returned as a trace. */
  method Save<V>(e: Entry<V>, columns: seq<string>) returns (calls: seq<(string, V)>, r: Outcome<Error>)
    ensures |calls| <= |columns|
    ensures forall i :: 0 <= i < |calls| ==> calls[i] == (columns[i], e.read(columns[i])) && HasProperty(e.desc, columns[i])
    ensures r.Pass? <==> |calls| == |columns|
    ensures r.Fail? ==> !HasProperty(e.desc, columns[|calls|]) && r.error == MissingColumn(columns[|calls|])
  {
    calls := [];
    var i := 0;
    while i < |columns|
      invariant 0 <= i <= |columns| && |calls| == i
      invariant forall j :: 0 <= j < i ==> calls[j] == (columns[j], e.read(columns[j])) && HasProperty(e.desc, columns[j])
    {
      var value := Get(e, columns[i]);
      if value.Err? {
        return calls, Fail(value.error);
      }
      calls := calls + [(columns[i], value.value)];
      i := i + 1;
    }
    r := Pass;
  }

  function ColumnNames(columns: seq<ColumnContext>): (r: seq<string>)
    ensures |r| == |columns| && forall i :: 0 <= i < |columns| ==> r[i] == columns[i].name
  {
    if |columns| == 0 then [] else ColumnNames(columns[..|columns| - 1]) + [columns[|columns| - 1].name]
  }

  /** The Save overload taking column contexts: Save over their names. */
  method SaveColumns<V>(e: Entry<V>, columns: seq<ColumnContext>) returns (calls: seq<(string, V)>, r: Outcome<Error>)
    ensures |calls| <= |columns|
    ensures forall i :: 0 <= i < |calls| ==> calls[i] == (columns[i].name, e.read(columns[i].name))
    ensures r.Pass? <==> |calls| == |columns|
    ensures r.Fail? ==> r.error == MissingColumn(columns[|calls|].name)
  {
    calls, r := Save(e, ColumnNames(columns));
  }

  /** Whether reflection's scan picks the type up: it derives from DatabaseEntry, is a class and is
      not abstract. */
  predicate IsEntryClass(t: TypeDesc) {
    t.derivesFromEntry && t.isConcreteClass
  }

  /** The type map BuildTypeMap returns after scanning the given types in order. */
  function TypeMapSpec(discovered: seq<TypeDesc>): Result<map<TypeId, string>, Error> {
    if |discovered| == 0 then Ok(map[])
    else
      var t := discovered[|discovered| - 1];
      match TypeMapSpec(discovered[..|discovered| - 1])
      case Err(e) => Err(e)
      case Ok(m) => if IsEntryClass(t) then DictAdd(m, t.id, TableNameOf(t)) else Ok(m)
  }

  /** Once the scan has failed, later types do not change the error. */
  lemma {:induction false} TypeMapSpecErrSticks(discovered: seq<TypeDesc>, n: nat)
    requires n <= |discovered| && TypeMapSpec(discovered[..n]).Err?
    ensures TypeMapSpec(discovered) == TypeMapSpec(discovered[..n])
    decreases |discovered| - n
  {
    if n < |discovered| {
      assert discovered[..n + 1][..n] == discovered[..n];
      TypeMapSpecErrSticks(discovered, n + 1);
    } else {
      assert discovered[..n] == discovered;
    }
  }

  /** BuildTypeMap with the assembly scan abstracted as the `discovered` sequence: every concrete entry
      class is added under its table name. */
  method BuildTypeMap(discovered: seq<TypeDesc>) returns (r: Result<map<TypeId, string>, Error>)
    ensures r == TypeMapSpec(discovered)
  {
    var m: map<TypeId, string> := map[];
    var i := 0;
    while i < |discovered|
      invariant 0 <= i <= |discovered|
      invariant TypeMapSpec(discovered[..i]) == Ok(m)
    {
      assert discovered[..i + 1][..i] == discovered[..i];
      var t := discovered[i];
      if IsEntryClass(t) {
        var added := DictAdd(m, t.id, TableNameOf(t));
        if added.Err? {
          assert TypeMapSpec(discovered[..i + 1]) == added;
          TypeMapSpecErrSticks(discovered, i + 1);
          return added;
        }
        m := added.value;
      }
      i := i + 1;
    }
    assert discovered[..i] == discovered;
    r := Ok(m);
  }

  /** A successful scan maps exactly the scanned entry classes, each to its table name. */
  lemma {:induction false} TypeMapSpecMeaning(discovered: seq<TypeDesc>)
    requires TypeMapSpec(discovered).Ok?
    ensures forall id :: id in TypeMapSpec(discovered).value <==> exists t :: t in discovered && IsEntryClass(t) && t.id == id
    ensures forall t :: t in discovered && IsEntryClass(t) ==> TypeMapSpec(discovered).value[t.id] == TableNameOf(t)
  {
    if |discovered| > 0 {
      var front := discovered[..|discovered| - 1];
      assert discovered == front + [discovered[|discovered| - 1]];
      TypeMapSpecMeaning(front);
    }
  }

  /** The scan fails only when two entry classes share an identity but not a table name. */
  lemma {:induction false} TypeMapSpecDistinctOk(discovered: seq<TypeDesc>)
    requires forall i, j :: 0 <= i < j < |discovered| && IsEntryClass(discovered[i]) && IsEntryClass(discovered[j]) ==>
      discovered[i].id != discovered[j].id
    ensures TypeMapSpec(discovered).Ok?
    ensures forall id :: id in TypeMapSpec(discovered).value <==> exists t :: t in discovered && IsEntryClass(t) && t.id == id
  {
    if |discovered| > 0 {
      var front := discovered[..|discovered| - 1];
      assert discovered == front + [discovered[|discovered| - 1]];
      TypeMapSpecDistinctOk(front);
      TypeMapSpecMeaning(discovered);
    }
  }
}
