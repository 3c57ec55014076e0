/** rDB/SchemaContext.cs: the immutable snapshot of the column map and the type map handed to the
    connection layer. */
module SchemaContexts {
  import opened Types
  import opened Wrappers
  import opened Errors
  import opened ColumnContexts

  /** Both maps are get-only, so a value type captures that the snapshot never changes. */
  datatype SchemaContext = SchemaContext(columnMap: map<TypeId, seq<ColumnContext>>, typeMap: map<TypeId, string>)

  function NewSchemaContext(columnMap: map<TypeId, seq<ColumnContext>>, typeMap: map<TypeId, string>): (s: SchemaContext)
    ensures s.columnMap == columnMap && s.typeMap == typeMap
  {
    SchemaContext(columnMap, typeMap)
  }

  /** TableName<T>: the indexer on the type map, which throws for an absent key. */
  function TableName(s: SchemaContext, t: TypeId): (r: Result<string, Error>)
    ensures r.Ok? <==> t in s.typeMap
    ensures r.Ok? ==> r.value == s.typeMap[t]
    ensures r.Err? ==> r.error == KeyNotFound
  {
    if t in s.typeMap then Ok(s.typeMap[t]) else Err(KeyNotFound)
  }

  /** Columns<T>: the indexer on the column map. */
  function Columns(s: SchemaContext, t: TypeId): (r: Result<seq<ColumnContext>, Error>)
    ensures r.Ok? <==> t in s.columnMap
    ensures r.Ok? ==> r.value == s.columnMap[t]
    ensures r.Err? ==> r.error == KeyNotFound
  {
    if t in s.columnMap then Ok(s.columnMap[t]) else Err(KeyNotFound)
  }
}
