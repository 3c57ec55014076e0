/** Identity of a declaring (persisted-entity) type. */
module Types {
  /** A stable opaque identifier chosen once per declaring type; it stands in for System.Type. */
  type TypeId = string
}

/** Failure-compatible wrappers used for the source's nullable values and exceptions. */
module Wrappers {

  /** A value that the source may leave null. */
  datatype Option<+T> = None | Some(value: T) {
    function GetOr(default: T): T {
      match this
      case Some(v) => v
      case None => default
    }
  }

  /** The outcome of an operation that may throw: the value, or the error it throws. */
  datatype Result<+T, +E> = Ok(value: T) | Err(error: E) {
    predicate IsFailure() {
      Err?
    }

    function PropagateFailure<U>(): Result<U, E>
      requires Err?
    {
      Err(error)
    }

    function Extract(): T
      requires Ok?
    {
      value
    }
  }

  /** The outcome of a void operation that may throw. */
  datatype Outcome<+E> = Pass | Fail(error: E)
}

/** The exceptions raised by the schema-provisioning core, one constructor per throw site kind. */
module Errors {
  import opened Types

  datatype Error =
    /** Dictionary.Add on a key that is already present. */
    | DuplicateKey
    /** DependencyGraph.Find: nodes remain but none is free of dependencies. */
    | UnsolvableDependencies
    /** ForeignKeyAttribute constructor: null or empty target column list. */
    | NoReferencedColumns
    /** ForeignKeyAttribute.GenerateSql: zero local columns. */
    | ZeroForeignKeyColumns
    /** ForeignKeyAttribute.GenerateSql: local and target column counts differ. */
    | ColumnCountMismatch
    /** TableSqlBuilder.Build: no table name. */
    | MissingTableName
    /** TableSqlBuilder: foreign keys or indices to render but no type map. */
    | MissingTypeMap
    /** TableSqlBuilder: a foreign key targets a type absent from the type map. */
    | UnresolvedForeignKey(target: TypeId)
    /** TypeMapBuilder.With: the type does not derive from DatabaseEntry. */
    | NotAnEntryType
    /** DatabaseEntry.Get: no property of that name. */
    | MissingColumn(column: string)
    /** Database.Configure called a second time. */
    | AlreadyConfigured
    /** DatabaseBuilder.WithTable: the type is already registered. */
    | DuplicateTable(table: TypeId)
    /** Database.Table: the type has no entry in the column map. */
    | TableNotInDatabase(table: TypeId)
    /** A lookup in a map that is still null (the database was never configured). */
    | NotConfigured
    /** An indexer lookup (`map[key]`) on a key that is absent. */
    | KeyNotFound
}

/** ImmutableDictionary.Builder.Add: a new key is added; re-adding a key with the same value leaves the
    dictionary as it is; re-adding it with a different value throws. */
module Dictionaries {
  import opened Wrappers
  import opened Errors

  function DictAdd<K, V(==)>(m: map<K, V>, k: K, v: V): (r: Result<map<K, V>, Error>)
    ensures r.Err? <==> k in m && m[k] != v
    ensures r.Err? ==> r.error == DuplicateKey
    ensures r.Ok? ==> r.value == m[k := v]
  {
    if k in m then (if m[k] == v then Ok(m) else Err(DuplicateKey)) else Ok(m[k := v])
  }
}
