/** rDB/Attributes/ForeignKeyAttribute.cs: a foreign-key declaration, its SQL clause and its
    structural equality. */
module ForeignKeys {
  import opened Wrappers
  import opened Errors
  import opened Types
  import opened Text

  datatype ReferenceOption = Restrict | Cascade | SetNull | NoAction | SetDefault

  /** The declaration: target type, target columns in declared order, optional index name and the
      two referential actions. */
  datatype ForeignKeyAttribute = ForeignKeyAttribute(
    table: TypeId,
    columns: seq<string>,
    indexName: Option<string>,
    onDelete: ReferenceOption,
    onUpdate: ReferenceOption)

  /** The constructor: a null or empty target column list is rejected; IndexName starts null and
      both actions start at Restrict. */
  function NewForeignKey(table: TypeId, columns: Option<seq<string>>): (r: Result<ForeignKeyAttribute, Error>)
    ensures r.Err? <==> columns == None || columns == Some([])
    ensures r.Err? ==> r.error == NoReferencedColumns
    ensures r.Ok? ==> r.value.table == table && r.value.columns == columns.value && |r.value.columns| > 0
    ensures r.Ok? ==> r.value.indexName == None && r.value.onDelete == Restrict && r.value.onUpdate == Restrict
  {
    if columns.None? || |columns.value| < 1 then Err(NoReferencedColumns)
    else Ok(ForeignKeyAttribute(table, columns.value, None, Restrict, Restrict))
  }

  /** GetReferenceOptionName: the SQL keyword of each referential action. */
  function ReferenceOptionName(option: ReferenceOption): string {
    match option
    case Restrict => "RESTRICT"
    case Cascade => "CASCADE"
    case SetNull => "SET NULL"
    case NoAction => "NO ACTION"
    case SetDefault => "SET DEFAULT"
  }

  /** The keyword read back into its action. */
  function ParseReferenceOption(name: string): Option<ReferenceOption> {
    if name == "RESTRICT" then Some(Restrict)
    else if name == "CASCADE" then Some(Cascade)
    else if name == "SET NULL" then Some(SetNull)
    else if name == "NO ACTION" then Some(NoAction)
    else if name == "SET DEFAULT" then Some(SetDefault)
    else None
  }

  /** Every action has a keyword and the keyword identifies the action: the mapping is total and
      injective. */
  lemma ReferenceOptionNameRoundTrip(option: ReferenceOption)
    ensures ParseReferenceOption(ReferenceOptionName(option)) == Some(option)
  {
  }

  lemma ReferenceOptionNameInjective(a: ReferenceOption, b: ReferenceOption)
    ensures ReferenceOptionName(a) == ReferenceOptionName(b) ==> a == b
  {
    ReferenceOptionNameRoundTrip(a);
    ReferenceOptionNameRoundTrip(b);
  }

  function IndexNamePrefix(indexName: Option<string>): string {
    if indexName.Some? then indexName.value + " " else ""
  }

  /** The part of the clause up to the referenced table's opening parenthesis. */
  function LocalPart(fk: ForeignKeyAttribute, columns: seq<string>, quote: bool): string {
    "FOREIGN KEY " + IndexNamePrefix(fk.indexName) + "(" + Join(", ", QuoteAll(columns, quote)) + ") REFERENCES "
  }

  /** The part of the clause after the referenced table's name. */
  function ReferencePart(fk: ForeignKeyAttribute, quote: bool): string {
    "(" + Join(", ", QuoteAll(fk.columns, quote)) + ") ON DELETE " + ReferenceOptionName(fk.onDelete) +
    " ON UPDATE " + ReferenceOptionName(fk.onUpdate)
  }

  /** GenerateSql for the resolved target table name and the local columns (None stands for a null
      collection). A null collection has a null count, which passes the `count < 1` test and fails
      the `count != Columns.Length` test. */
  function ForeignKeySql(fk: ForeignKeyAttribute, table: string, columns: Option<seq<string>>, quote: bool)
    : (r: Result<string, Error>)
    ensures r.Err? <==> columns.None? || |columns.value| == 0 || |columns.value| != |fk.columns|
    ensures r.Err? && columns.Some? && |columns.value| == 0 ==> r.error == ZeroForeignKeyColumns
    ensures r.Err? && (columns.None? || |columns.value| > 0) ==> r.error == ColumnCountMismatch
  {
    if columns.Some? && |columns.value| < 1 then Err(ZeroForeignKeyColumns)
    else if columns.None? || |columns.value| != |fk.columns| then Err(ColumnCountMismatch)
    else Ok(LocalPart(fk, columns.value, quote) + table + ReferencePart(fk, quote))
  }

  /** A rendered clause names the local columns before REFERENCES, then the table, then the target
      columns and both actions. */
  lemma ForeignKeySqlShape(fk: ForeignKeyAttribute, table: string, columns: seq<string>, quote: bool)
    requires ForeignKeySql(fk, table, Some(columns), quote).Ok?
    ensures StartsWith(ForeignKeySql(fk, table, Some(columns), quote).value, LocalPart(fk, columns, quote) + table)
    ensures EndsWith(ForeignKeySql(fk, table, Some(columns), quote).value, table + ReferencePart(fk, quote))
  {
    var r := ForeignKeySql(fk, table, Some(columns), quote).value;
    assert r == (LocalPart(fk, columns, quote) + table) + ReferencePart(fk, quote);
    StartsWithConcat(LocalPart(fk, columns, quote) + table, ReferencePart(fk, quote));
    assert r == LocalPart(fk, columns, quote) + (table + ReferencePart(fk, quote));
    assert r[|r| - |table + ReferencePart(fk, quote)|..] == table + ReferencePart(fk, quote);
  }

  /** Equals(object): structural over Table, the Columns sequence, IndexName and both actions. The
      argument None stands for null or an object of another type. */
  predicate Equals(fk: ForeignKeyAttribute, other: Option<ForeignKeyAttribute>) {
    other.Some? &&
    fk.table == other.value.table &&
    fk.columns == other.value.columns &&
    fk.indexName == other.value.indexName &&
    fk.onDelete == other.value.onDelete && fk.onUpdate == other.value.onUpdate
  }

  /** Structural equality is value equality of the declarations, hence reflexive, symmetric and
      transitive. */
  lemma EqualsIsValueEquality(a: ForeignKeyAttribute, b: ForeignKeyAttribute)
    ensures Equals(a, Some(b)) <==> a == b
    ensures Equals(a, Some(a))
    ensures Equals(a, Some(b)) <==> Equals(b, Some(a))
    ensures !Equals(a, None)
  {
  }

  /** The objects fed to the hash accumulator. */
  datatype HashItem = TypeTag | TableItem(TypeId) | IndexNameItem(Option<string>) | OptionItem(ReferenceOption) | ColumnItem(string)

  /** GetHashCode's input list: the type tag, Table, IndexName, OnDelete, OnUpdate, then Columns. */
  function HashInputs(fk: ForeignKeyAttribute): (r: seq<HashItem>)
    ensures |r| == 5 + |fk.columns|
  {
    [TypeTag, TableItem(fk.table), IndexNameItem(fk.indexName), OptionItem(fk.onDelete), OptionItem(fk.onUpdate)] +
    seq(|fk.columns|, i requires 0 <= i < |fk.columns| => ColumnItem(fk.columns[i]))
  }

  /** The accumulator: HashCode.Add per item from a seed; the mixing step is left abstract because
      the framework randomises it per process. */
  function Accumulate(seed: int, items: seq<HashItem>, mix: (int, HashItem) -> int): int {
    if |items| == 0 then seed else mix(Accumulate(seed, items[..|items| - 1], mix), items[|items| - 1])
  }

  function HashCode(fk: ForeignKeyAttribute, seed: int, mix: (int, HashItem) -> int): int {
    Accumulate(seed, HashInputs(fk), mix)
  }

  /** Equal declarations hash equally, whatever the mixing step, because the hash reads exactly the
      compared fields. */
  lemma EqualsImpliesEqualHash(a: ForeignKeyAttribute, b: ForeignKeyAttribute, seed: int, mix: (int, HashItem) -> int)
    requires Equals(a, Some(b))
    ensures HashInputs(a) == HashInputs(b)
    ensures HashCode(a, seed, mix) == HashCode(b, seed, mix)
  {
  }

  /** operator ==: true for null/null, false for null against non-null, otherwise Equals. */
  predicate OperatorEquals(a: Option<ForeignKeyAttribute>, b: Option<ForeignKeyAttribute>) {
    if a.None? then b.None? else Equals(a.value, b)
  }

  /** operator !=: the negation of ==. */
  predicate OperatorNotEquals(a: Option<ForeignKeyAttribute>, b: Option<ForeignKeyAttribute>) {
    !OperatorEquals(a, b)
  }

  /** == agrees with Equals on non-null operands, treats null specially, and is value equality of
      the nullable references; != is always its negation. */
  lemma OperatorEqualsMeaning(a: Option<ForeignKeyAttribute>, b: Option<ForeignKeyAttribute>)
    ensures OperatorEquals(None, None)
    ensures b.Some? ==> !OperatorEquals(None, b) && !OperatorEquals(b, None)
    ensures OperatorEquals(a, b) <==> a == b
    ensures OperatorNotEquals(a, b) <==> a != b
  {
  }
}
