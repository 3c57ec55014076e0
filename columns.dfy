/** rDB/Attributes/DatabaseColumnAttribute.cs: the column declaration with its flag defaults. */
module ColumnAttributes {
  import opened Wrappers

  /** One column declaration: the storage type token and the settable flags. */
  datatype ColumnAttribute = ColumnAttribute(
    columnType: string,
    isInserted: bool,
    isCreated: bool,
    isPrimaryKey: bool,
    autoIncrement: bool,
    default: Option<string>,
    notNull: bool)

  /** `new DatabaseColumnAttribute(type)` with every settable property left at its default. */
  function NewColumnAttribute(columnType: string): (a: ColumnAttribute)
    ensures a.columnType == columnType
    ensures a.isInserted && a.isCreated
    ensures !a.isPrimaryKey && !a.autoIncrement
    ensures a.default == None && !a.notNull
  {
    ColumnAttribute(columnType, true, true, false, false, None, false)
  }
}

/** rDB/DatabaseColumnContext.cs: a member name paired with its column declaration, rendered as one
    column line of a CREATE TABLE statement. */
module ColumnContexts {
  import opened Wrappers
  import opened Text
  import opened ColumnAttributes

  datatype ColumnContext = ColumnContext(name: string, column: ColumnAttribute)

  /** The constructor stores the name and the declaration unchanged. */
  function NewColumnContext(name: string, column: ColumnAttribute): (c: ColumnContext)
    ensures c.name == name && c.column == column
  {
    ColumnContext(name, column)
  }

  /** The start of every column line: the double-quoted name, a space and the type token. */
  function ColumnHead(c: ColumnContext): string {
    Quote(c.name) + " " + c.column.columnType
  }

  const NotNullText: string := " NOT NULL"
  const DefaultText: string := " DEFAULT "

  /** GenerateSql. The name is always quoted: the definition takes no quoting flag, although
      TableSqlBuilder.BuildColumns passes one (that call does not match this definition). */
  function ColumnSql(c: ColumnContext): (r: string)
    ensures StartsWith(r, ColumnHead(c))
  {
    var sql := ColumnHead(c);
    var sql := if c.column.notNull then sql + NotNullText else sql;
    var sql := if c.column.default.Some? then sql + DefaultText + c.column.default.value else sql;
    sql
  }

  /** What follows the head of a column line, read back: whether NOT NULL is present, and the
      DEFAULT literal if one is. None when the text is not of that shape. */
  function ParseColumnTail(tail: string): Option<(bool, Option<string>)> {
    var notNull := StartsWith(tail, NotNullText);
    var rest := if notNull then tail[|NotNullText|..] else tail;
    if rest == [] then Some((notNull, None))
    else if StartsWith(rest, DefaultText) then Some((notNull, Some(rest[|DefaultText|..])))
    else None
  }

  /** The text after the head encodes exactly the NOT NULL flag and the DEFAULT literal, in that
      order: NOT NULL appears iff it is set, DEFAULT iff a default is given, and always after
      NOT NULL. */
  lemma ColumnSqlTail(c: ColumnContext)
    ensures ParseColumnTail(ColumnSql(c)[|ColumnHead(c)|..]) == Some((c.column.notNull, c.column.default))
  {
    var head := ColumnHead(c);
    var r := ColumnSql(c);
    var tail := r[|head|..];
    var afterNotNull := if c.column.default.Some? then DefaultText + c.column.default.value else "";
    if c.column.notNull {
      assert r == head + NotNullText + afterNotNull;
      assert tail == NotNullText + afterNotNull;
      assert tail[..|NotNullText|] == NotNullText;
      assert tail[|NotNullText|..] == afterNotNull;
    } else {
      assert r == head + afterNotNull;
      assert tail == afterNotNull;
      if c.column.default.Some? {
        assert tail[1] == 'D';
      }
    }
    if c.column.default.Some? {
      assert afterNotNull[..|DefaultText|] == DefaultText;
      assert afterNotNull[|DefaultText|..] == c.column.default.value;
    }
  }

  /** The line never depends on the primary-key, auto-increment, inserted or created flags: no
      key or auto-increment text is ever rendered. */
  lemma ColumnSqlIgnoresKeyFlags(c: ColumnContext, d: ColumnContext)
    requires c.name == d.name && c.column.columnType == d.column.columnType
    requires c.column.notNull == d.column.notNull && c.column.default == d.column.default
    ensures ColumnSql(c) == ColumnSql(d)
  {
  }
}
