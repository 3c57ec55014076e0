/** rDB/Attributes/IndexAttribute.cs: an index declaration and its SQL text, either as an inline
    table clause (no table given) or as a standalone CREATE INDEX statement (table given). */
module Indices {
  import opened Wrappers
  import opened Text

  datatype IndexAttribute = IndexAttribute(name: Option<string>, indexType: Option<string>, unique: bool)

  /** `new IndexAttribute()`: Name and Type null, Unique true. */
  function NewIndexAttribute(): (a: IndexAttribute)
    ensures a.name == None && a.indexType == None && a.unique
  {
    IndexAttribute(None, None, true)
  }

  function Prefix(createPrefix: bool): string {
    if createPrefix then "CREATE " else ""
  }

  function UniqueSql(idx: IndexAttribute): string {
    if idx.unique then "UNIQUE " else ""
  }

  function IfNotExistsText(shouldAppear: bool): string {
    if shouldAppear then "IF NOT EXISTS " else ""
  }

  function TableNameSql(table: Option<string>): string {
    if table.Some? then "ON " + table.value + " " else ""
  }

  function TypeSql(idx: IndexAttribute): string {
    if idx.indexType.Some? then "USING " + idx.indexType.value + " " else ""
  }

  /** The parenthesised column list: the columns in the given order, joined by ", ", each
      double-quoted iff the flag is set. */
  function ColumnList(columns: seq<string>, quote: bool): string {
    "(" + Join(", ", QuoteAll(columns, quote)) + ")"
  }

  /** The part after INDEX: IF NOT EXISTS, the name (empty when null), the ON clause, the USING
      clause and the column list. */
  function IndexTail(idx: IndexAttribute, columns: seq<string>, quote: bool, table: Option<string>): string {
    IfNotExistsText(table.Some?) + (idx.name.GetOr("") + (" " + (TableNameSql(table) + UsingAndColumns(idx, columns, quote))))
  }

  function UsingAndColumns(idx: IndexAttribute, columns: seq<string>, quote: bool): string {
    TypeSql(idx) + ColumnList(columns, quote)
  }

  /** GenerateSql: the pieces in the source's order. */
  function IndexSql(idx: IndexAttribute, columns: seq<string>, quote: bool, table: Option<string>): string {
    Prefix(table.Some?) + (UniqueSql(idx) + ("INDEX " + IndexTail(idx, columns, quote, table)))
  }

  /** The column list closes the text, and it is immediately preceded by `USING <type> ` when a
      type is given. */
  lemma IndexSqlEnding(idx: IndexAttribute, columns: seq<string>, quote: bool, table: Option<string>)
    ensures EndsWith(IndexSql(idx, columns, quote, table), ColumnList(columns, quote))
    ensures idx.indexType.Some? ==>
      EndsWith(IndexSql(idx, columns, quote, table), "USING " + idx.indexType.value + " " + ColumnList(columns, quote))
  {
    var cl := ColumnList(columns, quote);
    var u := UsingAndColumns(idx, columns, quote);
    var t := IndexTail(idx, columns, quote, table);
    var r := IndexSql(idx, columns, quote, table);
    assert EndsWith(u, u);
    EndsWithAppend(TableNameSql(table), u, u);
    EndsWithAppend(" ", TableNameSql(table) + u, u);
    EndsWithAppend(idx.name.GetOr(""), " " + (TableNameSql(table) + u), u);
    EndsWithAppend(IfNotExistsText(table.Some?), idx.name.GetOr("") + (" " + (TableNameSql(table) + u)), u);
    EndsWithAppend("INDEX ", t, u);
    EndsWithAppend(UniqueSql(idx), "INDEX " + t, u);
    EndsWithAppend(Prefix(table.Some?), UniqueSql(idx) + ("INDEX " + t), u);
    assert EndsWith(r, u);
    assert EndsWith(cl, cl);
    EndsWithAppend(TypeSql(idx), cl, cl);
    EndsWithTransitive(r, u, cl);
    if idx.indexType.Some? {
      assert u == "USING " + idx.indexType.value + " " + cl;
    }
  }

  /** A given table switches on the CREATE prefix; with no table the text starts directly with
      UNIQUE or INDEX. */
  lemma IndexSqlTableToggle(idx: IndexAttribute, columns: seq<string>, quote: bool, table: Option<string>)
    ensures table.None? ==> StartsWith(IndexSql(idx, columns, quote, table), UniqueSql(idx) + "INDEX ")
    ensures StartsWith(IndexSql(idx, columns, quote, table), "CREATE ") <==> table.Some?
  {
    var t := IndexTail(idx, columns, quote, table);
    var body := UniqueSql(idx) + ("INDEX " + t);
    if table.Some? {
      StartsWithConcat("CREATE ", body);
    } else {
      assert IndexSql(idx, columns, quote, table) == body;
      StartsWithGroup(UniqueSql(idx), "INDEX ", t);
      assert body[0] == (if idx.unique then 'U' else 'I');
      DiffersAt(body, "CREATE ", 0);
    }
  }

  /** With a table, IF NOT EXISTS follows INDEX and the ON clause names the table; without one
      both are absent, so the (possibly empty) name is followed directly by a space and the USING
      clause or the column list. */
  lemma IndexTailByTable(idx: IndexAttribute, columns: seq<string>, quote: bool, table: Option<string>)
    ensures table.Some? ==>
      IndexTail(idx, columns, quote, table) ==
      "IF NOT EXISTS " + (idx.name.GetOr("") + (" " + ("ON " + table.value + " " + UsingAndColumns(idx, columns, quote))))
    ensures table.None? ==>
      IndexTail(idx, columns, quote, table) == idx.name.GetOr("") + " " + UsingAndColumns(idx, columns, quote)
  {
  }

  /** A text that differs from `p` at some position of `p` does not start with `p`. */
  lemma DiffersAt(s: string, p: string, k: nat)
    requires k < |s| && k < |p| && s[k] != p[k]
    ensures !StartsWith(s, p)
  {
    if |p| <= |s| {
      assert s[..|p|][k] == s[k];
    }
  }

  lemma StartsWithGroup(a: string, b: string, c: string)
    ensures StartsWith(a + (b + c), a + b)
  {
    assert a + (b + c) == (a + b) + c;
    StartsWithConcat(a + b, c);
  }

  /** `UNIQUE ` follows the (possibly empty) CREATE prefix exactly when the index is unique. */
  lemma IndexSqlUnique(idx: IndexAttribute, columns: seq<string>, quote: bool, table: Option<string>)
    ensures StartsWith(IndexSql(idx, columns, quote, table), Prefix(table.Some?) + "UNIQUE ") <==> idx.unique
  {
    var pre := Prefix(table.Some?);
    var tail := "INDEX " + IndexTail(idx, columns, quote, table);
    var rest := UniqueSql(idx) + tail;
    assert IndexSql(idx, columns, quote, table) == pre + rest;
    if idx.unique {
      StartsWithGroup(pre, "UNIQUE ", tail);
    } else {
      assert rest[0] == 'I';
      NotUniqueAfter(pre, rest);
    }
  }

  /** Text after `pre` that starts with some letter other than U does not start `pre + "UNIQUE "`. */
  lemma NotUniqueAfter(pre: string, tail: string)
    requires |tail| > 0 && tail[0] != 'U'
    ensures !StartsWith(pre + tail, pre + "UNIQUE ")
  {
    assert (pre + tail)[|pre|] == tail[0];
    assert (pre + "UNIQUE ")[|pre|] == 'U';
    DiffersAt(pre + tail, pre + "UNIQUE ", |pre|);
  }
}
