/**
 * The normalised catalog that the linter lays over SQLite's own metadata: the
 * `tables` view and the `columns` view, computed from the rows that the engine's
 * catalog table and pragmas return for a loaded schema.
 *
 * The pragmas themselves belong to the engine and are inputs here: `Pragmas`
 * holds what each of them answers.
 */
module Catalog {
  import opened Wrappers

  /** A row of `sqlite_schema`; the views read only its `type` and `name`. */
  datatype SchemaEntry = SchemaEntry(kind: string, name: string)

  /** A row of `pragma_table_list`: schema, name, type, ncol, wr (without rowid), strict. */
  datatype TableListEntry =
    TableListEntry(schema: string, name: string, kind: string, ncol: int, wr: int, strict: int)

  /** A row of `pragma_table_info(t)`: cid, name, type, notnull, dflt_value, pk. */
  datatype TableInfoRow =
    TableInfoRow(cid: int, name: string, declaredType: string, notnull: int, dfltValue: Option<string>, pk: int)

  /**
   * A row of `pragma_foreign_key_list(t)`. `to` is NULL when the constraint names
   * no parent column (it then refers to the parent's primary key).
   */
  datatype ForeignKeyRow = ForeignKeyRow(
    id: int, seqNo: int, table: string, from: string, to: Option<string>,
    onUpdate: string, onDelete: string, matchKind: string)

  /** A row of `pragma_index_list(t)`. */
  datatype IndexListRow = IndexListRow(seqNo: int, name: string, unique: int, origin: string, partial: int)

  /** A row of `pragma_index_info(i)`; `name` is NULL for an indexed expression. */
  datatype IndexInfoRow = IndexInfoRow(seqNo: int, cid: int, name: Option<string>)

  /**
   * What the engine's catalog answers for one loaded schema. The table-valued
   * pragmas take a table or index name; a name absent from a map has no rows.
   * `queryErrors` maps a check's name to the error the engine raises when it
   * runs that check's query (a failure of the engine itself, not derived from
   * the schema); a check absent from it runs to completion.
   */
  datatype Pragmas = Pragmas(
    schema: seq<SchemaEntry>,
    tableList: seq<TableListEntry>,
    tableInfo: map<string, seq<TableInfoRow>>,
    foreignKeyList: map<string, seq<ForeignKeyRow>>,
    indexList: map<string, seq<IndexListRow>>,
    indexInfo: map<string, seq<IndexInfoRow>>,
    queryErrors: map<string, string>)
  {
    /** `pragma_table_info(t)`; a NULL argument names no table, so there are no rows. */
    function TableInfo(t: Option<string>): seq<TableInfoRow> {
      if t.Some? && t.value in tableInfo then tableInfo[t.value] else []
    }

    /** `pragma_foreign_key_list(t)`. */
    function ForeignKeyList(t: string): seq<ForeignKeyRow> {
      if t in foreignKeyList then foreignKeyList[t] else []
    }

    /** `pragma_index_list(t)`. */
    function IndexList(t: string): seq<IndexListRow> {
      if t in indexList then indexList[t] else []
    }

    /** `pragma_index_info(i)`. */
    function IndexInfo(i: string): seq<IndexInfoRow> {
      if i in indexInfo then indexInfo[i] else []
    }
  }

  // ---------------------------------------------------------------------------
  // The `tables` view: schema entries of type 'table', left-joined by name with
  // `pragma_table_list`.
  // ---------------------------------------------------------------------------

  /**
   * A row of the `tables` view. `Unmatched` is the row the left join produces
   * for a 'table' entry that no table_list row names: every column is NULL.
   */
  datatype TableRow = Listed(entry: TableListEntry) | Unmatched {
    /** The row's `name` column. */
    function Name(): Option<string> {
      if Listed? then Some(entry.name) else None
    }
  }

  /** The table_list rows whose name is `name`, in table_list order. */
  function ListedAs(list: seq<TableListEntry>, name: string): (m: seq<TableListEntry>)
    ensures forall e :: e in m <==> e in list && e.name == name
    ensures m == [] <==> forall e :: e in list ==> e.name != name
  {
    if list == [] then []
    else (if list[0].name == name then [list[0]] else []) + ListedAs(list[1..], name)
  }

  /** Table_list rows as rows of the view. */
  function AsRows(m: seq<TableListEntry>): (rows: seq<TableRow>)
    ensures |rows| == |m|
    ensures forall e :: Listed(e) in rows <==> e in m
    ensures Unmatched !in rows
  {
    if m == [] then [] else [Listed(m[0])] + AsRows(m[1..])
  }

  /** The view rows that one schema entry contributes. */
  function JoinEntry(s: SchemaEntry, list: seq<TableListEntry>): seq<TableRow> {
    if s.kind != "table" then []
    else
      var m := ListedAs(list, s.name);
      if m == [] then [Unmatched] else AsRows(m)
  }

  /** The `tables` view over `sqlite_schema` and `pragma_table_list`. */
  function TablesView(schema: seq<SchemaEntry>, list: seq<TableListEntry>): seq<TableRow> {
    if schema == [] then [] else JoinEntry(schema[0], list) + TablesView(schema[1..], list)
  }

  /** The `tables` view of a loaded schema. */
  function Tables(p: Pragmas): seq<TableRow> {
    TablesView(p.schema, p.tableList)
  }

  /** Some schema entry of type 'table' is called `name`. */
  predicate IsTableEntry(schema: seq<SchemaEntry>, name: string) {
    exists s :: s in schema && s.kind == "table" && s.name == name
  }

  /** Some schema entry of type 'table' has no table_list row of its name. */
  predicate HasUnlistedTable(schema: seq<SchemaEntry>, list: seq<TableListEntry>) {
    exists s :: s in schema && s.kind == "table" && forall e :: e in list ==> e.name != s.name
  }

  /**
   * The view holds exactly the table_list rows named by a 'table' entry of the
   * schema (views, indexes and triggers contribute nothing), and holds an all-NULL
   * row exactly when some 'table' entry has no table_list row.
   */
  lemma {:induction false} TablesViewMembers(schema: seq<SchemaEntry>, list: seq<TableListEntry>)
    ensures forall e :: Listed(e) in TablesView(schema, list) <==> e in list && IsTableEntry(schema, e.name)
    ensures Unmatched in TablesView(schema, list) <==> HasUnlistedTable(schema, list)
  {
    if schema != [] {
      var s, rest := schema[0], schema[1..];
      TablesViewMembers(rest, list);
      assert schema == [s] + rest;
      var v := TablesView(schema, list);
      assert v == JoinEntry(s, list) + TablesView(rest, list);
      forall e
        ensures Listed(e) in v <==> e in list && IsTableEntry(schema, e.name)
      {
        if Listed(e) in v && Listed(e) in JoinEntry(s, list) {
          assert s in schema;
        }
        if e in list && IsTableEntry(schema, e.name) {
          var s' :| s' in schema && s'.kind == "table" && s'.name == e.name;
          if s' == s {
            assert e in ListedAs(list, s.name);
          } else {
            assert s' in rest;
          }
        }
      }
      if HasUnlistedTable(schema, list) {
        var s' :| s' in schema && s'.kind == "table" && forall e :: e in list ==> e.name != s'.name;
        if s' == s {
          assert ListedAs(list, s.name) == [];
        } else {
          assert s' in rest;
        }
      }
      if Unmatched in JoinEntry(s, list) {
        assert forall e :: e in list ==> e.name != s.name;
      }
    }
  }

  // ---------------------------------------------------------------------------
  // The `columns` view: each table's `pragma_table_info` rows, left-joined with
  // that table's `pragma_foreign_key_list` rows on the source column name.
  // ---------------------------------------------------------------------------

  /** A row of the `columns` view. */
  datatype ColumnRow = ColumnRow(
    tableName: string,
    columnName: string,
    columnType: string,
    notnull: int,
    dfltValue: Option<string>,
    isPrimaryKey: int,
    fkTargetTable: Option<string>,
    fkTargetColumn: Option<string>)

  /** The foreign-key entries whose `from` is `column`, in pragma order. */
  function ForeignKeysFrom(fks: seq<ForeignKeyRow>, column: string): (m: seq<ForeignKeyRow>)
    ensures forall f :: f in m <==> f in fks && f.from == column
    ensures m == [] <==> NoForeignKeyFrom(fks, column)
    ensures |m| <= |fks|
  {
    if fks == [] then []
    else (if fks[0].from == column then [fks[0]] else []) + ForeignKeysFrom(fks[1..], column)
  }

  /** No FK entry of `fks` starts at `column`. */
  predicate NoForeignKeyFrom(fks: seq<ForeignKeyRow>, column: string) {
    forall f :: f in fks ==> f.from != column
  }

  /** The view row for column `c` of `table`, with the given foreign-key target. */
  function ColumnOf(table: string, c: TableInfoRow, target: Option<string>, targetColumn: Option<string>): ColumnRow {
    ColumnRow(table, c.name, c.declaredType, c.notnull, c.dfltValue, c.pk, target, targetColumn)
  }

  /** The rows one table_info row contributes: one per matching FK entry, or one with NULL targets. */
  function JoinColumn(table: string, c: TableInfoRow, fks: seq<ForeignKeyRow>): seq<ColumnRow> {
    var m := ForeignKeysFrom(fks, c.name);
    if m == [] then [ColumnOf(table, c, None, None)]
    else seq(|m|, i requires 0 <= i < |m| => ColumnOf(table, c, Some(m[i].table), m[i].to))
  }

  /** The rows of one table: its table_info rows in order, each joined with the FK list. */
  function JoinTable(table: string, infos: seq<TableInfoRow>, fks: seq<ForeignKeyRow>): seq<ColumnRow> {
    if infos == [] then [] else JoinColumn(table, infos[0], fks) + JoinTable(table, infos[1..], fks)
  }

  /** The rows one `tables` row contributes; the all-NULL row names no table and has none. */
  function TableColumns(p: Pragmas, t: TableRow): seq<ColumnRow> {
    match t
    case Unmatched => []
    case Listed(e) => JoinTable(e.name, p.TableInfo(Some(e.name)), p.ForeignKeyList(e.name))
  }

  /** The `columns` view over the given `tables` rows. */
  function ColumnsView(p: Pragmas, tables: seq<TableRow>): seq<ColumnRow> {
    if tables == [] then [] else TableColumns(p, tables[0]) + ColumnsView(p, tables[1..])
  }

  /** The `columns` view of a loaded schema. */
  function Columns(p: Pragmas): seq<ColumnRow> {
    ColumnsView(p, Tables(p))
  }

  /** `r` carries the table_info row `c` of `table` unchanged (`pk` included: no key is invented). */
  predicate Copies(r: ColumnRow, table: string, c: TableInfoRow) {
    && r.tableName == table
    && r.columnName == c.name
    && r.columnType == c.declaredType
    && r.notnull == c.notnull
    && r.dfltValue == c.dfltValue
    && r.isPrimaryKey == c.pk
  }

  /**
   * `r`'s target fields are the `table` and `to` of one FK entry whose `from` is
   * `column`, verbatim, or both NULL when no entry of `fks` starts at `column`.
   */
  predicate TargetsFrom(r: ColumnRow, fks: seq<ForeignKeyRow>, column: string) {
    || (exists f :: f in fks && f.from == column && r.fkTargetTable == Some(f.table) && r.fkTargetColumn == f.to)
    || (r.fkTargetTable == None && r.fkTargetColumn == None && NoForeignKeyFrom(fks, column))
  }

  /** Every row one column contributes copies that column and takes its targets from its own FK entries. */
  lemma JoinColumnRows(table: string, c: TableInfoRow, fks: seq<ForeignKeyRow>)
    ensures forall r :: r in JoinColumn(table, c, fks) ==> Copies(r, table, c) && TargetsFrom(r, fks, c.name)
  {
    var m := ForeignKeysFrom(fks, c.name);
    if m == [] {
    } else {
      forall r | r in JoinColumn(table, c, fks) ensures TargetsFrom(r, fks, c.name) {
        var i :| 0 <= i < |m| && r == JoinColumn(table, c, fks)[i];
        assert m[i] in m;
      }
    }
  }

  /** Every row of a table's join comes from one of its table_info rows. */
  lemma {:induction false} JoinTableSound(table: string, infos: seq<TableInfoRow>, fks: seq<ForeignKeyRow>)
    ensures forall r :: r in JoinTable(table, infos, fks) ==>
      exists c :: c in infos && Copies(r, table, c) && TargetsFrom(r, fks, c.name)
  {
    if infos != [] {
      JoinTableSound(table, infos[1..], fks);
      JoinColumnRows(table, infos[0], fks);
      forall r | r in JoinTable(table, infos, fks)
        ensures exists c :: c in infos && Copies(r, table, c) && TargetsFrom(r, fks, c.name)
      {
        if r in JoinColumn(table, infos[0], fks) {
          assert infos[0] in infos;
        } else {
          assert r in JoinTable(table, infos[1..], fks);
          var c :| c in infos[1..] && Copies(r, table, c) && TargetsFrom(r, fks, c.name);
          assert c in infos;
        }
      }
    }
  }

  /**
   * Every row of the `columns` view is a table_info row of a table in the view,
   * copied unchanged, whose targets are taken verbatim from an FK entry of that
   * same table starting at that column, or are NULL when there is none. In
   * particular no pseudo rowid column is ever added, and FK targets are never
   * checked for existence.
   */
  lemma {:induction false} ColumnsViewSound(p: Pragmas, tables: seq<TableRow>)
    ensures forall r :: r in ColumnsView(p, tables) ==>
      (exists e, c :: Listed(e) in tables && c in p.TableInfo(Some(e.name))
        && Copies(r, e.name, c) && TargetsFrom(r, p.ForeignKeyList(e.name), c.name))
  {
    if tables != [] {
      ColumnsViewSound(p, tables[1..]);
      forall r | r in ColumnsView(p, tables)
        ensures exists e, c ::
                  && Listed(e) in tables && c in p.TableInfo(Some(e.name))
                  && Copies(r, e.name, c) && TargetsFrom(r, p.ForeignKeyList(e.name), c.name)
      {
        if r in TableColumns(p, tables[0]) {
          var e := tables[0].entry;
          JoinTableSound(e.name, p.TableInfo(Some(e.name)), p.ForeignKeyList(e.name));
          assert Listed(e) in tables;
        } else {
          assert r in ColumnsView(p, tables[1..]);
          var e, c :| Listed(e) in tables[1..] && c in p.TableInfo(Some(e.name))
            && Copies(r, e.name, c) && TargetsFrom(r, p.ForeignKeyList(e.name), c.name);
          assert Listed(e) in tables;
        }
      }
    }
  }

  /** Every column of a table, and every FK entry of that column, is in the table's join. */
  lemma {:induction false} JoinTableComplete(table: string, infos: seq<TableInfoRow>, fks: seq<ForeignKeyRow>)
    ensures forall c :: c in infos && NoForeignKeyFrom(fks, c.name) ==>
      ColumnOf(table, c, None, None) in JoinTable(table, infos, fks)
    ensures forall c, f :: c in infos && f in fks && f.from == c.name ==>
      ColumnOf(table, c, Some(f.table), f.to) in JoinTable(table, infos, fks)
  {
    if infos != [] {
      JoinTableComplete(table, infos[1..], fks);
      var c0 := infos[0];
      var m := ForeignKeysFrom(fks, c0.name);
      forall f | f in fks && f.from == c0.name
        ensures ColumnOf(table, c0, Some(f.table), f.to) in JoinColumn(table, c0, fks)
      {
        assert f in m;
        var i :| 0 <= i < |m| && m[i] == f;
        assert JoinColumn(table, c0, fks)[i] == ColumnOf(table, c0, Some(f.table), f.to);
      }
    }
  }

  /**
   * The left join keeps every column: each table_info row of each table in the
   * view appears, with NULL targets when no FK entry starts at it and once with
   * each FK entry's target otherwise.
   */
  lemma {:induction false} ColumnsViewComplete(p: Pragmas, tables: seq<TableRow>)
    ensures forall e, c ::
      (Listed(e) in tables && c in p.TableInfo(Some(e.name))
       && NoForeignKeyFrom(p.ForeignKeyList(e.name), c.name)) ==>
      ColumnOf(e.name, c, None, None) in ColumnsView(p, tables)
    ensures forall e, c, f ::
      (Listed(e) in tables && c in p.TableInfo(Some(e.name))
       && f in p.ForeignKeyList(e.name) && f.from == c.name) ==>
      ColumnOf(e.name, c, Some(f.table), f.to) in ColumnsView(p, tables)
  {
    if tables != [] {
      var head, rest := TableColumns(p, tables[0]), ColumnsView(p, tables[1..]);
      assert ColumnsView(p, tables) == head + rest;
      ColumnsViewComplete(p, tables[1..]);
      if tables[0].Listed? {
        var e0 := tables[0].entry;
        JoinTableComplete(e0.name, p.TableInfo(Some(e0.name)), p.ForeignKeyList(e0.name));
      }
      forall e, c | Listed(e) in tables && c in p.TableInfo(Some(e.name))
        && NoForeignKeyFrom(p.ForeignKeyList(e.name), c.name)
        ensures ColumnOf(e.name, c, None, None) in ColumnsView(p, tables)
      {
        if tables[0] != Listed(e) {
          assert Listed(e) in tables[1..];
        }
      }
      forall e, c, f | Listed(e) in tables && c in p.TableInfo(Some(e.name))
        && f in p.ForeignKeyList(e.name) && f.from == c.name
        ensures ColumnOf(e.name, c, Some(f.table), f.to) in ColumnsView(p, tables)
      {
        if tables[0] != Listed(e) {
          assert Listed(e) in tables[1..];
        }
      }
    }
  }

  /** Every table_info row of every table in the view appears at least once in the `columns` view. */
  lemma EveryColumnAppears(p: Pragmas, tables: seq<TableRow>, e: TableListEntry, c: TableInfoRow)
    requires Listed(e) in tables && c in p.TableInfo(Some(e.name))
    ensures exists r :: r in ColumnsView(p, tables) && Copies(r, e.name, c)
  {
    ColumnsViewComplete(p, tables);
    var fks := p.ForeignKeyList(e.name);
    if f :| f in fks && f.from == c.name {
      assert ColumnOf(e.name, c, Some(f.table), f.to) in ColumnsView(p, tables);
    } else {
      assert ColumnOf(e.name, c, None, None) in ColumnsView(p, tables);
    }
  }

  /** The rows of `rows` whose column name is `column`, in order. */
  function RowsOfColumn(rows: seq<ColumnRow>, column: string): (s: seq<ColumnRow>)
    ensures forall r :: r in s <==> r in rows && r.columnName == column
  {
    if rows == [] then []
    else (if rows[0].columnName == column then [rows[0]] else []) + RowsOfColumn(rows[1..], column)
  }

  lemma {:induction false} RowsOfColumnAppend(a: seq<ColumnRow>, b: seq<ColumnRow>, column: string)
    ensures RowsOfColumn(a + b, column) == RowsOfColumn(a, column) + RowsOfColumn(b, column)
  {
    if a != [] {
      assert (a + b)[0] == a[0];
      assert (a + b)[1..] == a[1..] + b;
      RowsOfColumnAppend(a[1..], b, column);
      var h := if a[0].columnName == column then [a[0]] else [];
      assert RowsOfColumn(a + b, column) == h + RowsOfColumn(a[1..] + b, column);
      assert RowsOfColumn(a, column) == h + RowsOfColumn(a[1..], column);
    } else {
      assert a + b == b;
    }
  }

  /** A table's column names are distinct, as SQLite guarantees for table_info. */
  predicate DistinctNames(infos: seq<TableInfoRow>) {
    forall i, j :: 0 <= i < j < |infos| ==> infos[i].name != infos[j].name
  }

  /** Within a table with distinct column names, the rows named `c.name` are exactly `c`'s own join. */
  lemma {:induction false} RowsOfJoinedColumn(table: string, infos: seq<TableInfoRow>, fks: seq<ForeignKeyRow>, c: TableInfoRow)
    requires DistinctNames(infos) && c in infos
    ensures RowsOfColumn(JoinTable(table, infos, fks), c.name) == JoinColumn(table, c, fks)
  {
    var c0, rest := infos[0], infos[1..];
    RowsOfColumnAppend(JoinColumn(table, c0, fks), JoinTable(table, rest, fks), c.name);
    var head := JoinColumn(table, c0, fks);
    if c0 == c {
      assert RowsOfColumn(head, c.name) == head by {
        JoinColumnRows(table, c0, fks);
        RowsOfColumnAll(head, c.name);
      }
      assert RowsOfColumn(JoinTable(table, rest, fks), c.name) == [] by {
        forall k | 0 <= k < |rest| ensures rest[k].name != c.name {
          assert rest[k] == infos[k + 1];
        }
        JoinTableSound(table, rest, fks);
        RowsOfColumnNone(JoinTable(table, rest, fks), c.name);
      }
    } else {
      assert c in rest;
      assert c0.name != c.name by {
        var j :| 0 <= j < |infos| && infos[j] == c;
        assert j != 0;
      }
      assert RowsOfColumn(head, c.name) == [] by {
        JoinColumnRows(table, c0, fks);
        RowsOfColumnNone(head, c.name);
      }
      assert DistinctNames(rest) by {
        forall i, j | 0 <= i < j < |rest| ensures rest[i].name != rest[j].name {
          assert rest[i] == infos[i + 1] && rest[j] == infos[j + 1];
        }
      }
      RowsOfJoinedColumn(table, rest, fks, c);
    }
  }

  lemma {:induction false} RowsOfColumnAll(rows: seq<ColumnRow>, column: string)
    requires forall r :: r in rows ==> r.columnName == column
    ensures RowsOfColumn(rows, column) == rows
  {
    if rows != [] {
      RowsOfColumnAll(rows[1..], column);
      assert rows == [rows[0]] + rows[1..];
    }
  }

  lemma {:induction false} RowsOfColumnNone(rows: seq<ColumnRow>, column: string)
    requires forall r :: r in rows ==> r.columnName != column
    ensures RowsOfColumn(rows, column) == []
  {
    if rows != [] {
      RowsOfColumnNone(rows[1..], column);
    }
  }

  /**
   * Multiplicity of a column in the `columns` rows of its table: a column that is
   * the `from` of k FK entries appears exactly k times, the i-th time with the
   * i-th entry's `table` and `to` verbatim; with no such entry it appears exactly
   * once, with both targets NULL.
   */
  lemma ColumnMultiplicity(p: Pragmas, e: TableListEntry, c: TableInfoRow)
    requires DistinctNames(p.TableInfo(Some(e.name))) && c in p.TableInfo(Some(e.name))
    ensures
      var rows := RowsOfColumn(TableColumns(p, Listed(e)), c.name);
      var m := ForeignKeysFrom(p.ForeignKeyList(e.name), c.name);
      && (m == [] ==> rows == [ColumnOf(e.name, c, None, None)])
      && (m != [] ==> |rows| == |m| && forall i :: 0 <= i < |m| ==> rows[i] == ColumnOf(e.name, c, Some(m[i].table), m[i].to))
  {
    RowsOfJoinedColumn(e.name, p.TableInfo(Some(e.name)), p.ForeignKeyList(e.name), c);
  }
}
