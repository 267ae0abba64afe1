/**
 * The lint rules. Each rule is a query over the normalised catalog (the
 * `tables` and `columns` views and, for two rules, the index and table_info
 * pragmas); `Checks` is the registry of the five rules by name, and `Execute`
 * runs one rule and scans its rows.
 */
module Checks {
  import opened Wrappers
  import opened Catalog

  /** A row of a rule's query: `error_msg`, `table_name` (possibly NULL), `column_name`. */
  datatype QueryRow = QueryRow(errorMsg: string, tableName: Option<string>, columnName: string)

  /** A query row scanned into three Go strings. */
  datatype CheckResult = CheckResult(errorMsg: string, tableName: string, columnName: string)

  /** The query each registered check runs. */
  datatype Rule = NotNull | Strict | IntType | ExplicitPrimaryKey | IndexedForeignKeys

  /** A registered check: its name, its query and the explanation shown on failure. */
  datatype Check = Check(name: string, rule: Rule, explanation: string)

  const NotNullMessage := "Column should should be \"not null\""
  const StrictMessage := "Table should be marked \"strict\""
  const IntTypeMessage := "Column should use \"integer\" type instead of \"int\""
  const PrimaryKeyMessage := "Table should declare an explicit primary key"
  const ForeignKeyMessage := "Foreign keys should point to indexed columns"

  // ---------------------------------------------------------------------------
  // `select <projection> from <view> where <condition>`
  // ---------------------------------------------------------------------------

  /** The rows of `from` that satisfy `where`, each projected, in the order of `from`. */
  function Select<R>(from: seq<R>, where: R -> bool, project: R -> QueryRow): (rows: seq<QueryRow>)
    ensures forall v :: v in rows <==> exists r :: r in from && where(r) && v == project(r)
    ensures rows == [] <==> forall r :: r in from ==> !where(r)
  {
    if from == [] then []
    else
      var n := |from| - 1;
      Select(from[..n], where, project) + (if where(from[n]) then [project(from[n])] else [])
  }

  /** The positions of the rows of `from` that satisfy `where`. */
  function Selected<R>(from: seq<R>, where: R -> bool): set<int> {
    set i | 0 <= i < |from| && where(from[i])
  }

  /** A query yields exactly one row per row of its view that satisfies its condition. */
  lemma {:induction false} SelectCount<R>(from: seq<R>, where: R -> bool, project: R -> QueryRow)
    ensures |Select(from, where, project)| == |Selected(from, where)|
  {
    if from != [] {
      var n := |from| - 1;
      var init := from[..n];
      SelectCount(init, where, project);
      assert Selected(from, where) == Selected(init, where) + (if where(from[n]) then {n} else {});
    }
  }

  /** Replacing a selected row by one the condition rejects removes exactly one row of the result. */
  lemma SelectUnflag<R>(from: seq<R>, where: R -> bool, project: R -> QueryRow, i: int, x: R)
    requires 0 <= i < |from| && where(from[i]) && !where(x)
    ensures |Select(from[i := x], where, project)| + 1 == |Select(from, where, project)|
  {
    SelectCount(from, where, project);
    SelectCount(from[i := x], where, project);
    assert Selected(from[i := x], where) == Selected(from, where) - {i};
  }

  /** The violation row for a column: its table and column names. */
  function ColumnViolation(msg: string): ColumnRow -> QueryRow {
    (r: ColumnRow) => QueryRow(msg, Some(r.tableName), r.columnName)
  }

  /** The violation row for a table: its name (NULL for the all-NULL row) and an empty column. */
  function TableViolation(msg: string): TableRow -> QueryRow {
    (t: TableRow) => QueryRow(msg, t.Name(), "")
  }

  // ---------------------------------------------------------------------------
  // require_not_null
  // ---------------------------------------------------------------------------

  /** `"notnull" = 0 and fk_target_column is null and is_primary_key = 0`. */
  predicate NotNullViolated(r: ColumnRow) {
    r.notnull == 0 && r.fkTargetColumn.None? && r.isPrimaryKey == 0
  }

  function RequireNotNull(cols: seq<ColumnRow>): seq<QueryRow> {
    Select(cols, NotNullViolated, ColumnViolation(NotNullMessage))
  }

  /**
   * `require_not_null` reports a column row exactly when it is nullable, has no
   * FK target column and is not a primary-key member.
   */
  lemma RequireNotNullReports(cols: seq<ColumnRow>)
    ensures forall v :: v in RequireNotNull(cols) <==>
      exists r :: r in cols && r.notnull == 0 && r.fkTargetColumn == None && r.isPrimaryKey == 0
        && v == QueryRow(NotNullMessage, Some(r.tableName), r.columnName)
    ensures |RequireNotNull(cols)| == |Selected(cols, NotNullViolated)|
  {
    SelectCount(cols, NotNullViolated, ColumnViolation(NotNullMessage));
  }

  /**
   * Making a reported column not-null, a primary-key member or an FK column
   * removes exactly its violation.
   */
  lemma RequireNotNullRepair(cols: seq<ColumnRow>, i: int, fixed: ColumnRow)
    requires 0 <= i < |cols| && NotNullViolated(cols[i])
    requires fixed.notnull != 0 || fixed.isPrimaryKey != 0 || fixed.fkTargetColumn.Some?
    ensures |RequireNotNull(cols[i := fixed])| + 1 == |RequireNotNull(cols)|
  {
    SelectUnflag(cols, NotNullViolated, ColumnViolation(NotNullMessage), i, fixed);
  }


  /**
   * A foreign key whose reference names no parent column (`ref integer
   * references p`) has a NULL `to`, so its row has a target table but no
   * target column. `require_not_null` as written still reports it when it is
   * nullable, although its explanation exempts foreign keys.
   */
  lemma ImplicitTargetForeignKeyReported(p: Pragmas, tables: seq<TableRow>, e: TableListEntry, c: TableInfoRow, f: ForeignKeyRow)
    requires Listed(e) in tables && c in p.TableInfo(Some(e.name)) && c.notnull == 0 && c.pk == 0
    requires f in p.ForeignKeyList(e.name) && f.from == c.name && f.to == None
    ensures QueryRow(NotNullMessage, Some(e.name), c.name) in RequireNotNull(ColumnsView(p, tables))
  {
    ColumnsViewComplete(p, tables);
    assert NotNullViolated(ColumnOf(e.name, c, Some(f.table), None));
  }

  /** The exemption the explanation describes: the column is the source of no foreign key. */
  predicate NotNullViolatedIntended(r: ColumnRow) {
    r.notnull == 0 && r.fkTargetTable.None? && r.isPrimaryKey == 0
  }

  /** `require_not_null` keyed on `fk_target_table is null`, which every foreign-key row has non-NULL. */
  function RequireNotNullIntended(cols: seq<ColumnRow>): seq<QueryRow> {
    Select(cols, NotNullViolatedIntended, ColumnViolation(NotNullMessage))
  }

  /**
   * The intended rule reports exactly the nullable, non-key columns of listed
   * tables that are the source of no foreign-key entry, whatever the entry's `to`.
   */
  lemma RequireNotNullIntendedExemptsForeignKeys(p: Pragmas, tables: seq<TableRow>)
    ensures forall v :: v in RequireNotNullIntended(ColumnsView(p, tables)) <==>
      exists e, c :: Listed(e) in tables && c in p.TableInfo(Some(e.name))
        && c.notnull == 0 && c.pk == 0 && NoForeignKeyFrom(p.ForeignKeyList(e.name), c.name)
        && v == QueryRow(NotNullMessage, Some(e.name), c.name)
  {
    var cols := ColumnsView(p, tables);
    ColumnsViewSound(p, tables);
    ColumnsViewComplete(p, tables);
    forall v | v in RequireNotNullIntended(cols)
      ensures exists e, c ::
        && Listed(e) in tables && c in p.TableInfo(Some(e.name))
        && c.notnull == 0 && c.pk == 0 && NoForeignKeyFrom(p.ForeignKeyList(e.name), c.name)
        && v == QueryRow(NotNullMessage, Some(e.name), c.name)
    {
      var r :| r in cols && NotNullViolatedIntended(r) && v == ColumnViolation(NotNullMessage)(r);
      var e, c :| Listed(e) in tables && c in p.TableInfo(Some(e.name))
        && Copies(r, e.name, c) && TargetsFrom(r, p.ForeignKeyList(e.name), c.name);
      assert NoForeignKeyFrom(p.ForeignKeyList(e.name), c.name);
    }
    forall e, c | Listed(e) in tables && c in p.TableInfo(Some(e.name))
        && c.notnull == 0 && c.pk == 0 && NoForeignKeyFrom(p.ForeignKeyList(e.name), c.name)
      ensures QueryRow(NotNullMessage, Some(e.name), c.name) in RequireNotNullIntended(cols)
    {
      assert NotNullViolatedIntended(ColumnOf(e.name, c, None, None));
    }
  }

  /**
   * On rows whose target table and target column are NULL together, the rule as
   * written and the intended rule agree: they differ only on foreign keys whose
   * reference names no parent column.
   */
  lemma RequireNotNullAgreesOnExplicitTargets(cols: seq<ColumnRow>)
    requires forall r :: r in cols ==> (r.fkTargetTable.None? <==> r.fkTargetColumn.None?)
    ensures RequireNotNull(cols) == RequireNotNullIntended(cols)
  {
    SelectSameCondition(cols, NotNullViolated, NotNullViolatedIntended, ColumnViolation(NotNullMessage));
  }
  // ---------------------------------------------------------------------------
  // require_strict
  // ---------------------------------------------------------------------------

  /** `strict = 0`; on the all-NULL row the comparison is NULL, which is not true. */
  predicate NotStrict(t: TableRow) {
    t.Listed? && t.entry.strict == 0
  }

  function RequireStrict(tables: seq<TableRow>): seq<QueryRow> {
    Select(tables, NotStrict, TableViolation(StrictMessage))
  }

  /** `require_strict` yields one row per table with `strict = 0`, carrying its name and an empty column. */
  lemma RequireStrictReports(tables: seq<TableRow>)
    ensures forall v :: v in RequireStrict(tables) <==>
      exists e :: Listed(e) in tables && e.strict == 0 && v == QueryRow(StrictMessage, Some(e.name), "")
    ensures |RequireStrict(tables)| == |Selected(tables, NotStrict)|
  {
    SelectCount(tables, NotStrict, TableViolation(StrictMessage));
    forall v | v in RequireStrict(tables)
      ensures exists e :: Listed(e) in tables && e.strict == 0 && v == QueryRow(StrictMessage, Some(e.name), "")
    {
      var t :| t in tables && NotStrict(t) && v == TableViolation(StrictMessage)(t);
      assert Listed(t.entry) == t;
    }
    forall v | exists e :: Listed(e) in tables && e.strict == 0 && v == QueryRow(StrictMessage, Some(e.name), "")
      ensures v in RequireStrict(tables)
    {
      var e :| Listed(e) in tables && e.strict == 0 && v == QueryRow(StrictMessage, Some(e.name), "");
      assert NotStrict(Listed(e)) && v == TableViolation(StrictMessage)(Listed(e));
    }
  }

  // ---------------------------------------------------------------------------
  // forbid_int_type
  // ---------------------------------------------------------------------------

  /** SQLite's default case folding for `LIKE`: ASCII letters only. */
  function FoldCase(c: char): char {
    if 'A' <= c <= 'Z' then (c as int + 32) as char else c
  }

  /** `s LIKE pattern` for a pattern without the wildcards `%` and `_`. */
  predicate LikeLiteral(s: string, pattern: string)
    requires '%' !in pattern && '_' !in pattern
  {
    |s| == |pattern| && forall i :: 0 <= i < |s| ==> FoldCase(s[i]) == FoldCase(pattern[i])
  }

  /** `column_type like 'int'`. */
  predicate IntTyped(r: ColumnRow) {
    LikeLiteral(r.columnType, "int")
  }

  function ForbidIntType(cols: seq<ColumnRow>): seq<QueryRow> {
    Select(cols, IntTyped, ColumnViolation(IntTypeMessage))
  }

  /**
   * `like 'int'` accepts exactly the eight spellings of "int" in upper and lower
   * case: "integer", "bigint" or "int " are never reported.
   */
  lemma LikeIntSpellings(t: string)
    ensures LikeLiteral(t, "int") <==>
      t in {"int", "inT", "iNt", "iNT", "Int", "InT", "INt", "INT"}
  {
    if LikeLiteral(t, "int") {
      assert FoldCase(t[0]) == 'i' && FoldCase(t[1]) == 'n' && FoldCase(t[2]) == 't';
      assert t == [t[0], t[1], t[2]];
    }
  }

  /** `forbid_int_type` reports a column row exactly when its declared type is "int" up to ASCII case. */
  lemma ForbidIntTypeReports(cols: seq<ColumnRow>)
    ensures forall v :: v in ForbidIntType(cols) <==>
      exists r :: r in cols && LikeLiteral(r.columnType, "int")
        && v == QueryRow(IntTypeMessage, Some(r.tableName), r.columnName)
    ensures |ForbidIntType(cols)| == |Selected(cols, IntTyped)|
    ensures forall r :: r in cols && r.columnType == "integer" ==> !IntTyped(r)
  {
    SelectCount(cols, IntTyped, ColumnViolation(IntTypeMessage));
  }

  // ---------------------------------------------------------------------------
  // require_explicit_primary_key
  // ---------------------------------------------------------------------------

  /** `not exists (select 1 from pragma_table_info(tables.name) where pk != 0)`. */
  predicate LacksPrimaryKey(p: Pragmas, t: TableRow) {
    forall c :: c in p.TableInfo(t.Name()) ==> c.pk == 0
  }

  function RequireExplicitPrimaryKey(p: Pragmas, tables: seq<TableRow>): seq<QueryRow> {
    Select(tables, t => LacksPrimaryKey(p, t), TableViolation(PrimaryKeyMessage))
  }

  /**
   * `require_explicit_primary_key` yields one row, with an empty column, per
   * table none of whose table_info rows has a nonzero `pk`.
   */
  lemma RequireExplicitPrimaryKeyReports(p: Pragmas, tables: seq<TableRow>)
    ensures forall v :: v in RequireExplicitPrimaryKey(p, tables) <==>
      exists t :: t in tables && (forall c :: c in p.TableInfo(t.Name()) ==> c.pk == 0)
        && v == QueryRow(PrimaryKeyMessage, t.Name(), "")
    ensures |RequireExplicitPrimaryKey(p, tables)| == |Selected(tables, t => LacksPrimaryKey(p, t))|
  {
    SelectCount(tables, t => LacksPrimaryKey(p, t), TableViolation(PrimaryKeyMessage));
  }

  /**
   * Declaring a primary-key column in a table removes its violation: once some
   * table_info row of `name` has a nonzero `pk`, no row names that table.
   */
  lemma PrimaryKeyColumnRemovesViolation(p: Pragmas, name: string, infos: seq<TableInfoRow>, key: TableInfoRow)
    requires key in infos && key.pk != 0
    ensures
      var p' := p.(tableInfo := p.tableInfo[name := infos]);
      && Tables(p') == Tables(p)
      && QueryRow(PrimaryKeyMessage, Some(name), "") !in RequireExplicitPrimaryKey(p', Tables(p'))
  {
    var p' := p.(tableInfo := p.tableInfo[name := infos]);
    var tables := Tables(p');
    forall t | t in tables && TableViolation(PrimaryKeyMessage)(t) == QueryRow(PrimaryKeyMessage, Some(name), "")
      ensures !LacksPrimaryKey(p', t)
    {
      assert t.Name() == Some(name);
      assert p'.TableInfo(t.Name()) == infos;
    }
  }

  // ---------------------------------------------------------------------------
  // require_indexes_for_foreign_keys
  // ---------------------------------------------------------------------------

  /** (table, column) pairs the SQL compares FK targets against; the column is NULL for an indexed expression. */
  type Target = (string, Option<string>)

  /** Every (table, column) pair at any position of any index of a table in the view. */
  function IndexedColumns(p: Pragmas, tables: seq<TableRow>): set<Target> {
    set t, ix, ic | t in tables && t.Listed? && ix in p.IndexList(t.entry.name) && ic in p.IndexInfo(ix.name)
      :: (t.entry.name, ic.name)
  }

  /** (table, "rowid") for each column literally named `rowid` that is a primary-key member. */
  function RowidKeys(cols: seq<ColumnRow>): set<Target> {
    set r | r in cols && r.columnName == "rowid" && r.isPrimaryKey != 0 :: (r.tableName, Some(r.columnName))
  }

  /** The `index_info` union of the query: the targets that count as indexed. */
  function Coverage(p: Pragmas, tables: seq<TableRow>, cols: seq<ColumnRow>): (cov: set<Target>)
    ensures forall table, column :: (table, Some(column)) in cov <==>
      || (exists t, ix, ic :: t in tables && t.Listed? && t.entry.name == table
            && ix in p.IndexList(table) && ic in p.IndexInfo(ix.name) && ic.name == Some(column))
      || (exists r :: r in cols && r.tableName == table && r.columnName == column
            && column == "rowid" && r.isPrimaryKey != 0)
  {
    IndexedColumns(p, tables) + RowidKeys(cols)
  }

  /**
   * A row of `foreign_keys` (`fk_target_column is not null`) that the left join
   * matches to no coverage pair (`index_info.column_name is null`).
   */
  predicate Unindexed(cov: set<Target>, r: ColumnRow) {
    r.fkTargetColumn.Some? && !(r.fkTargetTable.Some? && (r.fkTargetTable.value, r.fkTargetColumn) in cov)
  }

  function RequireIndexesForForeignKeys(p: Pragmas, tables: seq<TableRow>, cols: seq<ColumnRow>): seq<QueryRow> {
    var cov := Coverage(p, tables, cols);
    Select(cols, r => Unindexed(cov, r), ColumnViolation(ForeignKeyMessage))
  }

  /**
   * `require_indexes_for_foreign_keys` yields exactly one row per column row with
   * a target column whose (target table, target column) pair is not covered.
   */
  lemma RequireIndexesReports(p: Pragmas, tables: seq<TableRow>, cols: seq<ColumnRow>)
    ensures
      var cov := Coverage(p, tables, cols);
      && (forall v :: v in RequireIndexesForForeignKeys(p, tables, cols) <==>
            exists r :: r in cols && r.fkTargetColumn.Some?
              && !(r.fkTargetTable.Some? && (r.fkTargetTable.value, r.fkTargetColumn) in cov)
              && v == QueryRow(ForeignKeyMessage, Some(r.tableName), r.columnName))
      && |RequireIndexesForForeignKeys(p, tables, cols)| == |Selected(cols, r => Unindexed(cov, r))|
  {
    var cov := Coverage(p, tables, cols);
    SelectCount(cols, r => Unindexed(cov, r), ColumnViolation(ForeignKeyMessage));
  }

  /**
   * An FK whose target table is not a table of the schema is always reported:
   * no index and no rowid key can cover it.
   */
  lemma MissingTargetTableReported(p: Pragmas, r: ColumnRow)
    requires r in Columns(p) && r.fkTargetColumn.Some? && r.fkTargetTable.Some?
    requires forall t :: t in Tables(p) ==> t.Name() != r.fkTargetTable
    ensures QueryRow(ForeignKeyMessage, Some(r.tableName), r.columnName) in Query(IndexedForeignKeys, p)
  {
    var tables := Tables(p);
    var cov := Coverage(p, tables, ColumnsView(p, tables));
    CoverageNamesTables(p, tables);
    assert (r.fkTargetTable.value, r.fkTargetColumn) !in cov;
    assert Unindexed(cov, r);
  }

  /**
   * Every pair of the coverage set names a table of the `tables` view: the
   * index branch joins `tables`, and the rowid branch reads `columns`, whose
   * rows all belong to tables of the view.
   */
  lemma CoverageNamesTables(p: Pragmas, tables: seq<TableRow>)
    ensures forall x :: x in Coverage(p, tables, ColumnsView(p, tables)) ==>
      exists t :: t in tables && t.Name() == Some(x.0)
  {
    var cols := ColumnsView(p, tables);
    ColumnsViewSound(p, tables);
    forall x | x in Coverage(p, tables, cols) ensures exists t :: t in tables && t.Name() == Some(x.0) {
      if x in IndexedColumns(p, tables) {
        var t, ix, ic :| t in tables && t.Listed? && ix in p.IndexList(t.entry.name)
          && ic in p.IndexInfo(ix.name) && x == (t.entry.name, ic.name);
        assert t.Name() == Some(x.0);
      } else {
        var r :| r in cols && r.columnName == "rowid" && r.isPrimaryKey != 0 && x == (r.tableName, Some(r.columnName));
        var e, c :| Listed(e) in tables && c in p.TableInfo(Some(e.name))
          && Copies(r, e.name, c) && TargetsFrom(r, p.ForeignKeyList(e.name), c.name);
        assert Listed(e).Name() == Some(x.0);
      }
    }
  }

  /**
   * Adding to a table of the schema a new index that contains the target column
   * covers every FK pointing at it, and reports nothing new: the index pragmas
   * feed neither view, and coverage only grows.
   */
  lemma AddingIndexCoversTarget(p: Pragmas, e: TableListEntry, ix: IndexListRow, infos: seq<IndexInfoRow>, column: string)
    requires Listed(e) in Tables(p)
    requires ix.name !in p.indexInfo
    requires exists ic :: ic in infos && ic.name == Some(column)
    ensures
      var p' := p.(indexList := p.indexList[e.name := p.IndexList(e.name) + [ix]],
                   indexInfo := p.indexInfo[ix.name := infos]);
      var cols := Columns(p);
      var before := Coverage(p, Tables(p), cols);
      var after := Coverage(p', Tables(p'), Columns(p'));
      && Tables(p') == Tables(p) && Columns(p') == cols
      && (forall r :: r in cols && Unindexed(after, r) ==> Unindexed(before, r))
      && (forall r :: r in cols && r.fkTargetTable == Some(e.name) && r.fkTargetColumn == Some(column) ==>
            !Unindexed(after, r))
  {
    var p' := p.(indexList := p.indexList[e.name := p.IndexList(e.name) + [ix]],
                 indexInfo := p.indexInfo[ix.name := infos]);
    var tables := Tables(p);
    ColumnsViewIgnoresIndexes(p, p', tables);
    IndexedColumnsGrow(p, e.name, ix, infos, tables);
    var ic :| ic in infos && ic.name == Some(column);
    assert ix in p'.IndexList(e.name);
    assert ic in p'.IndexInfo(ix.name);
    assert (e.name, Some(column)) in IndexedColumns(p', tables);
  }

  /** Adding an index under a fresh name keeps every pair an existing index covers. */
  lemma IndexedColumnsGrow(p: Pragmas, table: string, ix: IndexListRow, infos: seq<IndexInfoRow>, tables: seq<TableRow>)
    requires ix.name !in p.indexInfo
    ensures
      var p' := p.(indexList := p.indexList[table := p.IndexList(table) + [ix]],
                   indexInfo := p.indexInfo[ix.name := infos]);
      IndexedColumns(p, tables) <= IndexedColumns(p', tables)
  {
    var p' := p.(indexList := p.indexList[table := p.IndexList(table) + [ix]],
                 indexInfo := p.indexInfo[ix.name := infos]);
    forall x | x in IndexedColumns(p, tables) ensures x in IndexedColumns(p', tables) {
      var t, ix0, ic :| t in tables && t.Listed? && ix0 in p.IndexList(t.entry.name)
        && ic in p.IndexInfo(ix0.name) && x == (t.entry.name, ic.name);
      assert ix0.name != ix.name;
      assert ix0 in p'.IndexList(t.entry.name);
      assert ic in p'.IndexInfo(ix0.name);
    }
  }

  /** The `columns` view reads neither index pragma. */
  lemma {:induction false} ColumnsViewIgnoresIndexes(p: Pragmas, p': Pragmas, tables: seq<TableRow>)
    requires p'.schema == p.schema && p'.tableList == p.tableList
    requires p'.tableInfo == p.tableInfo && p'.foreignKeyList == p.foreignKeyList
    ensures ColumnsView(p', tables) == ColumnsView(p, tables)
  {
    if tables != [] {
      ColumnsViewIgnoresIndexes(p, p', tables[1..]);
    }
  }

  // ---------------------------------------------------------------------------
  // The registry and Execute
  // ---------------------------------------------------------------------------

  /** The rows a rule's query returns, given the two views. */
  function RuleRows(rule: Rule, p: Pragmas, tables: seq<TableRow>, cols: seq<ColumnRow>): seq<QueryRow> {
    match rule
    case NotNull => RequireNotNull(cols)
    case Strict => RequireStrict(tables)
    case IntType => ForbidIntType(cols)
    case ExplicitPrimaryKey => RequireExplicitPrimaryKey(p, tables)
    case IndexedForeignKeys => RequireIndexesForForeignKeys(p, tables, cols)
  }

  /** The query a rule runs over the catalog of a loaded schema. */
  function Query(rule: Rule, p: Pragmas): seq<QueryRow> {
    RuleRows(rule, p, Tables(p), Columns(p))
  }

  /** A rule's query over a schema whose views are known. */
  lemma QueryOverViews(p: Pragmas, rule: Rule, tables: seq<TableRow>, cols: seq<ColumnRow>)
    requires Tables(p) == tables && Columns(p) == cols
    ensures Query(rule, p) == RuleRows(rule, p, tables, cols)
  {
  }

  /**
   * What a rule's query reads besides the two views: `pragma_table_info` for
   * `require_explicit_primary_key`, the index pragmas for
   * `require_indexes_for_foreign_keys`, nothing for the other three.
   */
  predicate SameRuleInputs(rule: Rule, p: Pragmas, p': Pragmas) {
    && Tables(p') == Tables(p) && Columns(p') == Columns(p)
    && (rule == ExplicitPrimaryKey ==> p'.tableInfo == p.tableInfo)
    && (rule == IndexedForeignKeys ==> p'.indexList == p.indexList && p'.indexInfo == p.indexInfo)
  }

  /** Two schemas that agree on what a rule reads get the same rows from its query. */
  lemma QueryFrame(rule: Rule, p: Pragmas, p': Pragmas)
    requires SameRuleInputs(rule, p, p')
    ensures Query(rule, p') == Query(rule, p)
  {
    var tables, cols := Tables(p), Columns(p);
    match rule
    case ExplicitPrimaryKey =>
      forall t | t in tables ensures LacksPrimaryKey(p', t) == LacksPrimaryKey(p, t) {
        assert p'.TableInfo(t.Name()) == p.TableInfo(t.Name());
      }
      SelectSameCondition(tables, t => LacksPrimaryKey(p', t), t => LacksPrimaryKey(p, t), TableViolation(PrimaryKeyMessage));
    case IndexedForeignKeys =>
      assert IndexedColumns(p', tables) == IndexedColumns(p, tables) by {
        assert forall t :: p'.IndexList(t) == p.IndexList(t);
        assert forall i :: p'.IndexInfo(i) == p.IndexInfo(i);
      }
    case _ =>
  }

  /** A query is unchanged when its condition is replaced by one that agrees on every row. */
  lemma {:induction false} SelectSameCondition<R>(from: seq<R>, w: R -> bool, w': R -> bool, project: R -> QueryRow)
    requires forall r :: r in from ==> w(r) == w'(r)
    ensures Select(from, w, project) == Select(from, w', project)
  {
    if from != [] {
      SelectSameCondition(from[..|from| - 1], w, w', project);
    }
  }

  const NotNullCheck := Check("require_not_null", NotNull,
    "All columns should be marked as `not null` unless they are foreign keys.  (Primary keys are\n"
    + "automatically not-null, and don't need to be specified.)")
  const StrictCheck := Check("require_strict", Strict,
    "All tables should be marked as `strict` (must specify column types; types must be int,\n"
    + "integer, real, text, blob or any).  This disallows all 'date' and 'time' column types.\n"
    + "See more: https://www.sqlite.org/stricttables.html")
  const IntTypeCheck := Check("forbid_int_type", IntType,
    "All columns should use `integer` type instead of `int`.")
  const PrimaryKeyCheck := Check("require_explicit_primary_key", ExplicitPrimaryKey,
    "All tables must have a primary key.  If it's rowid, it has to be named explicitly.")
  const ForeignKeyCheck := Check("require_indexes_for_foreign_keys", IndexedForeignKeys,
    "Columns referenced by foreign keys must have indexes.")

  /** The registry of checks by name. */
  const Checks: map<string, Check> := map[
    "require_not_null" := NotNullCheck,
    "require_strict" := StrictCheck,
    "forbid_int_type" := IntTypeCheck,
    "require_explicit_primary_key" := PrimaryKeyCheck,
    "require_indexes_for_foreign_keys" := ForeignKeyCheck
  ]

  /**
   * The registry holds five checks, one per rule, each under its own name.
   */
  lemma RegistryShape()
    ensures Checks.Keys == {"require_not_null", "require_strict", "forbid_int_type",
                            "require_explicit_primary_key", "require_indexes_for_foreign_keys"}
    ensures |Checks| == 5
    ensures forall k :: k in Checks ==> Checks[k].name == k
    ensures (set k | k in Checks :: Checks[k].rule) == {NotNull, Strict, IntType, ExplicitPrimaryKey, IndexedForeignKeys}
  {
    assert Checks["require_not_null"].rule == NotNull;
    assert Checks["require_strict"].rule == Strict;
    assert Checks["forbid_int_type"].rule == IntType;
    assert Checks["require_explicit_primary_key"].rule == ExplicitPrimaryKey;
    assert Checks["require_indexes_for_foreign_keys"].rule == IndexedForeignKeys;
  }

  /** What the database driver reports when a NULL is scanned into the Go string `TableName`. */
  const NullTableNameError := "sql: Scan error on column index 1, name \"table_name\": converting NULL to string is unsupported"

  /** Scanning query rows into `CheckResult`s: a NULL `table_name` is a scan error. */
  function ScanRows(rows: seq<QueryRow>): (r: Result<seq<CheckResult>, string>)
    ensures r.Failure? <==> exists i :: 0 <= i < |rows| && rows[i].tableName.None?
    ensures r.Failure? ==> r.error == NullTableNameError
    ensures r.Success? ==> |r.value| == |rows| && forall i :: 0 <= i < |rows| ==>
      r.value[i] == CheckResult(rows[i].errorMsg, rows[i].tableName.value, rows[i].columnName)
  {
    if rows == [] then Success([])
    else if rows[0].tableName.None? then Failure(NullTableNameError)
    else
      match ScanRows(rows[1..])
      case Failure(e) => Failure(e)
      case Success(rest) => Success([CheckResult(rows[0].errorMsg, rows[0].tableName.value, rows[0].columnName)] + rest)
  }

  /** The prefix of the error `Execute` returns, naming the check. */
  function ExecuteErrorPrefix(name: string): string {
    "failed to execute check '" + name + "': "
  }

  /**
   * `Check.Execute`: either every row of the query, scanned, and no error; or no
   * rows and an error naming the check, exactly when the engine fails to run the
   * query or some row cannot be scanned. An engine error is wrapped as it is.
   */
  function Execute(c: Check, p: Pragmas): (r: Result<seq<CheckResult>, string>)
    ensures r.Failure? <==>
      c.name in p.queryErrors || exists row :: row in Query(c.rule, p) && row.tableName.None?
    ensures r.Failure? ==> ExecuteErrorPrefix(c.name) <= r.error
    ensures c.name in p.queryErrors ==> r == Failure(ExecuteErrorPrefix(c.name) + p.queryErrors[c.name])
    ensures r.Success? ==>
      var rows := Query(c.rule, p);
      |r.value| == |rows| && forall i :: 0 <= i < |rows| ==>
        r.value[i] == CheckResult(rows[i].errorMsg, rows[i].tableName.value, rows[i].columnName)
  {
    if c.name in p.queryErrors then Failure(ExecuteErrorPrefix(c.name) + p.queryErrors[c.name])
    else
      match ScanRows(Query(c.rule, p))
      case Failure(e) => Failure(ExecuteErrorPrefix(c.name) + e)
      case Success(results) => Success(results)
  }

  /**
   * Execute fails for two reasons only: the engine fails to run the query, or
   * the query is `require_explicit_primary_key` and reports, with a NULL name,
   * the all-NULL `tables` row of a 'table' entry missing from table_list. No
   * other check's rows can fail to scan.
   */
  lemma ExecuteFailure(c: Check, p: Pragmas)
    ensures Execute(c, p).Failure? <==>
      c.name in p.queryErrors || (c.rule == ExplicitPrimaryKey && HasUnlistedTable(p.schema, p.tableList))
  {
    var tables := Tables(p);
    var cols := ColumnsView(p, tables);
    TablesViewMembers(p.schema, p.tableList);
    var rows := Query(c.rule, p);
    match c.rule
    case ExplicitPrimaryKey =>
      if HasUnlistedTable(p.schema, p.tableList) {
        assert Unmatched in tables;
        assert TableViolation(PrimaryKeyMessage)(Unmatched) in rows;
      } else {
        forall v | v in rows ensures v.tableName.Some? {
          var t :| t in tables && LacksPrimaryKey(p, t) && v == TableViolation(PrimaryKeyMessage)(t);
          assert t != Unmatched;
        }
      }
    case Strict =>
      forall v | v in rows ensures v.tableName.Some? {
        var t :| t in tables && NotStrict(t) && v == TableViolation(StrictMessage)(t);
      }
    case _ =>
  }

  // ---------------------------------------------------------------------------
  // Schemas that pass
  // ---------------------------------------------------------------------------

  /** No rule's query returns a row. */
  predicate PassesEveryRule(p: Pragmas) {
    && Query(NotNull, p) == [] && Query(Strict, p) == [] && Query(IntType, p) == []
    && Query(ExplicitPrimaryKey, p) == [] && Query(IndexedForeignKeys, p) == []
  }

  /** No rule returns a row over the given views. */
  predicate NoRuleRows(p: Pragmas, tables: seq<TableRow>, cols: seq<ColumnRow>) {
    && RuleRows(NotNull, p, tables, cols) == [] && RuleRows(Strict, p, tables, cols) == []
    && RuleRows(IntType, p, tables, cols) == [] && RuleRows(ExplicitPrimaryKey, p, tables, cols) == []
    && RuleRows(IndexedForeignKeys, p, tables, cols) == []
  }

  /**
   * Views with no flaw any rule looks for: every table is strict and has a
   * primary-key column; every column is not null, a key member or has a target
   * column; no column is typed `int`; and every target column is covered.
   */
  ghost predicate CleanViews(p: Pragmas, tables: seq<TableRow>, cols: seq<ColumnRow>) {
    && (forall e :: Listed(e) in tables ==> e.strict != 0)
    && (forall e :: Listed(e) in tables ==> exists c :: c in p.TableInfo(Some(e.name)) && c.pk != 0)
    && (forall r :: r in cols ==> r.notnull != 0 || r.isPrimaryKey != 0 || r.fkTargetColumn.Some?)
    && (forall r :: r in cols ==> !LikeLiteral(r.columnType, "int"))
    && (forall r :: r in cols && r.fkTargetColumn.Some? ==>
          r.fkTargetTable.Some? && (r.fkTargetTable.value, r.fkTargetColumn) in Coverage(p, tables, cols))
  }

  /** A schema whose 'table' entries are all listed and whose views are clean. */
  ghost predicate IsCleanSchema(p: Pragmas) {
    !HasUnlistedTable(p.schema, p.tableList) && CleanViews(p, Tables(p), Columns(p))
  }

  /** Every rule passes on a schema exactly when the schema has none of the flaws they look for. */
  lemma PassesEveryRuleIffClean(p: Pragmas)
    ensures PassesEveryRule(p) <==> IsCleanSchema(p)
  {
    var tables, cols := Tables(p), Columns(p);
    TablesViewMembers(p.schema, p.tableList);
    RulesPassOver(p, tables, cols);
    assert PassesEveryRule(p) <==> NoRuleRows(p, tables, cols);
  }

  /** Over any views, no rule returns a row exactly when there is no all-NULL row and the views are clean. */
  lemma RulesPassOver(p: Pragmas, tables: seq<TableRow>, cols: seq<ColumnRow>)
    ensures NoRuleRows(p, tables, cols) <==> Unmatched !in tables && CleanViews(p, tables, cols)
  {
    StrictPasses(tables);
    PrimaryKeyPassesOver(p, tables);
  }

  /** `require_strict` has no row exactly when every listed table is strict. */
  lemma StrictPasses(tables: seq<TableRow>)
    ensures RequireStrict(tables) == [] <==> forall e :: Listed(e) in tables ==> e.strict != 0
  {
    if forall e :: Listed(e) in tables ==> e.strict != 0 {
      forall t | t in tables ensures !NotStrict(t) {
        if t.Listed? {
          assert Listed(t.entry) == t;
        }
      }
    }
  }

  /** Over any `tables` rows: the all-NULL row always lacks a key, a listed table lacks one unless it has a `pk` column. */
  lemma PrimaryKeyPassesOver(p: Pragmas, tables: seq<TableRow>)
    ensures RequireExplicitPrimaryKey(p, tables) == [] <==>
      && Unmatched !in tables
      && forall e :: Listed(e) in tables ==> exists c :: c in p.TableInfo(Some(e.name)) && c.pk != 0
  {
    assert LacksPrimaryKey(p, Unmatched);
    if forall e :: Listed(e) in tables ==> exists c :: c in p.TableInfo(Some(e.name)) && c.pk != 0 {
      forall t | t in tables && t.Listed? ensures !LacksPrimaryKey(p, t) {
        assert Listed(t.entry) == t;
      }
    }
  }
}
