/**
 * Small concrete schemas in the spirit of the per-schema expectations of the
 * rule tests: which checks report a row for each.
 */
module Scenarios {
  import opened Wrappers
  import opened Catalog
  import opened Checks
  import opened Lint

  const IntsTable := TableListEntry("main", "t", "table", 2, 0, 1)
  const IdColumn := TableInfoRow(0, "id", "integer", 0, None, 1)
  const IntColumn := TableInfoRow(1, "n", "int", 1, None, 0)

  /**
   * `create table t (id integer primary key, n int not null) strict`, whose
   * queries the engine runs; the index pragmas are left open.
   */
  predicate IsIntsSchema(p: Pragmas) {
    && p.schema == [SchemaEntry("table", "t")]
    && p.tableList == [IntsTable]
    && p.tableInfo == map["t" := [IdColumn, IntColumn]]
    && p.foreignKeyList == map[]
    && p.queryErrors == map[]
  }

  /** The `columns` rows of that schema. */
  const IntsColumns := [ColumnOf("t", IdColumn, None, None), ColumnOf("t", IntColumn, None, None)]

  /** The two views of that schema: one table row and one row per column. */
  lemma IntsSchemaViews(p: Pragmas)
    requires IsIntsSchema(p)
    ensures Tables(p) == [Listed(IntsTable)]
    ensures Columns(p) == IntsColumns
  {
    var schema := p.schema;
    assert ListedAs([IntsTable], "t") == [IntsTable];
    assert AsRows([IntsTable]) == [Listed(IntsTable)] + AsRows([IntsTable][1..]);
    assert JoinEntry(schema[0], [IntsTable]) == [Listed(IntsTable)];
    assert schema[1..] == [];
    assert TablesView(schema, [IntsTable]) == JoinEntry(schema[0], [IntsTable]) + TablesView(schema[1..], [IntsTable]);
    PlainTableColumns("t", IdColumn, IntColumn);
    assert p.TableInfo(Some("t")) == [IdColumn, IntColumn] && p.ForeignKeyList("t") == [];
    var tables := [Listed(IntsTable)];
    assert tables[1..] == [];
    assert TableColumns(p, Listed(IntsTable)) == IntsColumns;
    assert ColumnsView(p, tables) == TableColumns(p, Listed(IntsTable)) + ColumnsView(p, tables[1..]);
  }

  /** The five rules over those views: only `forbid_int_type` has a row. */
  lemma IntsRows(p: Pragmas)
    requires IdColumn in p.TableInfo(Some("t"))
    ensures RuleRows(IntType, p, [Listed(IntsTable)], IntsColumns) == [QueryRow(IntTypeMessage, Some("t"), "n")]
    ensures RuleRows(NotNull, p, [Listed(IntsTable)], IntsColumns) == []
    ensures RuleRows(Strict, p, [Listed(IntsTable)], IntsColumns) == []
    ensures RuleRows(ExplicitPrimaryKey, p, [Listed(IntsTable)], IntsColumns) == []
    ensures RuleRows(IndexedForeignKeys, p, [Listed(IntsTable)], IntsColumns) == []
  {
    var cols := IntsColumns;
    assert cols[..1] == [cols[0]] && cols[..1][..0] == [];
    assert !IntTyped(cols[0]) by { assert !LikeLiteral("integer", "int"); }
    assert IntTyped(cols[1]);
  }

  /** Only `forbid_int_type` reports on a strict table whose one flaw is an `int` column. */
  lemma IntsSchemaFailsOnlyIntType(p: Pragmas)
    requires IsIntsSchema(p)
    ensures Query(IntType, p) == [QueryRow(IntTypeMessage, Some("t"), "n")]
    ensures Query(NotNull, p) == [] && Query(Strict, p) == []
    ensures Query(ExplicitPrimaryKey, p) == [] && Query(IndexedForeignKeys, p) == []
  {
    IntsSchemaViews(p);
    assert IdColumn in p.TableInfo(Some("t"));
    IntsQueries(p);
  }

  /** The queries over the views of that schema. */
  lemma IntsQueries(p: Pragmas)
    requires Tables(p) == [Listed(IntsTable)] && Columns(p) == IntsColumns
    requires IdColumn in p.TableInfo(Some("t"))
    ensures Query(IntType, p) == [QueryRow(IntTypeMessage, Some("t"), "n")]
    ensures Query(NotNull, p) == [] && Query(Strict, p) == []
    ensures Query(ExplicitPrimaryKey, p) == [] && Query(IndexedForeignKeys, p) == []
  {
    IntsRows(p);
    QueryOverViews(p, IntType, [Listed(IntsTable)], IntsColumns);
    QueryOverViews(p, NotNull, [Listed(IntsTable)], IntsColumns);
    QueryOverViews(p, Strict, [Listed(IntsTable)], IntsColumns);
    QueryOverViews(p, ExplicitPrimaryKey, [Listed(IntsTable)], IntsColumns);
    QueryOverViews(p, IndexedForeignKeys, [Listed(IntsTable)], IntsColumns);
  }

  /**
   * Run over that schema with the `forbid_int_type` variable unset, the linter
   * fails; with that variable set to "false" it passes.
   */
  lemma IntsSchemaVerdict(p: Pragmas, env: map<string, string>)
    requires IsIntsSchema(p)
    requires GithubActionsInputEnvVar("forbid_int_type") !in env
    ensures RunFails(p, env) && !RunAborts(p, env)
    ensures !RunFails(p, env[GithubActionsInputEnvVar("forbid_int_type") := "false"])
  {
    IntsSchemaRunFails(p, env);
    IntsSchemaListed(p);
    VerdictOnListedSchema(p, env);
    IntsSchemaPassesWhenOff(p, env);
  }

  /** With its variable unset, `forbid_int_type` is enabled and reports. */
  lemma IntsSchemaRunFails(p: Pragmas, env: map<string, string>)
    requires IsIntsSchema(p)
    requires GithubActionsInputEnvVar("forbid_int_type") !in env
    ensures RunFails(p, env)
  {
    IntsSchemaFailsOnlyIntType(p);
    IntTypeReports(p, env);
    assert Checks.Checks["forbid_int_type"] == IntTypeCheck;
  }

  /** The one 'table' entry has its table_list row. */
  lemma IntsSchemaListed(p: Pragmas)
    requires IsIntsSchema(p)
    ensures !HasUnlistedTable(p.schema, p.tableList)
  {
    assert IntsTable in p.tableList;
  }

  /** With `forbid_int_type` off, no enabled check reports. */
  lemma IntsSchemaPassesWhenOff(p: Pragmas, env: map<string, string>)
    requires IsIntsSchema(p)
    ensures !RunFails(p, env[GithubActionsInputEnvVar("forbid_int_type") := "false"])
  {
    var off := env[GithubActionsInputEnvVar("forbid_int_type") := "false"];
    forall k | k in Checks.Checks ensures !Reports(Checks.Checks[k], p, off) {
      IntsSchemaQuietWhenOff(p, env, k);
    }
  }

  /** An enabled `forbid_int_type` whose query has a row reports it. */
  lemma IntTypeReports(p: Pragmas, env: map<string, string>)
    requires Query(IntType, p) == [QueryRow(IntTypeMessage, Some("t"), "n")] && "forbid_int_type" !in p.queryErrors
    requires GithubActionsInputEnvVar("forbid_int_type") !in env
    ensures Reports(IntTypeCheck, p, env)
  {
    assert Execute(IntTypeCheck, p).Success?;
  }

  /** Every registered check is either `forbid_int_type`, now off, or has no row. */
  lemma IntsSchemaQuietWhenOff(p: Pragmas, env: map<string, string>, k: string)
    requires IsIntsSchema(p) && k in Checks.Checks
    ensures !Reports(Checks.Checks[k], p, env[GithubActionsInputEnvVar("forbid_int_type") := "false"])
  {
    var c := Checks.Checks[k];
    if c.rule == IntType {
      assert c == IntTypeCheck;
    } else {
      IntsSchemaFailsOnlyIntType(p);
      assert Query(c.rule, p) == [];
    }
  }

  const Parent := TableListEntry("main", "p", "table", 2, 0, 1)
  const Child := TableListEntry("main", "c", "table", 2, 0, 1)
  const ParentId := TableInfoRow(0, "id", "integer", 0, None, 1)
  const ParentCode := TableInfoRow(1, "code", "text", 1, None, 0)
  const ChildRef := TableInfoRow(1, "ref", "integer", 1, None, 0)
  const RefToCode := ForeignKeyRow(0, 0, "p", "ref", Some("code"), "NO ACTION", "NO ACTION", "NONE")

  /**
   * `create table p (id integer primary key, code text not null) strict` and
   * `create table c (id integer primary key, ref integer not null references p(code)) strict`;
   * the index pragmas are left open.
   */
  predicate IsForeignKeySchema(p: Pragmas) {
    && p.schema == [SchemaEntry("table", "p"), SchemaEntry("table", "c")]
    && p.tableList == [Parent, Child]
    && p.tableInfo == map["p" := [ParentId, ParentCode], "c" := [ParentId, ChildRef]]
    && p.foreignKeyList == map["c" := [RefToCode]]
  }

  /** The `tables` rows of that schema: both tables, in schema order. */
  lemma ForeignKeySchemaTables(p: Pragmas)
    requires p.schema == [SchemaEntry("table", "p"), SchemaEntry("table", "c")] && p.tableList == [Parent, Child]
    ensures Tables(p) == [Listed(Parent), Listed(Child)]
  {
    var schema, list := p.schema, p.tableList;
    assert ListedAs(list, "p") == [Parent] by { assert list[1..] == [Child]; }
    assert ListedAs(list, "c") == [Child] by { assert list[1..] == [Child]; }
    assert AsRows([Parent]) == [Listed(Parent)] + AsRows([Parent][1..]);
    assert AsRows([Child]) == [Listed(Child)] + AsRows([Child][1..]);
    assert schema[1..] == [SchemaEntry("table", "c")] && schema[1..][1..] == [];
    assert TablesView(schema[1..], list) == JoinEntry(schema[1], list) + TablesView(schema[1..][1..], list);
  }

  /** The rows of a two-column table without foreign keys. */
  lemma PlainTableColumns(table: string, a: TableInfoRow, b: TableInfoRow)
    ensures JoinTable(table, [a, b], []) == [ColumnOf(table, a, None, None), ColumnOf(table, b, None, None)]
  {
    assert [a, b][1..] == [b];
    assert JoinColumn(table, a, []) == [ColumnOf(table, a, None, None)];
    assert JoinColumn(table, b, []) == [ColumnOf(table, b, None, None)];
    assert JoinTable(table, [b], []) == [ColumnOf(table, b, None, None)];
  }

  /** The rows of `c`: `ref` carries the target (p, code). */
  lemma ChildColumns()
    ensures JoinTable("c", [ParentId, ChildRef], [RefToCode]) ==
      [ColumnOf("c", ParentId, None, None), ColumnOf("c", ChildRef, Some("p"), Some("code"))]
  {
    var fks := [RefToCode];
    assert fks[1..] == [];
    assert ForeignKeysFrom(fks, "id") == [];
    assert ForeignKeysFrom(fks, "ref") == [RefToCode];
    assert [ParentId, ChildRef][1..] == [ChildRef];
    assert JoinColumn("c", ChildRef, fks) == [ColumnOf("c", ChildRef, Some("p"), Some("code"))];
    assert JoinTable("c", [ChildRef], fks) == [ColumnOf("c", ChildRef, Some("p"), Some("code"))];
  }

  /** The `columns` rows of the two-table schema. */
  const ForeignKeyColumns := [ColumnOf("p", ParentId, None, None), ColumnOf("p", ParentCode, None, None),
                              ColumnOf("c", ParentId, None, None), ColumnOf("c", ChildRef, Some("p"), Some("code"))]

  /** The views of that schema, whatever its indexes: `c.ref` is the one row with a target. */
  lemma ForeignKeySchemaColumns(p: Pragmas)
    requires IsForeignKeySchema(p)
    ensures Tables(p) == [Listed(Parent), Listed(Child)]
    ensures Columns(p) == ForeignKeyColumns
  {
    ForeignKeySchemaTables(p);
    ForeignKeyTableColumns(p);
    TwoTableColumns(p, Listed(Parent), Listed(Child));
  }

  /** The rows each table of the schema contributes. */
  lemma ForeignKeyTableColumns(p: Pragmas)
    requires IsForeignKeySchema(p)
    ensures TableColumns(p, Listed(Parent)) == [ColumnOf("p", ParentId, None, None), ColumnOf("p", ParentCode, None, None)]
    ensures TableColumns(p, Listed(Child)) == [ColumnOf("c", ParentId, None, None), ColumnOf("c", ChildRef, Some("p"), Some("code"))]
  {
    PlainTableColumns("p", ParentId, ParentCode);
    ChildColumns();
    assert p.TableInfo(Some("p")) == [ParentId, ParentCode] && p.ForeignKeyList("p") == [];
    assert p.TableInfo(Some("c")) == [ParentId, ChildRef] && p.ForeignKeyList("c") == [RefToCode];
  }

  /** The `columns` rows over two `tables` rows are those of the first, then those of the second. */
  lemma TwoTableColumns(p: Pragmas, a: TableRow, b: TableRow)
    ensures ColumnsView(p, [a, b]) == TableColumns(p, a) + TableColumns(p, b)
  {
    var tables := [a, b];
    assert tables[1..] == [b] && tables[1..][1..] == [];
    assert ColumnsView(p, tables[1..]) == TableColumns(p, b) + ColumnsView(p, tables[1..][1..]);
  }

  /** Whatever its indexes, the schema satisfies the four other checks. */
  lemma ForeignKeySchemaOtherChecksPass(p: Pragmas)
    requires IsForeignKeySchema(p)
    ensures Query(NotNull, p) == [] && Query(Strict, p) == [] && Query(IntType, p) == []
    ensures Query(ExplicitPrimaryKey, p) == []
  {
    var tables, cols := [Listed(Parent), Listed(Child)], ForeignKeyColumns;
    ForeignKeySchemaColumns(p);
    assert ParentId in p.TableInfo(Some("p")) && ParentId in p.TableInfo(Some("c"));
    ForeignKeyRulesPass(p);
    QueryOverViews(p, NotNull, tables, cols);
    QueryOverViews(p, Strict, tables, cols);
    QueryOverViews(p, IntType, tables, cols);
    QueryOverViews(p, ExplicitPrimaryKey, tables, cols);
  }

  /** No column row is nullable or `int`, and both tables are strict and have a key. */
  lemma ForeignKeyRulesPass(p: Pragmas)
    requires ParentId in p.TableInfo(Some("p")) && ParentId in p.TableInfo(Some("c"))
    ensures
      var tables, cols := [Listed(Parent), Listed(Child)], ForeignKeyColumns;
      && RuleRows(NotNull, p, tables, cols) == [] && RuleRows(Strict, p, tables, cols) == []
      && RuleRows(IntType, p, tables, cols) == [] && RuleRows(ExplicitPrimaryKey, p, tables, cols) == []
  {
  }

  /** With no index on any table, `require_indexes_for_foreign_keys` reports `c.ref` alone. */
  lemma UnindexedTargetReported(p: Pragmas)
    requires IsForeignKeySchema(p) && p.indexList == map[]
    ensures Query(IndexedForeignKeys, p) == [QueryRow(ForeignKeyMessage, Some("c"), "ref")]
  {
    ForeignKeySchemaColumns(p);
    QueryOverViews(p, IndexedForeignKeys, [Listed(Parent), Listed(Child)], ForeignKeyColumns);
    UnindexedTargetRule(p);
  }

  /** An index on `p` one of whose columns is `code` leaves the rule nothing to report. */
  lemma IndexedTargetPasses(p: Pragmas, ix: IndexListRow, ic: IndexInfoRow)
    requires IsForeignKeySchema(p)
    requires ix in p.IndexList("p") && ic in p.IndexInfo(ix.name) && ic.name == Some("code")
    ensures Query(IndexedForeignKeys, p) == []
  {
    ForeignKeySchemaColumns(p);
    QueryOverViews(p, IndexedForeignKeys, [Listed(Parent), Listed(Child)], ForeignKeyColumns);
    IndexedTargetRule(p, ix, ic);
  }

  /** Without indexes the rule's one row is the violation of `c.ref`. */
  lemma UnindexedTargetRule(p: Pragmas)
    requires p.indexList == map[]
    ensures RuleRows(IndexedForeignKeys, p, [Listed(Parent), Listed(Child)], ForeignKeyColumns) ==
      [QueryRow(ForeignKeyMessage, Some("c"), "ref")]
  {
    var cols := ForeignKeyColumns;
    NothingCoveredWithoutIndexes(p);
    var cov := Coverage(p, [Listed(Parent), Listed(Child)], cols);
    var where := r => Unindexed(cov, r);
    var project := ColumnViolation(ForeignKeyMessage);
    assert Select(cols[..3], where, project) == [];
    assert Select(cols, where, project) == Select(cols[..3], where, project) + [project(cols[3])];
  }

  /** With `code` indexed the rule has no row. */
  lemma IndexedTargetRule(p: Pragmas, ix: IndexListRow, ic: IndexInfoRow)
    requires ix in p.IndexList("p") && ic in p.IndexInfo(ix.name) && ic.name == Some("code")
    ensures RuleRows(IndexedForeignKeys, p, [Listed(Parent), Listed(Child)], ForeignKeyColumns) == []
  {
    var tables, cols := [Listed(Parent), Listed(Child)], ForeignKeyColumns;
    CodeIndexed(p, ix, ic);
    CoveredTargetPasses(Coverage(p, tables, cols));
    ForeignKeyRuleRows(p, tables, cols);
  }

  /** The foreign-key rule's rows over given views, with its coverage set named. */
  lemma ForeignKeyRuleRows(p: Pragmas, tables: seq<TableRow>, cols: seq<ColumnRow>)
    ensures RuleRows(IndexedForeignKeys, p, tables, cols) ==
      Select(cols, r => Unindexed(Coverage(p, tables, cols), r), ColumnViolation(ForeignKeyMessage))
  {
  }

  /** Once (p, code) is covered, no row of the schema is reported by the foreign-key rule. */
  lemma CoveredTargetPasses(cov: set<Target>)
    requires ("p", Some("code")) in cov
    ensures Select(ForeignKeyColumns, r => Unindexed(cov, r), ColumnViolation(ForeignKeyMessage)) == []
  {
    var cols := ForeignKeyColumns;
    assert !Unindexed(cov, cols[3]);
    NoTargetsIndexed(cov, cols[..3]);
    assert cols == cols[..3] + [cols[3]];
  }

  /** Without indexes nothing is covered: no index exists and no column is named `rowid`. */
  lemma NothingCoveredWithoutIndexes(p: Pragmas)
    requires p.indexList == map[]
    ensures Coverage(p, [Listed(Parent), Listed(Child)], ForeignKeyColumns) == {}
  {
    assert IndexedColumns(p, [Listed(Parent), Listed(Child)]) == {};
    assert RowidKeys(ForeignKeyColumns) == {};
  }

  /** Rows without a target column are never reported by the foreign-key rule. */
  lemma NoTargetsIndexed(cov: set<Target>, rows: seq<ColumnRow>)
    requires forall r :: r in rows ==> r.fkTargetColumn == None
    ensures Select(rows, r => Unindexed(cov, r), ColumnViolation(ForeignKeyMessage)) == []
  {
  }

  /** An index on `p` over `code` puts (p, code) among the indexed pairs. */
  lemma CodeIndexed(p: Pragmas, ix: IndexListRow, ic: IndexInfoRow)
    requires ix in p.IndexList("p") && ic in p.IndexInfo(ix.name) && ic.name == Some("code")
    ensures ("p", Some("code")) in IndexedColumns(p, [Listed(Parent), Listed(Child)])
  {
    var t := Listed(Parent);
    assert t in [Listed(Parent), Listed(Child)] && t.Listed? && t.entry.name == "p";
  }

  const Loose := TableListEntry("main", "t", "table", 2, 0, 0)
  const LooseInt := TableInfoRow(0, "n", "int", 0, None, 0)
  const LooseRef := TableInfoRow(1, "r", "integer", 1, None, 0)
  const RefToInt := ForeignKeyRow(0, 0, "t", "r", Some("n"), "NO ACTION", "NO ACTION", "NONE")

  /**
   * `create table t (n int, r integer not null references t(n))`: not strict,
   * no primary key, a nullable `int` column, and a foreign key to it with no
   * index; the engine runs every query.
   */
  predicate IsTotalFailureSchema(p: Pragmas) {
    && p.schema == [SchemaEntry("table", "t")]
    && p.tableList == [Loose]
    && p.tableInfo == map["t" := [LooseInt, LooseRef]]
    && p.foreignKeyList == map["t" := [RefToInt]]
    && p.indexList == map[]
    && p.queryErrors == map[]
  }

  /** The `columns` rows of that schema: `r` carries the target (t, n). */
  const LooseColumns := [ColumnOf("t", LooseInt, None, None), ColumnOf("t", LooseRef, Some("t"), Some("n"))]

  /** The two views of that schema. */
  lemma TotalFailureViews(p: Pragmas)
    requires IsTotalFailureSchema(p)
    ensures Tables(p) == [Listed(Loose)]
    ensures Columns(p) == LooseColumns
  {
    var schema := p.schema;
    assert ListedAs([Loose], "t") == [Loose];
    assert AsRows([Loose]) == [Listed(Loose)] + AsRows([Loose][1..]);
    assert JoinEntry(schema[0], [Loose]) == [Listed(Loose)];
    assert schema[1..] == [];
    assert TablesView(schema, [Loose]) == JoinEntry(schema[0], [Loose]) + TablesView(schema[1..], [Loose]);
    LooseColumnsJoined();
    assert p.TableInfo(Some("t")) == [LooseInt, LooseRef] && p.ForeignKeyList("t") == [RefToInt];
    var tables := [Listed(Loose)];
    assert tables[1..] == [];
    assert ColumnsView(p, tables) == TableColumns(p, Listed(Loose)) + ColumnsView(p, tables[1..]);
  }

  /** The join of `t`'s columns with its one foreign key. */
  lemma LooseColumnsJoined()
    ensures JoinTable("t", [LooseInt, LooseRef], [RefToInt]) == LooseColumns
  {
    var fks := [RefToInt];
    assert fks[1..] == [];
    assert ForeignKeysFrom(fks, "n") == [];
    assert ForeignKeysFrom(fks, "r") == [RefToInt];
    assert [LooseInt, LooseRef][1..] == [LooseRef];
    assert JoinColumn("t", LooseRef, fks) == [ColumnOf("t", LooseRef, Some("t"), Some("n"))];
    assert JoinTable("t", [LooseRef], fks) == [ColumnOf("t", LooseRef, Some("t"), Some("n"))];
  }

  /** Each rule reports exactly one row on that schema, the flaw it looks for. */
  lemma TotalFailureQueries(p: Pragmas)
    requires IsTotalFailureSchema(p)
    ensures Query(NotNull, p) == [QueryRow(NotNullMessage, Some("t"), "n")]
    ensures Query(Strict, p) == [QueryRow(StrictMessage, Some("t"), "")]
    ensures Query(IntType, p) == [QueryRow(IntTypeMessage, Some("t"), "n")]
    ensures Query(ExplicitPrimaryKey, p) == [QueryRow(PrimaryKeyMessage, Some("t"), "")]
    ensures Query(IndexedForeignKeys, p) == [QueryRow(ForeignKeyMessage, Some("t"), "r")]
  {
    var tables, cols := [Listed(Loose)], LooseColumns;
    TotalFailureViews(p);
    assert p.TableInfo(Some("t")) == [LooseInt, LooseRef];
    LooseColumnRules();
    LooseTableRules(p);
    LooseForeignKeyRule(p);
    QueryOverViews(p, NotNull, tables, cols);
    QueryOverViews(p, Strict, tables, cols);
    QueryOverViews(p, IntType, tables, cols);
    QueryOverViews(p, ExplicitPrimaryKey, tables, cols);
    QueryOverViews(p, IndexedForeignKeys, tables, cols);
  }

  /** `n` is nullable and `int`; `r` is neither. */
  lemma LooseColumnRules()
    ensures RequireNotNull(LooseColumns) == [QueryRow(NotNullMessage, Some("t"), "n")]
    ensures ForbidIntType(LooseColumns) == [QueryRow(IntTypeMessage, Some("t"), "n")]
  {
    var cols := LooseColumns;
    assert cols[..1] == [cols[0]] && cols[..1][..0] == [];
    assert NotNullViolated(cols[0]) && !NotNullViolated(cols[1]);
    assert Select(cols[..1], NotNullViolated, ColumnViolation(NotNullMessage)) == [QueryRow(NotNullMessage, Some("t"), "n")];
    assert IntTyped(cols[0]);
    assert Select(cols[..1], IntTyped, ColumnViolation(IntTypeMessage)) == [QueryRow(IntTypeMessage, Some("t"), "n")];
    assert !IntTyped(cols[1]) by { assert !LikeLiteral("integer", "int"); }
  }

  /** `t` is not strict and has no primary-key column. */
  lemma LooseTableRules(p: Pragmas)
    requires p.TableInfo(Some("t")) == [LooseInt, LooseRef]
    ensures RequireStrict([Listed(Loose)]) == [QueryRow(StrictMessage, Some("t"), "")]
    ensures RequireExplicitPrimaryKey(p, [Listed(Loose)]) == [QueryRow(PrimaryKeyMessage, Some("t"), "")]
  {
    var tables := [Listed(Loose)];
    assert tables[..0] == [];
    assert LacksPrimaryKey(p, Listed(Loose));
  }

  /** With no index and no rowid key, the target (t, n) is not covered. */
  lemma LooseForeignKeyRule(p: Pragmas)
    requires p.indexList == map[]
    ensures RuleRows(IndexedForeignKeys, p, [Listed(Loose)], LooseColumns) == [QueryRow(ForeignKeyMessage, Some("t"), "r")]
  {
    var tables, cols := [Listed(Loose)], LooseColumns;
    assert IndexedColumns(p, tables) == {};
    assert RowidKeys(cols) == {};
    ForeignKeyRuleRows(p, tables, cols);
    var cov := Coverage(p, tables, cols);
    assert cov == {};
    assert cols[..1] == [cols[0]] && cols[..1][..0] == [];
  }

  /**
   * On that schema the run never aborts, every enabled check reports, and the
   * run fails unless every check is disabled.
   */
  lemma TotalFailureVerdict(p: Pragmas, env: map<string, string>)
    requires IsTotalFailureSchema(p)
    ensures !RunAborts(p, env)
    ensures forall k :: k in Checks.Checks && IsCheckEnabled(Checks.Checks[k], env) ==> Reports(Checks.Checks[k], p, env)
    ensures RunFails(p, env) <==> exists k :: k in Checks.Checks && IsCheckEnabled(Checks.Checks[k], env)
  {
    assert Loose in p.tableList;
    VerdictOnListedSchema(p, env);
    TotalFailureQueries(p);
    forall k | k in Checks.Checks ensures Query(Checks.Checks[k].rule, p) != [] {
      match Checks.Checks[k].rule
      case NotNull =>
      case Strict =>
      case IntType =>
      case ExplicitPrimaryKey =>
      case IndexedForeignKeys =>
    }
  }
}
