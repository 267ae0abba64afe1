# sqlite-lint, modelled in Dafny

sqlite-lint loads a SQL schema into an in-memory SQLite database and lints it
against five structural rules:
- `require_not_null`;
- `require_strict`;
- `forbid_int_type`;
- `require_explicit_primary_key`;
- `require_indexes_for_foreign_keys`.

The rules do not read SQLite's metadata directly. They query two views that the
linter lays over it:
- `tables`: the `sqlite_schema` entries of type 'table', left-joined with
  `pragma_table_list`.
- `columns`: each table's `pragma_table_info` rows, left-joined with its
  `pragma_foreign_key_list`.

The command runs every registered check whose GitHub Actions input variable is
not set to `"false"`. A check that fails to execute panics. The run fails when
any enabled check returns a row.

This project models three pieces, each on its own:
- the two views (module `Catalog`, `catalog.dfy`);
- the five rule queries, the registry and `Check.Execute` (module `Checks`,
  `checks.dfy`);
- the input-variable naming, `is_check_enabled` and the loop of `main`
  (module `Lint`, `lint.dfy`).

`Wrappers` (`wrappers.dfy`) holds `Option`, which stands for SQL NULL, and
`Result`, which stands for Go's `(value, error)` pair.

`Scenarios` (`scenarios.dfy`) proves what the rules answer on three small
schemas of the kinds the repository's tests use:
- a table with an `int` column;
- a foreign key to a column without an index;
- a table that breaks all five rules.

The clean schema, on which every rule passes, is characterised in general by
`Checks.PassesEveryRuleIffClean`.

The engine is an input. A `Catalog.Pragmas` value holds what `sqlite_schema`
and the four table-valued pragmas answer for one loaded schema. It also holds,
per check, the error the engine raises when it runs that check's query, if
any. Each view is a
function of that value, and each rule is a filter-and-project (`Checks.Select`)
over the views. `require_explicit_primary_key` also reads `pragma_table_info`
directly, and `require_indexes_for_foreign_keys` also reads the index pragmas.

`Check.Execute` fails in two ways (`Checks.ExecuteFailure`):
- **The engine fails to run the query.** The error is an input, and
  `Execute` wraps it behind the check's name.
- **The all-NULL `tables` row.** `tables` is a left join. So a 'table' entry
  of `sqlite_schema` that `pragma_table_list` does not name yields a row whose
  columns are all NULL (`Catalog.TableRow.Unmatched`).
  `require_explicit_primary_key` reports that row with a NULL `table_name`.
  Scanning a NULL into the Go string `CheckResult.TableName` is an error. This
  is the one way the modelled `Execute` fails because of the schema itself.
  SQLite's `pragma_table_list` lists every table of every attached schema, so
  a loaded schema should not produce this input. The model keeps the case
  because the SQL, as written, does not exclude it.

`fk_target_table` and `fk_target_column` are not kept together. A reference
that names no parent column (`ref integer references p`) has a NULL `to` in
`pragma_foreign_key_list`, and the view copies it verbatim. Such a row has a
target table and a NULL target column (`Catalog.ColumnsViewComplete`). Both
rules that look at foreign keys test only `fk_target_column`:
- `require_indexes_for_foreign_keys` skips such a column. Its target is the
  parent's primary key.
- `require_not_null` reports such a column when it is nullable, once per
  foreign-key entry that starts at it. This is listed under Findings.

## Model

| member | source | states |
|---|---|---|
| Catalog.TablesViewMembers | pkg/checks/target.go:30-34 | The `tables` view holds a table_list row exactly when a 'table' schema entry has its name; views, indexes and triggers contribute nothing. It holds the all-NULL row exactly when some 'table' entry has no table_list row. |
| Catalog.JoinColumnRows | pkg/checks/target.go:44-48 | Every row that one table_info row contributes copies that column unchanged. Its FK targets come verbatim from an FK entry whose `from` is that column, or are both NULL when there is none. |
| Catalog.JoinTableSound | pkg/checks/target.go:46-48 | Every row of one table's join comes from one of its table_info rows, with targets from that column's own FK entries. |
| Catalog.ColumnsViewSound | pkg/checks/target.go:37-48 | Every `columns` row copies a table_info row of a listed table and takes its targets from that column's FK entries. No pseudo `rowid` column is added and no target is checked for existence. |
| Catalog.JoinTableComplete | pkg/checks/target.go:46-48 | Every column of a table appears in its join: with NULL targets when no FK entry starts at it, and once per FK entry starting at it otherwise. |
| Catalog.ColumnsViewComplete | pkg/checks/target.go:37-48 | Every column of every listed table appears in `columns`: with NULL targets when no FK starts at it, and with each FK entry's `table` and `to` otherwise, even when `to` is NULL. |
| Catalog.EveryColumnAppears | pkg/checks/target.go:46-48 | No column of a listed table is dropped by the left join. |
| Catalog.RowsOfJoinedColumn | pkg/checks/target.go:46-48 | When a table's column names are distinct, the rows named after one column are exactly that column's own contribution. |
| Catalog.ColumnMultiplicity | pkg/checks/target.go:46-48 | Among its own table's rows, a column that is the `from` of k FK entries appears exactly k times, the i-th time with the i-th entry's target. With no such entry it appears exactly once, with NULL targets. A table name listed twice by table_list contributes its rows twice to the whole view. |
| Checks.Select | pkg/checks/check.go:38-44 | A `select ... from view where cond` returns a projected row exactly for the rows meeting the condition. It is empty exactly when no row meets it. |
| Checks.SelectCount | pkg/checks/check.go:38-44 | A query returns one row per satisfying view row, so duplicates in the view are reported as duplicates. |
| Checks.SelectUnflag | pkg/checks/check.go:38-44 | Replacing one satisfying view row by a non-satisfying one removes exactly one result row. |
| Checks.RequireNotNullReports | pkg/checks/check.go:36-46 | `require_not_null` returns a row for a column row exactly when it has `notnull = 0`, no FK target column and `is_primary_key = 0`. It returns one row per such column row, carrying the message, table and column. |
| Checks.RequireNotNullRepair | pkg/checks/check.go:43-45 | Making one reported column row not-null, a primary-key member, or giving it a non-NULL FK target column removes exactly one reported row. |
| Checks.ImplicitTargetForeignKeyReported | pkg/checks/check.go:43-47 | A nullable, non-key column that is the `from` of an FK entry with a NULL `to` is reported by `require_not_null`, although the check's explanation exempts foreign keys. |
| Checks.RequireNotNullIntendedExemptsForeignKeys | pkg/checks/check.go:43-48 | The rule keyed on `fk_target_table is null` reports exactly the nullable, non-key columns of listed tables that are the `from` of no FK entry, whatever that entry's `to`. |
| Checks.RequireNotNullAgreesOnExplicitTargets | pkg/checks/check.go:43-45 | On rows whose two target fields are NULL together, the rule as written and the intended rule return the same rows. |
| Checks.RequireStrictReports | pkg/checks/check.go:63-71 | `require_strict` returns one row, with an empty column name, per listed table with `strict = 0`. The all-NULL row is never reported. |
| Checks.LikeIntSpellings | pkg/checks/check.go:83 | `like 'int'` accepts exactly the eight upper/lower-case spellings of "int", and nothing longer or shorter. |
| Checks.ForbidIntTypeReports | pkg/checks/check.go:76-84 | `forbid_int_type` returns one row per column row whose declared type is "int" up to ASCII case. A column typed "integer" is never reported. |
| Checks.RequireExplicitPrimaryKeyReports | pkg/checks/check.go:87-95 | `require_explicit_primary_key` returns one row per `tables` row none of whose table_info rows has a nonzero `pk`. The all-NULL row is included, with a NULL name. |
| Checks.PrimaryKeyColumnRemovesViolation | pkg/checks/check.go:94 | Giving a table a table_info row with nonzero `pk` leaves `tables` unchanged and removes that table's violation. |
| Checks.CoverageNamesTables | pkg/checks/check.go:101-114 | Every pair in the `index_info` CTE names a table of the `tables` view. Neither the index branch nor the rowid branch of the union invents a table. |
| Checks.RequireIndexesReports | pkg/checks/check.go:98-124 | `require_indexes_for_foreign_keys` returns one row per column row whose FK target column is not NULL and whose (target table, target column) pair is not covered. |
| Checks.MissingTargetTableReported | pkg/checks/check.go:115-124 | An FK whose target table is not a table of the schema is always reported, since no index and no rowid key can cover it. |
| Checks.AddingIndexCoversTarget | pkg/checks/check.go:101-124 | Adding an index over the target column changes neither view. It stops every FK to that column from being reported and reports nothing new. |
| Checks.IndexedColumnsGrow | pkg/checks/check.go:102-106 | Adding an index under a fresh name keeps every pair that an existing index covers. |
| Checks.ColumnsViewIgnoresIndexes | pkg/checks/target.go:37-48 | The `columns` view does not depend on the index pragmas. |
| Checks.QueryFrame | pkg/checks/check.go:35-128 | Two schemas with the same `tables` and `columns` views get the same rows from `require_not_null`, `require_strict` and `forbid_int_type`. They get the same rows from `require_explicit_primary_key` if they also agree on `pragma_table_info`, and from `require_indexes_for_foreign_keys` if they also agree on the index pragmas. |
| Checks.SelectSameCondition | pkg/checks/check.go:38-44 | A query is unchanged when its condition is replaced by one that agrees on every row of the view. |
| Checks.PassesEveryRuleIffClean | pkg/checks/check.go:35-128 | All five queries return no row exactly when every 'table' entry is listed, every table is strict and has a primary-key column, every column is not null, a key member or has a target column, no column is `int`, and every target is covered. |
| Checks.RulesPassOver | pkg/checks/check.go:35-128 | Over any views, all five queries are empty exactly when there is no all-NULL `tables` row and the views have none of those flaws. |
| Checks.StrictPasses | pkg/checks/check.go:66-70 | `require_strict` is empty exactly when every listed table has `strict != 0`. |
| Checks.PrimaryKeyPassesOver | pkg/checks/check.go:90-94 | `require_explicit_primary_key` is empty exactly when there is no all-NULL row and every listed table has a table_info row with `pk != 0`. |
| Checks.RegistryShape | pkg/checks/check.go:35-128 | The registry holds exactly five checks, one per rule, each stored under its own `Name`. |
| Checks.ScanRows | pkg/checks/check.go:17-21 | Scanning succeeds exactly when no row has a NULL `table_name`. It then gives one `CheckResult` per row, in order, with the same fields. Otherwise it is the driver's scan error. |
| Checks.Execute | pkg/checks/check.go:25-33 | `Execute` returns every query row, scanned and in order, with no error. Otherwise it returns an error that starts with "failed to execute check '<name>': ". It fails exactly when the engine fails to run the query, in which case the engine's error follows the prefix, or some row has a NULL `table_name`. |
| Checks.ExecuteFailure | pkg/checks/check.go:29-32 | `Execute` fails exactly when the engine fails to run the check's query, or the check is `require_explicit_primary_key` on a schema with a 'table' entry missing from table_list. No other check's rows can fail to scan. |
| Lint.ReplaceSeparators | cmd/main.go:71 | The replacer keeps the length, maps "-" and " " to "_", and leaves no "-" or " ". |
| Lint.ToUpperAscii | cmd/main.go:72 | Upper-casing keeps the length, maps each character to its upper-case form and leaves no ASCII lower-case letter. |
| Lint.GithubActionsInputEnvVar | cmd/main.go:69-73 | The variable is "INPUT_" followed by one character per character of the name, none of them "-", " " or an ASCII lower-case letter. |
| Lint.SameVariableIffSameCanonicalName | cmd/main.go:69-73 | Two input names share a variable exactly when they have the same length and agree character by character up to "-"/" "/"_" and ASCII case. |
| Lint.RequireNotNullVariable | cmd/main.go:75 | `require_not_null` and `require-not-null` are both controlled by `INPUT_REQUIRE_NOT_NULL`. |
| Lint.VariableOfCanonicalName | cmd/main.go:69-73 | A name's variable is "INPUT_" followed by the name's canonical characters. |
| Lint.RegistryVariablesDistinct | cmd/main.go:76-77 | The five registered checks are controlled by five different variables. |
| Lint.DifferentLengthsDifferentVariables | cmd/main.go:69-73 | Names of different lengths never share a variable. |
| Lint.SettingVariable | cmd/main.go:76-84 | Setting a registered check's variable to a value disables that check exactly when the value is "false", so "FALSE" and "0" leave it enabled. Every other registered check keeps its state. |
| Lint.OtherVariableUntouched | cmd/main.go:76-77 | Setting one check's variable does not change whether another registered check is enabled. |
| Lint.LintSchema | cmd/main.go:38-64 | For every iteration order of the registry, the loop aborts exactly when some enabled check fails to execute, and the error is that check's. Otherwise it fails exactly when some enabled check returns a row, and passes otherwise. |
| Lint.DisablingNeverAddsFailures | cmd/main.go:40-44 | Disabling a check never makes a passing run fail or a non-aborting run abort. |
| Lint.AllDisabledPasses | cmd/main.go:40-44 | With every check's variable set to "false", nothing runs and the run passes. |
| Lint.AbortCauses | cmd/main.go:40-48 | A run aborts exactly when some enabled check's query makes the engine fail, or `require_explicit_primary_key` is enabled on a schema with a 'table' entry missing from table_list. |
| Lint.VerdictOnListedSchema | cmd/main.go:38-64 | When every 'table' entry is listed by table_list and the engine runs every query, the run never aborts. It fails exactly when the query of some enabled check returns a row. |
| Lint.CleanSchemaPasses | cmd/main.go:38-64 | On a schema with none of the flaws the rules look for, whose queries the engine runs, the run passes in every environment. |
| Scenarios.IntsSchemaViews | pkg/checks/target.go:29-48 | For a one-table schema with an `integer` primary key and an `int` column, `tables` has one row and `columns` has two. |
| Scenarios.IntsSchemaFailsOnlyIntType | pkg/checks/check_test.go:18 | On that schema, `forbid_int_type` returns exactly one row (table "t", column "n") and the other four checks return none. |
| Scenarios.IntsSchemaVerdict | pkg/checks/check_test.go:18 | On that schema, a run with `forbid_int_type` enabled fails without aborting. Setting its variable to "false" makes the run pass. |
| Scenarios.ForeignKeySchemaColumns | pkg/checks/target.go:37-48 | For a parent table and a child whose `ref` column references the parent's `code`, `columns` has four rows, and only `ref` carries a target. |
| Scenarios.ForeignKeySchemaOtherChecksPass | pkg/checks/check_test.go:17 | On that schema, the four checks other than `require_indexes_for_foreign_keys` return no row. |
| Scenarios.UnindexedTargetReported | pkg/checks/check_test.go:17 | With no index, `require_indexes_for_foreign_keys` returns exactly one row, for table "c" and column "ref". |
| Scenarios.IndexedTargetPasses | pkg/checks/check_test.go:17 | Once an index of the parent contains `code`, `require_indexes_for_foreign_keys` returns no row. |
| Scenarios.TotalFailureViews | pkg/checks/target.go:29-48 | For a non-strict table with no key, a nullable `int` column `n` and a column `r` referencing `n`, `tables` has one row and `columns` has two, and only `r` carries a target. |
| Scenarios.TotalFailureQueries | pkg/checks/check_test.go:21-27 | On that schema, each of the five checks returns exactly one row: `n` for `require_not_null` and `forbid_int_type`, the table for `require_strict` and `require_explicit_primary_key`, and `r` for `require_indexes_for_foreign_keys`. |
| Scenarios.TotalFailureVerdict | pkg/checks/check_test.go:21-27 | On that schema, the run never aborts, every enabled check reports, and the run fails unless every check is disabled. |

## Left out

- The SQLite engine, and the sqlx and go-sqlite3 drivers. What `sqlite_schema` and the pragmas answer is an input (`Catalog.Pragmas`), so the model assumes nothing about how SQLite fills them.
- Why the engine fails to run a query (a broken view, an I/O error, a driver error) is not modelled. Whether it fails, and with which error, is an input (`Catalog.Pragmas.queryErrors`). `Lint.VerdictOnListedSchema` and `Lint.CleanSchemaPasses` assume it runs every query.
- `OpenSchema`'s I/O is not modelled: opening the in-memory database, reading the schema file, and `MustExec` with its panic on invalid SQL. The model starts from a loaded schema.
- `main`'s handling of `os.Args`, the colored terminal output (printing the results and explanations), and `os.Exit` are left out. `Lint.LintSchema` returns the verdict as an `Outcome` instead.
- `os.LookupEnv` is not called. The environment is a map parameter from variable names to values.
- The iteration order of a Go map is random. `Lint.LintSchema` picks an arbitrary remaining key at each step and proves the verdict is the same for every order. Which of several failing checks' errors is returned may depend on the order; `Checks.ExecuteFailure` names the checks that can fail.
- Lint.ToUpperAscii: upper-cases ASCII letters only; `strings.ToUpper` also maps non-ASCII letters, which the model leaves unchanged.
- Checks.LikeLiteral: models `LIKE` only for patterns without `%` and `_`, which is all the rules use, with SQLite's default ASCII-only case folding.
- The driver's scan-error text is a constant (`Checks.NullTableNameError`). Only its existence and the prefix that `Execute` adds are relied on.
- The commented-out `require_default_values` check is not part of the registry and is not modelled.
- The `Explanation` strings are carried as data, but nothing is proved about their text.
- Catalog.ColumnsViewSound: the view is not claimed to hold unique (table, column) pairs. A column with several FK entries appears once per entry, as `Catalog.ColumnMultiplicity` states.
- The test schema files under `test_schemas/` are not part of this model. `Scenarios` proves the same kind of verdict on small schemas written to match their file names: an `int` column, an FK without an index, and a schema breaking all five rules. The passing case is covered in general by `Checks.PassesEveryRuleIffClean`. The cases `failure-has-nulls` and `failure-no-strict` have no dedicated scenario. `Checks.RequireNotNullReports` and `Checks.RequireStrictReports` state their rules in general.

## Findings

| source | as written | input that shows it | evidently intended | confidence | as-written member | corrected member |
|---|---|---|---|---|---|---|
| pkg/checks/check.go:43-47 | `require_not_null` exempts a column only when `fk_target_column is not null`. | `create table c (id integer primary key, ref integer references p)`: `ref` is a nullable foreign key whose `to` is NULL, and it is reported. A second such FK on `ref` reports it twice. | Exempt every foreign-key column, as the explanation says ("unless they are foreign keys"), by testing `fk_target_table is null`. | medium, not executed | Checks.ImplicitTargetForeignKeyReported | Checks.RequireNotNullIntendedExemptsForeignKeys |

The registry keeps the rule as written. The verdict lemmas describe what the
program does. `Checks.RequireNotNullIntended` is the corrected rule.
`Checks.RequireNotNullAgreesOnExplicitTargets` proves that the two rules differ
only on foreign keys whose reference names no parent column.
