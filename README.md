# DatabaseManager core, modelled in Dafny

DatabaseManager copies tables between two PostgreSQL databases under the
control of a JSON configuration, and also backs up and restores a single
database with PostgreSQL's binary `COPY` protocol. This project models the
C++ core of that tool and proves properties of the model:

- `DatabaseMigrator` (`source/cpp/database_migrator.cpp`). This covers
  reading the configuration into `DatabaseConfig` / `TableConfig` values, the
  libpq connection string, `convert_value`, `generate_ddl`, `migrate_table`
  and the `migrate` loop with its progress callback.
- `DatabaseOperator` (`source/cpp/database_operator.cpp`). This is a
  connection state machine with `connect`, `disconnect`, `exec`, `load`,
  `backup`, `restore` and `exit`.
- `Logger` (`source/cpp/logger.cpp`). This covers level names, the JSON log
  line, callback registration, and what `log` writes and forwards.

libpq is replaced by an abstract connection (module `Postgres`). A
`Connection` records every statement that reaches the server. Each
statement's answer (command ok, a result set, copy-out, copy-in or failure)
comes from a server function. That function is a parameter and sees the
statements sent before it. Reading files and parsing JSON text are also left
to the caller: the model starts from a parsed document (`JsonValue.Json`) and
from facts such as "the file opened".

The modules are:

| module | file | what it holds |
|---|---|---|
| `Wrappers` | wrappers.dfy | `Option`, `Result`, `Outcome` |
| `Text` | text.dfy | the order in which `std::map` iterates its keys; decimal output; `std::stoi`; joining with a separator |
| `JsonValue` | json.dfy | parsed JSON values; `contains`; what a range-for visits |
| `Base64` | base64.dfy | the base64 encoder behind the `BASE64` column type, with its decoder |
| `Config` | config.dfy | the configuration types and their parsing; the connection string |
| `Convert` | convert.dfy | `convert_value` |
| `Ddl` | ddl.dfy | `generate_ddl` |
| `Postgres` | postgres.dfy | the abstract libpq connection |
| `TableMigration` | table_migration.dfy | `migrate_table` as a specification, and the `INSERT` builder |
| `Orchestration` | orchestration.dfy | `migrate` as a specification: table order, row counting, progress |
| `Migrator` | migrator.dfy | the `DatabaseMigrator` class |
| `Operator` | operator.dfy | the `DatabaseOperator` class |
| `Logging` | logging.dfy | `Logger` |

Where a method changes state, it is proved against a specification function
(for example `MigrateTableSpec`, `RunMigration`, `BackupSpec` or `CopyLoop`).
The lemmas next to that function state what the source promises.

Four behaviours of the code are easy to misread. The model follows the code
each time:

- **VARCHAR values.** For type `VARCHAR`, `convert_value` does not always
  return the value unchanged. When the value contains a `(` with a `)` after
  it, the result is the part before the `(`. The text between the brackets
  also goes through `std::stoi`, and a failure there is a failure of the whole
  conversion (`Convert.VarcharWithPair`, `Convert.VarcharFailure`).
- **DDL column order.** `generate_ddl` lists columns in ascending key order,
  because `columns` is a `std::map`. It does not use insertion order
  (`Ddl.TableDefsExact`).
- **log.json.** `log.json` is opened without append mode, so it holds only
  the latest line (`Logging.Logger.Log`).
- **restore file check.** When `restore` has a config, it never checks
  whether the backup file opened. When it has no config, it copies nothing,
  but it still returns false if the backup file did not open
  (`Operator.RestoreWithoutConfig`).

Some behaviour of the code is kept as it is:

- **Progress with no rows.** `migrate` computes `(current_rows * 100) /
  total_rows`. When `total_rows` is 0 this is a division by zero. The model
  makes it the error outcome `ProgressDivisionByZero`, which ends the run at
  the first included table (`Orchestration.ZeroTotalFails`).
- **Open connections after a failure.** A `migrate_table` that throws leaves
  both of its connections open. `MigrateTable` ends its connections exactly
  when it passes.
- **Unescaped SQL literals.** Literals in `INSERT` statements are not
  escaped, and neither are fields in log lines. `Logging.LogLineAmbiguous`
  shows two different entries that produce the same log line.

## Model

| member | source | states |
|---|---|---|
| Text.SortedKeys | source/cpp/database_migrator.cpp:290 | iterating a `std::map<std::string, …>` visits each key exactly once, in strictly ascending order |
| Text.DecimalRoundTrip | source/cpp/database_migrator.cpp:133 | the port that `<<` writes into the connection string reads back as the same integer |
| Text.StoiNoConversion | source/cpp/database_migrator.cpp:325 | `std::stoi` fails with invalid_argument exactly when no digit follows the leading white space and optional sign |
| Text.StoiOutOfRange | source/cpp/database_migrator.cpp:325 | `std::stoi` fails with out_of_range exactly when the digits it reads, with their sign, lie outside the 32-bit range, and every value it returns lies inside it |
| Text.StoiDecimal | source/cpp/database_migrator.cpp:325 | `std::stoi` reads back every int in range from its decimal form |
| Base64.RoundTrip | source/cpp/database_migrator.cpp:317-319 | decoding the base64 text of any byte sequence gives the bytes back |
| Config.EndpointNeedsAllFields | source/cpp/database_migrator.cpp:12-16 | a database section with any of host, port, dbname, user or password missing is rejected |
| Config.ParseEndpoint | source/cpp/database_migrator.cpp:9-31 | reading one database section; its properties are stated by `Config.EndpointNeedsAllFields` and `Config.EndpointParsed` |
| Config.EndpointParsed | source/cpp/database_migrator.cpp:12-22 | a database section parses exactly when all five fields are present with the right JSON types; the fields are then copied from the document |
| Config.ConfigNeedsEndpointFields | source/cpp/database_migrator.cpp:100-101 | a missing field in `source_database`, or in `target_database` once the source has parsed, fails the whole load |
| Config.TableNeedsSource | source/cpp/database_migrator.cpp:41-42 | a table rule without `source` is rejected |
| Config.ColumnsMustBeObject | source/cpp/database_migrator.cpp:52-56 | a `columns` entry that is not an object is rejected |
| Config.ParseTable | source/cpp/database_migrator.cpp:38-83 | reading one table rule; its properties are stated by `Config.TableNeedsSource`, `Config.ColumnsMustBeObject` and `Config.TableParsed` |
| Config.TableParsed | source/cpp/database_migrator.cpp:44-67 | a parsed table rule takes `source` from the document; `target` defaults to "" and both flags default to false; `columns` holds exactly the document's column names, each keeping only `target_name`, `type` and `exclude` |
| Config.TablesParsed | source/cpp/database_migrator.cpp:110-114 | the table list parses exactly when every rule does, and then it holds the parsed rules in document order |
| Config.TablesFirstError | source/cpp/database_migrator.cpp:111-113 | the first rule that fails decides the error of the whole list |
| Config.ParseConfig | source/cpp/database_migrator.cpp:94-128 | load_config on a parsed document; its properties are stated by `Config.ConfigNeedsEndpointFields`, `Config.TablesMustBeArray` and `Config.ConfigParsed` |
| Config.ConfigParsed | source/cpp/database_migrator.cpp:100-118 | a successful load has both endpoints from their sections and the tables from `tables`; there are no tables when `tables` is absent |
| Config.TablesMustBeArray | source/cpp/database_migrator.cpp:103-108 | a `tables` entry that is not an array fails the load |
| Config.ConnectionString | source/cpp/database_migrator.cpp:130-138 | the five keyword=value pairs joined by single spaces; `Config.ConnectionStringRoundTrip` states that no field is lost |
| Config.ConnectionStringRoundTrip | source/cpp/database_migrator.cpp:130-138 | when no field holds a space, splitting the connection string at its spaces gives back the endpoint it was made from, so no field is lost or reordered |
| Config.SplitJoined | source/cpp/database_migrator.cpp:130-138 | splitting a space-separated list of space-free words at its spaces gives the words back, in order |
| Convert.ConvertValue | source/cpp/database_migrator.cpp:316-345 | only VARCHAR can fail, and any type other than the three names returns the value unchanged |
| Convert.BigintStrips | source/cpp/database_migrator.cpp:331-342 | BIGINT never fails; it removes one backslash from each end of a value wrapped in backslashes and leaves any other value unchanged |
| Convert.VarcharWithoutPair | source/cpp/database_migrator.cpp:320-330 | VARCHAR returns the value unchanged when it has no `(`, or no `)` after its first `(` |
| Convert.VarcharWithPair | source/cpp/database_migrator.cpp:321-326 | with such a pair, VARCHAR returns the value up to its first `(`, or the stoi error of the text in between |
| Convert.VarcharFailure | source/cpp/database_migrator.cpp:325 | VARCHAR fails exactly when the text between the brackets has no digit where stoi expects one, or is out of int range |
| Convert.Base64Decodes | source/cpp/database_migrator.cpp:317-319 | BASE64 never fails, and decoding its result gives the value's bytes back |
| Convert.TypeMatchedExactly | source/cpp/database_migrator.cpp:316-344 | a type is matched by exact name: `VARCHAR(10)`, `TEXT` and "" leave the value unchanged |
| Ddl.GenerateDdl | source/cpp/database_migrator.cpp:282-314 | the generated statement is the DDL text of the table rule |
| Ddl.CollectDefs | source/cpp/database_migrator.cpp:288-304 | the first loop collects the definitions of exactly the columns that are not excluded, in key order |
| Ddl.WriteLines | source/cpp/database_migrator.cpp:306-312 | the output loop writes every definition indented, with commas between them and a newline after each |
| Ddl.IncludedKeysExact | source/cpp/database_migrator.cpp:290-294 | the listed columns are exactly those whose `exclude` is not "true", in ascending key order |
| Ddl.TableDefsExact | source/cpp/database_migrator.cpp:290-304 | each listed definition is the target name (or column name), a space, and the type (or TEXT) |
| Ddl.LinesJoined | source/cpp/database_migrator.cpp:306-310 | the column lines are the definitions joined by ",\n    " |
| Ddl.DdlShape | source/cpp/database_migrator.cpp:282-314 | the statement is `CREATE TABLE IF NOT EXISTS <target-or-source> (`, the joined definitions, and `);` |
| Postgres.Connection.Exec | source/cpp/database_migrator.cpp:226-227 | a broken connection rejects every statement and records none; a working one records the statement and returns the server's answer |
| TableMigration.RowValues | source/cpp/database_migrator.cpp:246-258 | a row produces one literal per result column, or fails with a cell error |
| TableMigration.InsertStatement | source/cpp/database_migrator.cpp:241-260 | an INSERT fails only with a cell error |
| TableMigration.NullExactlyWhenEmpty | source/cpp/database_migrator.cpp:249-257 | a cell that converts is written as NULL exactly when it is empty, since a converted value is always quoted |
| TableMigration.BuildInsert | source/cpp/database_migrator.cpp:241-260 | the column loop builds exactly the row's INSERT statement, or the first cell error |
| TableMigration.RowFailurePersists | source/cpp/database_migrator.cpp:251-252 | once a cell fails, the row fails with that cell's error |
| TableMigration.RowLiterals | source/cpp/database_migrator.cpp:246-258 | literal j is NULL for an empty cell; otherwise it is the cell converted by its column's type and put in single quotes |
| TableMigration.CellNeedsType | source/cpp/database_migrator.cpp:250-252 | a non-empty cell whose column has no rule, or a rule without `type`, fails the row |
| TableMigration.InsertRowsSent | source/cpp/database_migrator.cpp:240-267 | the target receives the rows' INSERT statements in result order; a pass has sent them all; a rejection names the rejected row; any other failure is that of the next row's statement |
| TableMigration.InsertRowsAccepted | source/cpp/database_migrator.cpp:262-265 | every INSERT sent was accepted, except a last one that was refused |
| TableMigration.MigrateTableSpec | source/cpp/database_migrator.cpp:205-280 | migrate_table on fresh connections; its properties are stated by `TableMigration.MigrateTableShape`, `TableMigration.OnlyInsertsWithoutDdl` and `TableMigration.PassedRowsConverted` |
| TableMigration.MigrateTableShape | source/cpp/database_migrator.cpp:205-280 | the source connection is checked before the target; the DDL is sent only with create_if_missing, and a refused DDL is DdlRejected; the source receives only the SELECT; a non-result answer to the SELECT passes with no inserts |
| TableMigration.OnlyInsertsWithoutDdl | source/cpp/database_migrator.cpp:221-231 | without create_if_missing the target receives nothing but INSERT statements |
| TableMigration.PassedRowsConverted | source/cpp/database_migrator.cpp:249-253 | in a table migration that passed, every non-empty cell had a column rule with a type whose conversion succeeded |
| Orchestration.IncludedMembers | source/cpp/database_migrator.cpp:179-184 | the included positions are exactly the rules not marked exclude |
| Orchestration.IncludedAscending | source/cpp/database_migrator.cpp:179 | the included positions are in list order |
| Orchestration.MigratedPrefix | source/cpp/database_migrator.cpp:179-202 | the tables handed to migrate_table are a prefix of the included ones, and all of them when the run passes |
| Orchestration.FailureStopsAtTable | source/cpp/database_migrator.cpp:186 | a run that a table's failure stops ends with that table |
| Orchestration.RunMigration | source/cpp/database_migrator.cpp:156-203 | migrate as a function of the environment; its properties are stated by `Orchestration.RunMigratesIncluded`, `Orchestration.RunStopsAtFailedTable`, `Orchestration.RunReportsNondecreasing` and `Orchestration.RunReportsBounded` |
| Orchestration.RunMigratesIncluded | source/cpp/database_migrator.cpp:179-186 | excluded rules are never migrated, and a run that passes migrates every included rule in order |
| Orchestration.MigratedAreIncluded | source/cpp/database_migrator.cpp:179-186 | whatever each migrate_table call does, only included rules are migrated, and a run that passes migrates all of them in order |
| Orchestration.RunStopsAtFailedTable | source/cpp/database_migrator.cpp:186 | a failed run ends with the table whose own migration failed with that error |
| Orchestration.TotalIgnoresExcluded | source/cpp/database_migrator.cpp:163-177 | the row total depends only on the counts of included rules |
| Orchestration.MigrateFromIgnoresExcluded | source/cpp/database_migrator.cpp:179-202 | the migration loop depends only on what happens to included rules |
| Orchestration.RunIgnoresExcluded | source/cpp/database_migrator.cpp:163-202 | whatever the databases would do for excluded rules, the run is the same |
| Orchestration.SilentWithoutCallback | source/cpp/database_migrator.cpp:188-201 | without a callback nothing is reported, and only a table's own failure stops the loop |
| Orchestration.RunSilentWithoutCallback | source/cpp/database_migrator.cpp:163-202 | a configured run without a callback reports nothing and never divides by zero |
| Orchestration.TableNeverDividesByZero | source/cpp/database_migrator.cpp:205-280 | migrating one table never fails with the progress error |
| Orchestration.ProgressMonotone | source/cpp/database_migrator.cpp:199 | the percentage grows with the number of rows copied |
| Orchestration.ProgressAtMostHundred | source/cpp/database_migrator.cpp:199 | the percentage is within 0..100 while no more rows were copied than were counted |
| Orchestration.ReportsNondecreasing | source/cpp/database_migrator.cpp:188-201 | reports never decrease along the loop |
| Orchestration.RunReportsNondecreasing | source/cpp/database_migrator.cpp:156-202 | the reports of a run never decrease |
| Orchestration.ZeroTotalReportsNothing | source/cpp/database_migrator.cpp:199 | with a zero total no report is made, and the loop passes only when nothing was left to migrate |
| Orchestration.ZeroTotalFails | source/cpp/database_migrator.cpp:163-177 | a callback run whose included tables all counted zero rows cannot pass |
| Orchestration.TotalMonotone | source/cpp/database_migrator.cpp:172 | total_rows only grows along the counting loop |
| Orchestration.ReportsBounded | source/cpp/database_migrator.cpp:194-200 | while no table gains rows during its migration, every report is within 0..100 |
| Orchestration.RunReportsBounded | source/cpp/database_migrator.cpp:156-203 | a run's reports are within 0..100 when no table gains rows |
| Migrator.DatabaseMigrator.Unconfigured | source/cpp/database_migrator.h:53-56 | a migrator starts unconfigured |
| Migrator.DatabaseMigrator.Open | source/cpp/database_migrator.cpp:85-88 | constructing a migrator fails exactly when its document does not parse, with the same error; otherwise it is configured with the parsed configuration |
| Migrator.DatabaseMigrator.LoadConfig | source/cpp/database_migrator.cpp:94-128 | loading succeeds exactly when the document parses; the object then holds the parsed configuration and is marked configured; a failure leaves the flag as it was |
| Migrator.DatabaseMigrator.MigrateTable | source/cpp/database_migrator.cpp:205-280 | both connections are new and use the endpoints' connection strings; what they receive and the outcome are those of the table-migration specification; the connections are finished exactly when it passes |
| Migrator.InsertAll | source/cpp/database_migrator.cpp:240-267 | the row loop sends one INSERT per row in row order and stops at the first row that does not convert or that the target refuses, exactly as the row-insertion specification says |
| Migrator.DatabaseMigrator.RunTable | source/cpp/database_migrator.cpp:186 | one migrate_table call ends as the specification says for that rule |
| Migrator.DatabaseMigrator.Migrate | source/cpp/database_migrator.cpp:156-203 | the migration refuses to run unconfigured; otherwise it counts, migrates and reports exactly as the orchestration specification says |
| Migrator.CountRows | source/cpp/database_migrator.cpp:163-177 | total_rows is the sum of the counts of the included tables, a count that cannot be read adding nothing |
| Migrator.TablesFailurePersists | source/cpp/database_migrator.cpp:111-113 | the loading loop may stop at the first failing rule, because the whole list fails with that rule's error |
| Operator.LastSlash | source/cpp/database_operator.cpp:135 | the position of the last `/`, or none when the path has none |
| Operator.TableNamesExact | source/cpp/database_operator.cpp:112-114 | a config table list is accepted exactly when every element is a string, and it keeps them in order |
| Operator.ReadTableList | source/cpp/database_operator.cpp:109-120 | the tables of a parsed backup/restore config, or a failure when an element is not a string or the document cannot be indexed |
| Operator.FirstColumnCells | source/cpp/database_operator.cpp:127-130 | the listed tables are the first cell of each result row, in row order |
| Operator.BackupDirAsWrittenIsWholePath | source/cpp/database_operator.cpp:135 | as written, a path without `/` is its own backup directory |
| Operator.BackupDirIsParent | source/cpp/database_operator.cpp:135-139 | the corrected directory is the path's proper parent: the path is the directory, a `/` and a last part without `/`; the directory is empty when there is no `/` |
| Operator.CopyLoopSent | source/cpp/database_operator.cpp:149-170 | the COPY loop sends one COPY per table, in list order, and has sent all of them when it succeeds |
| Operator.CopyLoopEntered | source/cpp/database_operator.cpp:219-239 | every COPY sent entered the expected copy state, except a last one that did not and made the loop fail |
| Operator.RestoreSpec | source/cpp/database_operator.cpp:178-245 | restore on a live connection; its properties are stated by `Operator.RestoreWithoutConfig`, `Operator.CopyLoopSent` and `Operator.CopyLoopEntered` |
| Operator.RestoreWithoutConfig | source/cpp/database_operator.cpp:209-216 | without a config, restore sends nothing and succeeds exactly when the backup file opened |
| Operator.BackupSpec | source/cpp/database_operator.cpp:92-176 | backup on a live connection; its properties are stated by `Operator.BackupWithoutTables`, `Operator.BackupMakesOutputDirectory` and `Operator.BackupListsCatalogue` |
| Operator.BackupWithoutTables | source/cpp/database_operator.cpp:141-175 | for every config path, a backup whose config names no tables succeeds exactly when the output file opens |
| Operator.BackupMakesOutputDirectory | source/cpp/database_operator.cpp:135-139 | once the tables are known, a non-empty output path without `/` is itself handed to `mkdir -p` |
| Operator.BackupListsCatalogue | source/cpp/database_operator.cpp:122-133 | without a config, backup sends the catalogue query twice, then one COPY per listed table in the listed order |
| Operator.DatabaseOperator.constructor | source/cpp/database_operator.cpp:6-9 | a new operator has no connection and is not connected |
| Operator.DatabaseOperator.Connect | source/cpp/database_operator.cpp:33-49 | a live connection is closed first; the new connection uses the given string; the operator is connected, and connect returns true, exactly when the server accepted it |
| Operator.DatabaseOperator.Disconnect | source/cpp/database_operator.cpp:51-61 | a live connection is finished and dropped; otherwise nothing changes, so a second call does nothing |
| Operator.DatabaseOperator.Exit | source/cpp/database_operator.cpp:247-250 | exit is disconnect |
| Operator.DatabaseOperator.Exec | source/cpp/database_operator.cpp:63-71 | exec returns false and changes nothing when not connected; when connected it sends the query and returns true, even if the server refused it |
| Operator.DatabaseOperator.Load | source/cpp/database_operator.cpp:73-90 | load returns "" when not connected or when the file does not open, and the file's text otherwise |
| Operator.DatabaseOperator.CopyTables | source/cpp/database_operator.cpp:149-170 | the table loop sends and stops as the COPY loop specification says |
| Operator.DatabaseOperator.ListBackupTables | source/cpp/database_operator.cpp:98-133 | the tables come from the config when one is given, otherwise from the catalogue query |
| Operator.DatabaseOperator.Backup | source/cpp/database_operator.cpp:92-176 | backup fails without a connection; otherwise the statements sent, the directory handed to `mkdir -p` (the whole path when it has no `/`, as written) and the result are those of the backup specification |
| Operator.DatabaseOperator.Restore | source/cpp/database_operator.cpp:178-245 | restore fails without a connection; otherwise the statements sent and the result are those of the restore specification |
| Logging.LevelName | source/cpp/logger.cpp:26-34 | a level's name is "unknown" exactly when the level is not one of the four enumerators |
| Logging.LevelNameRoundTrip | source/cpp/logger.cpp:26-34 | each enumerator's name reads back as that enumerator, so the four names differ; "unknown" reads back as nothing |
| Logging.CreateLogJson | source/cpp/logger.cpp:36-45 | the line starts with `{"timestamp":"`, ends with a newline, and is the four fields plus 53 characters long |
| Logging.LogLineRoundTrip | source/cpp/logger.cpp:36-45 | a line whose fields hold no `"` reads back as the entry it was made from |
| Logging.LogLineAmbiguous | source/cpp/logger.cpp:37-44 | because nothing is escaped, two different entries can produce the same line |
| Logging.Logger.RegisterCallback | source/cpp/logger.cpp:9-11 | the last callback registered is the one kept |
| Logging.Logger.Log | source/cpp/logger.cpp:56-79 | log.json holds only this entry's line (level by name, module and message unchanged); a registered callback receives the bare message |

## Left out

- libpq itself. The network, authentication and the wire protocol are not modelled; a connection is an abstract object whose answers come from a server function.
- libpq's conninfo parser. `Config.ParseConnectionString` only splits at spaces. libpq also splits at other white space, skips blanks after `=`, removes backslash escapes and honours quotes, so a field that is empty or holds such characters is read differently by libpq than by this inverse.
- Reading files and parsing JSON text. Config documents are given already parsed, and a config file that does not open or does not parse is a value. `load` takes the file contents as input.
- The byte streaming of backup and restore. The loops over `PQgetCopyData`, `readsome`, `PQputCopyData` and `PQputCopyEnd` move opaque bytes, so only the per-table statements and the result are modelled.
- Running `mkdir -p` and opening the output file. `Operator.DatabaseOperator.Backup` returns the directory it hands to `system`, which is the whole path when the path has no `/`. Whether the output file then opens is an input, so the model does not derive that it cannot open over the directory just created under its name.
- The clock, the mutex and console output of the logger. The timestamp is an input, and `CONSOLE_LOGGING` is off in the header.
- The log lines written by the migrator and the operator, and `handle_error`. These are logging side effects only.
- `execute_migration`. It only logs around `migrate` and rethrows.
- `DatabaseMigrator::registerCallback`. `Migrate` takes whether a callback is registered as a boolean; the reports it returns are the callback's calls in order.
- The destructors. `~DatabaseOperator` only disconnects.
- `source/cpp/interface.cpp` and the C# user interface. They are adapters around the classes above. Note that the header declares `restore(jsonConfig, inFile)`, while the definition and this model take `restore(in_file, json_config)`.
- `external/base64.hpp` is not part of this model. The `BASE64` type is modelled as standard base64 with padding (section 4 of RFC 4648).
- Migrator.DatabaseMigrator.Migrate: row counts are unbounded naturals. The 32-bit overflow of `total_rows`, `current_rows` and `current_rows * 100` is not modelled, and `std::stoi` on a COUNT result is replaced by an optional natural number per table (an unreadable count adds nothing).
- Migrator.DatabaseMigrator.Migrate: the COUNT connections of the counting and progress steps are not modelled as `Connection` objects; their results are inputs to the run.
- Config.EndpointParsed: `port` is accepted only as a JSON integer, and its truncation to `int` is not modelled. nlohmann's `get<int>` also converts booleans and floating-point numbers.
- Migrator.DatabaseMigrator.Open: when a load fails, its partial assignment of `source_db` is not modelled, because the constructor throws and no object remains.

## Findings

| source | as written | input that shows it | evidently intended | confidence | as-written member | corrected member |
|---|---|---|---|---|---|---|
| source/cpp/database_operator.cpp:135-141 | `backup_dir` is `out_file.substr(0, out_file.find_last_of("/"))`, which is the whole path when it contains no `/` | `out_file = "backup.bin"`, or a Windows path written with `\`: `mkdir -p backup.bin` creates a directory under the output file's own name, so the file cannot be opened and backup returns false | a path without `/` has no directory part, so nothing is created and the file is opened where it is | medium, not executed | Operator.BackupDirAsWrittenIsWholePath | Operator.BackupDirIsParent |

The backup operation itself (`Operator.BackupSpec`, `Operator.DatabaseOperator.Backup`) follows the code as written. `Operator.BackupMakesOutputDirectory` shows the consequence: for such a path it hands the output path itself to `mkdir -p`. The corrected `Operator.BackupDir` is the definition that the fix would use.
