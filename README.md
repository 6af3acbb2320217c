# simple-pipeline in Dafny

A model of bit.io's example ETL pipeline, with proofs about it. The pipeline has five parts:

- `main.py` parses a command line.
- It extracts a CSV into a pandas DataFrame.
- It optionally runs one of three named transforms (NYT cases, CDC vaccinations, ACS population).
- It optionally runs a suite of data tests.
- It loads the frame into a PostgreSQL table with `to_table`: probe, truncate if present, set a statement timeout, `to_sql` with a COPY insertion method.

A second script, `sql_executor.py`, substitutes `$OWNER`/`$REPO` in a SQL file and sends each `;`-separated piece on one connection.

Modules:

- `Wrappers`: Option, Result, and one error constructor per exception the scripts raise.
- `Text`: split, join, replace, zfill, lower.
- `Decimal`: integer ↔ decimal text.
- `Frames`: cells, column-major frames, and a `DataFrame` class whose methods update it in place, as pandas assignment does.
- `Transform`, `Validate`: the transforms and the data tests.
- `Store`: the server, seen as a `Database` class. It holds a map of tables and a log of what was sent. Each statement it does not interpret is accepted or refused by a fixed verdict `accepts`.
- `Load`: `to_table`.
- `Cli`: argv parsing.
- `Etl`: `main`.
- `SqlExecutor`: the ad hoc SQL script.

Each method that changes state is tied to a specification function of the old state. The lemmas are about those functions.

Where the test file and the code disagree, the code is followed. `tests/test_transform.py` imports `_fips_cleaner`, which `transform.py` does not define. The NYT transform keeps line 11 as written: a FIPS value whose text has no `.` becomes missing. The cleaner the test expects is modelled separately as `FipsClean`. A lemma relates the two.

## Model

| member | source | states |
|---|---|---|
| Frames.ToDatetime | simple_pipeline/transform.py:9 | a missing cell stays missing; every other cell becomes a timestamp |
| Frames.AsInt | simple_pipeline/transform.py:14 | astype(int) of a cell: ints stay, whole floats convert, a text converts as `int()` reads it, missing and other cells raise |
| Frames.CastInts | simple_pipeline/transform.py:14 | a column cast succeeds iff every cell casts; the result is the cell-wise cast |
| Frames.CastInto | simple_pipeline/transform.py:47 | succeeds iff the source column exists and casts; the target column then holds the cast values |
| Frames.WithColumn | simple_pipeline/transform.py:9 | the written column reads back as the new values; every other column is unchanged |
| Frames.Filtered | simple_pipeline/transform.py:13 | keeps the column names; the row count is the number of true mask entries; every column is filtered by the mask |
| Frames.Selected | simple_pipeline/transform.py:33 | succeeds iff every key is a column; the result has exactly those columns, in that order |
| Frames.DropFirst | simple_pipeline/transform.py:44 | removes exactly the first row of every column |
| Frames.DataFrame.Assign | simple_pipeline/transform.py:9 | the frame's new contents are the old contents with the column written |
| Frames.DataFrame.AssignCast | simple_pipeline/transform.py:47-50 | on success, contents are the CastInto result; when the cast raises, the error is the same and the frame is unchanged |
| Frames.DataFrame.SetColumns | simple_pipeline/transform.py:21 | renames the columns in place; the data is kept |
| Frames.DataFrame.Take | simple_pipeline/transform.py:33 | returns a fresh frame holding the selection, or the KeyError |
| Frames.DataFrame.Loc | simple_pipeline/transform.py:13 | returns a fresh frame holding the masked rows |
| Frames.DataFrame.FromSecondRow | simple_pipeline/transform.py:44 | returns a fresh frame without the first row |
| Frames.DataFrame.Copy | simple_pipeline/validate.py:22 | returns a fresh frame with equal contents |
| Text.ZFill | simple_pipeline/transform.py:11 | pads on the left with zeros to the width; the text is kept as the suffix |
| Text.JoinOfSplit | simple_pipeline/sql_executor.py:26 | joining the pieces of a split with the separator gives back the text |
| Text.SplitOfJoin | simple_pipeline/load.py:97 | splitting a join of separator-free pieces gives back the pieces |
| Text.SplitCharPiecesFree | simple_pipeline/load.py:97 | no piece of a split contains the separator |
| Text.ReplaceAbsent | simple_pipeline/sql_executor.py:24-25 | replacing a pattern the text does not contain leaves the text unchanged |
| Text.LowerIdempotent | simple_pipeline/transform.py:21 | lowercasing twice is lowercasing once |
| Decimal.NatToTextValue | simple_pipeline/transform.py:11 | the decimal text of n is all digits and denotes n |
| Decimal.ParseIntOfText | simple_pipeline/transform.py:14 | parsing the decimal text of an integer gives the integer |
| Decimal.ParseIntSkipsSpaces | simple_pipeline/transform.py:14 | `int()` reads a text the same with any leading and trailing whitespace |
| Decimal.ParseIntGrouped | simple_pipeline/transform.py:14 | two digit runs joined by one '_' read as the digits run together |
| Decimal.ParseIntRefuses | simple_pipeline/transform.py:14 | a doubled, leading or trailing '_', a sign split from its digits, and a blank text are refused |
| Transform.ExtractBeforeLastDot | simple_pipeline/transform.py:11 | `(.*)\.` matches iff the text has a '.'; on a one-line text the group is the text before the last '.' |
| Transform.ExtractIsSearch | simple_pipeline/transform.py:11 | the group is that of the leftmost, then longest, match of `(.*)\.` with `.` not matching a newline; no group iff no match |
| Transform.NytFipsVersusClean | simple_pipeline/transform.py:11 | line 11 agrees with the cleaner on every value whose text is one line holding a '.'; it makes every value without a '.' missing; every number's text is one line |
| Transform.NytFipsOfTwoLines | simple_pipeline/transform.py:11 | on the text "1\n2.0" line 11 gives "00002" while the cleaner gives "001\n2" |
| Transform.NytFipsOnTestInputs | simple_pipeline/transform.py:11 | on the cleaner's test inputs, floats clean to five digits, and ints and texts become missing |
| Transform.FipsCleanTestCases | tests/test_transform.py:7-22 | the seven parametrised cases of the cleaner's test |
| Transform.FipsCleanCountyCode | tests/test_transform.py:7-22 | for every code below 100000, the int, float and text forms clean to the same five digits, which denote the code |
| Transform.LastFive | simple_pipeline/transform.py:46 | a text's last five characters (all of it when shorter); a non-text cell becomes missing |
| Transform.StrMap | simple_pipeline/transform.py:37 | `.str` raises AttributeError exactly on a column with cells but no text; otherwise the cell operation on every cell |
| Transform.NotPuertoRico | simple_pipeline/transform.py:13 | the mask is true exactly at rows whose state is not "Puerto Rico" |
| Transform.NytCasesCounties | simple_pipeline/transform.py:6-15 | rewrites date and fips in the caller's frame; returns what NytSpec describes, or its error |
| Transform.NytSpecOk | simple_pipeline/transform.py:6-15 | succeeds iff date, fips, state and deaths all exist and every kept deaths cell casts to int |
| Transform.NytDropsPuertoRico | simple_pipeline/transform.py:12-14 | the output's state column is the input's filtered by the mask; no Puerto Rico row is left; the row count is the number of kept rows; deaths are ints |
| Transform.NytKeepsEveryOtherRow | simple_pipeline/transform.py:13 | without a Puerto Rico row, every row is kept and the state column is unchanged |
| Transform.NytFipsColumn | simple_pipeline/transform.py:11-13 | the output's fips column is line 11's rewrite of the input's, restricted to the kept rows |
| Transform.LowerAll | simple_pipeline/transform.py:21 | every column name lowercased, in order |
| Transform.CdcInPlace | simple_pipeline/transform.py:21 | the caller's frame keeps its data, and its column names are lowercased |
| Transform.CdcVaccinesCounties | simple_pipeline/transform.py:18-38 | lowercases the caller's column names; returns what CdcSpec describes, or its error |
| Transform.CdcShape | simple_pipeline/transform.py:18-38 | succeeds iff all nine kept columns exist after lowercasing and fips holds a text or no cell; otherwise AttributeError when only the text is missing; the output has exactly those columns in order, the same row count, and a zero-padded fips column |
| Transform.AcsPopulationCounties | simple_pipeline/transform.py:41-58 | leaves the caller's frame alone; returns what AcsSpec describes, or its error |
| Transform.CastAndSelect | simple_pipeline/transform.py:47-57 | the four casts, then the kept columns, as AcsCasts describes |
| Transform.AcsShape | simple_pipeline/transform.py:41-58 | drops exactly the first row; keeps exactly the five listed columns; fips is the last five characters of each remaining GEO_ID |
| Transform.AcsGeoIdText | simple_pipeline/transform.py:44-46 | a GEO_ID column left with cells but no text after the first row is dropped raises AttributeError; success implies it holds a text or no cell |
| Transform.Apply | simple_pipeline/main.py:63 | runs the named transform: its in-place effect and its result |
| Validate.LessEq | simple_pipeline/validate.py:33 | numbers compare by value; a missing value compared with a number or a missing value is false; any other pair raises, a missing value against a text included; true iff both are numbers in order |
| Validate.LessEqMissing | simple_pipeline/validate.py:33 | a missing value on either side gives false against a number or a missing value and raises against anything else |
| Validate.AllLessEq | simple_pipeline/validate.py:33 | `(xs <= ys).all()`: raises iff some pair raises; true iff every pair is true |
| Validate.RangeTestMeaning | simple_pipeline/validate.py:41-43 | raises iff some cell is neither a number nor missing; true iff every cell is a number in [lo, hi] |
| Validate.DedupKeepsAll | simple_pipeline/validate.py:38 | drop_duplicates keeps every row iff no two rows are equal |
| Validate.UniqueRecordsTest | simple_pipeline/validate.py:36-38 | returns iff both date and fips exist |
| Validate.UniqueRecordsMeaning | simple_pipeline/validate.py:36-38 | true iff no two rows share both date and fips |
| Validate.CasesVsDeathsMeaning | simple_pipeline/validate.py:31-33 | true iff every row's deaths and cases are numbers with deaths <= cases |
| Validate.RangeChecksMeaning | simple_pipeline/validate.py:46-53 | true iff every case count is in [0, 10M], and likewise every death count in [0, 100K] |
| Validate.Results | simple_pipeline/validate.py:20-26 | when no test raises, one result per test, each that test's outcome |
| Validate.ResultsAfterError | simple_pipeline/validate.py:21-22 | once a prefix of the suite raises, the whole run raises the same error |
| Validate.TestData | simple_pipeline/validate.py:6-28 | the loop over the tests, each on a copy, returns TestDataSpec of the frame |
| Validate.TestDataMeaning | simple_pipeline/validate.py:27-28 | true iff every test is true; false iff every test returns and one is false; an empty suite passes |
| Validate.ResultsRaise | simple_pipeline/validate.py:21-22 | when the run raises, some test raises |
| Validate.NytSuiteMeaning | simple_pipeline/validate.py:57-62 | the NYT suite passes iff all four checks pass |
| Validate.NytSuiteFails | simple_pipeline/validate.py:57-62 | when all four checks return and the first is false, the suite fails without raising |
| Validate.MoreDeathsThanCasesFails | simple_pipeline/validate.py:31-33 | a frame with more deaths than cases fails the NYT suite |
| Store.CopySpec | simple_pipeline/load.py:36 | COPY succeeds iff the table exists with exactly these columns; it then appends the rows; on failure nothing changes |
| Store.Database.TableExists | simple_pipeline/load.py:39-61 | true iff the table is there; the probe is logged and the tables are unchanged |
| Store.Database.Truncate | simple_pipeline/load.py:64-79 | when the server takes the statement the table keeps its columns and loses every row; when it refuses it the call raises and nothing changes |
| Store.Database.Execute | simple_pipeline/load.py:109 | the statement is logged; the result is the server's verdict; the tables are unchanged |
| Store.Database.CopyFrom | simple_pipeline/load.py:36 | the new tables and the result are CopySpec's; the COPY is logged |
| Load.ParseDestinationMeaning | simple_pipeline/load.py:97 | a destination that parses is a dot-free schema and a dot-free table joined by one '.' |
| Load.ParseDestinationOfParts | simple_pipeline/load.py:97 | a dot-free schema and table joined by '.' parse back to that schema and table |
| Load.ColumnListInjective | simple_pipeline/load.py:33 | different lists of quote-free names give different column lists |
| Load.CopySqlDeterminesTarget | simple_pipeline/load.py:33-35 | for quote-free identifiers, equal COPY statements name the same table and columns |
| Load.TruncateSqlDeterminesTarget | simple_pipeline/load.py:76-79 | for quote-free identifiers, equal TRUNCATE statements name the same schema and table |
| Load.UnescapedQuoteIsAmbiguous | simple_pipeline/load.py:33 | a '"' inside a name makes one column read as two |
| Load.InsertCopy | simple_pipeline/load.py:13-36 | one COPY of the rows into the table, naming the frame's columns |
| Load.ToSql | simple_pipeline/load.py:110-116 | fails on an existing table with 'fail'; otherwise creates the table when new, then copies, except that a frame without rows sends no COPY |
| Load.TimedLoad | simple_pipeline/load.py:107-116 | a new connection, the timeout, then to_sql, as TimedLoadSpec describes |
| Load.LoadInto | simple_pipeline/load.py:101-116 | probe, truncate when the table exists, stop if the TRUNCATE is refused, then the timed load |
| Load.ToTable | simple_pipeline/load.py:82-116 | the tables, the log and the result are ToTableSpec's |
| Load.NoConnectionNoEffect | simple_pipeline/load.py:95-96 | without a connection string nothing is sent and nothing changes |
| Load.BadDestinationNoEffect | simple_pipeline/load.py:97 | raises the destination error iff the destination does not parse; then nothing is sent |
| Load.ToTableResult | simple_pipeline/load.py:94-116 | succeeds iff the TRUNCATE of an existing table and the timeout are accepted and the table is new, has the frame's columns, or the frame has no rows; the table then holds exactly the frame's rows, and no other table changes |
| Load.ToTableIdempotent | simple_pipeline/load.py:101-116 | loading the same frame twice leaves the tables of one load; the second load succeeds iff the TRUNCATE is accepted |
| Load.MismatchedTableLosesRows | simple_pipeline/load.py:101-103 | an existing table with other columns is truncated before the COPY fails: it is left empty; with no rows there is no COPY, so no error, and the table is still empty; a refused TRUNCATE raises and keeps the rows |
| Load.ToTableTrace | simple_pipeline/load.py:98-116 | probe first; TRUNCATE sent iff the table exists, and nothing after a refused one; otherwise the last connection sends the timeout, CREATE iff the table is new, then the COPY iff the frame has rows |
| Cli.KeyedOptions | simple_pipeline/main.py:90 | no entry is a flag name |
| Cli.ZipToMap | simple_pipeline/main.py:98 | the keys of the dict are exactly the option names |
| Cli.OptionsAndPositionalsPartition | simple_pipeline/main.py:87-91 | every entry is an option or a positional; an option name is an entry with '-' dropped |
| Cli.OptionNamesAppend | simple_pipeline/main.py:87 | the option names keep the command line's order: those of a concatenation are those of each part, in turn |
| Cli.PositionalsAppend | simple_pipeline/main.py:91 | the positionals keep the command line's order: those of a concatenation are those of each part, in turn |
| Cli.FlagsMeaning | simple_pipeline/main.py:87-89 | each flag is set iff `-local_source` (or `-validate_data`) is on the command line |
| Cli.KeyedOptionsMembers | simple_pipeline/main.py:90 | the keyed options are exactly the options that are not flags |
| Cli.ParseCommandMeaning | simple_pipeline/main.py:87-98 | parses iff there are two more positionals than keyed options; source and destination are the last two positionals; the option keys are the keyed options |
| Cli.ZipToMapPairs | simple_pipeline/main.py:98 | a name not repeated later is bound to the positional at its own index |
| Cli.ZipToMapLastWins | simple_pipeline/main.py:98 | of two equal names, the later value is kept |
| Cli.ParseUsualCommand | simple_pipeline/main.py:87-98 | the usual invocation parses to its source, destination, flag and name |
| Cli.PairsByPositionNotAdjacency | simple_pipeline/main.py:93-98 | options take positionals by position: when the option comes after the source, the source text becomes its value |
| Etl.Transformed | simple_pipeline/main.py:60-67 | no name: the frame itself; a name that is not a transform: the not-found error |
| Etl.TransformStage | simple_pipeline/main.py:60-67 | delivers what Transformed describes |
| Etl.ValidateStage | simple_pipeline/main.py:69-77 | returns Validated: skipped unless both a name and the flag are given; raises when the suite is unknown or fails |
| Etl.RunEtl | simple_pipeline/main.py:33-80 | the tables, the log and the result are EtlSpec's |
| Etl.LoadOnlyAfterStages | simple_pipeline/main.py:53-80 | nothing is sent unless extract and transform succeeded and validation was skipped or passed |
| Etl.UnknownTransformStops | simple_pipeline/main.py:60-65 | an unknown transform name raises with nothing sent |
| Etl.NoNameLoadsExtracted | simple_pipeline/main.py:60-80 | without a name, the extracted frame is loaded as it is |
| Etl.OnlyNytHasSuite | simple_pipeline/main.py:69-75 | validating a CDC or ACS load raises before anything is sent |
| SqlExecutor.CommandsRejoin | simple_pipeline/sql_executor.py:24-26 | the pieces rejoined with ';' are the substituted script; no piece holds ';' |
| SqlExecutor.OwnerValueIsRewritten | simple_pipeline/sql_executor.py:24-25 | for every owner and repository, a script `$OWNER` becomes the owner with each `$REPO` in it replaced by the repository |
| SqlExecutor.OwnerNamedRepo | simple_pipeline/sql_executor.py:24-25 | an owner value `$REPO` comes out as the repository name |
| SqlExecutor.DollarFreeUnchanged | simple_pipeline/sql_executor.py:24-25 | a script without '$' is not changed by the substitution |
| SqlExecutor.ExecuteAll | simple_pipeline/sql_executor.py:30-32 | the loop logs and returns ExecSpec of the pieces; the tables are unchanged |
| SqlExecutor.ExecSpecMeaning | simple_pipeline/sql_executor.py:30-32 | ends normally iff every non-empty piece is accepted, sending exactly the non-empty pieces in order; otherwise stops at the first refused one |
| SqlExecutor.TrailingNewlineIsKept | simple_pipeline/sql_executor.py:26 | a script ending in ";\n" leaves a last piece "\n" |
| SqlExecutor.TrailingNewlineIsSent | simple_pipeline/sql_executor.py:30-32 | that piece is not empty, so it is sent as a statement |
| SqlExecutor.RunScript | simple_pipeline/sql_executor.py:19-32 | the log and the result are ScriptSpec's |
| SqlExecutor.TimeoutFirst | simple_pipeline/sql_executor.py:28-32 | one connection, the timeout first, and no further connection |
| SqlExecutor.ScriptArgs | simple_pipeline/sql_executor.py:36-40 | exactly three arguments unpack, in order; any other count raises |
| SqlExecutor.ScriptMain | simple_pipeline/sql_executor.py:34-43 | a wrong argument count raises before anything is sent; otherwise it runs the script |

## Left out

- Logging (`logger.info`/`logger.error`, the format and level set up in main.py) is not modelled. The suite's failure messages are kept only as data.
- The extract step is passed in as two functions, `readLocal` and `readRemote`. The module extract.py is not part of this model.
- The environment is passed in as a parameter. `os.getenv('PG_CONN_STRING')` and `load_dotenv` become an optional connection string; the file read of sql_executor.py becomes a `read` function.
- The CSV text of the COPY is not modelled. Rows are copied as cell values; quoting and encoding are not modelled.
- Statement timeouts are sent but not timed.
- Store.Database.Open: connecting never fails here, and neither does the existence probe (Store.Database.TableExists). A refused connection or probe would raise in to_table before anything is changed; the TRUNCATE, the timeout and the COPY can each be refused.
- Frames.GetColumn: column names are taken to be distinct. With a repeated name a lookup finds only the first column of that name; pandas gives a frame of all of them, which has no `.str` and which `pd.to_datetime` does not read as dates.
- Frames.WithColumn: with a repeated name only the first column of that name is written; pandas writes every one.
- Frames.Selected: with a repeated name the selection holds one column per key; pandas holds every column of that name.
- Transform.CdcShape: a frame whose names repeat after lowercasing (both "FIPS" and "fips", say) is said to succeed with nine columns; pandas selects ten and raises AttributeError at the zfill. Duplicate column names are not modelled.
- Connection closing is not modelled. Transactions and autocommit are not modelled; each statement's effect counts at once.
- The CREATE TABLE that pandas issues is logged with its column names only, not their SQL types.
- The existence check inside `to_sql` is folded into `if_exists`; it is not logged as a query of its own.
- The effect of the ad hoc SQL of sql_executor.py on the tables is not modelled. Each command is only logged, and accepted or refused by the server's verdict. Whether the server takes an all-whitespace piece such as "\n" is left to that verdict.
- Store.CopySpec: the server's own column matching is simplified. An append into an existing table needs the same column list, in the same order; otherwise the COPY fails.
- Etl.Transformed: `hasattr(transform, name)` and `hasattr(validate, name)` accept any attribute of those modules (`pd`, `range_test`, `logger`). Here they are explicit maps of the three transforms and the one suite; any other name raises the not-found error.
- Etl.ValidateStage: `assert` does nothing under `python -O`. The model always applies it.
- Floating point: floats are modelled only when they hold a whole number. Floating-point arithmetic and a fractional FIPS or count are not modelled.
- Frames.ToDatetime: a timestamp is kept opaque, as the cell it came from. `pd.to_datetime` raising on unparseable text is not modelled. Two texts that denote the same day count as different timestamps in `drop_duplicates`.
- Frames.AsInt: integers are unbounded. The int64 overflow of `astype(int)` is not modelled. Of `int()`'s text syntax, ASCII whitespace around the number, a sign and '_' between digits are modelled; non-ASCII whitespace and non-ASCII decimal digits, which `int()` also accepts, raise here.
- Frames.Render: a whole float is written as its digits and ".0". Python writes a float of 1e16 or more in exponent notation ("1e+16"), which holds no '.', so line 11 of transform.py would make such a cell missing; doubles are not modelled, so the model does not capture this.
- Column dtypes are not modelled. pandas decides whether `.str` may be used from the column's dtype and inferred type; here a column may use it exactly when it has no cells or holds a text. A column of only missing cells, which pandas reads as floats, raises accordingly.
- Text.ZFill: pads on the left only. It does not move a leading '+'/'-' sign as `str.zfill` does; FIPS codes have no sign.
- Text.Lower: lowercases ASCII letters only.
- Validate.LessEq: a text compared with a text raises here; pandas would compare two texts lexicographically. A missing value compared with a text or a timestamp also raises here; pandas gives False on two object columns and raises on a float column against an object column, and the model does not track dtypes. The count columns hold numbers (the NYT transform makes every deaths cell an int, and range_test compares with int bounds), so neither case arises in the suite.
