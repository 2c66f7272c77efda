# CSV to MySQL ETL: transform and load stages in Dafny

This project models the two central stages of a small batch ETL pipeline. The pipeline reads a
call-centre CSV export, reshapes it into four tables, and inserts them into MySQL.

- **Transform stage** (`etl_pipeline/transform.py`):
  - `clean_swedish_numeric_string` rewrites Swedish-formatted amounts ("-1.234,56 kr").
  - `parse_agent` splits the "Name (12345678)" Agent field.
  - `transform_to_users` builds the deduplicated `users` table.
  - Three builders produce the `daily_performance`, `daily_retention` and `daily_nps` fact tables:
    - they copy mapped CSV columns next to `user_id` and `datum`;
    - they coerce integer and decimal columns with `pd.to_numeric`/`astype("Int64")`.
  - `transform_csv` orchestrates them. It rejects an empty frame and a missing Agent column,
    strips column labels in place, treats any exception as fatal, and rejects a run that
    extracted nothing.
- **Load stage** (`etl_pipeline/load.py`):
  - `prepare_dataframe_for_mysql` replaces the missing markers with `None`.
  - `build_insert_query` builds the `INSERT IGNORE` statement.
  - `prepare_row_data` projects a row onto the requested columns.
  - `load_to_mysql` is a commit/rollback protocol on a connection:
    - the connection is a class whose methods append to a trace of calls;
    - a fault plan says at which call (cursor, `executemany`, commit) it raises, and with which
      class of error, so every failure point is covered by quantifying over plans.

Modules:

| module | contents |
|---|---|
| `Wrappers` | `Option` and `Result`. |
| `Text` | Python's whitespace stripping, digit strings, joining and character counts. |
| `Decimals` | Exact decimals and the text form of a number that `pd.to_numeric` accepts. |
| `Frames` | Raw frames and typed tables. |
| `Numeric` | `pd.to_numeric(errors="coerce")` and `astype("Int64")`. |
| `Swedish` | The cleaner. |
| `Agents` | The Agent parser. |
| `Users` | The users table. |
| `Facts` | The three builders. |
| `Transform` | `transform_csv`. |
| `Load` | The loader. |

Frames keep pandas' positional rows with possibly repeated labels. Stripping labels (transform.py:369)
can merge two of them. `row.get` then returns a `Series`, whose truth test raises inside the `try` of
`transform_csv`. The model reports this as the crash `DuplicateColumn`.

Behaviour of the code that the model keeps as written:

- **`build_insert_query`** (load.py:44) emits `INSERT IGNORE`. An existing row is kept, and a reload
  does not update it.
- **`load_to_mysql`** loads one table per call, with one commit. Four calls make four separate
  transactions.
- **`astype("Int64")`** raises on a count with a fractional part, and `transform_csv` then exits
  (transform.py:191, 453-457). The count does not become null.
- **`clean_swedish_numeric_string`** removes every "kr" anywhere in the text (transform.py:25), not
  only a trailing currency marker.
- **The builders** log a warning for negative `samtal` values (transform.py:199-203) but keep them.
  No other count is checked.

## Model

| member | source | states |
|---|---|---|
| Swedish.CleanSwedishNumeric | etl_pipeline/transform.py:12-42 | Non-text cells come back unchanged. Text comes back as text with no comma and exactly the same digits in the same order. |
| Swedish.CleanKeepsDigits | etl_pipeline/transform.py:24-40 | The rewrite never adds, drops or reorders a digit. |
| Swedish.CleanNoComma | etl_pipeline/transform.py:35-36 | No comma survives the rewrite. |
| Swedish.CleanSign | etl_pipeline/transform.py:27-40 | The result starts with '-' exactly when the text, once "kr" is removed, stripped and its dots are deleted, starts with '-'. A stripped input starting with '-' always gives a result starting with '-'. |
| Swedish.SwedishAmountRoundTrip | etl_pipeline/transform.py:12-42 | For every well-grouped Swedish amount (optional minus, dot-grouped digits, comma, decimals, optional " kr"), cleaning then `to_numeric` yields exactly the intended signed decimal. |
| Swedish.CleanSwedishText | etl_pipeline/transform.py:24-40 | The cleaned text of such an amount is the sign, the ungrouped digits, '.', and the decimals. |
| Swedish.CleanNotIdempotent | etl_pipeline/transform.py:32-33 | Cleaning is not idempotent: a cleaned amount "1234.5" cleaned again loses its decimal point and becomes "12345". |
| Swedish.CleanOfPlainDecimal | etl_pipeline/transform.py:32-33 | A plain dotted decimal "12.5" is turned into "125", because every dot is taken as a thousands separator. |
| Agents.ParseAgent | etl_pipeline/transform.py:58-60 | A missing or non-text value yields `(None, None)`. |
| Agents.ParseAgentIffMatches | etl_pipeline/transform.py:62-67 | Parsing succeeds exactly when the text matches `^(.*)\s+\((\d+)\)\s*$`, stated as a witness predicate over the match positions. |
| Agents.MatchComplete | etl_pipeline/transform.py:62-71 | Whenever the pattern matches, the parser returns the stripped group 1 as the name and the decimal value of group 2 as the id. |
| Agents.MatchSound | etl_pipeline/transform.py:62-67 | Whenever the parser succeeds, the pattern matches the text. |
| Agents.ParseAgentRoundTrip | etl_pipeline/transform.py:45-73 | Formatting "name (id)" and parsing it gives back the stripped name and the id, for every name without a newline. |
| Agents.NoSpaceBeforeParen | etl_pipeline/transform.py:62-67 | "Name(5)" is rejected: the pattern demands whitespace before '('. |
| Agents.NoDigitsInParens | etl_pipeline/transform.py:62-67 | "Name (x)" is rejected. |
| Agents.EmptyName | etl_pipeline/transform.py:62-73 | " (5)" parses to the empty name and id 5. |
| Agents.DigitRunStart | etl_pipeline/transform.py:62 | Finds the start of the maximal trailing run of digits. |
| Agents.DigitRunStartUnique | etl_pipeline/transform.py:62 | That start is the only position with this property. |
| Numeric.ToNumeric | etl_pipeline/transform.py:191 | `pd.to_numeric(errors="coerce")`: a missing value gives nothing, numbers pass through, and text is parsed as a decimal. |
| Numeric.IntCell | etl_pipeline/transform.py:191 | `to_numeric(...).astype("Int64")` succeeds exactly when the number is missing or whole. It then gives `pd.NA` or an integer, and otherwise raises. |
| Numeric.IntCellValue | etl_pipeline/transform.py:191 | The integer produced equals the parsed number. |
| Numeric.IntCellIdempotent | etl_pipeline/transform.py:191 | Converting an already converted cell changes nothing. |
| Numeric.IntCellOfNegative | etl_pipeline/transform.py:191 | A negative whole count is kept as a negative integer. |
| Numeric.DecimalCell | etl_pipeline/transform.py:197 | A decimal column cell becomes the parsed decimal, or `NaN` exactly when parsing fails. |
| Decimals.ParseDecimalChars | etl_pipeline/transform.py:197 | Text that `to_numeric` accepts has only digits, at most one point and a leading sign. Only a leading '-' makes it negative. |
| Decimals.ParsePointed | etl_pipeline/transform.py:197 | "[-]whole.frac" parses to the exact decimal of its parts. |
| Decimals.ParseInteger | etl_pipeline/transform.py:191 | "[-]digits" parses to the integer of its digits. |
| Decimals.FractionDigitsNotWhole | etl_pipeline/transform.py:191 | A decimal with a non-zero fractional digit is not whole. |
| Users.DedupById | etl_pipeline/transform.py:101-103 | `drop_duplicates(subset=["user_id"], keep="first")`: the same set of ids, and each kept agent is the first one with its id. Kept agents are in the order of their first occurrence. |
| Users.DedupDistinctIds | etl_pipeline/transform.py:103 | The deduplicated ids are pairwise distinct. |
| Users.DedupKeepsFirst | etl_pipeline/transform.py:103 | Every first occurrence of an id is kept. |
| Users.DedupOfDistinct | etl_pipeline/transform.py:103 | Deduplicating distinct ids changes nothing. |
| Users.DedupIdempotent | etl_pipeline/transform.py:103 | Deduplicating twice is deduplicating once. |
| Users.UsersTable | etl_pipeline/transform.py:76-108 | The users table fails exactly when the frame has rows and a duplicated Agent label. Otherwise it has columns `user_id`, `namn` and well-formed rows. |
| Users.UsersDistinct | etl_pipeline/transform.py:101-103 | No two user rows share a `user_id`. |
| Users.UsersCover | etl_pipeline/transform.py:91-94 | Every row whose Agent parses has its id in the users table. |
| Users.UsersFromFirst | etl_pipeline/transform.py:91-103 | Each user row is the name and id of the first CSV row carrying that id. |
| Users.TransformToUsers | etl_pipeline/transform.py:76-108 | The loop over rows returns exactly `UsersTable`. |
| Facts.AgentOf | etl_pipeline/transform.py:149 | `parse_agent(row.get("Agent", ""))` raises exactly on a duplicated Agent label. With no Agent column it gives nothing; otherwise it parses the first Agent cell. |
| Facts.SourceCell | etl_pipeline/transform.py:157-162 | An absent column gives `None`; a unique column gives its cell. |
| Facts.MapRow | etl_pipeline/transform.py:157-162 | Mapping a row raises exactly when a mapped source label is duplicated. Otherwise it gives one cell per mapping entry, each the source cell. |
| Facts.MapRowLoop | etl_pipeline/transform.py:157-162 | The loop over the column mapping computes exactly that: the error case and every mapped cell. |
| Facts.ParsedRows | etl_pipeline/transform.py:148-152 | The parsed rows are exactly the rows whose Agent parses, in row order, each with its agent. |
| Facts.CoerceColumn | etl_pipeline/transform.py:189-191 | Coercing one column succeeds exactly when every cell of it converts. It then replaces that column's cells and nothing else. |
| Facts.CoerceColumnsCells | etl_pipeline/transform.py:189-197 | Coercing a list of columns succeeds exactly when every cell of a listed column converts. The result holds the converted cells there and the original cells elsewhere. |
| Facts.CoerceColumnsErr | etl_pipeline/transform.py:189-191 | Once a column has raised, the rest of the loop still ends in that error. |
| Facts.CoerceLoop | etl_pipeline/transform.py:189-197 | The `for col in ...` loop computes `CoerceColumns`. |
| Facts.CoercedCells | etl_pipeline/transform.py:189-197 | Both coercion loops, in either order, succeed exactly when every cell converts as its column demands. Each cell is then its final converted value. |
| Facts.RawRowsAgentDuplicated | etl_pipeline/transform.py:148-149 | A duplicated Agent label makes the row walk raise. |
| Facts.RawRowsSourceDuplicated | etl_pipeline/transform.py:157-159 | A duplicated mapped source label raises as soon as one row's Agent parses. |
| Facts.RawRowsNoCrash | etl_pipeline/transform.py:148-164 | Without duplicated labels, the row walk yields one raw fact row per parsed row. |
| Facts.CollectRows | etl_pipeline/transform.py:146-164 | The row loop of a builder computes `RawRows`. |
| Facts.FactTableCells | etl_pipeline/transform.py:111-208 | A builder succeeds exactly when every mapped cell of every parsed row converts. With no parsed row the table is empty. Otherwise row k is: the k-th parsed agent's id, the run date, then each mapped source cell converted per its column. |
| Facts.BuildFactTable | etl_pipeline/transform.py:111-208 | The builder's row loop and coercion loops compute `FactTable`. |
| Facts.PerformanceSpecValid | etl_pipeline/transform.py:128-187 | The performance column lists are consistent: distinct table columns, and no column both integer and decimal. `user_id` and `datum` are never coerced. |
| Facts.RetentionSpecValid | etl_pipeline/transform.py:227-257 | The same for the retention builder. |
| Facts.NpsSpecValid | etl_pipeline/transform.py:288-318 | The same for the NPS builder. |
| Facts.TransformToDailyPerformance | etl_pipeline/transform.py:111-208 | Computes the performance fact table. |
| Facts.TransformToDailyRetention | etl_pipeline/transform.py:211-269 | Computes the retention fact table. |
| Facts.TransformToDailyNps | etl_pipeline/transform.py:272-333 | Computes the NPS fact table. |
| Facts.NegativeSamtalKept | etl_pipeline/transform.py:199-203 | A negative `samtal` is only logged: it is kept as a negative integer. |
| Facts.NegativeCountKept | etl_pipeline/transform.py:189-191 | Any integer column keeps a negative whole count. |
| Facts.FractionalCountRaises | etl_pipeline/transform.py:191 | A `samtal` with a non-zero fractional part makes the performance builder raise. |
| Facts.SwedishAmountInPerformance | etl_pipeline/transform.py:193-197 | A Swedish-formatted amount in a performance decimal column becomes its exact signed value. |
| Facts.CommaNotCleanedInRetention | etl_pipeline/transform.py:259-261 | Retention decimals are not cleaned: a comma decimal becomes `NaN`. |
| Facts.NegativeNpsKept | etl_pipeline/transform.py:316-326 | A negative NPS score is kept as its exact negative decimal. |
| Transform.DataFrame.StripColumns | etl_pipeline/transform.py:368-369 | Strips every column label in place and leaves the rows alone. |
| Transform.StrippedLabels | etl_pipeline/transform.py:369 | Label j of the result is label j stripped of surrounding whitespace. |
| Transform.Builders | etl_pipeline/transform.py:383-408 | The try block fails only by a builder's crash or by `NoData`. A duplicated Agent label on a non-empty frame always crashes. |
| Transform.Collect | etl_pipeline/transform.py:403-408 | `NoData` exactly when all three fact tables and the users table are empty. Otherwise the four tables are returned. |
| Transform.RunBuilders | etl_pipeline/transform.py:383-401 | Running the four builders in order gives `Builders`. |
| Transform.TransformCsvSpec | etl_pipeline/transform.py:336-457 | Empty input exactly when the frame is empty. No Agent column exactly when none of the stripped labels is "Agent". A duplicated stripped "Agent" label ends in a crash. |
| Transform.TransformCsv | etl_pipeline/transform.py:336-457 | Computes `TransformCsvSpec` and leaves the frame's labels stripped, unless it was empty. |
| Transform.UsersEmptyIff | etl_pipeline/transform.py:389-391 | The users table is empty exactly when no row's Agent parses. |
| Transform.FactRowCount | etl_pipeline/transform.py:146-166 | A fact table has one row per parsed row. |
| Transform.NoDataIff | etl_pipeline/transform.py:404-408 | When no builder crashes, the run ends with `NoData` exactly when no Agent parses. |
| Transform.OutputsConsistent | etl_pipeline/transform.py:451 | A successful run has a non-empty users table and three fact tables of equal length. Every fact row's `user_id` is in the users table. |
| Transform.UserIdsKnown | etl_pipeline/transform.py:386-401 | Every fact row's `user_id` appears in the users table of the same frame. |
| Load.InsertQuery | etl_pipeline/load.py:32-44 | The query starts with "INSERT IGNORE INTO " and the table name, and ends with ')'. |
| Load.InsertQueryArity | etl_pipeline/load.py:42-44 | With names free of '%' and ',', the query has one `%s` per column and 2(n-1) commas. |
| Load.PercentCount | etl_pipeline/load.py:43 | One placeholder per column. |
| Load.CommaCount | etl_pipeline/load.py:42-43 | n-1 separators in the column list and n-1 in the placeholder list. |
| Load.PrepareForMysql | etl_pipeline/load.py:15-29 | Same shape. Every missing marker becomes `None` and every other cell is unchanged. |
| Load.PrepareForMysqlNormal | etl_pipeline/load.py:26-28 | No `NaN` or `pd.NA` remains, and preparing twice is preparing once. |
| Load.ParamOf | etl_pipeline/load.py:61 | `row[col]` on a label the row has is the cell when the label is unique, and a `Series` with one cell per occurrence when it is repeated (its contents are given by `Load.ParamOfSeries`). An absent label raises `KeyError` in the source; the model requires the label to be present. |
| Load.ParamOfSeries | etl_pipeline/load.py:61 | A repeated label gives the `Series` of the row's cells at the label's positions, one cell per position and in column order. The positions are exactly the label's columns, by the three `Positions` lemmas. |
| Load.PositionsLabelled | etl_pipeline/load.py:61 | Every position listed for a label is a column carrying that label. |
| Load.PositionsCover | etl_pipeline/load.py:61 | Every column carrying the label is listed among its positions. |
| Load.PositionsIncreasing | etl_pipeline/load.py:61 | The positions of a label are listed in column order, strictly increasing. |
| Load.SelectAtPositions | etl_pipeline/load.py:61 | The cells under a label are the row's cells at the label's positions, one per position. |
| Load.RowData | etl_pipeline/load.py:47-66 | For requested columns the row has, one parameter per requested column, in order. |
| Load.RowDataProjects | etl_pipeline/load.py:59-66 | With distinct labels and every requested column present, the tuple is the row's cells in the requested order. |
| Load.PrepareRowData | etl_pipeline/load.py:59-66 | The loop computes `RowData`. |
| Load.TableData | etl_pipeline/load.py:130 | One tuple per row. |
| Load.PrepareAllRows | etl_pipeline/load.py:130 | The list comprehension computes `TableData`. |
| Load.ResolveTarget | etl_pipeline/load.py:99-102 | The table name and columns default to the configured ones only when not given. |
| Load.MissingColumns | etl_pipeline/load.py:113 | Exactly the requested columns absent from the frame, each as often as it was requested. The list is empty exactly when every requested column is present. |
| Load.Validated | etl_pipeline/load.py:104-110 | The validated frame is used when validation succeeds. The input frame is used when it fails or is not asked for. |
| Load.ValidationFailureIgnored | etl_pipeline/load.py:105-110 | A validation that raises leaves the load exactly as if no validation had been asked for. |
| Load.SessionProtocol | etl_pipeline/load.py:121-150 | Success exactly when nothing raises, with one `executemany`, one commit and the row count. A commit happens exactly on success. The cursor is closed exactly when it was opened, once, as the last call. |
| Load.SessionFailure | etl_pipeline/load.py:140-147 | On any failure, the error is re-raised (connector error) or wrapped in `ValueError` (anything else). There is exactly one rollback, right after the failing call, and nothing is committed. |
| Load.LoadRun | etl_pipeline/load.py:112-150 | Missing columns raise `ValueError` before the connection is touched. Otherwise the session runs the built query over the prepared rows. |
| Load.LoadRunOutcome | etl_pipeline/load.py:112-150 | The connection is untouched exactly when a column is missing. Success exactly when all columns are present and nothing raises. On success, the rows executed are one tuple per frame row. |
| Load.Connection.Cursor | etl_pipeline/load.py:124 | Fails exactly at a cursor fault, and records the call. |
| Load.Connection.ExecuteMany | etl_pipeline/load.py:133 | Fails exactly at an execute fault, and records the query and the rows. |
| Load.Connection.Commit | etl_pipeline/load.py:134 | Fails exactly at a commit fault, and records the call. |
| Load.Connection.Rollback | etl_pipeline/load.py:142 | Records the rollback. |
| Load.Connection.Close | etl_pipeline/load.py:148-150 | Records the close. |
| Load.RunSession | etl_pipeline/load.py:121-150 | The try/except/finally block on a connection returns the session's result and appends exactly its calls to the trace. |
| Load.LoadToMysql | etl_pipeline/load.py:69-150 | `load_to_mysql` returns the specified result and appends exactly the specified calls to the connection's trace. |

## Left out

- The audit files written by `transform_csv` (transform.py:410-443) and all logging: file output only, with no effect on the returned tables.
- `sys.exit(1)` is modelled as an error result (`Fatal`), not as ending the process.
- `date.today()` is a parameter of `TransformCsv`: it reads the clock.
- Floats: `pd.to_numeric` yields binary floats, and the model uses exact decimals. Rounding is not modelled.
- Numeric.ToNumeric: accepts only an optional '+' or '-' followed by digits with at most one point among them, at least one digit in all (so ".5" and "5." parse). Surrounding whitespace, exponents, "inf" and "nan" are not modelled, and text using them is treated as unparseable.
- Numeric.IntCell: the `Int64` range is not enforced, so an out-of-range count is not an error in the model.
- Agents.ParseAgent: `\d` is taken as the ASCII digits only. The other Unicode decimal digits that `re` also accepts are not modelled. `\s` is modelled in full, as Python's `str.isspace` set.
- Swedish.CleanSign: stated relative to the text after dots are removed, because ".-5" cleans to "-5". The simpler claim "the result starts with '-' exactly when the stripped input does" is false.
- Load.PrepareRowData: a requested column the row lacks makes `row[col]` raise `KeyError`. The model requires every requested column to be present, which `load_to_mysql` guarantees by its check at load.py:113-116.
- Load.MissingColumns: the order of the list is stated only through the multiset and membership facts, not as a sequence equation.
- Load.PrepareRowData: the `datetime64` to `date` conversion (load.py:63-64) is not modelled. The date column is already a `date` in the tables the transform stage produces.
- Load.PrepareForMysql: the dtype changes `where()` can cause (for example an `Int64` column becoming `object`) are not modelled, only the cell values.
- Load.Connection.Rollback and Load.Connection.Close: modelled as never raising, since an error there would replace the original exception.
- `INSERT IGNORE` conflict handling and the server's row count are not modelled. The row count is a parameter of the connection, an `int` that may be -1 as the connector reports it, for example when `executemany` is given no rows and sends nothing.
- `validate_load` (validation/schemas.py) is not part of this model. Its outcome is a parameter: the validated table, or nothing when it raises.
- `DB_TABLE_NAME` and `DB_COLUMNS` come from `dev.config`, which is not part of this model. They are a `LoadConfig` parameter.
- In `load_to_mysql` the query and the row tuples are built after `cursor()` (load.py:124-130). They cannot raise in the model, so the model computes them up front.
- `extract.py`, `main.py`, the `db/` helpers and the `validation/` package are not part of this model.
