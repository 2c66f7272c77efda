/** The single-table loader (`etl_pipeline/load.py`): it checks that the
    requested columns exist, turns missing values into `None`, builds one
    `INSERT IGNORE` statement and sends every row through one
    `executemany`, committing on success and rolling back on any error.
    The database connection is a class that records the calls it receives;
    which call fails, if any, is fixed when the connection is made, so every
    failure point is covered by quantifying over connections. */
module Load {
  import opened Wrappers
  import opened Text
  import opened Frames

  // ---------------------------------------------------------------------
  // build_insert_query

  /** `", ".join(["%s"] * n)`. */
  function Placeholders(n: nat): string {
    Join(Repeat("%s", n), ", ")
  }

  /** `build_insert_query(table_name, columns)`. */
  function InsertQuery(table: string, columns: seq<string>): (q: string)
    ensures |q| >= |"INSERT IGNORE INTO "| + |table| && q[..|"INSERT IGNORE INTO "|] == "INSERT IGNORE INTO "
    ensures q[|"INSERT IGNORE INTO "|..|"INSERT IGNORE INTO "| + |table|] == table
    ensures q[|q| - 1] == ')'
  {
    "INSERT IGNORE INTO " + table + " (" + Join(columns, ", ") + ") VALUES (" + Placeholders(|columns|) + ")"
  }

  /** Joining parts free of `c` with a separator holding one `c` gives one
      `c` per gap. */
  lemma {:induction false} JoinCountSeparators(parts: seq<string>, sep: string, c: char)
    requires |parts| > 0 && CountChar(sep, c) == 1
    requires forall i :: 0 <= i < |parts| ==> CountChar(parts[i], c) == 0
    ensures CountChar(Join(parts, sep), c) == |parts| - 1
    decreases |parts|
  {
    if |parts| > 1 {
      JoinCountSeparators(parts[1..], sep, c);
      CountCharAppend(parts[0], sep, c);
      CountCharAppend(parts[0] + sep, Join(parts[1..], sep), c);
    }
  }

  /** Joining parts holding one `c` each with a separator free of `c` gives
      one `c` per part. */
  lemma {:induction false} JoinCountParts(parts: seq<string>, sep: string, c: char)
    requires CountChar(sep, c) == 0
    requires forall i :: 0 <= i < |parts| ==> CountChar(parts[i], c) == 1
    ensures CountChar(Join(parts, sep), c) == |parts|
    decreases |parts|
  {
    if |parts| > 1 {
      JoinCountParts(parts[1..], sep, c);
      CountCharAppend(parts[0], sep, c);
      CountCharAppend(parts[0] + sep, Join(parts[1..], sep), c);
    }
  }

  lemma {:induction false} JoinCountNone(parts: seq<string>, sep: string, c: char)
    requires CountChar(sep, c) == 0
    requires forall i :: 0 <= i < |parts| ==> CountChar(parts[i], c) == 0
    ensures CountChar(Join(parts, sep), c) == 0
    decreases |parts|
  {
    if |parts| > 1 {
      JoinCountNone(parts[1..], sep, c);
      CountCharAppend(parts[0], sep, c);
      CountCharAppend(parts[0] + sep, Join(parts[1..], sep), c);
    }
  }

  /** A character absent from the statement's fixed text occurs in it as
      often as in the table name, the column list and the placeholders. */
  lemma QueryCount(table: string, columns: seq<string>, c: char)
    requires c !in "INSERT IGNORE INTO " && c !in " (" && c !in ") VALUES (" && c !in ")"
    ensures CountChar(InsertQuery(table, columns), c) ==
      CountChar(table, c) + CountChar(Join(columns, ", "), c) + CountChar(Placeholders(|columns|), c)
  {
    var cols := Join(columns, ", ");
    var vals := Placeholders(|columns|);
    CountCharAbsent("INSERT IGNORE INTO ", c);
    CountCharAbsent(" (", c);
    CountCharAbsent(") VALUES (", c);
    CountCharAbsent(")", c);
    CountCharAppend("INSERT IGNORE INTO ", table, c);
    CountCharAppend("INSERT IGNORE INTO " + table, " (", c);
    CountCharAppend("INSERT IGNORE INTO " + table + " (", cols, c);
    CountCharAppend("INSERT IGNORE INTO " + table + " (" + cols, ") VALUES (", c);
    CountCharAppend("INSERT IGNORE INTO " + table + " (" + cols + ") VALUES (", vals, c);
    CountCharAppend("INSERT IGNORE INTO " + table + " (" + cols + ") VALUES (" + vals, ")", c);
  }

  /** Counts of `%` and `,` in the fixed pieces of the statement. */
  lemma FixedTextCounts()
    ensures CountChar("%s", '%') == 1 && CountChar("%s", ',') == 0
    ensures CountChar(", ", '%') == 0 && CountChar(", ", ',') == 1
    ensures '%' !in "INSERT IGNORE INTO " && '%' !in " (" && '%' !in ") VALUES (" && '%' !in ")"
    ensures ',' !in "INSERT IGNORE INTO " && ',' !in " (" && ',' !in ") VALUES (" && ',' !in ")"
  {
  }

  /** One `%` per placeholder, none elsewhere. */
  lemma PercentCount(table: string, columns: seq<string>)
    requires CountChar(table, '%') == 0
    requires forall i :: 0 <= i < |columns| ==> CountChar(columns[i], '%') == 0
    ensures CountChar(InsertQuery(table, columns), '%') == |columns|
  {
    FixedTextCounts();
    JoinCountNone(columns, ", ", '%');
    JoinCountParts(Repeat("%s", |columns|), ", ", '%');
    QueryCount(table, columns, '%');
  }

  /** One `,` per gap in each of the two lists, none elsewhere. */
  lemma CommaCount(table: string, columns: seq<string>)
    requires CountChar(table, ',') == 0 && |columns| > 0
    requires forall i :: 0 <= i < |columns| ==> CountChar(columns[i], ',') == 0
    ensures CountChar(InsertQuery(table, columns), ',') == 2 * (|columns| - 1)
  {
    FixedTextCounts();
    JoinCountSeparators(columns, ", ", ',');
    JoinCountSeparators(Repeat("%s", |columns|), ", ", ',');
    QueryCount(table, columns, ',');
  }

  /** The statement has exactly one `%s` placeholder per column, and as many
      separating commas in its VALUES list as in its column list, provided
      the names themselves hold no `%` and no `,`. */
  lemma InsertQueryArity(table: string, columns: seq<string>)
    requires CountChar(table, '%') == 0 && CountChar(table, ',') == 0
    requires forall i :: 0 <= i < |columns| ==> CountChar(columns[i], '%') == 0 && CountChar(columns[i], ',') == 0
    ensures CountChar(InsertQuery(table, columns), '%') == |columns|
    ensures |columns| > 0 ==> CountChar(InsertQuery(table, columns), ',') == 2 * (|columns| - 1)
  {
    PercentCount(table, columns);
    if |columns| > 0 {
      CommaCount(table, columns);
    }
  }

  // ---------------------------------------------------------------------
  // prepare_dataframe_for_mysql

  /** `df.where(pd.notnull(df), None)` on one cell. */
  function NoneForNull(c: Cell): (r: Cell)
    ensures c.Missing? ==> r == Missing(NoneValue)
    ensures !c.Missing? ==> r == c
  {
    if c.Missing? then Missing(NoneValue) else c
  }

  /** `prepare_dataframe_for_mysql`: a copy with every missing value as
      `None`. */
  function PrepareForMysql(t: Table): (r: Table)
    ensures r.columns == t.columns && |r.rows| == |t.rows|
    ensures forall i :: 0 <= i < |t.rows| ==> |r.rows[i]| == |t.rows[i]|
    ensures forall i, j :: 0 <= i < |t.rows| && 0 <= j < |t.rows[i]| ==>
      (t.rows[i][j].Missing? ==> r.rows[i][j] == Missing(NoneValue)) &&
      (!t.rows[i][j].Missing? ==> r.rows[i][j] == t.rows[i][j])
  {
    Table(t.columns, seq(|t.rows|, i requires 0 <= i < |t.rows| =>
      seq(|t.rows[i]|, j requires 0 <= j < |t.rows[i]| => NoneForNull(t.rows[i][j]))))
  }

  /** No `NA` or `NaN` is left, and preparing again changes nothing. */
  lemma PrepareForMysqlNormal(t: Table)
    ensures var r := PrepareForMysql(t);
      forall i, j :: 0 <= i < |r.rows| && 0 <= j < |r.rows[i]| ==> r.rows[i][j] != Missing(NA) && r.rows[i][j] != Missing(NaN)
    ensures PrepareForMysql(PrepareForMysql(t)) == PrepareForMysql(t)
  {
    var r := PrepareForMysql(t);
    var rr := PrepareForMysql(r);
    assert forall i :: 0 <= i < |r.rows| ==> rr.rows[i] == r.rows[i];
  }

  // ---------------------------------------------------------------------
  // prepare_row_data

  /** The positions of the columns labelled `name`, left to right. */
  function Positions(cols: seq<string>, name: string): (ps: seq<nat>)
    decreases |cols|
  {
    if cols == [] then []
    else (if cols[0] == name then [0] else []) + Shift(Positions(cols[1..], name))
  }

  /** Every position moved one column to the right. */
  function Shift(ps: seq<nat>): (r: seq<nat>)
    ensures |r| == |ps| && forall k :: 0 <= k < |ps| ==> r[k] == ps[k] + 1
  {
    seq(|ps|, k requires 0 <= k < |ps| => ps[k] + 1)
  }

  /** One entry of `Positions` in terms of the positions in `cols[1..]`. */
  lemma PositionsAt(cols: seq<string>, name: string, k: nat)
    requires cols != [] && k < |Positions(cols, name)|
    ensures cols[0] == name && k == 0 ==> Positions(cols, name)[k] == 0
    ensures var n := if cols[0] == name then 1 else 0;
      k >= n ==> k - n < |Positions(cols[1..], name)| && Positions(cols, name)[k] == Positions(cols[1..], name)[k - n] + 1
  {
    var rest := Positions(cols[1..], name);
    assert Positions(cols, name) == (if cols[0] == name then [0] else []) + Shift(rest);
  }

  /** Every listed position is a column labelled `name`. */
  lemma {:induction false} PositionsLabelled(cols: seq<string>, name: string)
    ensures forall k :: 0 <= k < |Positions(cols, name)| ==>
      Positions(cols, name)[k] < |cols| && cols[Positions(cols, name)[k]] == name
    decreases |cols|
  {
    if cols != [] {
      var rest := Positions(cols[1..], name);
      PositionsLabelled(cols[1..], name);
      var ps := Positions(cols, name);
      var n := if cols[0] == name then 1 else 0;
      forall k | 0 <= k < |ps| ensures ps[k] < |cols| && cols[ps[k]] == name {
        PositionsAt(cols, name, k);
        if k >= n {
          assert cols[1..][rest[k - n]] == name;
        }
      }
    }
  }

  /** Every column labelled `name` is listed. */
  lemma {:induction false} PositionsCover(cols: seq<string>, name: string)
    ensures forall i :: 0 <= i < |cols| && cols[i] == name ==> i in Positions(cols, name)
    decreases |cols|
  {
    if cols != [] {
      var rest := Positions(cols[1..], name);
      PositionsCover(cols[1..], name);
      var shifted := Shift(rest);
      var ps := Positions(cols, name);
      assert ps == (if cols[0] == name then [0] else []) + shifted;
      forall i | 0 <= i < |cols| && cols[i] == name ensures i in ps {
        if i > 0 {
          assert cols[1..][i - 1] == name;
          var k :| 0 <= k < |rest| && rest[k] == i - 1;
          assert shifted[k] == i;
        }
      }
    }
  }

  /** The positions are listed in strictly increasing order. */
  lemma {:induction false} PositionsIncreasing(cols: seq<string>, name: string)
    ensures forall k, l :: 0 <= k < l < |Positions(cols, name)| ==> Positions(cols, name)[k] < Positions(cols, name)[l]
    decreases |cols|
  {
    if cols != [] {
      var rest := Positions(cols[1..], name);
      PositionsIncreasing(cols[1..], name);
      var ps := Positions(cols, name);
      forall k, l | 0 <= k < l < |ps| ensures ps[k] < ps[l] {
        PositionsAt(cols, name, k);
        PositionsAt(cols, name, l);
      }
    }
  }

  /** The cells of a row under the label `name`, left to right. */
  function Select(cols: seq<string>, row: seq<Cell>, name: string): (r: seq<Cell>)
    requires |row| == |cols|
    ensures |r| == Occurrences(cols, name)
    ensures |r| > 0 ==> r[0] == row[FirstIndex(cols, name)]
    decreases |cols|
  {
    if cols == [] then []
    else (if cols[0] == name then [row[0]] else []) + Select(cols[1..], row[1..], name)
  }

  /** The selected cells are the row's cells at the label's positions, in
      column order. */
  /** One selected cell in terms of the cells selected from `row[1..]`. */
  lemma SelectAt(cols: seq<string>, row: seq<Cell>, name: string, k: nat)
    requires |row| == |cols| && cols != [] && k < |Select(cols, row, name)|
    ensures cols[0] == name && k == 0 ==> Select(cols, row, name)[k] == row[0]
    ensures var n := if cols[0] == name then 1 else 0;
      k >= n ==> k - n < |Select(cols[1..], row[1..], name)| && Select(cols, row, name)[k] == Select(cols[1..], row[1..], name)[k - n]
  {
    var tail := Select(cols[1..], row[1..], name);
    assert Select(cols, row, name) == (if cols[0] == name then [row[0]] else []) + tail;
  }

  lemma {:induction false} SelectAtPositions(cols: seq<string>, row: seq<Cell>, name: string)
    requires |row| == |cols|
    ensures |Select(cols, row, name)| == |Positions(cols, name)|
    ensures forall k :: 0 <= k < |Positions(cols, name)| ==>
      Positions(cols, name)[k] < |row| && Select(cols, row, name)[k] == row[Positions(cols, name)[k]]
    decreases |cols|
  {
    PositionsLabelled(cols, name);
    if cols != [] {
      SelectAtPositions(cols[1..], row[1..], name);
      var rest := Positions(cols[1..], name);
      var tail := Select(cols[1..], row[1..], name);
      var n := if cols[0] == name then 1 else 0;
      var ps := Positions(cols, name);
      var r := Select(cols, row, name);
      assert |ps| == n + |rest| by {
        assert ps == (if cols[0] == name then [0] else []) + Shift(rest);
      }
      assert |r| == n + |tail| by {
        assert r == (if cols[0] == name then [row[0]] else []) + tail;
      }
      forall k | 0 <= k < |ps| ensures r[k] == row[ps[k]] {
        PositionsAt(cols, name, k);
        SelectAt(cols, row, name, k);
        if k >= n {
          assert row[1..][rest[k - n]] == row[rest[k - n] + 1];
        }
      }
    }
  }

  /** What `row[col]` gives: the cell, or a `Series` of every cell under the
      label when the label is duplicated. An absent label raises `KeyError`,
      so callers ask only for labels the row has. */
  datatype Param = Scalar(c: Cell) | Series(cells: seq<Cell>)

  function ParamOf(cols: seq<string>, row: seq<Cell>, name: string): (p: Param)
    requires |row| == |cols| && name in cols
    ensures Occurrences(cols, name) == 1 ==> p == Scalar(row[FirstIndex(cols, name)])
    ensures Occurrences(cols, name) > 1 ==> p.Series? && |p.cells| == Occurrences(cols, name)
  {
    var cells := Select(cols, row, name);
    if |cells| == 1 then Scalar(cells[0]) else Series(cells)
  }

  /** A repeated label gives the `Series` of the row's cells at every
      position of the label, in column order. */
  lemma ParamOfSeries(cols: seq<string>, row: seq<Cell>, name: string)
    requires |row| == |cols| && Occurrences(cols, name) > 1
    ensures forall k :: 0 <= k < |Positions(cols, name)| ==> Positions(cols, name)[k] < |row|
    ensures ParamOf(cols, row, name) == Series(seq(|Positions(cols, name)|, k requires 0 <= k < |Positions(cols, name)| => row[Positions(cols, name)[k]]))
  {
    SelectAtPositions(cols, row, name);
    var ps := Positions(cols, name);
    assert Select(cols, row, name) == seq(|ps|, k requires 0 <= k < |ps| => row[ps[k]]);
  }


  /** The tuple `prepare_row_data(row, columns)` returns. */
  function RowData(cols: seq<string>, row: seq<Cell>, names: seq<string>): (r: seq<Param>)
    requires |row| == |cols| && forall i :: 0 <= i < |names| ==> names[i] in cols
    ensures |r| == |names| && forall i :: 0 <= i < |names| ==> r[i] == ParamOf(cols, row, names[i])
  {
    seq(|names|, i requires 0 <= i < |names| => ParamOf(cols, row, names[i]))
  }

  /** With distinct labels, the tuple holds the row's cells in the order of
      `names`. */
  lemma RowDataProjects(cols: seq<string>, row: seq<Cell>, names: seq<string>)
    requires |row| == |cols| && Distinct(cols)
    requires forall i :: 0 <= i < |names| ==> names[i] in cols
    ensures forall i :: 0 <= i < |names| ==> RowData(cols, row, names)[i] == Scalar(row[FirstIndex(cols, names[i])])
  {
    forall i | 0 <= i < |names| ensures Occurrences(cols, names[i]) == 1 {
      DistinctOnce(cols, names[i]);
    }
  }

  lemma {:induction false} DistinctOnce(cols: seq<string>, name: string)
    requires Distinct(cols) && name in cols
    ensures Occurrences(cols, name) == 1
    decreases |cols|
  {
    if cols[0] != name {
      DistinctOnce(cols[1..], name);
    } else {
      assert name !in cols[1..];
    }
  }

  /** `prepare_row_data`: the loop over `columns`. */
  method PrepareRowData(cols: seq<string>, row: seq<Cell>, names: seq<string>) returns (r: seq<Param>)
    requires |row| == |cols| && forall i :: 0 <= i < |names| ==> names[i] in cols
    ensures r == RowData(cols, row, names)
  {
    ghost var spec := RowData(cols, row, names);
    r := [];
    for i := 0 to |names|
      invariant r == spec[..i]
    {
      var p := ParamOf(cols, row, names[i]);
      r := r + [p];
    }
    assert spec[..|names|] == spec;
  }

  /** `[prepare_row_data(row, columns) for _, row in df.iterrows()]`. */
  function TableData(t: Table, names: seq<string>): (r: seq<seq<Param>>)
    requires WellFormed(t) && forall i :: 0 <= i < |names| ==> names[i] in t.columns
    ensures |r| == |t.rows| && forall i :: 0 <= i < |t.rows| ==> r[i] == RowData(t.columns, t.rows[i], names)
  {
    seq(|t.rows|, i requires 0 <= i < |t.rows| => RowData(t.columns, t.rows[i], names))
  }

  method PrepareAllRows(t: Table, names: seq<string>) returns (r: seq<seq<Param>>)
    requires WellFormed(t) && forall i :: 0 <= i < |names| ==> names[i] in t.columns
    ensures r == TableData(t, names)
  {
    r := [];
    for i := 0 to |t.rows|
      invariant |r| == i && forall k :: 0 <= k < i ==> r[k] == RowData(t.columns, t.rows[k], names)
    {
      var data := PrepareRowData(t.columns, t.rows[i], names);
      r := r + [data];
    }
  }

  // ---------------------------------------------------------------------
  // load_to_mysql

  /** `DB_TABLE_NAME` and `DB_COLUMNS` from the deployment's configuration. */
  datatype LoadConfig = LoadConfig(table: string, columns: seq<string>)

  datatype Target = Target(table: string, columns: seq<string>)

  /** The arguments left as `None` fall back to the configuration. */
  function ResolveTarget(config: LoadConfig, table: Option<string>, columns: Option<seq<string>>): (r: Target)
    ensures r.table == (if table.Some? then table.value else config.table)
    ensures r.columns == (if columns.Some? then columns.value else config.columns)
  {
    Target(if table.Some? then table.value else config.table, if columns.Some? then columns.value else config.columns)
  }

  /** `[col for col in columns if col not in df.columns]`: the absent
      columns in the order requested, repeats included. */
  function MissingColumns(requested: seq<string>, available: seq<string>): (r: seq<string>)
    ensures forall c :: c in r <==> c in requested && c !in available
    ensures forall c :: multiset(r)[c] == if c in available then 0 else multiset(requested)[c]
    ensures |r| == 0 <==> forall i :: 0 <= i < |requested| ==> requested[i] in available
    ensures |r| <= |requested|
    decreases |requested|
  {
    if requested == [] then []
    else
      var n := |requested| - 1;
      var front := MissingColumns(requested[..n], available);
      assert requested == requested[..n] + [requested[n]];
      if requested[n] in available then front else front + [requested[n]]
  }

  /** The table the load proceeds with: `validate_load`'s result when
      validation is asked for and succeeds; the input otherwise, since a
      failed validation is only logged. */
  function Validated(df: Table, validate: bool, validation: Option<Table>): (r: Table)
    ensures !validate || validation.None? ==> r == df
    ensures validate && validation.Some? ==> r == validation.value
  {
    if validate && validation.Some? then validation.value else df
  }

  /** Where the connection can raise. */
  datatype Step = AtCursor | AtExecute | AtCommit

  /** `mysql.connector.Error` or any other exception. */
  datatype ErrorKind = DatabaseError | OtherError

  datatype Fault = Fault(at: Step, kind: ErrorKind)

  /** The calls the connection receives, with whether they returned
      normally. */
  datatype Event =
    | Opened(ok: bool)
    | Executed(query: string, data: seq<seq<Param>>, ok: bool)
    | Committed(ok: bool)
    | RolledBack
    | Closed

  /** How `load_to_mysql` ends: the row count, `ValueError` naming the
      missing columns, the connector's error re-raised, or `ValueError`
      wrapping any other error. */
  datatype LoadError =
    | MissingColumnsError(missing: seq<string>)
    | Reraised(at: Step)
    | LoadFailed(at: Step)

  function RaisedAs(f: Fault): LoadError {
    match f.kind
    case DatabaseError => Reraised(f.at)
    case OtherError => LoadFailed(f.at)
  }

  predicate FailsAt(fault: Option<Fault>, step: Step) {
    fault.Some? && fault.value.at == step
  }

  /** The `try`/`except`/`finally` block of `load_to_mysql`: open a cursor,
      run `executemany`, commit and return the row count; on an error roll
      back and raise; close the cursor if it was opened. */
  function Session(query: string, data: seq<seq<Param>>, fault: Option<Fault>, rowcount: int): (out: (Result<int, LoadError>, seq<Event>))
  {
    if FailsAt(fault, AtCursor) then
      (Err(RaisedAs(fault.value)), [Opened(false), RolledBack])
    else if FailsAt(fault, AtExecute) then
      (Err(RaisedAs(fault.value)), [Opened(true), Executed(query, data, false), RolledBack, Closed])
    else if FailsAt(fault, AtCommit) then
      (Err(RaisedAs(fault.value)), [Opened(true), Executed(query, data, true), Committed(false), RolledBack, Closed])
    else
      (Ok(rowcount), [Opened(true), Executed(query, data, true), Committed(true), Closed])
  }

  /** What `SessionProtocol` says about one trace. */
  predicate ProtocolHolds(out: (Result<int, LoadError>, seq<Event>), query: string, data: seq<seq<Param>>, fault: Option<Fault>, rowcount: int) {
    && (out.0.Ok? <==> fault.None?)
    && (out.0.Ok? ==> out.0.value == rowcount && out.1 == [Opened(true), Executed(query, data, true), Committed(true), Closed])
    && (Committed(true) in out.1 <==> out.0.Ok?)
    && (Closed in out.1 <==> Opened(true) in out.1)
    && (Closed in out.1 ==> out.1[|out.1| - 1] == Closed && multiset(out.1)[Closed] == 1)
  }

  /** What `SessionFailure` says about one trace. */
  predicate FailureHolds(out: (Result<int, LoadError>, seq<Event>), f: Fault) {
    var k := StepIndex(f.at);
    && out.0 == Err(RaisedAs(f))
    && multiset(out.1)[RolledBack] == 1 && Committed(true) !in out.1
    && k + 1 < |out.1| && Failed(out.1[k]) && out.1[k + 1] == RolledBack
  }

  /** Success exactly when no call raises: then one `executemany` over all
      the rows, one commit, and the server's row count. The cursor is closed
      exactly when it was opened, once, as the last call. */
  lemma SessionProtocol(query: string, data: seq<seq<Param>>, fault: Option<Fault>, rowcount: int)
    ensures var out := Session(query, data, fault, rowcount);
      && (out.0.Ok? <==> fault.None?)
      && (out.0.Ok? ==> out.0.value == rowcount && out.1 == [Opened(true), Executed(query, data, true), Committed(true), Closed])
      && (Committed(true) in out.1 <==> out.0.Ok?)
      && (Closed in out.1 <==> Opened(true) in out.1)
      && (Closed in out.1 ==> out.1[|out.1| - 1] == Closed && multiset(out.1)[Closed] == 1)
  {
    var out := Session(query, data, fault, rowcount);
    if fault.None? {
      SuccessTrace(query, data, rowcount);
    } else {
      match fault.value.at
      case AtCursor => CursorFailureTrace(query, data, fault.value, rowcount);
      case AtExecute => ExecuteFailureTrace(query, data, fault.value, rowcount);
      case AtCommit => CommitFailureTrace(query, data, fault.value, rowcount);
    }
    assert ProtocolHolds(out, query, data, fault, rowcount);
  }

  lemma SuccessTrace(query: string, data: seq<seq<Param>>, rowcount: int)
    ensures ProtocolHolds(Session(query, data, None, rowcount), query, data, None, rowcount)
  {
    var t := [Opened(true), Executed(query, data, true), Committed(true), Closed];
    assert Session(query, data, None, rowcount).1 == t;
    assert multiset(t)[Closed] == 1;
  }

  lemma CursorFailureTrace(query: string, data: seq<seq<Param>>, f: Fault, rowcount: int)
    requires f.at == AtCursor
    ensures ProtocolHolds(Session(query, data, Some(f), rowcount), query, data, Some(f), rowcount)
    ensures FailureHolds(Session(query, data, Some(f), rowcount), f)
  {
    var t := [Opened(false), RolledBack];
    assert Session(query, data, Some(f), rowcount).1 == t;
    assert multiset(t)[RolledBack] == 1;
  }

  lemma ExecuteFailureTrace(query: string, data: seq<seq<Param>>, f: Fault, rowcount: int)
    requires f.at == AtExecute
    ensures ProtocolHolds(Session(query, data, Some(f), rowcount), query, data, Some(f), rowcount)
    ensures FailureHolds(Session(query, data, Some(f), rowcount), f)
  {
    var t := [Opened(true), Executed(query, data, false), RolledBack, Closed];
    assert Session(query, data, Some(f), rowcount).1 == t;
    assert multiset(t)[Closed] == 1 && multiset(t)[RolledBack] == 1;
  }

  lemma CommitFailureTrace(query: string, data: seq<seq<Param>>, f: Fault, rowcount: int)
    requires f.at == AtCommit
    ensures ProtocolHolds(Session(query, data, Some(f), rowcount), query, data, Some(f), rowcount)
    ensures FailureHolds(Session(query, data, Some(f), rowcount), f)
  {
    var t := [Opened(true), Executed(query, data, true), Committed(false), RolledBack, Closed];
    assert Session(query, data, Some(f), rowcount).1 == t;
    assert multiset(t)[Closed] == 1 && multiset(t)[RolledBack] == 1;
  }

  /** The position in the trace of the call that raises at `step`. */
  function StepIndex(step: Step): nat {
    match step
    case AtCursor => 0
    case AtExecute => 1
    case AtCommit => 2
  }

  /** On an error: it is re-raised or wrapped according to its kind, there
      is exactly one rollback, right after the call that raised, and no
      commit takes effect. */
  lemma SessionFailure(query: string, data: seq<seq<Param>>, fault: Option<Fault>, rowcount: int)
    requires fault.Some?
    ensures var out := Session(query, data, fault, rowcount);
      var k := StepIndex(fault.value.at);
      && out.0 == Err(RaisedAs(fault.value))
      && multiset(out.1)[RolledBack] == 1 && Committed(true) !in out.1
      && k + 1 < |out.1| && Failed(out.1[k]) && out.1[k + 1] == RolledBack
  {
    var f := fault.value;
    assert fault == Some(f);
    match f.at
    case AtCursor => CursorFailureTrace(query, data, f, rowcount);
    case AtExecute => ExecuteFailureTrace(query, data, f, rowcount);
    case AtCommit => CommitFailureTrace(query, data, f, rowcount);
  }

  /** A call that raised. */
  predicate Failed(e: Event) {
    match e
    case Opened(ok) => !ok
    case Executed(_, _, ok) => !ok
    case Committed(ok) => !ok
    case _ => false
  }

  /** What `load_to_mysql` returns and the calls it makes, for a connection
      that raises as `fault` says and reports `rowcount` affected rows. */
  function LoadRun(df: Table, target: Target, fault: Option<Fault>, rowcount: int): (out: (Result<int, LoadError>, seq<Event>))
    requires WellFormed(df)
    ensures |MissingColumns(target.columns, df.columns)| > 0 ==>
      out == (Err(MissingColumnsError(MissingColumns(target.columns, df.columns))), [])
    ensures |MissingColumns(target.columns, df.columns)| == 0 ==>
      out == Session(InsertQuery(target.table, target.columns), TableData(PrepareForMysql(df), target.columns), fault, rowcount)
  {
    var missing := MissingColumns(target.columns, df.columns);
    if |missing| > 0 then (Err(MissingColumnsError(missing)), [])
    else Session(InsertQuery(target.table, target.columns), TableData(PrepareForMysql(df), target.columns), fault, rowcount)
  }

  /** A missing column is reported before the connection is touched: no
      call at all. Otherwise the load succeeds exactly when no call raises,
      and then sends every row. */
  lemma LoadRunOutcome(df: Table, target: Target, fault: Option<Fault>, rowcount: int)
    requires WellFormed(df)
    ensures var out := LoadRun(df, target, fault, rowcount);
      && (out.1 == [] <==> exists c :: c in target.columns && c !in df.columns)
      && (out.0.Ok? <==> (forall c :: c in target.columns ==> c in df.columns) && fault.None?)
      && (out.0.Ok? ==> out.1[1] == Executed(InsertQuery(target.table, target.columns), TableData(PrepareForMysql(df), target.columns), true)
                        && |TableData(PrepareForMysql(df), target.columns)| == |df.rows|)
  {
    var missing := MissingColumns(target.columns, df.columns);
    if |missing| > 0 {
      assert missing[0] in missing;
    } else {
      SessionProtocol(InsertQuery(target.table, target.columns), TableData(PrepareForMysql(df), target.columns), fault, rowcount);
      assert forall c :: c in target.columns ==> c in df.columns by {
        forall c | c in target.columns ensures c in df.columns {
          assert c !in missing;
        }
      }
    }
  }

  /** `load_to_mysql(df, connection, table_name, columns,
      validate_before_load)`, with `validation` the result of
      `validate_load(df)` (`None` when it raises). */
  function LoadToMysqlSpec(df: Table, config: LoadConfig, table: Option<string>, columns: Option<seq<string>>,
                           validate: bool, validation: Option<Table>, fault: Option<Fault>, rowcount: int): (out: (Result<int, LoadError>, seq<Event>))
    requires WellFormed(df) && (validation.Some? ==> WellFormed(validation.value))
  {
    LoadRun(Validated(df, validate, validation), ResolveTarget(config, table, columns), fault, rowcount)
  }

  /** A validation that raises is the same as no validation. */
  lemma ValidationFailureIgnored(df: Table, config: LoadConfig, table: Option<string>, columns: Option<seq<string>>,
                                 fault: Option<Fault>, rowcount: int)
    requires WellFormed(df)
    ensures LoadToMysqlSpec(df, config, table, columns, true, None, fault, rowcount) ==
            LoadToMysqlSpec(df, config, table, columns, false, None, fault, rowcount)
  {
  }

  /** A connection that records the calls it receives. `fault` is the one
      call that raises, if any; `rowcount` is what the server reports. */
  class Connection {
    var trace: seq<Event>
    const fault: Option<Fault>
    const rowcount: int

    constructor (fault: Option<Fault>, rowcount: int)
      ensures trace == [] && this.fault == fault && this.rowcount == rowcount
    {
      trace := [];
      this.fault := fault;
      this.rowcount := rowcount;
    }

    /** `connection.cursor()`. */
    method Cursor() returns (r: Result<(), ErrorKind>)
      modifies this
      ensures r.Err? <==> FailsAt(fault, AtCursor)
      ensures r.Err? ==> r.error == fault.value.kind
      ensures trace == old(trace) + [Opened(r.Ok?)]
    {
      if FailsAt(fault, AtCursor) {
        r := Err(fault.value.kind);
      } else {
        r := Ok(());
      }
      trace := trace + [Opened(r.Ok?)];
    }

    /** `cursor.executemany(query, data)`. */
    method ExecuteMany(query: string, data: seq<seq<Param>>) returns (r: Result<(), ErrorKind>)
      modifies this
      ensures r.Err? <==> FailsAt(fault, AtExecute)
      ensures r.Err? ==> r.error == fault.value.kind
      ensures trace == old(trace) + [Executed(query, data, r.Ok?)]
    {
      if FailsAt(fault, AtExecute) {
        r := Err(fault.value.kind);
      } else {
        r := Ok(());
      }
      trace := trace + [Executed(query, data, r.Ok?)];
    }

    /** `connection.commit()`. */
    method Commit() returns (r: Result<(), ErrorKind>)
      modifies this
      ensures r.Err? <==> FailsAt(fault, AtCommit)
      ensures r.Err? ==> r.error == fault.value.kind
      ensures trace == old(trace) + [Committed(r.Ok?)]
    {
      if FailsAt(fault, AtCommit) {
        r := Err(fault.value.kind);
      } else {
        r := Ok(());
      }
      trace := trace + [Committed(r.Ok?)];
    }

    /** `connection.rollback()`. */
    method Rollback()
      modifies this
      ensures trace == old(trace) + [RolledBack]
    {
      trace := trace + [RolledBack];
    }

    /** `cursor.close()`. */
    method Close()
      modifies this
      ensures trace == old(trace) + [Closed]
    {
      trace := trace + [Closed];
    }
  }

  /** The `try`/`except`/`finally` block run against a connection. */
  method RunSession(connection: Connection, query: string, data: seq<seq<Param>>) returns (r: Result<int, LoadError>)
    modifies connection
    ensures var out := Session(query, data, connection.fault, connection.rowcount);
      r == out.0 && connection.trace == old(connection.trace) + out.1
  {
    var cursor := connection.Cursor();
    if cursor.Err? {
      connection.Rollback();
      return Err(RaisedAs(Fault(AtCursor, cursor.error)));
    }
    var executed := connection.ExecuteMany(query, data);
    if executed.Err? {
      connection.Rollback();
      connection.Close();
      return Err(RaisedAs(Fault(AtExecute, executed.error)));
    }
    var committed := connection.Commit();
    if committed.Err? {
      connection.Rollback();
      connection.Close();
      return Err(RaisedAs(Fault(AtCommit, committed.error)));
    }
    connection.Close();
    return Ok(connection.rowcount);
  }

  /** `load_to_mysql`: the defaults, the optional validation, the column
      check, then the block that talks to the connection. */
  method LoadToMysql(df: Table, connection: Connection, config: LoadConfig, table: Option<string>, columns: Option<seq<string>>,
                     validate: bool, validation: Option<Table>) returns (r: Result<int, LoadError>)
    requires WellFormed(df) && (validation.Some? ==> WellFormed(validation.value))
    modifies connection
    ensures var out := LoadToMysqlSpec(df, config, table, columns, validate, validation, connection.fault, connection.rowcount);
      r == out.0 && connection.trace == old(connection.trace) + out.1
  {
    var target := ResolveTarget(config, table, columns);
    var input := Validated(df, validate, validation);
    var missing := MissingColumns(target.columns, input.columns);
    if |missing| > 0 {
      return Err(MissingColumnsError(missing));
    }
    var prepared := PrepareForMysql(input);
    var query := InsertQuery(target.table, target.columns);
    var data := PrepareAllRows(prepared, target.columns);
    r := RunSession(connection, query, data);
  }
}
