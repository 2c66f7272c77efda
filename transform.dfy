/** `transform_csv`: the transform stage's entry point. It rejects an empty
    frame, strips the column labels of the caller's frame in place, demands
    an Agent column, runs the four builders in order and gives up when
    nothing could be extracted. Every way of giving up ends the process with
    exit status 1; `Fatal` says which one. */
module Transform {
  import opened Wrappers
  import opened Text
  import opened Frames
  import opened Agents
  import opened Facts
  import opened Users

  /** The caller's `pd.DataFrame`, whose labels `transform_csv` reassigns. */
  class DataFrame {
    var columns: seq<string>
    var rows: seq<seq<Value>>

    constructor (columns: seq<string>, rows: seq<seq<Value>>)
      ensures this.columns == columns && this.rows == rows
    {
      this.columns := columns;
      this.rows := rows;
    }

    function Snapshot(): Frame
      reads this
    {
      Frame(columns, rows)
    }

    /** `df.columns = df.columns.str.strip()`. */
    method StripColumns()
      modifies this
      ensures columns == StrippedLabels(old(columns)) && rows == old(rows)
    {
      columns := StrippedLabels(columns);
    }
  }

  /** Every label with surrounding whitespace removed. */
  function StrippedLabels(cols: seq<string>): (r: seq<string>)
    ensures |r| == |cols| && forall j :: 0 <= j < |cols| ==> r[j] == Strip(cols[j])
  {
    seq(|cols|, j requires 0 <= j < |cols| => Strip(cols[j]))
  }

  /** The frame after its labels are stripped. */
  function StripFrame(f: Frame): (g: Frame)
    ensures Aligned(f) ==> Aligned(g)
    ensures g.rows == f.rows && |g.columns| == |f.columns|
  {
    Frame(StrippedLabels(f.columns), f.rows)
  }

  /** Why `transform_csv` ends the process. */
  datatype Fatal =
    | EmptyInput         // `df.empty`
    | NoAgentColumn      // no label is "Agent" once stripped
    | Crashed(c: Crash)  // a builder raised; the handler exits
    | NoData             // no user and no fact row

  /** The four tables `transform_csv` returns. */
  datatype Outputs = Outputs(users: Table, performance: Table, retention: Table, nps: Table)

  /** The four builders in order, inside the `try` whose handler exits,
      then the check that something was extracted. */
  function Builders(g: Frame, today: Date): (r: Result<Outputs, Fatal>)
    requires Aligned(g)
    ensures r.Err? ==> r.error.Crashed? || r.error == NoData
    ensures |g.rows| > 0 && Occurrences(g.columns, AgentColumn) > 1 ==> r == Err(Crashed(DuplicateColumn))
  {
    match UsersTable(g)
    case Err(e) => Err(Crashed(e))
    case Ok(users) =>
      match FactTable(g, PerformanceSpec, today)
      case Err(e) => Err(Crashed(e))
      case Ok(perf) =>
        match FactTable(g, RetentionSpec, today)
        case Err(e) => Err(Crashed(e))
        case Ok(retention) =>
          match FactTable(g, NpsSpec, today)
          case Err(e) => Err(Crashed(e))
          case Ok(nps) => Collect(users, perf, retention, nps)
  }

  /** What `transform_csv` does on a frame, `today` being `date.today()`. */
  function TransformCsvSpec(f: Frame, today: Date): (r: Result<Outputs, Fatal>)
    requires Aligned(f)
    ensures r == Err(EmptyInput) <==> IsEmpty(f)
    ensures r == Err(NoAgentColumn) <==> !IsEmpty(f) && AgentColumn !in StrippedLabels(f.columns)
    ensures !IsEmpty(f) && Occurrences(StrippedLabels(f.columns), AgentColumn) > 1 ==> r == Err(Crashed(DuplicateColumn))
  {
    if IsEmpty(f) then Err(EmptyInput)
    else
      var g := StripFrame(f);
      if AgentColumn !in g.columns then Err(NoAgentColumn)
      else Builders(g, today)
  }

  /** The body of `transform_csv`'s `try`, builder by builder. */
  method RunBuilders(g: Frame, today: Date) returns (r: Result<Outputs, Fatal>)
    requires Aligned(g)
    ensures r == Builders(g, today)
  {
    var users := TransformToUsers(g);
    if users.Err? {
      return Err(Crashed(users.error));
    }
    var perf := TransformToDailyPerformance(g, today);
    if perf.Err? {
      return Err(Crashed(perf.error));
    }
    var retention := TransformToDailyRetention(g, today);
    if retention.Err? {
      return Err(Crashed(retention.error));
    }
    var nps := TransformToDailyNps(g, today);
    if nps.Err? {
      return Err(Crashed(nps.error));
    }
    r := Collect(users.value, perf.value, retention.value, nps.value);
  }

  /** The check after the builders: nothing extracted is `NoData`. */
  function Collect(users: Table, perf: Table, retention: Table, nps: Table): (r: Result<Outputs, Fatal>)
    ensures r.Err? <==> |perf.rows| + |retention.rows| + |nps.rows| == 0 && |users.rows| == 0
    ensures r.Err? ==> r.error == NoData
    ensures r.Ok? ==> r.value == Outputs(users, perf, retention, nps)
  {
    if |perf.rows| + |retention.rows| + |nps.rows| == 0 && |users.rows| == 0 then Err(NoData)
    else Ok(Outputs(users, perf, retention, nps))
  }

  /** `transform_csv(df, save_path)`. The frame's labels are stripped in
      place, unless the frame is empty, which is rejected first. */
  method TransformCsv(df: DataFrame, today: Date) returns (r: Result<Outputs, Fatal>)
    requires Aligned(df.Snapshot())
    modifies df
    ensures r == TransformCsvSpec(old(df.Snapshot()), today)
    ensures df.Snapshot() == if IsEmpty(old(df.Snapshot())) then old(df.Snapshot()) else StripFrame(old(df.Snapshot()))
  {
    if IsEmpty(df.Snapshot()) {
      return Err(EmptyInput);
    }
    df.StripColumns();
    var g := df.Snapshot();
    if AgentColumn !in g.columns {
      return Err(NoAgentColumn);
    }
    r := RunBuilders(g, today);
  }

  // ---------------------------------------------------------------------
  // Properties

  /** Some row's Agent field parses. */
  predicate SomeAgent(g: Frame)
    requires Aligned(g)
  {
    exists i :: 0 <= i < |g.rows| && AgentOf(g.columns, g.rows[i]).Ok? && AgentOf(g.columns, g.rows[i]).value.Some?
  }

  /** The users table is empty exactly when no row parses. */
  lemma UsersEmptyIff(g: Frame)
    requires Aligned(g) && UsersTable(g).Ok?
    ensures |UsersTable(g).value.rows| == 0 <==> !SomeAgent(g)
  {
    if SomeAgent(g) {
      var i :| 0 <= i < |g.rows| && AgentOf(g.columns, g.rows[i]).Ok? && AgentOf(g.columns, g.rows[i]).value.Some?;
      UsersCover(g, i);
    } else {
      ParsedIffSomeAgent(g);
    }
  }

  /** A fact table that is built holds one row per parsed row. */
  lemma FactRowCount(g: Frame, spec: FactSpec, today: Date)
    requires Aligned(g) && ValidSpec(spec) && FactTable(g, spec, today).Ok?
    ensures |FactTable(g, spec, today).value.rows| == |ParsedRows(g)|
  {
    assert RawRows(g, spec.mapping, today).Ok?;
    FactTableCells(g, spec, today);
  }

  lemma ParsedIffSomeAgent(g: Frame)
    requires Aligned(g)
    ensures |ParsedRows(g)| > 0 <==> SomeAgent(g)
  {
    var ps := ParsedRows(g);
    if |ps| > 0 {
      assert AgentOf(g.columns, g.rows[ps[0].row]) == Ok(Some(ps[0].agent));
    }
    if SomeAgent(g) {
      var i :| 0 <= i < |g.rows| && AgentOf(g.columns, g.rows[i]).Ok? && AgentOf(g.columns, g.rows[i]).value.Some?;
      KeptRow(g, i);
    }
  }

  /** The stage gives up for lack of data exactly when every builder
      succeeded and no row's Agent field parses. */
  lemma NoDataIff(f: Frame, today: Date)
    requires Aligned(f) && !IsEmpty(f) && AgentColumn in StrippedLabels(f.columns)
    requires var g := StripFrame(f);
      UsersTable(g).Ok? && FactTable(g, PerformanceSpec, today).Ok? &&
      FactTable(g, RetentionSpec, today).Ok? && FactTable(g, NpsSpec, today).Ok?
    ensures TransformCsvSpec(f, today) == Err(NoData) <==> !SomeAgent(StripFrame(f))
  {
    var g := StripFrame(f);
    PerformanceSpecValid();
    RetentionSpecValid();
    NpsSpecValid();
    UsersEmptyIff(g);
    FactRowCount(g, PerformanceSpec, today);
    FactRowCount(g, RetentionSpec, today);
    FactRowCount(g, NpsSpec, today);
    ParsedIffSomeAgent(g);
  }

  /** On success, the three fact tables have one row per parsed row each,
      and every `user_id` they hold is a row of the users table. */
  lemma OutputsConsistent(f: Frame, today: Date)
    requires Aligned(f) && TransformCsvSpec(f, today).Ok?
    ensures var o := TransformCsvSpec(f, today).value;
      && |o.users.rows| > 0
      && |o.performance.rows| == |o.retention.rows| == |o.nps.rows| == |ParsedRows(StripFrame(f))|
      && (forall k :: 0 <= k < |o.performance.rows| ==> UserIdKnown(o.users, o.performance.rows[k]))
      && (forall k :: 0 <= k < |o.retention.rows| ==> UserIdKnown(o.users, o.retention.rows[k]))
      && (forall k :: 0 <= k < |o.nps.rows| ==> UserIdKnown(o.users, o.nps.rows[k]))
  {
    var g := StripFrame(f);
    var o := TransformCsvSpec(f, today).value;
    PerformanceSpecValid();
    RetentionSpecValid();
    NpsSpecValid();
    assert UsersTable(g).Ok?;
    UsersEmptyIff(g);
    ParsedIffSomeAgent(g);
    FactRowCount(g, PerformanceSpec, today);
    FactRowCount(g, RetentionSpec, today);
    FactRowCount(g, NpsSpec, today);
    UserIdsKnown(g, PerformanceSpec, today);
    UserIdsKnown(g, RetentionSpec, today);
    UserIdsKnown(g, NpsSpec, today);
  }

  /** The row's `user_id` cell is the id of a user in `users`. */
  predicate UserIdKnown(users: Table, row: seq<Cell>) {
    |row| > 0 && exists k :: 0 <= k < |users.rows| && |users.rows[k]| > 0 && users.rows[k][0] == row[0]
  }

  lemma UserIdsKnown(g: Frame, spec: FactSpec, today: Date)
    requires Aligned(g) && ValidSpec(spec) && UsersTable(g).Ok? && FactTable(g, spec, today).Ok?
    ensures forall k :: 0 <= k < |FactTable(g, spec, today).value.rows| ==>
      UserIdKnown(UsersTable(g).value, FactTable(g, spec, today).value.rows[k])
  {
    var ps := ParsedRows(g);
    var t := FactTable(g, spec, today).value;
    assert RawRows(g, spec.mapping, today).Ok?;
    FactTableCells(g, spec, today);
    forall k | 0 <= k < |t.rows|
      ensures UserIdKnown(UsersTable(g).value, t.rows[k])
    {
      UsersCover(g, ps[k].row);
    }
  }
}
