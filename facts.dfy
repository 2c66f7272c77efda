/** The three builders of daily fact tables in the transform stage
    (`transform_to_daily_performance`, `transform_to_daily_retention`,
    `transform_to_daily_nps`). They share one shape, captured by a
    `FactSpec`: walk the rows, skip those whose Agent field does not parse,
    copy the mapped CSV columns under their database names next to
    `user_id` and `datum`, then coerce the integer and the decimal columns. */
module Facts {
  import opened Wrappers
  import opened Text
  import opened Decimals
  import opened Frames
  import opened Numeric
  import opened Swedish
  import opened Agents

  const AgentColumn: string := "Agent"

  // ---------------------------------------------------------------------
  // Reading one raw row

  /** `parse_agent(row.get("Agent", ""))`. A duplicated label yields a
      `Series`, whose truth test inside `parse_agent` raises. */
  function AgentOf(cols: seq<string>, row: seq<Value>): (r: Result<Option<Agent>, Crash>)
    requires |row| == |cols|
    ensures r.Err? <==> Occurrences(cols, AgentColumn) > 1
    ensures r.Err? ==> r.error == DuplicateColumn
    ensures r.Ok? && AgentColumn !in cols ==> r.value.None?
    ensures r.Ok? && AgentColumn in cols ==> r.value == ParseAgent(row[FirstIndex(cols, AgentColumn)])
  {
    match Get(cols, row, AgentColumn)
    case Absent => Ok(ParseAgent(Str("")))
    case Found(v) => Ok(ParseAgent(v))
    case Ambiguous => Err(DuplicateColumn)
  }

  /** The cell stored under a mapped column: the raw value, or `None` when
      the column is absent or the value is missing. */
  function SourceCell(cols: seq<string>, row: seq<Value>, source: string): (c: Cell)
    requires |row| == |cols|
    ensures source !in cols ==> c == Missing(NoneValue)
    ensures Occurrences(cols, source) == 1 ==> c == FromValue(row[FirstIndex(cols, source)])
  {
    match Get(cols, row, source)
    case Found(v) => FromValue(v)
    case _ => Missing(NoneValue)
  }

  /** Some mapped source column carries a duplicated label. */
  predicate DuplicatedSource(cols: seq<string>, mapping: seq<(string, string)>) {
    exists m :: 0 <= m < |mapping| && Occurrences(cols, mapping[m].0) > 1
  }

  /** The inner loop of a builder: `row.get(csv_col)` for every mapping
      entry, in order; a duplicated label makes `pd.notna(...)` a `Series`
      whose truth test raises. */
  function MapRow(cols: seq<string>, row: seq<Value>, mapping: seq<(string, string)>): (r: Result<seq<Cell>, Crash>)
    requires |row| == |cols|
    ensures r.Err? <==> DuplicatedSource(cols, mapping)
    ensures r.Err? ==> r.error == DuplicateColumn
    ensures r.Ok? ==> |r.value| == |mapping|
    ensures r.Ok? ==> forall m :: 0 <= m < |mapping| ==> r.value[m] == SourceCell(cols, row, mapping[m].0)
    decreases |mapping|
  {
    if mapping == [] then Ok([])
    else
      var n := |mapping| - 1;
      var front := MapRow(cols, row, mapping[..n]);
      DuplicatedSnoc(cols, mapping);
      match front
      case Err(e) => Err(e)
      case Ok(cells) =>
        if Occurrences(cols, mapping[n].0) > 1 then Err(DuplicateColumn)
        else Ok(cells + [SourceCell(cols, row, mapping[n].0)])
  }

  /** A duplicated source among all entries is one among the entries
      before the last, or the last entry's. */
  lemma DuplicatedSnoc(cols: seq<string>, mapping: seq<(string, string)>)
    requires |mapping| > 0
    ensures var n := |mapping| - 1;
      DuplicatedSource(cols, mapping) <==> DuplicatedSource(cols, mapping[..n]) || Occurrences(cols, mapping[n].0) > 1
  {
    var n := |mapping| - 1;
    assert DuplicatedSource(cols, mapping[..n]) ==> DuplicatedSource(cols, mapping) by {
      if DuplicatedSource(cols, mapping[..n]) {
        var m :| 0 <= m < n && Occurrences(cols, mapping[..n][m].0) > 1;
        assert mapping[m] == mapping[..n][m];
      }
    }
    assert DuplicatedSource(cols, mapping) ==> DuplicatedSource(cols, mapping[..n]) || Occurrences(cols, mapping[n].0) > 1 by {
      if DuplicatedSource(cols, mapping) {
        var m :| 0 <= m < |mapping| && Occurrences(cols, mapping[m].0) > 1;
        if m < n { assert mapping[m] == mapping[..n][m]; }
      }
    }
  }

  /** A row whose Agent field parsed: its position and the agent. */
  datatype Parsed = Parsed(row: nat, agent: Agent)

  /** The outcome of `parse_agent` on every row. */
  function Outcomes(f: Frame): (r: seq<Result<Option<Agent>, Crash>>)
    requires Aligned(f)
    ensures |r| == |f.rows| && forall i :: 0 <= i < |f.rows| ==> r[i] == AgentOf(f.columns, f.rows[i])
  {
    seq(|f.rows|, i requires 0 <= i < |f.rows| => AgentOf(f.columns, f.rows[i]))
  }

  /** The positions and agents of the outcomes that are agents, in order. */
  function Kept(outs: seq<Result<Option<Agent>, Crash>>): (ps: seq<Parsed>)
    ensures forall k :: 0 <= k < |ps| ==> ps[k].row < |outs| && outs[ps[k].row] == Ok(Some(ps[k].agent))
    ensures forall k, l :: 0 <= k < l < |ps| ==> ps[k].row < ps[l].row
    ensures forall i :: 0 <= i < |outs| && outs[i].Ok? && outs[i].value.Some? ==> exists k :: 0 <= k < |ps| && ps[k].row == i
    decreases |outs|
  {
    if outs == [] then []
    else
      var n := |outs| - 1;
      var prev := Kept(outs[..n]);
      assert forall i :: 0 <= i < n ==> outs[..n][i] == outs[i];
      match outs[n]
      case Ok(Some(a)) =>
        var ps := prev + [Parsed(n, a)];
        assert ps[|prev|].row == n;
        assert forall k :: 0 <= k < |prev| ==> ps[k] == prev[k];
        ps
      case _ => prev
  }

  /** The rows the builders keep, in order. */
  function ParsedRows(f: Frame): (ps: seq<Parsed>)
    requires Aligned(f)
    ensures forall k :: 0 <= k < |ps| ==> ps[k].row < |f.rows| && AgentOf(f.columns, f.rows[ps[k].row]) == Ok(Some(ps[k].agent))
    ensures forall k, l :: 0 <= k < l < |ps| ==> ps[k].row < ps[l].row
    ensures forall i :: 0 <= i < |f.rows| && AgentOf(f.columns, f.rows[i]).Ok? && AgentOf(f.columns, f.rows[i]).value.Some? ==>
      exists k :: 0 <= k < |ps| && ps[k].row == i
  {
    Kept(Outcomes(f))
  }

  // ---------------------------------------------------------------------
  // The row loop

  /** The database column names, in mapping order. */
  function Targets(mapping: seq<(string, string)>): (r: seq<string>)
    ensures |r| == |mapping| && forall m :: 0 <= m < |mapping| ==> r[m] == mapping[m].1
  {
    seq(|mapping|, m requires 0 <= m < |mapping| => mapping[m].1)
  }

  /** The columns of a non-empty fact table: those of the first row's
      dictionary, `user_id`, `datum`, then the mapped columns. */
  function Header(mapping: seq<(string, string)>): seq<string> {
    ["user_id", "datum"] + Targets(mapping)
  }

  /** The mapped cells of one raw row. */
  function SourceCells(cols: seq<string>, row: seq<Value>, mapping: seq<(string, string)>): (r: seq<Cell>)
    requires |row| == |cols|
    ensures |r| == |mapping| && forall m :: 0 <= m < |mapping| ==> r[m] == SourceCell(cols, row, mapping[m].0)
  {
    seq(|mapping|, m requires 0 <= m < |mapping| => SourceCell(cols, row, mapping[m].0))
  }

  /** The dictionary a builder appends for a kept row. */
  function FactRow(f: Frame, p: Parsed, mapping: seq<(string, string)>, date: Date): (r: seq<Cell>)
    requires Aligned(f) && p.row < |f.rows|
    ensures |r| == |Header(mapping)|
  {
    [Int(p.agent.id), Day(date)] + SourceCells(f.columns, f.rows[p.row], mapping)
  }

  function FactRows(f: Frame, ps: seq<Parsed>, mapping: seq<(string, string)>, date: Date): (r: seq<seq<Cell>>)
    requires Aligned(f) && forall k :: 0 <= k < |ps| ==> ps[k].row < |f.rows|
    ensures |r| == |ps| && forall k :: 0 <= k < |ps| ==> r[k] == FactRow(f, ps[k], mapping, date)
  {
    seq(|ps|, k requires 0 <= k < |ps| => FactRow(f, ps[k], mapping, date))
  }

  /** What the row loop of a builder collects: one row per kept row, in
      order; it raises on the first row when the Agent label is duplicated,
      and on the first kept row when a mapped label is. */
  function RawRows(f: Frame, mapping: seq<(string, string)>, date: Date): (r: Result<seq<seq<Cell>>, Crash>)
    requires Aligned(f)
  {
    if |f.rows| > 0 && Occurrences(f.columns, AgentColumn) > 1 then Err(DuplicateColumn)
    else if |ParsedRows(f)| > 0 && DuplicatedSource(f.columns, mapping) then Err(DuplicateColumn)
    else Ok(FactRows(f, ParsedRows(f), mapping, date))
  }

  // ---------------------------------------------------------------------
  // Column coercion

  /** The conversion applied to one column: `to_numeric` then
      `astype("Int64")`, or `to_numeric` alone, optionally after
      `clean_swedish_numeric_string`. */
  datatype Coercion = ToInt | ToDecimal(clean: bool)

  function Coerce(kind: Coercion, c: Cell): (r: Result<Cell, Crash>)
    ensures kind.ToDecimal? ==> r.Ok?
    ensures r.Err? ==> r.error == NotWholeNumber
  {
    match kind
    case ToInt => IntCell(c)
    case ToDecimal(clean) => Ok(DecimalCell(if clean then CleanSwedishNumeric(c) else c))
  }

  /** `df[col] = <coerced df[col]>` for the column at position `k`. */
  function CoerceColumn(rows: seq<seq<Cell>>, k: nat, kind: Coercion): (r: Result<seq<seq<Cell>>, Crash>)
    requires forall i :: 0 <= i < |rows| ==> k < |rows[i]|
    ensures r.Ok? <==> forall i :: 0 <= i < |rows| ==> Coerce(kind, rows[i][k]).Ok?
    ensures r.Err? ==> r.error == NotWholeNumber
    ensures r.Ok? ==> |r.value| == |rows|
    ensures r.Ok? ==> forall i :: 0 <= i < |rows| ==> r.value[i] == rows[i][k := Coerce(kind, rows[i][k]).value]
    decreases |rows|
  {
    if rows == [] then Ok([])
    else
      var n := |rows| - 1;
      assert forall i :: 0 <= i < n ==> rows[..n][i] == rows[i];
      match CoerceColumn(rows[..n], k, kind)
      case Err(e) => Err(e)
      case Ok(done) =>
        match Coerce(kind, rows[n][k])
        case Err(e) => Err(e)
        case Ok(c) => Ok(done + [rows[n][k := c]])
  }

  /** `for col in names: if col in df.columns: df[col] = <coerced>`. */
  function CoerceColumns(t: Table, names: seq<string>, kind: Coercion): (r: Result<Table, Crash>)
    requires WellFormed(t)
    ensures r.Err? ==> r.error == NotWholeNumber
    ensures r.Ok? ==> r.value.columns == t.columns && |r.value.rows| == |t.rows| && WellFormed(r.value)
    decreases |names|
  {
    if names == [] then Ok(t)
    else
      var n := |names| - 1;
      match CoerceColumns(t, names[..n], kind)
      case Err(e) => Err(e)
      case Ok(u) =>
        if names[n] !in u.columns then Ok(u)
        else
          match CoerceColumn(u.rows, FirstIndex(u.columns, names[n]), kind)
          case Err(e) => Err(e)
          case Ok(rows) => Ok(Table(u.columns, rows))
  }

  /** Coercing a list of distinct columns of a table with distinct labels
      converts exactly the cells of the named columns, each once, and fails
      exactly when one of those cells cannot be converted. */
  lemma CoerceColumnsCells(t: Table, names: seq<string>, kind: Coercion)
    requires WellFormed(t) && Distinct(t.columns) && Distinct(names)
    ensures CoerceColumns(t, names, kind).Ok? <==>
      forall i, j :: 0 <= i < |t.rows| && 0 <= j < |t.columns| && t.columns[j] in names ==> Coerce(kind, t.rows[i][j]).Ok?
    ensures CoerceColumns(t, names, kind).Ok? ==>
      forall i, j :: 0 <= i < |t.rows| && 0 <= j < |t.columns| ==>
        CoerceColumns(t, names, kind).value.rows[i][j] ==
          if t.columns[j] in names then Coerce(kind, t.rows[i][j]).value else t.rows[i][j]
  {
    CoerceColumnsOkIff(t, names, kind);
    if CoerceColumns(t, names, kind).Ok? {
      CoerceColumnsValues(t, names, kind);
    }
  }

  /** The cells after coercing a list of distinct columns, when it succeeds. */
  lemma {:induction false} CoerceColumnsValues(t: Table, names: seq<string>, kind: Coercion)
    requires WellFormed(t) && Distinct(t.columns) && Distinct(names) && CoerceColumns(t, names, kind).Ok?
    requires forall i, j :: 0 <= i < |t.rows| && 0 <= j < |t.columns| && t.columns[j] in names ==> Coerce(kind, t.rows[i][j]).Ok?
    ensures forall i, j :: 0 <= i < |t.rows| && 0 <= j < |t.columns| ==>
      CoerceColumns(t, names, kind).value.rows[i][j] ==
        if t.columns[j] in names then Coerce(kind, t.rows[i][j]).value else t.rows[i][j]
    decreases |names|
  {
    if names != [] {
      var n := |names| - 1;
      var front := names[..n];
      assert Distinct(front);
      var u := CoerceColumns(t, front, kind).value;
      CoerceColumnsValues(t, front, kind);
      assert forall x :: x in names <==> x in front || x == names[n];
      assert names[n] !in front;
      if names[n] in u.columns {
        var k := FirstIndex(u.columns, names[n]);
        ColumnStepCells(u, names[n], kind);
      }
    }
  }

  /** Coercing a list of distinct columns fails exactly when one of their
      cells cannot be converted. */
  lemma {:induction false} CoerceColumnsOkIff(t: Table, names: seq<string>, kind: Coercion)
    requires WellFormed(t) && Distinct(t.columns) && Distinct(names)
    ensures CoerceColumns(t, names, kind).Ok? <==>
      forall i, j :: 0 <= i < |t.rows| && 0 <= j < |t.columns| && t.columns[j] in names ==> Coerce(kind, t.rows[i][j]).Ok?
    decreases |names|
  {
    if names != [] {
      var n := |names| - 1;
      var front := names[..n];
      assert Distinct(front);
      CoerceColumnsOkIff(t, front, kind);
      assert forall x :: x in names <==> x in front || x == names[n];
      assert names[n] !in front;
      match CoerceColumns(t, front, kind)
      case Err(_) =>
        assert exists i, j :: 0 <= i < |t.rows| && 0 <= j < |t.columns| && t.columns[j] in front && Coerce(kind, t.rows[i][j]).Err?;
      case Ok(u) =>
        CoerceNextOk(t, names, kind);
    }
  }

  /** The step of `CoerceColumnsOkIff` once the columns before the last
      one were coerced. */
  lemma CoerceNextOk(t: Table, names: seq<string>, kind: Coercion)
    requires WellFormed(t) && Distinct(t.columns) && Distinct(names) && names != []
    requires CoerceColumns(t, names[..|names| - 1], kind).Ok?
    requires forall i, j :: 0 <= i < |t.rows| && 0 <= j < |t.columns| && t.columns[j] in names[..|names| - 1] ==>
      Coerce(kind, t.rows[i][j]).Ok?
    ensures CoerceColumns(t, names, kind).Ok? <==>
      forall i, j :: 0 <= i < |t.rows| && 0 <= j < |t.columns| && t.columns[j] in names ==> Coerce(kind, t.rows[i][j]).Ok?
  {
    var n := |names| - 1;
    var front := names[..n];
    assert forall x :: x in names <==> x in front || x == names[n];
    var u := CoerceColumns(t, front, kind).value;
    if names[n] in u.columns {
      var k := FirstIndex(u.columns, names[n]);
      assert forall i :: 0 <= i < |t.rows| ==> u.rows[i][k] == t.rows[i][k] by {
        assert Distinct(front);
        assert names[n] !in front;
        CoerceColumnsValues(t, front, kind);
      }
      assert forall j :: 0 <= j < |t.columns| && t.columns[j] == names[n] ==> j == k by {
        ColumnStepCells(u, names[n], kind);
      }
      if CoerceColumn(u.rows, k, kind).Err? {
        var i :| 0 <= i < |u.rows| && Coerce(kind, u.rows[i][k]).Err?;
        assert t.columns[k] in names && Coerce(kind, t.rows[i][k]).Err?;
      }
    }
  }

  /** Coercing the column `name` of a table with distinct labels converts
      exactly that column's cells. */
  lemma ColumnStepCells(u: Table, name: string, kind: Coercion)
    requires WellFormed(u) && Distinct(u.columns) && name in u.columns
    ensures var k := FirstIndex(u.columns, name);
      && (forall j :: 0 <= j < |u.columns| && u.columns[j] == name ==> j == k)
      && (CoerceColumn(u.rows, k, kind).Ok? ==>
           forall i, j :: 0 <= i < |u.rows| && 0 <= j < |u.columns| ==>
             CoerceColumn(u.rows, k, kind).value[i][j] == if j == k then Coerce(kind, u.rows[i][j]).value else u.rows[i][j])
  {
    var k := FirstIndex(u.columns, name);
    FirstIndexOfDistinct(u.columns, k);
  }

  /** Once a coercion raises, coercing further columns raises too. */
  lemma {:induction false} CoerceColumnsErr(t: Table, names: seq<string>, kind: Coercion, j: nat)
    requires WellFormed(t) && j <= |names| && CoerceColumns(t, names[..j], kind).Err?
    ensures CoerceColumns(t, names, kind).Err?
    decreases |names| - j
  {
    if j < |names| {
      var n := |names| - 1;
      assert names[..n][..j] == names[..j];
      CoerceColumnsErr(t, names[..n], kind, j);
    } else {
      assert names[..j] == names;
    }
  }

  /** The coercion loop `for col in names: if col in df.columns: ...`. */
  method CoerceLoop(t: Table, names: seq<string>, kind: Coercion) returns (r: Result<Table, Crash>)
    requires WellFormed(t)
    ensures r == CoerceColumns(t, names, kind)
  {
    var cur := t;
    var i := 0;
    while i < |names|
      invariant 0 <= i <= |names|
      invariant CoerceColumns(t, names[..i], kind) == Ok(cur)
    {
      assert names[..i + 1][..i] == names[..i];
      if names[i] in cur.columns {
        var c := CoerceColumn(cur.rows, FirstIndex(cur.columns, names[i]), kind);
        if c.Err? {
          CoerceColumnsErr(t, names, kind, i + 1);
          return Err(c.error);
        }
        cur := Table(cur.columns, c.value);
      }
      i := i + 1;
    }
    assert names[..i] == names;
    return Ok(cur);
  }

  // ---------------------------------------------------------------------
  // The three builders

  /** What distinguishes the builders: the mapping from CSV to database
      column, the integer and the decimal columns, whether the decimal
      columns pass through `clean_swedish_numeric_string`, and whether the
      decimal columns are coerced before the integer ones. */
  datatype FactSpec = FactSpec(mapping: seq<(string, string)>, intColumns: seq<string>, decimalColumns: seq<string>,
                               cleanDecimals: bool, decimalsFirst: bool)

  /** The column lists of a builder are consistent: distinct table columns,
      each coerced column coerced once and `user_id`/`datum` never. */
  predicate ValidSpec(spec: FactSpec) {
    && Distinct(Header(spec.mapping))
    && Distinct(spec.intColumns) && Distinct(spec.decimalColumns)
    && (forall c :: c in spec.intColumns ==> c !in spec.decimalColumns)
    && "user_id" !in spec.intColumns && "user_id" !in spec.decimalColumns
    && "datum" !in spec.intColumns && "datum" !in spec.decimalColumns
  }

  /** The final value of a cell of column `column`, coerced as the builder
      coerces that column. */
  function FinalCell(spec: FactSpec, column: string, c: Cell): (r: Result<Cell, Crash>)
    ensures r.Err? ==> column in spec.intColumns
    ensures column !in spec.intColumns && column !in spec.decimalColumns ==> r == Ok(c)
  {
    if column in spec.intColumns then Coerce(ToInt, c)
    else if column in spec.decimalColumns then Coerce(ToDecimal(spec.cleanDecimals), c)
    else Ok(c)
  }

  /** Both coercion loops, in the builder's order. */
  function Coerced(t: Table, spec: FactSpec): (r: Result<Table, Crash>)
    requires WellFormed(t)
  {
    var decimal := ToDecimal(spec.cleanDecimals);
    if spec.decimalsFirst then
      match CoerceColumns(t, spec.decimalColumns, decimal)
      case Err(e) => Err(e)
      case Ok(u) => CoerceColumns(u, spec.intColumns, ToInt)
    else
      match CoerceColumns(t, spec.intColumns, ToInt)
      case Err(e) => Err(e)
      case Ok(u) => CoerceColumns(u, spec.decimalColumns, decimal)
  }

  /** The table a builder returns. An empty list of rows gives
      `pd.DataFrame([])`, which has no columns, so no coercion applies. */
  function FactTable(f: Frame, spec: FactSpec, date: Date): (r: Result<Table, Crash>)
    requires Aligned(f)
  {
    match RawRows(f, spec.mapping, date)
    case Err(e) => Err(e)
    case Ok(raw) =>
      if raw == [] then Ok(Table([], []))
      else Coerced(Table(Header(spec.mapping), raw), spec)
  }

  /** Coercion in either order converts every cell once, as `FinalCell`
      says, and fails exactly when an integer column holds a number with a
      fractional part. */
  lemma CoercedCells(t: Table, spec: FactSpec)
    requires WellFormed(t) && Distinct(t.columns) && ValidSpec(spec)
    ensures Coerced(t, spec).Ok? <==>
      forall i, j :: 0 <= i < |t.rows| && 0 <= j < |t.columns| ==> FinalCell(spec, t.columns[j], t.rows[i][j]).Ok?
    ensures Coerced(t, spec).Ok? ==> Coerced(t, spec).value.columns == t.columns && |Coerced(t, spec).value.rows| == |t.rows|
    ensures Coerced(t, spec).Ok? ==>
      forall i, j :: 0 <= i < |t.rows| && 0 <= j < |t.columns| ==>
        Coerced(t, spec).value.rows[i][j] == FinalCell(spec, t.columns[j], t.rows[i][j]).value
  {
    if spec.decimalsFirst {
      DecimalsFirstCells(t, spec);
    } else {
      IntsFirstCells(t, spec);
    }
  }

  /** `CoercedCells` for the builders that coerce decimal columns first. */
  lemma DecimalsFirstCells(t: Table, spec: FactSpec)
    requires WellFormed(t) && Distinct(t.columns) && ValidSpec(spec) && spec.decimalsFirst
    ensures Coerced(t, spec).Ok? <==>
      forall i, j :: 0 <= i < |t.rows| && 0 <= j < |t.columns| ==> FinalCell(spec, t.columns[j], t.rows[i][j]).Ok?
    ensures Coerced(t, spec).Ok? ==> Coerced(t, spec).value.columns == t.columns && |Coerced(t, spec).value.rows| == |t.rows|
    ensures Coerced(t, spec).Ok? ==>
      forall i, j :: 0 <= i < |t.rows| && 0 <= j < |t.columns| ==>
        Coerced(t, spec).value.rows[i][j] == FinalCell(spec, t.columns[j], t.rows[i][j]).value
  {
    var decimal := ToDecimal(spec.cleanDecimals);
    CoerceColumnsCells(t, spec.decimalColumns, decimal);
    var u := CoerceColumns(t, spec.decimalColumns, decimal).value;
    CoerceColumnsCells(u, spec.intColumns, ToInt);
  }

  /** `CoercedCells` for the builders that coerce integer columns first. */
  lemma IntsFirstCells(t: Table, spec: FactSpec)
    requires WellFormed(t) && Distinct(t.columns) && ValidSpec(spec) && !spec.decimalsFirst
    ensures Coerced(t, spec).Ok? <==>
      forall i, j :: 0 <= i < |t.rows| && 0 <= j < |t.columns| ==> FinalCell(spec, t.columns[j], t.rows[i][j]).Ok?
    ensures Coerced(t, spec).Ok? ==> Coerced(t, spec).value.columns == t.columns && |Coerced(t, spec).value.rows| == |t.rows|
    ensures Coerced(t, spec).Ok? ==>
      forall i, j :: 0 <= i < |t.rows| && 0 <= j < |t.columns| ==>
        Coerced(t, spec).value.rows[i][j] == FinalCell(spec, t.columns[j], t.rows[i][j]).value
  {
    var decimal := ToDecimal(spec.cleanDecimals);
    CoerceColumnsCells(t, spec.intColumns, ToInt);
    if CoerceColumns(t, spec.intColumns, ToInt).Ok? {
      var u := CoerceColumns(t, spec.intColumns, ToInt).value;
      CoerceColumnsCells(u, spec.decimalColumns, decimal);
    }
  }

  /** Header labels are those of the mapping after `user_id` and `datum`. */
  lemma HeaderAt(mapping: seq<(string, string)>)
    ensures |Header(mapping)| == 2 + |mapping|
    ensures Header(mapping)[0] == "user_id" && Header(mapping)[1] == "datum"
    ensures forall m :: 0 <= m < |mapping| ==> Header(mapping)[2 + m] == mapping[m].1
  {
  }

  /** The cell `m` of the dictionary built for a kept row. */
  lemma FactRowAt(f: Frame, p: Parsed, mapping: seq<(string, string)>, date: Date, m: nat)
    requires Aligned(f) && p.row < |f.rows| && m < |mapping|
    ensures FactRow(f, p, mapping, date)[2 + m] == SourceCell(f.columns, f.rows[p.row], mapping[m].0)
  {
  }

  /** The collected rows under the header form a table. */
  lemma RawTableWellFormed(raw: seq<seq<Cell>>, mapping: seq<(string, string)>)
    requires forall k :: 0 <= k < |raw| ==> |raw[k]| == 2 + |mapping|
    ensures WellFormed(Table(Header(mapping), raw))
  {
    HeaderAt(mapping);
  }

  /** When coercing collected rows succeeds, each mapped cell converts. */
  lemma RawTableOkCells(raw: seq<seq<Cell>>, spec: FactSpec, k: nat, m: nat)
    requires ValidSpec(spec) && forall k :: 0 <= k < |raw| ==> |raw[k]| == 2 + |spec.mapping|
    requires WellFormed(Table(Header(spec.mapping), raw)) && Coerced(Table(Header(spec.mapping), raw), spec).Ok?
    requires k < |raw| && m < |spec.mapping|
    ensures FinalCell(spec, spec.mapping[m].1, raw[k][2 + m]).Ok?
  {
    var t := Table(Header(spec.mapping), raw);
    HeaderAt(spec.mapping);
    CoercedCells(t, spec);
    assert FinalCell(spec, t.columns[2 + m], t.rows[k][2 + m]).Ok?;
  }

  /** When every mapped cell of the collected rows converts, coercing them
      succeeds. */
  lemma RawTableAllOk(raw: seq<seq<Cell>>, spec: FactSpec)
    requires ValidSpec(spec) && forall k :: 0 <= k < |raw| ==> |raw[k]| == 2 + |spec.mapping|
    requires WellFormed(Table(Header(spec.mapping), raw))
    requires forall k, m :: 0 <= k < |raw| && 0 <= m < |spec.mapping| ==> FinalCell(spec, spec.mapping[m].1, raw[k][2 + m]).Ok?
    ensures Coerced(Table(Header(spec.mapping), raw), spec).Ok?
  {
    var t := Table(Header(spec.mapping), raw);
    forall i, j | 0 <= i < |t.rows| && 0 <= j < |t.columns|
      ensures FinalCell(spec, t.columns[j], t.rows[i][j]).Ok?
    {
      RawCellOk(raw, spec, i, j);
    }
    CoercedCells(t, spec);
  }

  lemma RawCellOk(raw: seq<seq<Cell>>, spec: FactSpec, i: nat, j: nat)
    requires ValidSpec(spec) && forall k :: 0 <= k < |raw| ==> |raw[k]| == 2 + |spec.mapping|
    requires forall k, m :: 0 <= k < |raw| && 0 <= m < |spec.mapping| ==> FinalCell(spec, spec.mapping[m].1, raw[k][2 + m]).Ok?
    requires i < |raw| && j < 2 + |spec.mapping|
    ensures FinalCell(spec, Header(spec.mapping)[j], raw[i][j]).Ok?
  {
    if j >= 2 {
      var m := j - 2;
      assert FinalCell(spec, spec.mapping[m].1, raw[i][2 + m]).Ok?;
      assert Header(spec.mapping)[j] == spec.mapping[m].1 by {
        HeaderAt(spec.mapping);
      }
    } else {
      assert Header(spec.mapping)[j] in {"user_id", "datum"} by {
        HeaderAt(spec.mapping);
      }
      assert Header(spec.mapping)[j] !in spec.intColumns;
    }
  }

  /** Coerced collected rows: the first two cells stay and every mapped
      cell becomes its `FinalCell`. */
  lemma RawTableValues(raw: seq<seq<Cell>>, spec: FactSpec)
    requires ValidSpec(spec) && forall k :: 0 <= k < |raw| ==> |raw[k]| == 2 + |spec.mapping|
    requires WellFormed(Table(Header(spec.mapping), raw)) && Coerced(Table(Header(spec.mapping), raw), spec).Ok?
    requires forall k, m :: 0 <= k < |raw| && 0 <= m < |spec.mapping| ==> FinalCell(spec, spec.mapping[m].1, raw[k][2 + m]).Ok?
    ensures var u := Coerced(Table(Header(spec.mapping), raw), spec).value;
      && u.columns == Header(spec.mapping) && |u.rows| == |raw|
      && forall k :: 0 <= k < |raw| ==>
        && |u.rows[k]| == 2 + |spec.mapping| && u.rows[k][0] == raw[k][0] && u.rows[k][1] == raw[k][1]
        && forall m :: 0 <= m < |spec.mapping| ==> u.rows[k][2 + m] == FinalCell(spec, spec.mapping[m].1, raw[k][2 + m]).value
  {
    var t := Table(Header(spec.mapping), raw);
    HeaderAt(spec.mapping);
    CoercedCells(t, spec);
    var u := Coerced(t, spec).value;
    forall k | 0 <= k < |raw|
      ensures |u.rows[k]| == 2 + |spec.mapping| && u.rows[k][0] == raw[k][0] && u.rows[k][1] == raw[k][1]
      ensures forall m :: 0 <= m < |spec.mapping| ==> u.rows[k][2 + m] == FinalCell(spec, spec.mapping[m].1, raw[k][2 + m]).value
    {
      assert u.rows[k][0] == FinalCell(spec, t.columns[0], raw[k][0]).value;
      assert u.rows[k][1] == FinalCell(spec, t.columns[1], raw[k][1]).value;
      forall m | 0 <= m < |spec.mapping|
        ensures u.rows[k][2 + m] == FinalCell(spec, spec.mapping[m].1, raw[k][2 + m]).value
      {
        assert t.columns[2 + m] == spec.mapping[m].1;
      }
    }
  }

  /** Coercing collected rows: the first two cells stay, every mapped cell
      becomes its `FinalCell`, and the coercion fails exactly when one of
      them does. */
  lemma RawTableCells(raw: seq<seq<Cell>>, spec: FactSpec)
    requires ValidSpec(spec) && forall k :: 0 <= k < |raw| ==> |raw[k]| == 2 + |spec.mapping|
    ensures WellFormed(Table(Header(spec.mapping), raw))
    ensures Coerced(Table(Header(spec.mapping), raw), spec).Ok? <==>
      forall k, m :: 0 <= k < |raw| && 0 <= m < |spec.mapping| ==> FinalCell(spec, spec.mapping[m].1, raw[k][2 + m]).Ok?
    ensures Coerced(Table(Header(spec.mapping), raw), spec).Ok? ==>
      var u := Coerced(Table(Header(spec.mapping), raw), spec).value;
      && u.columns == Header(spec.mapping) && |u.rows| == |raw|
      && forall k :: 0 <= k < |raw| ==>
        && |u.rows[k]| == 2 + |spec.mapping| && u.rows[k][0] == raw[k][0] && u.rows[k][1] == raw[k][1]
        && forall m :: 0 <= m < |spec.mapping| ==> u.rows[k][2 + m] == FinalCell(spec, spec.mapping[m].1, raw[k][2 + m]).value
  {
    var t := Table(Header(spec.mapping), raw);
    RawTableWellFormed(raw, spec.mapping);
    if Coerced(t, spec).Ok? {
      forall k, m | 0 <= k < |raw| && 0 <= m < |spec.mapping|
        ensures FinalCell(spec, spec.mapping[m].1, raw[k][2 + m]).Ok?
      {
        RawTableOkCells(raw, spec, k, m);
      }
      RawTableValues(raw, spec);
    } else if forall k, m :: 0 <= k < |raw| && 0 <= m < |spec.mapping| ==> FinalCell(spec, spec.mapping[m].1, raw[k][2 + m]).Ok? {
      RawTableAllOk(raw, spec);
    }
  }

  /** What a builder returns when its row loop does not raise: no columns
      at all when no row is kept; otherwise one row per kept row, in order,
      holding the agent's id, the date and every mapped value coerced as its
      column is. It raises exactly when an integer column receives a number
      with a fractional part. */
  lemma FactTableCells(f: Frame, spec: FactSpec, date: Date)
    requires Aligned(f) && ValidSpec(spec) && RawRows(f, spec.mapping, date).Ok?
    ensures var ps := ParsedRows(f);
      FactTable(f, spec, date).Ok? <==>
        forall k, m :: 0 <= k < |ps| && 0 <= m < |spec.mapping| ==>
          FinalCell(spec, spec.mapping[m].1, SourceCell(f.columns, f.rows[ps[k].row], spec.mapping[m].0)).Ok?
    ensures FactTable(f, spec, date).Ok? && |ParsedRows(f)| == 0 ==> FactTable(f, spec, date).value == Table([], [])
    ensures var ps := ParsedRows(f);
      FactTable(f, spec, date).Ok? && |ps| > 0 ==>
        var t := FactTable(f, spec, date).value;
        && t.columns == Header(spec.mapping) && |t.rows| == |ps|
        && forall k :: 0 <= k < |ps| ==>
          && |t.rows[k]| == 2 + |spec.mapping|
          && t.rows[k][0] == Int(ps[k].agent.id) && t.rows[k][1] == Day(date)
          && forall m :: 0 <= m < |spec.mapping| ==>
            t.rows[k][2 + m] == FinalCell(spec, spec.mapping[m].1, SourceCell(f.columns, f.rows[ps[k].row], spec.mapping[m].0)).value
  {
    var ps := ParsedRows(f);
    var raw := FactRows(f, ps, spec.mapping, date);
    assert RawRows(f, spec.mapping, date) == Ok(raw);
    if |ps| > 0 {
      KeptTableOk(f, spec, date);
      if FactTable(f, spec, date).Ok? {
        KeptTableValues(f, spec, date);
      }
    }
  }

  /** The collected rows of a frame with kept rows, cell by cell. */
  lemma KeptRaw(f: Frame, spec: FactSpec, date: Date)
    requires Aligned(f) && ValidSpec(spec) && RawRows(f, spec.mapping, date).Ok? && |ParsedRows(f)| > 0
    ensures var ps := ParsedRows(f);
      var raw := FactRows(f, ps, spec.mapping, date);
      && RawRows(f, spec.mapping, date) == Ok(raw)
      && FactTable(f, spec, date) == Coerced(Table(Header(spec.mapping), raw), spec)
      && forall k, m :: 0 <= k < |ps| && 0 <= m < |spec.mapping| ==>
           raw[k][2 + m] == SourceCell(f.columns, f.rows[ps[k].row], spec.mapping[m].0)
  {
    var ps := ParsedRows(f);
    var raw := FactRows(f, ps, spec.mapping, date);
    assert RawRows(f, spec.mapping, date) == Ok(raw);
    assert raw != [];
    forall k, m | 0 <= k < |ps| && 0 <= m < |spec.mapping|
      ensures raw[k][2 + m] == SourceCell(f.columns, f.rows[ps[k].row], spec.mapping[m].0)
    {
      FactRowAt(f, ps[k], spec.mapping, date, m);
    }
  }

  /** `FactTableCells`, when it fails, for a frame with kept rows. */
  lemma KeptTableOk(f: Frame, spec: FactSpec, date: Date)
    requires Aligned(f) && ValidSpec(spec) && RawRows(f, spec.mapping, date).Ok? && |ParsedRows(f)| > 0
    ensures var ps := ParsedRows(f);
      FactTable(f, spec, date).Ok? <==>
        forall k, m :: 0 <= k < |ps| && 0 <= m < |spec.mapping| ==>
          FinalCell(spec, spec.mapping[m].1, SourceCell(f.columns, f.rows[ps[k].row], spec.mapping[m].0)).Ok?
  {
    KeptRaw(f, spec, date);
    RawTableCells(FactRows(f, ParsedRows(f), spec.mapping, date), spec);
  }

  /** `FactTableCells`, the cells, for a frame with kept rows. */
  lemma KeptTableValues(f: Frame, spec: FactSpec, date: Date)
    requires Aligned(f) && ValidSpec(spec) && RawRows(f, spec.mapping, date).Ok? && |ParsedRows(f)| > 0
    requires FactTable(f, spec, date).Ok?
    requires forall k, m :: 0 <= k < |ParsedRows(f)| && 0 <= m < |spec.mapping| ==>
      FinalCell(spec, spec.mapping[m].1, SourceCell(f.columns, f.rows[ParsedRows(f)[k].row], spec.mapping[m].0)).Ok?
    ensures var ps := ParsedRows(f);
      var t := FactTable(f, spec, date).value;
      && t.columns == Header(spec.mapping) && |t.rows| == |ps|
      && forall k :: 0 <= k < |ps| ==>
        && |t.rows[k]| == 2 + |spec.mapping|
        && t.rows[k][0] == Int(ps[k].agent.id) && t.rows[k][1] == Day(date)
        && forall m :: 0 <= m < |spec.mapping| ==>
          t.rows[k][2 + m] == FinalCell(spec, spec.mapping[m].1, SourceCell(f.columns, f.rows[ps[k].row], spec.mapping[m].0)).value
  {
    KeptRaw(f, spec, date);
    RawTableCells(FactRows(f, ParsedRows(f), spec.mapping, date), spec);
  }

  // ---------------------------------------------------------------------
  // The builder loop

  /** Appending a kept row to the kept rows appends its dictionary. */
  lemma FactRowsSnoc(f: Frame, ps: seq<Parsed>, p: Parsed, mapping: seq<(string, string)>, date: Date)
    requires Aligned(f) && p.row < |f.rows| && forall k :: 0 <= k < |ps| ==> ps[k].row < |f.rows|
    ensures FactRows(f, ps + [p], mapping, date) == FactRows(f, ps, mapping, date) + [FactRow(f, p, mapping, date)]
  {
  }

  /** The inner loop of a builder: `row.get(csv_col)` for each mapping
      entry; a duplicated label raises. */
  method MapRowLoop(cols: seq<string>, row: seq<Value>, mapping: seq<(string, string)>) returns (r: Result<seq<Cell>, Crash>)
    requires |row| == |cols|
    ensures r.Err? <==> DuplicatedSource(cols, mapping)
    ensures r.Err? ==> r.error == DuplicateColumn
    ensures r.Ok? ==> r.value == SourceCells(cols, row, mapping)
  {
    var cells: seq<Cell> := [];
    var m := 0;
    while m < |mapping|
      invariant 0 <= m <= |mapping|
      invariant !DuplicatedSource(cols, mapping[..m])
      invariant cells == SourceCells(cols, row, mapping[..m])
    {
      var source := mapping[m].0;
      match Get(cols, row, source) {
        case Ambiguous =>
          return Err(DuplicateColumn);
        case Found(v) =>
          cells := cells + [FromValue(v)];
        case Absent =>
          cells := cells + [Missing(NoneValue)];
      }
      m := m + 1;
      assert !DuplicatedSource(cols, mapping[..m]) by {
        forall n | 0 <= n < m ensures Occurrences(cols, mapping[..m][n].0) <= 1 {
          if n < m - 1 { assert mapping[..m][n] == mapping[..m - 1][n]; }
        }
      }
    }
    assert mapping[..m] == mapping;
    return Ok(cells);
  }

  /** The two coercion loops of a builder, in its order. */
  method CoercePhase(t: Table, spec: FactSpec) returns (r: Result<Table, Crash>)
    requires WellFormed(t)
    ensures r == Coerced(t, spec)
  {
    var decimal := ToDecimal(spec.cleanDecimals);
    if spec.decimalsFirst {
      var u :- CoerceLoop(t, spec.decimalColumns, decimal);
      r := CoerceLoop(u, spec.intColumns, ToInt);
    } else {
      var u :- CoerceLoop(t, spec.intColumns, ToInt);
      r := CoerceLoop(u, spec.decimalColumns, decimal);
    }
  }

  /** A row whose Agent field parses is kept. */
  lemma KeptRow(f: Frame, i: nat)
    requires Aligned(f) && i < |f.rows| && AgentOf(f.columns, f.rows[i]).Ok? && AgentOf(f.columns, f.rows[i]).value.Some?
    ensures |ParsedRows(f)| > 0
  {
    var ps := ParsedRows(f);
    assert exists k :: 0 <= k < |ps| && ps[k].row == i;
  }

  /** One more outcome keeps one more row exactly when it is an agent. */
  lemma KeptStep(outs: seq<Result<Option<Agent>, Crash>>, i: nat)
    requires i < |outs|
    ensures outs[i].Ok? && outs[i].value.Some? ==> Kept(outs[..i + 1]) == Kept(outs[..i]) + [Parsed(i, outs[i].value.value)]
    ensures !(outs[i].Ok? && outs[i].value.Some?) ==> Kept(outs[..i + 1]) == Kept(outs[..i])
  {
    assert outs[..i + 1][..i] == outs[..i];
  }

  lemma RawRowsAgentDuplicated(f: Frame, mapping: seq<(string, string)>, date: Date)
    requires Aligned(f) && |f.rows| > 0 && Occurrences(f.columns, AgentColumn) > 1
    ensures RawRows(f, mapping, date) == Err(DuplicateColumn)
  {
  }

  lemma RawRowsSourceDuplicated(f: Frame, mapping: seq<(string, string)>, date: Date, i: nat)
    requires Aligned(f) && i < |f.rows| && AgentOf(f.columns, f.rows[i]).Ok? && AgentOf(f.columns, f.rows[i]).value.Some?
    requires DuplicatedSource(f.columns, mapping)
    ensures RawRows(f, mapping, date) == Err(DuplicateColumn)
  {
    KeptRow(f, i);
  }

  lemma RawRowsNoCrash(f: Frame, mapping: seq<(string, string)>, date: Date)
    requires Aligned(f)
    requires |f.rows| > 0 ==> Occurrences(f.columns, AgentColumn) <= 1
    requires |Kept(Outcomes(f))| > 0 ==> !DuplicatedSource(f.columns, mapping)
    ensures RawRows(f, mapping, date) == Ok(FactRows(f, Kept(Outcomes(f)), mapping, date))
  {
  }

  /** What the row loop has collected after `i` rows. */
  predicate Collected(f: Frame, mapping: seq<(string, string)>, date: Date, i: nat, rows: seq<seq<Cell>>)
    requires Aligned(f) && i <= |f.rows|
  {
    var ps := Kept(Outcomes(f)[..i]);
    && (i > 0 ==> Occurrences(f.columns, AgentColumn) <= 1)
    && (|ps| > 0 ==> !DuplicatedSource(f.columns, mapping))
    && (forall k :: 0 <= k < |ps| ==> ps[k].row < i)
    && rows == FactRows(f, ps, mapping, date)
  }

  /** A row whose Agent field does not parse adds nothing. */
  lemma CollectSkip(f: Frame, mapping: seq<(string, string)>, date: Date, i: nat, rows: seq<seq<Cell>>)
    requires Aligned(f) && i < |f.rows| && Collected(f, mapping, date, i, rows)
    requires AgentOf(f.columns, f.rows[i]) == Ok(None)
    ensures Collected(f, mapping, date, i + 1, rows)
  {
    var outs := Outcomes(f);
    KeptStep(outs, i);
    assert outs[..i + 1][..i] == outs[..i];
  }

  /** A row whose Agent field parses adds its dictionary. */
  lemma CollectKeep(f: Frame, mapping: seq<(string, string)>, date: Date, i: nat, rows: seq<seq<Cell>>, a: Agent)
    requires Aligned(f) && i < |f.rows| && Collected(f, mapping, date, i, rows)
    requires AgentOf(f.columns, f.rows[i]) == Ok(Some(a)) && !DuplicatedSource(f.columns, mapping)
    ensures Collected(f, mapping, date, i + 1, rows + [[Int(a.id), Day(date)] + SourceCells(f.columns, f.rows[i], mapping)])
  {
    var outs := Outcomes(f);
    var p := Parsed(i, a);
    var ps := Kept(outs[..i]);
    assert outs[i] == Ok(Some(a));
    KeptStep(outs, i);
    var next := Kept(outs[..i + 1]);
    assert next == ps + [p];
    assert forall k :: 0 <= k < |next| ==> next[k].row < i + 1 by {
      assert forall k :: 0 <= k < |ps| ==> next[k] == ps[k];
    }
    FactRowsSnoc(f, ps, p, mapping, date);
    assert FactRow(f, p, mapping, date) == [Int(a.id), Day(date)] + SourceCells(f.columns, f.rows[i], mapping);
  }

  /** After the last row, the loop has collected `RawRows`. */
  lemma CollectDone(f: Frame, mapping: seq<(string, string)>, date: Date, rows: seq<seq<Cell>>)
    requires Aligned(f) && Collected(f, mapping, date, |f.rows|, rows)
    ensures RawRows(f, mapping, date) == Ok(rows)
  {
    assert Outcomes(f)[..|f.rows|] == Outcomes(f);
    RawRowsNoCrash(f, mapping, date);
  }

  /** The row loop of a builder, with its inner mapping loop. */
  method CollectRows(f: Frame, mapping: seq<(string, string)>, date: Date) returns (r: Result<seq<seq<Cell>>, Crash>)
    requires Aligned(f)
    ensures r == RawRows(f, mapping, date)
  {
    var rows: seq<seq<Cell>> := [];
    var i := 0;
    assert Outcomes(f)[..0] == [];
    while i < |f.rows|
      invariant 0 <= i <= |f.rows|
      invariant Collected(f, mapping, date, i, rows)
    {
      var agent := AgentOf(f.columns, f.rows[i]);
      if agent.Err? {
        RawRowsAgentDuplicated(f, mapping, date);
        return Err(agent.error);
      }
      if agent.value.Some? {
        var a := agent.value.value;
        var cells := MapRowLoop(f.columns, f.rows[i], mapping);
        if cells.Err? {
          RawRowsSourceDuplicated(f, mapping, date, i);
          return Err(cells.error);
        }
        CollectKeep(f, mapping, date, i, rows, a);
        rows := rows + [[Int(a.id), Day(date)] + cells.value];
      } else {
        CollectSkip(f, mapping, date, i, rows);
      }
      i := i + 1;
    }
    CollectDone(f, mapping, date, rows);
    return Ok(rows);
  }

  /** A builder (`transform_to_daily_performance` and its siblings): the
      row loop, then the coercion loops. */
  method BuildFactTable(f: Frame, spec: FactSpec, date: Date) returns (r: Result<Table, Crash>)
    requires Aligned(f)
    ensures r == FactTable(f, spec, date)
  {
    var rows :- CollectRows(f, spec.mapping, date);
    if rows == [] {
      return Ok(Table([], []));
    }
    r := CoercePhase(Table(Header(spec.mapping), rows), spec);
  }

  // ---------------------------------------------------------------------
  // The builders' column lists

  /** `transform_to_daily_performance`: integer columns first, decimal
      columns cleaned of Swedish formatting. */
  const PerformanceSpec: FactSpec := FactSpec(
    [("Samtal", "samtal"), ("ACD", "acd_seconds"), ("ACW", "acw_seconds"), ("Hold", "hold_seconds"),
     ("Koppling", "koppling_pct"), ("BB", "bb_antal"), ("PP", "pp_antal"), ("TV", "tv_antal"),
     ("MBB", "mbb_antal"), ("Other", "other_antal"), ("Erbjud %", "erbjud_pct"),
     ("Save provis", "save_provis_kr"), ("Provis", "provis_kr"), ("FMC prov", "fmc_prov_kr"),
     ("Value change", "value_change_kr")],
    ["samtal", "acd_seconds", "acw_seconds", "hold_seconds", "bb_antal", "pp_antal", "tv_antal",
     "mbb_antal", "other_antal"],
    ["koppling_pct", "erbjud_pct", "save_provis_kr", "provis_kr", "fmc_prov_kr", "value_change_kr"],
    true, false)

  /** `transform_to_daily_retention`: decimal columns first, no cleaning. */
  const RetentionSpec: FactSpec := FactSpec(
    [("V\U{E4}nd TV", "vand_tv_pct"), ("V\U{E4}nd BB", "vand_bb_pct"), ("V\U{E4}nd PP", "vand_pp_pct"),
     ("V\U{E4}nd %", "vand_total_pct"), ("Antal V\U{E4}nd", "vand_antal")],
    ["vand_antal"],
    ["vand_tv_pct", "vand_bb_pct", "vand_pp_pct", "vand_total_pct"],
    false, true)

  /** `transform_to_daily_nps`: integer columns first, no cleaning. */
  const NpsSpec: FactSpec := FactSpec(
    [("Antal", "nps_antal_svar"), ("NPS", "nps_score"), ("CSAT", "csat_pct"), ("CB", "cb_pct")],
    ["nps_antal_svar"],
    ["nps_score", "csat_pct", "cb_pct"],
    false, false)

  lemma PerformanceHeaderDistinct(header: seq<string>)
    requires header == ["user_id", "datum", "samtal", "acd_seconds", "acw_seconds", "hold_seconds", "koppling_pct",
      "bb_antal", "pp_antal", "tv_antal", "mbb_antal", "other_antal", "erbjud_pct", "save_provis_kr",
      "provis_kr", "fmc_prov_kr", "value_change_kr"]
    ensures Distinct(header)
  {
  }

  lemma PerformanceListsValid(ints: seq<string>, decimals: seq<string>)
    requires ints == ["samtal", "acd_seconds", "acw_seconds", "hold_seconds", "bb_antal", "pp_antal", "tv_antal",
      "mbb_antal", "other_antal"]
    requires decimals == ["koppling_pct", "erbjud_pct", "save_provis_kr", "provis_kr", "fmc_prov_kr", "value_change_kr"]
    ensures Distinct(ints) && Distinct(decimals) && (forall c :: c in ints ==> c !in decimals)
    ensures "user_id" !in ints && "user_id" !in decimals && "datum" !in ints && "datum" !in decimals
  {
  }

  lemma PerformanceSpecValid()
    ensures ValidSpec(PerformanceSpec)
  {
    var spec := PerformanceSpec;
    var header := ["user_id", "datum", "samtal", "acd_seconds", "acw_seconds", "hold_seconds", "koppling_pct",
      "bb_antal", "pp_antal", "tv_antal", "mbb_antal", "other_antal", "erbjud_pct", "save_provis_kr",
      "provis_kr", "fmc_prov_kr", "value_change_kr"];
    assert Header(spec.mapping) == header by {
      assert Targets(spec.mapping) == header[2..];
    }
    assert Distinct(header) by {
      PerformanceHeaderDistinct(header);
    }
    PerformanceListsValid(spec.intColumns, spec.decimalColumns);
  }

  lemma RetentionHeaderDistinct(header: seq<string>)
    requires header == ["user_id", "datum", "vand_tv_pct", "vand_bb_pct", "vand_pp_pct", "vand_total_pct", "vand_antal"]
    ensures Distinct(header)
  {
  }

  lemma RetentionSpecValid()
    ensures ValidSpec(RetentionSpec)
  {
    var spec := RetentionSpec;
    var header := ["user_id", "datum", "vand_tv_pct", "vand_bb_pct", "vand_pp_pct", "vand_total_pct", "vand_antal"];
    assert Header(spec.mapping) == header by {
      assert Targets(spec.mapping) == header[2..];
    }
    assert Distinct(header) by {
      RetentionHeaderDistinct(header);
    }
  }

  lemma NpsHeaderDistinct(header: seq<string>)
    requires header == ["user_id", "datum", "nps_antal_svar", "nps_score", "csat_pct", "cb_pct"]
    ensures Distinct(header)
  {
  }

  lemma NpsSpecValid()
    ensures ValidSpec(NpsSpec)
  {
    var spec := NpsSpec;
    var header := ["user_id", "datum", "nps_antal_svar", "nps_score", "csat_pct", "cb_pct"];
    assert Header(spec.mapping) == header by {
      assert Targets(spec.mapping) == header[2..];
    }
    assert Distinct(header) by {
      NpsHeaderDistinct(header);
    }
  }

  // ---------------------------------------------------------------------
  // The builders, and what their coercions do to single values

  method TransformToDailyPerformance(f: Frame, date: Date) returns (r: Result<Table, Crash>)
    requires Aligned(f)
    ensures r == FactTable(f, PerformanceSpec, date)
  {
    r := BuildFactTable(f, PerformanceSpec, date);
  }

  method TransformToDailyRetention(f: Frame, date: Date) returns (r: Result<Table, Crash>)
    requires Aligned(f)
    ensures r == FactTable(f, RetentionSpec, date)
  {
    r := BuildFactTable(f, RetentionSpec, date);
  }

  method TransformToDailyNps(f: Frame, date: Date) returns (r: Result<Table, Crash>)
    requires Aligned(f)
    ensures r == FactTable(f, NpsSpec, date)
  {
    r := BuildFactTable(f, NpsSpec, date);
  }

  /** A negative whole number in an integer column is kept as it is. */
  lemma NegativeCountKept(spec: FactSpec, column: string, digits: string)
    requires column in spec.intColumns && AllDigits(digits) && |digits| > 0
    ensures FinalCell(spec, column, Text(SignText(true) + digits)) == Ok(Int(-(DigitsValue(digits) as int)))
  {
    IntCellOfNegative(digits);
  }


  /** A negative call count is kept: the check on `samtal` only warns. */
  lemma NegativeSamtalKept(digits: string)
    requires AllDigits(digits) && |digits| > 0
    ensures FinalCell(PerformanceSpec, "samtal", Text(SignText(true) + digits)) == Ok(Int(-(DigitsValue(digits) as int)))
  {
    assert "samtal" == PerformanceSpec.intColumns[0];
    NegativeCountKept(PerformanceSpec, "samtal", digits);
  }

  /** A count with a fractional part makes the performance builder raise. */
  lemma FractionalCountRaises(whole: string, frac: string)
    requires AllDigits(whole) && AllDigits(frac) && |whole| > 0
    requires exists i :: 0 <= i < |frac| && frac[i] != '0'
    ensures FinalCell(PerformanceSpec, "samtal", Text(whole + "." + frac)).Err?
  {
    assert "samtal" == PerformanceSpec.intColumns[0];
    ParsePointed(false, whole, frac);
    assert SignText(false) + whole + "." + frac == whole + "." + frac;
    var d := FromParts(false, whole, frac);
    assert !IsWhole(d) by {
      FractionDigitsNotWhole(whole, frac);
    }
  }

  /** A Swedish amount in a decimal performance column becomes the number
      it denotes. */
  lemma SwedishAmountInPerformance(column: string, negative: bool, grouped: string, frac: string, currency: bool)
    requires column in PerformanceSpec.decimalColumns
    requires IsGrouped(grouped) && AllDigits(frac) && |RemoveDots(grouped)| + |frac| > 0
    ensures AllDigits(RemoveDots(grouped))
    ensures FinalCell(PerformanceSpec, column, Text(SwedishText(negative, grouped, frac, currency)))
      == Ok(Dec(FromParts(negative, RemoveDots(grouped), frac)))
  {
    PerformanceListsValid(PerformanceSpec.intColumns, PerformanceSpec.decimalColumns);
    SwedishAmountRoundTrip(negative, grouped, frac, currency);
  }

  /** Retention and NPS values are not cleaned: a decimal comma leaves no
      number, so the cell becomes `NaN`. */
  lemma CommaNotCleanedInRetention(column: string, whole: string, frac: string)
    requires column in RetentionSpec.decimalColumns
    requires AllDigits(whole) && AllDigits(frac)
    ensures FinalCell(RetentionSpec, column, Text(whole + "," + frac)) == Ok(Missing(NaN))
  {
    var s := whole + "," + frac;
    assert s[|whole|] == ',';
    if ParseDecimal(s).Some? {
      ParseDecimalChars(s);
    }
  }

  /** A negative NPS score is kept as a negative number. */
  lemma NegativeNpsKept(whole: string, frac: string)
    requires AllDigits(whole) && AllDigits(frac) && |whole| + |frac| > 0
    ensures FinalCell(NpsSpec, "nps_score", Text("-" + whole + "." + frac)) == Ok(Dec(FromParts(true, whole, frac)))
  {
    assert "nps_score" == NpsSpec.decimalColumns[0];
    assert "nps_score" !in NpsSpec.intColumns;
    ParsePointed(true, whole, frac);
  }
}
