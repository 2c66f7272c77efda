/** The tabular data the pipeline moves around: the raw CSV frame the
    transform stage reads (`pd.DataFrame` of strings and numbers) and the
    typed tables it hands to the loader. */
module Frames {
  import opened Decimals

  /** `datetime.date`. */
  datatype Date = Date(year: int, month: int, day: int)

  /** A raw CSV cell: missing (`NaN`/`None`), text, or a number the CSV
      reader already recognised. */
  datatype Value = Null | Str(s: string) | Num(n: Decimal)

  /** A raw frame. Rows are positional, one cell per column label, as in
      pandas; labels need not be distinct. */
  datatype Frame = Frame(columns: seq<string>, rows: seq<seq<Value>>)

  /** Every row has one cell per column. */
  predicate Aligned(f: Frame) {
    forall i :: 0 <= i < |f.rows| ==> |f.rows[i]| == |f.columns|
  }

  /** `df.empty`: true when either axis has length zero. */
  predicate IsEmpty(f: Frame) {
    |f.rows| == 0 || |f.columns| == 0
  }

  predicate Distinct<T(==)>(s: seq<T>) {
    forall i, j :: 0 <= i < j < |s| ==> s[i] != s[j]
  }

  /** How many columns carry the label `name`. */
  function Occurrences(cols: seq<string>, name: string): (n: nat)
    ensures n == 0 <==> name !in cols
    ensures n <= 1 ==> forall i, j :: 0 <= i < j < |cols| && cols[i] == name ==> cols[j] != name
  {
    if cols == [] then 0 else (if cols[0] == name then 1 else 0) + Occurrences(cols[1..], name)
  }

  /** The position of the first column labelled `name`. */
  function FirstIndex(cols: seq<string>, name: string): (k: nat)
    requires name in cols
    ensures k < |cols| && cols[k] == name
    ensures forall i :: 0 <= i < k ==> cols[i] != name
  {
    if cols[0] == name then 0 else 1 + FirstIndex(cols[1..], name)
  }

  lemma FirstIndexOfDistinct(cols: seq<string>, k: nat)
    requires Distinct(cols) && k < |cols|
    ensures FirstIndex(cols, cols[k]) == k
  {
  }

  /** What `row.get(name)` gives on a pandas row: nothing when no column has
      the label, a `Series` (which the transform code cannot test for
      truth) when several do, the cell otherwise. */
  datatype Lookup = Absent | Found(v: Value) | Ambiguous

  function Get(cols: seq<string>, row: seq<Value>, name: string): (l: Lookup)
    requires |row| == |cols|
    ensures l.Absent? <==> name !in cols
    ensures l.Ambiguous? <==> Occurrences(cols, name) > 1
    ensures l.Found? ==> forall i :: 0 <= i < |cols| && cols[i] == name ==> row[i] == l.v
  {
    var n := Occurrences(cols, name);
    if n == 0 then Absent
    else if n == 1 then Found(row[FirstIndex(cols, name)])
    else Ambiguous
  }

  /** Which missing-value marker a cell holds: `pd.NA` (nullable integer
      columns), `NaN` (float columns) or Python's `None` (object columns). */
  datatype NullKind = NA | NaN | NoneValue

  /** A cell of an output table. */
  datatype Cell = Missing(kind: NullKind) | Int(i: int) | Dec(d: Decimal) | Text(s: string) | Day(date: Date)

  /** A typed output table: column labels and positional rows. */
  datatype Table = Table(columns: seq<string>, rows: seq<seq<Cell>>)

  predicate WellFormed(t: Table) {
    forall i :: 0 <= i < |t.rows| ==> |t.rows[i]| == |t.columns|
  }

  /** A raw value stored in an object column of a new DataFrame. */
  function FromValue(v: Value): Cell {
    match v
    case Null => Missing(NoneValue)
    case Str(s) => Text(s)
    case Num(n) => Dec(n)
  }

  /** The exceptions the DataFrame operations of the transform stage can
      raise: truth-testing the `Series` a duplicated label yields, and
      `astype("Int64")` of a number that is not whole. */
  datatype Crash = DuplicateColumn | NotWholeNumber
}
