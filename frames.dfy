/** The tabular data a filtering pass works on: cells, column types, rows
    and the well-formedness a loaded table satisfies. */
module Frames {

  datatype Option<+T> = None | Some(value: T)

  /** One value of the table. `Missing` stands for the library's NaN, NaT
      and None; numbers and instants are integers (an instant counts
      nanoseconds since the epoch on a time-zone-naive clock, as the
      library's date/time columns store it). */
  datatype Cell = Missing | Num(n: int) | Stamp(t: int) | Str(s: string)

  /** The storage type of a column: generic objects (text read from the
      file), machine numbers, date/times, an explicit categorical type, or
      anything else (which is never converted and ends up as Text). */
  datatype DType = ObjectType | NumericType | DateTimeType | CategoricalType | OtherType

  datatype ColumnInfo = ColumnInfo(name: string, dtype: DType)

  type Row = seq<Cell>

  /** A table is its ordered column header plus its rows, in order. */
  datatype Table = Table(columns: seq<ColumnInfo>, rows: seq<Row>)

  /** The two conversions the filter borrows from the data library:
      reading a value as an instant (date/time parsing) and printing a
      value as a string. Both are opaque here. */
  datatype Coercions = Coercions(toInstant: Cell -> Option<int>, toText: Cell -> string)

  /** A value that may be stored in a column of the given type. */
  predicate Typed(d: DType, c: Cell) {
    match d
    case NumericType => c.Num? || c.Missing?
    case DateTimeType => c.Stamp? || c.Missing?
    case _ => true
  }

  /** A row that lines up with the header and stores a value of the right
      type in every column. */
  predicate RowFits(columns: seq<ColumnInfo>, row: Row) {
    |row| == |columns| && forall j :: 0 <= j < |row| ==> Typed(columns[j].dtype, row[j])
  }

  predicate DistinctNames(columns: seq<ColumnInfo>) {
    forall j, k :: 0 <= j < k < |columns| ==> columns[j].name != columns[k].name
  }

  /** What the loader guarantees: equal-length rows, typed cells, and
      unique column names. */
  predicate WellFormed(t: Table) {
    DistinctNames(t.columns) && forall row :: row in t.rows ==> RowFits(t.columns, row)
  }

  predicate HasColumn(rows: seq<Row>, c: nat) {
    forall row :: row in rows ==> c < |row|
  }

  /** The values of column `c`, top to bottom. */
  function ColumnOf(rows: seq<Row>, c: nat): seq<Cell>
    requires HasColumn(rows, c)
  {
    seq(|rows|, i requires 0 <= i < |rows| => rows[i][c])
  }

  /** Looking a column up by name, as indexing a frame by a label does. */
  function IndexOf(columns: seq<ColumnInfo>, name: string): (r: Option<nat>)
    ensures r.Some? ==> r.value < |columns| && columns[r.value].name == name
    ensures r.Some? ==> forall j :: 0 <= j < r.value ==> columns[j].name != name
    ensures r.None? <==> forall j :: 0 <= j < |columns| ==> columns[j].name != name
  {
    if |columns| == 0 then None
    else if columns[0].name == name then Some(0)
    else match IndexOf(columns[1..], name)
      case None => None
      case Some(k) => Some(k + 1)
  }

  /** `a` is `b` with some elements left out and the rest in their order. */
  ghost predicate IsSubseq<T>(a: seq<T>, b: seq<T>)
    decreases |b|
  {
    if a == [] then true
    else if b == [] then false
    else (a[0] == b[0] && IsSubseq(a[1..], b[1..])) || IsSubseq(a, b[1..])
  }
}
