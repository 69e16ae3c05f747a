/** The first step of a filtering pass: every column of generic objects is
    re-read as date/times when, and only when, every one of its values
    parses (App.py:100-108). */
module Conversion {
  import opened Frames

  /** Reading one value as an instant: a missing value becomes a missing
      instant, any other value goes through the library's parser. */
  function ParseInstant(co: Coercions, c: Cell): (r: Option<Cell>)
    ensures r.Some? ==> Typed(DateTimeType, r.value)
    ensures c.Missing? ==> r == Some(Missing)
  {
    if c.Missing? then Some(Missing)
    else match co.toInstant(c)
      case None => None
      case Some(t) => Some(Stamp(t))
  }

  /** Converting a whole column of values: it fails as soon as one value
      fails, so there is no partial result. */
  function ParseAll(co: Coercions, vs: seq<Cell>): (r: Option<seq<Cell>>)
    ensures r.Some? <==> forall i :: 0 <= i < |vs| ==> ParseInstant(co, vs[i]).Some?
    ensures r.Some? ==> |r.value| == |vs| && forall i :: 0 <= i < |vs| ==> ParseInstant(co, vs[i]) == Some(r.value[i])
  {
    if vs == [] then Some([])
    else match ParseInstant(co, vs[0])
      case None => None
      case Some(x) =>
        match ParseAll(co, vs[1..])
        case None => None
        case Some(xs) => Some([x] + xs)
  }

  /** Column `c` is converted: it holds generic objects and every value in
      it parses as an instant. */
  predicate Convertible(co: Coercions, t: Table, c: nat)
    requires c < |t.columns| && HasColumn(t.rows, c)
  {
    t.columns[c].dtype == ObjectType && forall i :: 0 <= i < |t.rows| ==> ParseInstant(co, t.rows[i][c]).Some?
  }

  /** Column `j` of `r` is column `j` of `t`, header and values. */
  predicate SameColumn(t: Table, r: Table, j: nat)
    requires j < |t.columns| && j < |r.columns| && |t.rows| == |r.rows|
    requires HasColumn(t.rows, j) && HasColumn(r.rows, j)
  {
    r.columns[j] == t.columns[j] && forall i :: 0 <= i < |t.rows| ==> r.rows[i][j] == t.rows[i][j]
  }

  /** Column `j` of `r` is what the conversion pass makes of column `j` of
      `t`: re-read as date/times if it is convertible, untouched otherwise. */
  predicate ConvertedColumn(co: Coercions, t: Table, r: Table, j: nat)
    requires j < |t.columns| && j < |r.columns| && |t.rows| == |r.rows|
    requires HasColumn(t.rows, j) && HasColumn(r.rows, j)
  {
    if Convertible(co, t, j) then
      && r.columns[j] == ColumnInfo(t.columns[j].name, DateTimeType)
      && forall i :: 0 <= i < |t.rows| ==> ParseInstant(co, t.rows[i][j]) == Some(r.rows[i][j])
    else SameColumn(t, r, j)
  }

  /** The rows with column `c` replaced by `vs`. */
  function Replace(rows: seq<Row>, c: nat, vs: seq<Cell>): (r: seq<Row>)
    requires HasColumn(rows, c) && |vs| == |rows|
    ensures |r| == |rows|
    ensures forall i :: 0 <= i < |rows| ==> r[i] == rows[i][c := vs[i]]
  {
    seq(|rows|, i requires 0 <= i < |rows| => rows[i][c := vs[i]])
  }

  /** One iteration of the conversion loop: re-read column `c` as
      date/times when it holds objects and every value parses; dropping
      the time zone afterwards is the identity on naive instants. */
  function ConvertColumn(co: Coercions, t: Table, c: nat): (r: Table)
    requires WellFormed(t) && c < |t.columns|
    ensures WellFormed(r)
    ensures |r.columns| == |t.columns| && |r.rows| == |t.rows|
  {
    if t.columns[c].dtype != ObjectType then t
    else match ParseAll(co, ColumnOf(t.rows, c))
      case None => t
      case Some(vs) =>
        var r := Table(t.columns[c := ColumnInfo(t.columns[c].name, DateTimeType)], Replace(t.rows, c, vs));
        ReplaceFits(co, t, c, vs);
        r
  }

  lemma ReplaceFits(co: Coercions, t: Table, c: nat, vs: seq<Cell>)
    requires WellFormed(t) && c < |t.columns|
    requires ParseAll(co, ColumnOf(t.rows, c)) == Some(vs)
    ensures WellFormed(Table(t.columns[c := ColumnInfo(t.columns[c].name, DateTimeType)], Replace(t.rows, c, vs)))
  {
    var columns := t.columns[c := ColumnInfo(t.columns[c].name, DateTimeType)];
    var rows := Replace(t.rows, c, vs);
    forall row | row in rows ensures RowFits(columns, row) {
      var i :| 0 <= i < |rows| && rows[i] == row;
      assert t.rows[i] in t.rows;
      assert RowFits(t.columns, t.rows[i]);
      assert ColumnOf(t.rows, c)[i] == t.rows[i][c];
      assert ParseInstant(co, t.rows[i][c]) == Some(vs[i]);
    }
    assert DistinctNames(columns) by {
      assert forall j :: 0 <= j < |columns| ==> columns[j].name == t.columns[j].name;
    }
  }

  /** What one iteration does: column `c` is converted on its own merits
      and every other column is left as it was. */
  lemma ConvertColumnSpec(co: Coercions, t: Table, c: nat)
    requires WellFormed(t) && c < |t.columns|
    ensures ConvertedColumn(co, t, ConvertColumn(co, t, c), c)
    ensures forall j :: 0 <= j < |t.columns| && j != c ==> SameColumn(t, ConvertColumn(co, t, c), j)
  {
    var r := ConvertColumn(co, t, c);
    assert forall i :: 0 <= i < |t.rows| ==> t.rows[i] in t.rows;
    assert forall i :: 0 <= i < |t.rows| ==> ColumnOf(t.rows, c)[i] == t.rows[i][c];
  }

  /** The conversion loop from column `c` on. */
  function ConvertFrom(co: Coercions, t: Table, c: nat): (r: Table)
    requires WellFormed(t) && c <= |t.columns|
    ensures WellFormed(r)
    ensures |r.columns| == |t.columns| && |r.rows| == |t.rows|
    decreases |t.columns| - c
  {
    if c == |t.columns| then t else ConvertFrom(co, ConvertColumn(co, t, c), c + 1)
  }

  /** The table the filters are applied to. */
  function Converted(co: Coercions, t: Table): (r: Table)
    requires WellFormed(t)
    ensures WellFormed(r)
    ensures |r.columns| == |t.columns| && |r.rows| == |t.rows|
  {
    ConvertFrom(co, t, 0)
  }

  /** From column `c` on, the loop converts each column on its own merits;
      the columns before `c` it leaves alone. */
  lemma {:induction false} ConvertFromSpec(co: Coercions, t: Table, c: nat)
    requires WellFormed(t) && c <= |t.columns|
    ensures forall j :: 0 <= j < c ==> SameColumn(t, ConvertFrom(co, t, c), j)
    ensures forall j :: c <= j < |t.columns| ==> ConvertedColumn(co, t, ConvertFrom(co, t, c), j)
    decreases |t.columns| - c
  {
    if c < |t.columns| {
      var u := ConvertColumn(co, t, c);
      ConvertColumnSpec(co, t, c);
      var r := ConvertFrom(co, u, c + 1);
      ConvertFromSpec(co, u, c + 1);
      assert r == ConvertFrom(co, t, c);
      forall j | 0 <= j < c ensures SameColumn(t, r, j) {
        assert SameColumn(t, u, j) && SameColumn(u, r, j);
      }
      assert SameColumn(u, r, c);
      forall j | c < j < |t.columns| ensures ConvertedColumn(co, t, r, j) {
        assert SameColumn(t, u, j);
        assert ConvertedColumn(co, u, r, j);
        assert Convertible(co, t, j) == Convertible(co, u, j);
      }
    }
  }

  /** The conversion pass is all-or-nothing per column: a column of
      objects whose every value parses becomes a date/time column holding
      the parsed instants; every other column comes through unchanged, and
      the header keeps its names, its order and the number of rows. */
  lemma ConvertedSpec(co: Coercions, t: Table)
    requires WellFormed(t)
    ensures var r := Converted(co, t);
      && WellFormed(r)
      && |r.columns| == |t.columns| && |r.rows| == |t.rows|
      && (forall j :: 0 <= j < |t.columns| ==> r.columns[j].name == t.columns[j].name)
      && (forall j :: 0 <= j < |t.columns| ==> ConvertedColumn(co, t, r, j))
  {
    ConvertFromSpec(co, t, 0);
    var r := Converted(co, t);
    forall j | 0 <= j < |t.columns| ensures r.columns[j].name == t.columns[j].name {
      assert ConvertedColumn(co, t, r, j);
    }
  }
}
