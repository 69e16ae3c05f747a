/** The filtering pass of App.py:89-150: an optional conversion step,
    then one narrowing step per selected column, each classifying that
    column on the table as narrowed so far. */
module Filter {
  import opened Frames
  import opened Conversion
  import opened Classifier
  import opened Predicates

  /** One selected column and the user's choice for it. */
  datatype Selection = Selection(column: string, param: Param)

  /** Everything the widgets supply: the "add filters" switch and, in the
      order they were picked, the selected columns with their choices. */
  datatype Inputs = Inputs(addFilters: bool, selections: seq<Selection>)

  /** A selected name that is not a column, or a choice whose shape is not
      the one the column's kind calls for. */
  datatype FilterError = UnknownColumn(name: string) | WrongParameter(name: string, kind: Kind)

  datatype Result<T> = Ok(value: T) | Err(error: FilterError)

  /** The kind of the column at position `c`, judged on the rows of `t`.
      A table with fewer rows than the threshold has only categorical
      columns, and only a column stored as numbers or date/times can be
      Numeric or Temporal. */
  function KindOf(t: Table, c: nat): (k: Kind)
    requires WellFormed(t) && c < |t.columns|
    ensures |t.rows| < CategoricalThreshold ==> k == Categorical
    ensures t.columns[c].dtype.CategoricalType? ==> k == Categorical
    ensures k == Numeric ==> t.columns[c].dtype.NumericType?
    ensures k == Temporal ==> t.columns[c].dtype.DateTimeType?
  {
    Classify(t.columns[c].dtype, ColumnOf(t.rows, c))
  }

  /** The test one selection stands for on table `t`: the named column,
      classified on `t` itself, with a choice of the matching shape. */
  function BuildTest(t: Table, s: Selection): (r: Result<Test>)
    requires WellFormed(t)
    ensures r.Ok? <==> exists c :: 0 <= c < |t.columns| && t.columns[c].name == s.column && ParamKind(s.param) == KindOf(t, c)
    ensures r.Ok? ==> r.value.column < |t.columns| && t.columns[r.value.column].name == s.column
    ensures r.Ok? ==> r.value.param == s.param && ParamKind(s.param) == KindOf(t, r.value.column)
    ensures r.Err? && r.error.UnknownColumn? <==> forall c :: 0 <= c < |t.columns| ==> t.columns[c].name != s.column
  {
    match IndexOf(t.columns, s.column)
    case None => Err(UnknownColumn(s.column))
    case Some(c) =>
      assert forall j :: 0 <= j < |t.columns| && t.columns[j].name == s.column ==> j == c;
      var kind := KindOf(t, c);
      if ParamKind(s.param) == kind then Ok(Test(c, s.param)) else Err(WrongParameter(s.column, kind))
  }

  /** One iteration of the selection loop: keep the rows that pass the
      selection's test. */
  function Narrow(co: Coercions, t: Table, s: Selection): (r: Result<Table>)
    requires WellFormed(t)
    ensures r.Ok? <==> BuildTest(t, s).Ok?
    ensures r.Ok? ==> WellFormed(r.value) && r.value.columns == t.columns
    ensures r.Ok? ==> r.value.rows == Select(co, t.rows, [BuildTest(t, s).value])
  {
    match BuildTest(t, s)
    case Err(e) => Err(e)
    case Ok(test) => Ok(Table(t.columns, Select(co, t.rows, [test])))
  }

  /** The selection loop: narrow by each selection in turn; the first
      selection that cannot be applied stops the pass. */
  function ApplyFilters(co: Coercions, t: Table, sels: seq<Selection>): (r: Result<Table>)
    requires WellFormed(t)
    ensures r.Ok? ==> WellFormed(r.value) && r.value.columns == t.columns
    decreases |sels|
  {
    if sels == [] then Ok(t)
    else match Narrow(co, t, sels[0])
      case Err(e) => Err(e)
      case Ok(u) => ApplyFilters(co, u, sels[1..])
  }

  /** The tests the selection loop applies, each built on the table as the
      earlier ones left it. */
  function Trace(co: Coercions, t: Table, sels: seq<Selection>): (r: seq<Test>)
    requires WellFormed(t) && ApplyFilters(co, t, sels).Ok?
    ensures |r| == |sels|
    ensures forall k :: 0 <= k < |sels| ==>
      && r[k].param == sels[k].param
      && r[k].column < |t.columns|
      && t.columns[r[k].column].name == sels[k].column
    decreases |sels|
  {
    if sels == [] then []
    else
      var rest := Trace(co, Narrow(co, t, sels[0]).value, sels[1..]);
      assert forall k :: 1 <= k < |sels| ==> sels[k] == sels[1..][k - 1];
      [BuildTest(t, sels[0]).value] + rest
  }

  /** The whole filter: with the switch off the input comes back as it
      is; otherwise the converted table is narrowed by every selection. */
  function Filtered(co: Coercions, t: Table, inputs: Inputs): (r: Result<Table>)
    requires WellFormed(t)
    ensures !inputs.addFilters ==> r == Ok(t)
    ensures inputs.addFilters && inputs.selections == [] ==> r == Ok(Converted(co, t))
  {
    if !inputs.addFilters then Ok(t) else ApplyFilters(co, Converted(co, t), inputs.selections)
  }

  /** The pass keeps exactly the rows that pass the AND of the tests it
      built, in order; the header is untouched. */
  lemma {:induction false} FilterIsConjunction(co: Coercions, t: Table, sels: seq<Selection>)
    requires WellFormed(t) && ApplyFilters(co, t, sels).Ok?
    ensures ApplyFilters(co, t, sels).value.columns == t.columns
    ensures ApplyFilters(co, t, sels).value.rows == Select(co, t.rows, Trace(co, t, sels))
    decreases |sels|
  {
    if sels == [] {
      SelectKeepsAccepted(co, t.rows, []);
    } else {
      var test := BuildTest(t, sels[0]).value;
      var u := Narrow(co, t, sels[0]).value;
      FilterIsConjunction(co, u, sels[1..]);
      SelectFusion(co, t.rows, [test], Trace(co, u, sels[1..]));
    }
  }

  /** What the filter returns, when it returns a table, is a table with
      the input's column names in their order, whose rows are the
      converted rows that pass every applied test, each as often as in
      the input and in the input's order. */
  lemma FilterKeepsOrderedSubset(co: Coercions, t: Table, inputs: Inputs)
    requires WellFormed(t) && inputs.addFilters && Filtered(co, t, inputs).Ok?
    ensures var r := Filtered(co, t, inputs).value;
      var conv := Converted(co, t);
      var tests := Trace(co, conv, inputs.selections);
      && WellFormed(r)
      && r.columns == conv.columns
      && |r.columns| == |t.columns|
      && (forall j :: 0 <= j < |t.columns| ==> r.columns[j].name == t.columns[j].name)
      && IsSubseq(r.rows, conv.rows)
      && (forall row :: row in r.rows <==> row in conv.rows && Accepts(co, tests, row))
      && (forall row :: multiset(r.rows)[row] == if Accepts(co, tests, row) then multiset(conv.rows)[row] else 0)
  {
    ConvertedSpec(co, t);
    var conv := Converted(co, t);
    FilterIsConjunction(co, conv, inputs.selections);
    SelectOrderAndCount(co, conv.rows, Trace(co, conv, inputs.selections));
  }

  /** Every row the pass keeps passes each test the pass applied. */
  lemma {:induction false} TraceAccepted(co: Coercions, t: Table, sels: seq<Selection>, k: nat)
    requires WellFormed(t) && ApplyFilters(co, t, sels).Ok? && k < |sels|
    ensures forall row :: row in ApplyFilters(co, t, sels).value.rows ==> Holds(co, Trace(co, t, sels)[k], row)
  {
    FilterIsConjunction(co, t, sels);
  }

  /** Running the same selections again over the result gives the result
      back, provided each selection builds on the result the same test it
      built during the pass. The proviso is needed: a column can only turn
      Categorical on a narrower table, never the other way round (see
      NarrowingOnlyDemotes), and when it does the choice no longer fits. */
  lemma {:induction false} ReapplyIsIdentity(co: Coercions, t: Table, sels: seq<Selection>)
    requires WellFormed(t) && ApplyFilters(co, t, sels).Ok?
    requires var r := ApplyFilters(co, t, sels).value;
      forall k :: 0 <= k < |sels| ==> BuildTest(r, sels[k]) == Ok(Trace(co, t, sels)[k])
    ensures ApplyFilters(co, ApplyFilters(co, t, sels).value, sels) == ApplyFilters(co, t, sels)
    decreases |sels|
  {
    if sels != [] {
      var r := ApplyFilters(co, t, sels).value;
      var u := Narrow(co, t, sels[0]).value;
      var test := Trace(co, t, sels)[0];
      forall k | 0 <= k < |sels| - 1 ensures BuildTest(r, sels[1..][k]) == Ok(Trace(co, u, sels[1..])[k]) {
        assert Trace(co, t, sels)[k + 1] == Trace(co, u, sels[1..])[k];
      }
      ReapplyIsIdentity(co, u, sels[1..]);
      TraceAccepted(co, t, sels, 0);
      forall i | 0 <= i < |r.rows| ensures Accepts(co, [test], r.rows[i]) {
        assert r.rows[i] in r.rows;
      }
      SelectKeepsAccepted(co, r.rows, [test]);
      assert Narrow(co, r, sels[0]) == Ok(r);
    }
  }

  /** On two tables with the same header, a selection that builds a test
      on both builds the same one: the named column and the choice fix
      the test, and the kind only decides whether it is built. */
  lemma SameTestOnSameHeader(t: Table, q: Table, s: Selection)
    requires WellFormed(t) && WellFormed(q) && q.columns == t.columns
    requires BuildTest(t, s).Ok? && BuildTest(q, s).Ok?
    ensures BuildTest(q, s) == BuildTest(t, s)
  {
    assert DistinctNames(t.columns);
  }

  /** Running the selections of a pass over any same-header table whose
      rows were all kept by the pass either gives that table back or
      stops with an error; it never narrows it further. */
  lemma {:induction false} RerunOnKept(co: Coercions, t: Table, sels: seq<Selection>, q: Table)
    requires WellFormed(t) && ApplyFilters(co, t, sels).Ok?
    requires WellFormed(q) && q.columns == t.columns
    requires forall row :: row in q.rows ==> row in ApplyFilters(co, t, sels).value.rows
    ensures ApplyFilters(co, q, sels) == Ok(q) || ApplyFilters(co, q, sels).Err?
    decreases |sels|
  {
    if sels != [] && BuildTest(q, sels[0]).Ok? {
      var test := BuildTest(t, sels[0]).value;
      SameTestOnSameHeader(t, q, sels[0]);
      TraceAccepted(co, t, sels, 0);
      forall i | 0 <= i < |q.rows| ensures Accepts(co, [test], q.rows[i]) {
        assert q.rows[i] in q.rows;
      }
      SelectKeepsAccepted(co, q.rows, [test]);
      assert Narrow(co, q, sels[0]) == Ok(q);
      RerunOnKept(co, Narrow(co, t, sels[0]).value, sels[1..], q);
    }
  }

  /** Re-running the selection loop over its own result either gives that
      result back or stops with an error (when a selected column has turned
      Categorical on the narrower table); it never yields another table. */
  lemma ReapplyKeepsOrFails(co: Coercions, t: Table, sels: seq<Selection>)
    requires WellFormed(t) && ApplyFilters(co, t, sels).Ok?
    ensures var r := ApplyFilters(co, t, sels).value;
      ApplyFilters(co, r, sels) == Ok(r) || ApplyFilters(co, r, sels).Err?
  {
    RerunOnKept(co, t, sels, ApplyFilters(co, t, sels).value);
  }

  /** Filter order matters. A range selection `a` that applies on `t`
      (so its column is Numeric there) no longer applies once an earlier
      selection `b` has left fewer rows than the threshold: on those rows
      every column is Categorical, and the pass stops with a wrong-choice
      error for `a`. */
  lemma EarlierSelectionDemotes(co: Coercions, t: Table, b: Selection, a: Selection)
    requires WellFormed(t)
    requires BuildTest(t, a).Ok? && a.param.Range?
    requires Narrow(co, t, b).Ok? && |Narrow(co, t, b).value.rows| < CategoricalThreshold
    ensures ApplyFilters(co, t, [b, a]) == Err(WrongParameter(a.column, Categorical))
  {
    var u := Narrow(co, t, b).value;
    var c := BuildTest(t, a).value.column;
    assert u.columns == t.columns;
    assert KindOf(u, c) == Categorical;
    assert IndexOf(u.columns, a.column) == Some(c) by {
      assert DistinctNames(t.columns);
    }
    assert [b, a][1..] == [a];
  }

  /** Every row the pass keeps is a row of the table it started from. */
  lemma ResultRowsFromInput(co: Coercions, t: Table, sels: seq<Selection>)
    requires WellFormed(t) && ApplyFilters(co, t, sels).Ok?
    ensures forall row :: row in ApplyFilters(co, t, sels).value.rows ==> row in t.rows
  {
    FilterIsConjunction(co, t, sels);
  }

  /** A categorical column is still categorical on a table holding only
      some of the rows. */
  lemma CategoricalOnFewerRows(t: Table, q: Table, c: nat)
    requires WellFormed(t) && WellFormed(q) && q.columns == t.columns && c < |t.columns|
    requires forall row :: row in q.rows ==> row in t.rows
    requires KindOf(t, c) == Categorical
    ensures KindOf(q, c) == Categorical
  {
    forall i | 0 <= i < |q.rows| ensures ColumnOf(q.rows, c)[i] in ColumnOf(t.rows, c) {
      assert q.rows[i] in q.rows;
      var j :| 0 <= j < |t.rows| && t.rows[j] == q.rows[i];
      assert ColumnOf(t.rows, c)[j] == q.rows[i][c];
    }
    NarrowingOnlyDemotes(t.columns[c].dtype, ColumnOf(t.rows, c), ColumnOf(q.rows, c));
  }

  /** The first categorical selection of a pass leaves `q` as it is. */
  lemma CategoricalStepKeeps(co: Coercions, t: Table, sels: seq<Selection>, q: Table)
    requires WellFormed(t) && ApplyFilters(co, t, sels).Ok? && sels != []
    requires sels[0].param.Allowed?
    requires WellFormed(q) && q.columns == t.columns
    requires forall row :: row in q.rows ==> row in ApplyFilters(co, t, sels).value.rows
    ensures Narrow(co, q, sels[0]) == Ok(q)
  {
    var test := BuildTest(t, sels[0]).value;
    ResultRowsFromInput(co, t, sels);
    CategoricalOnFewerRows(t, q, test.column);
    assert BuildTest(q, sels[0]) == Ok(test);
    TraceAccepted(co, t, sels, 0);
    forall i | 0 <= i < |q.rows| ensures Accepts(co, [test], q.rows[i]) {
      assert q.rows[i] in q.rows;
    }
    SelectKeepsAccepted(co, q.rows, [test]);
  }

  /** Any table `q` with the same header whose rows are all among the rows
      a pass of categorical selections kept is left as it is by the same
      selections. */
  lemma {:induction false} CategoricalReapply(co: Coercions, t: Table, sels: seq<Selection>, q: Table)
    requires WellFormed(t) && ApplyFilters(co, t, sels).Ok?
    requires forall k :: 0 <= k < |sels| ==> sels[k].param.Allowed?
    requires WellFormed(q) && q.columns == t.columns
    requires forall row :: row in q.rows ==> row in ApplyFilters(co, t, sels).value.rows
    ensures ApplyFilters(co, q, sels) == Ok(q)
    decreases |sels|
  {
    if sels != [] {
      CategoricalStepKeeps(co, t, sels, q);
      var u := Narrow(co, t, sels[0]).value;
      assert forall k :: 0 <= k < |sels| - 1 ==> sels[1..][k] == sels[k + 1];
      CategoricalReapply(co, u, sels[1..], q);
    }
  }

  /** With categorical selections only, the selection loop is idempotent:
      running the same selections over the result gives the result back. */
  lemma CategoricalFilterIdempotent(co: Coercions, t: Table, sels: seq<Selection>)
    requires WellFormed(t) && ApplyFilters(co, t, sels).Ok?
    requires forall k :: 0 <= k < |sels| ==> sels[k].param.Allowed?
    ensures ApplyFilters(co, ApplyFilters(co, t, sels).value, sels) == ApplyFilters(co, t, sels)
  {
    CategoricalReapply(co, t, sels, ApplyFilters(co, t, sels).value);
  }

  /** The example of RefilterConvertsAgain: "a" parses as an instant, no
      other value does. */
  function ExampleCoercions(): Coercions {
    Coercions(c => if c == Str("a") then Some(0) else None, c => "")
  }

  /** Two object columns: "d" holds "a" and "b", "s" holds "x" and "y". */
  function ExampleTable(): Table {
    Table([ColumnInfo("d", ObjectType), ColumnInfo("s", ObjectType)], [[Str("a"), Str("x")], [Str("b"), Str("y")]])
  }

  /** Keep the rows whose "s" is "x". */
  function ExampleInputs(): Inputs {
    Inputs(true, [Selection("s", Allowed({Str("x")}))])
  }

  /** The first pass converts nothing: "b" and "x" do not parse. */
  lemma ExampleNothingConverts()
    ensures WellFormed(ExampleTable())
    ensures Converted(ExampleCoercions(), ExampleTable()) == ExampleTable()
  {
    var co := ExampleCoercions();
    var t := ExampleTable();
    assert WellFormed(t);
    assert ColumnOf(t.rows, 0)[1] == Str("b") && ParseInstant(co, Str("b")).None?;
    assert ParseAll(co, ColumnOf(t.rows, 0)) == None;
    assert ConvertColumn(co, t, 0) == t;
    assert ColumnOf(t.rows, 1)[0] == Str("x") && ParseInstant(co, Str("x")).None?;
    assert ParseAll(co, ColumnOf(t.rows, 1)) == None;
    assert ConvertColumn(co, t, 1) == t;
    assert ConvertFrom(co, t, 2) == t;
    assert ConvertFrom(co, t, 1) == t;
  }

  /** The first pass keeps the row whose "s" is "x". */
  lemma ExampleFirstPass()
    ensures WellFormed(ExampleTable())
    ensures Filtered(ExampleCoercions(), ExampleTable(), ExampleInputs()) == Ok(Table(ExampleTable().columns, [[Str("a"), Str("x")]]))
  {
    var co := ExampleCoercions();
    var t := ExampleTable();
    var test := Test(1, Allowed({Str("x")}));
    ExampleNothingConverts();
    assert IndexOf(t.columns, "s") == Some(1);
    assert ColumnOf(t.rows, 1) == [Str("x"), Str("y")];
    assert KindOf(t, 1) == Categorical;
    assert BuildTest(t, ExampleInputs().selections[0]) == Ok(test);
    assert Accepts(co, [test], t.rows[0]);
    assert !Holds(co, [test][0], t.rows[1]);
    assert Select(co, t.rows[1..], [test]) == [];
    assert Select(co, t.rows, [test]) == [t.rows[0]];
  }

  /** On the kept row "d" holds only "a", so the second pass converts it,
      and the selection still applies. */
  lemma ExampleSecondPass()
    ensures WellFormed(Table(ExampleTable().columns, [[Str("a"), Str("x")]]))
    ensures var r := Filtered(ExampleCoercions(), Table(ExampleTable().columns, [[Str("a"), Str("x")]]), ExampleInputs());
      r.Ok? && r.value.columns[0] == ColumnInfo("d", DateTimeType)
  {
    var co := ExampleCoercions();
    var u := Table(ExampleTable().columns, [[Str("a"), Str("x")]]);
    assert WellFormed(u);
    assert ColumnOf(u.rows, 0) == [Str("a")];
    assert ParseInstant(co, Str("a")) == Some(Stamp(0));
    assert Convertible(co, u, 0);
    var conv := Converted(co, u);
    ConvertedSpec(co, u);
    assert ConvertedColumn(co, u, conv, 0);
    assert conv.columns == [ColumnInfo("d", DateTimeType), ColumnInfo("s", ObjectType)] by {
      assert ConvertedColumn(co, u, conv, 1);
    }
    assert IndexOf(conv.columns, "s") == Some(1);
    assert KindOf(conv, 1) == Categorical;
    assert Narrow(co, conv, ExampleInputs().selections[0]).Ok?;
  }

  /** The whole filter re-run over its own result is not idempotent, even
      with one categorical selection: the conversion pass runs again on
      the narrowed rows. In the example, "b" keeps column "d" as objects
      on the first pass; once the selection drops "b", the second pass
      turns "d" into a date/time column. */
  lemma RefilterConvertsAgain()
    ensures var r := Filtered(ExampleCoercions(), ExampleTable(), ExampleInputs());
      && r.Ok?
      && WellFormed(r.value)
      && Filtered(ExampleCoercions(), r.value, ExampleInputs()).Ok?
      && Filtered(ExampleCoercions(), r.value, ExampleInputs()).value.columns[0].dtype == DateTimeType
      && r.value.columns[0].dtype == ObjectType
  {
    ExampleFirstPass();
    ExampleSecondPass();
  }

  /** filter_dataframe: convert the columns one by one, then narrow by
      the selections one by one. */
  method FilterDataframe(co: Coercions, t: Table, inputs: Inputs) returns (r: Result<Table>)
    requires WellFormed(t)
    ensures r == Filtered(co, t, inputs)
  {
    if !inputs.addFilters {
      return Ok(t);
    }
    var df := t;
    var c := 0;
    while c < |df.columns|
      invariant WellFormed(df) && |df.columns| == |t.columns| && c <= |df.columns|
      invariant ConvertFrom(co, df, c) == Converted(co, t)
      decreases |df.columns| - c
    {
      df := ConvertColumn(co, df, c);
      c := c + 1;
    }
    var sels := inputs.selections;
    var i := 0;
    while i < |sels|
      invariant WellFormed(df) && i <= |sels|
      invariant ApplyFilters(co, df, sels[i..]) == Filtered(co, t, inputs)
    {
      assert sels[i..][0] == sels[i] && sels[i..][1..] == sels[i + 1..];
      var step := Narrow(co, df, sels[i]);
      if step.Err? {
        return Err(step.error);
      }
      df := step.value;
      i := i + 1;
    }
    return Ok(df);
  }
}
