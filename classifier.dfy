/** The kind a selected column is filtered as (App.py:116, 123, 135, 144):
    an ordered list of rules in which the first that matches wins. */
module Classifier {
  import opened Frames

  datatype Kind = Categorical | Numeric | Temporal | Text

  /** Fewer distinct values than this make any column categorical. */
  const CategoricalThreshold: nat := 10

  /** The distinct values of a column as the library counts them: missing
      values are not counted. */
  function Distinct(vs: seq<Cell>): (r: set<Cell>)
    ensures |r| <= |vs|
    ensures forall i :: 0 <= i < |vs| && !vs[i].Missing? ==> vs[i] in r
    ensures forall v :: v in r ==> !v.Missing? && exists i :: 0 <= i < |vs| && vs[i] == v
  {
    PresentAtMost(vs);
    set v | v in vs && !v.Missing?
  }

  /** A column never holds more distinct non-missing values than it has
      entries. */
  lemma {:induction false} PresentAtMost(vs: seq<Cell>)
    ensures |set v | v in vs && !v.Missing?| <= |vs|
  {
    if vs != [] {
      PresentAtMost(vs[1..]);
      var head: set<Cell> := if vs[0].Missing? then {} else {vs[0]};
      assert (set v | v in vs && !v.Missing?) == (set v | v in vs[1..] && !v.Missing?) + head by {
        assert vs == [vs[0]] + vs[1..];
      }
    }
  }

  /** Categorical if tagged so or with fewer than ten distinct values;
      otherwise Numeric for number columns, Temporal for date/time
      columns, and Text for everything else. */
  function Classify(d: DType, vs: seq<Cell>): (k: Kind)
    ensures k == Categorical <==> d.CategoricalType? || |Distinct(vs)| < CategoricalThreshold
    ensures k == Numeric <==> k != Categorical && d.NumericType?
    ensures k == Temporal <==> k != Categorical && d.DateTimeType?
    ensures k == Text <==> k != Categorical && (d.ObjectType? || d.OtherType?)
  {
    if d.CategoricalType? || |Distinct(vs)| < CategoricalThreshold then Categorical
    else if d.NumericType? then Numeric
    else if d.DateTimeType? then Temporal
    else Text
  }

  /** The count rule is strict: nine distinct values make a column
      categorical, ten do not, and a column with ten or more falls through
      to the rule its type selects. */
  lemma ThresholdBoundary(d: DType, vs: seq<Cell>)
    ensures |Distinct(vs)| == 9 ==> Classify(d, vs) == Categorical
    ensures |Distinct(vs)| >= 10 && d != CategoricalType ==>
      Classify(d, vs) == (if d == NumericType then Numeric else if d == DateTimeType then Temporal else Text)
  {
  }

  /** An empty column, or one holding only missing values, has no distinct
      values and so is categorical with an empty domain. */
  lemma NoValuesIsCategorical(d: DType, vs: seq<Cell>)
    requires forall i :: 0 <= i < |vs| ==> vs[i].Missing?
    ensures Distinct(vs) == {}
    ensures Classify(d, vs) == Categorical
  {
  }

  /** A subset is no larger than the set that contains it. */
  lemma SubsetCardinality<T>(a: set<T>, b: set<T>)
    requires a <= b
    ensures |a| <= |b|
  {
    assert b == a + (b - a);
  }

  /** Narrowing a column can only move it to Categorical: with fewer rows a
      column keeps its kind or drops below the threshold, and a categorical
      column stays categorical. */
  lemma NarrowingOnlyDemotes(d: DType, vs: seq<Cell>, ws: seq<Cell>)
    requires forall i :: 0 <= i < |ws| ==> ws[i] in vs
    ensures Classify(d, ws) == Classify(d, vs) || Classify(d, ws) == Categorical
    ensures Classify(d, vs) == Categorical ==> Classify(d, ws) == Categorical
  {
    assert Distinct(ws) <= Distinct(vs);
    SubsetCardinality(Distinct(ws), Distinct(vs));
  }
}
