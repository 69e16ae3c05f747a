/** The four per-kind row tests (App.py:117-149) and the narrowing of a
    list of rows by a conjunction of tests. */
module Predicates {
  import opened Frames
  import opened Classifier

  /** What the user chose for one column; its shape is that of the widget
      the column's kind calls for. */
  datatype Param =
    | Allowed(values: set<Cell>)   // Categorical: the chosen values
    | Range(lo: int, hi: int)      // Numeric: the two slider handles
    | Dates(days: seq<int>)        // Temporal: the picked calendar dates, as day numbers
    | Pattern(text: string)        // Text: the typed text

  /** The kind whose widget produces parameters of this shape. */
  function ParamKind(p: Param): Kind {
    match p
    case Allowed(_) => Categorical
    case Range(_, _) => Numeric
    case Dates(_) => Temporal
    case Pattern(_) => Text
  }

  /** `p` occurs in `s` starting at position `k`. */
  predicate OccursAt(s: string, p: string, k: int) {
    0 <= k && k + |p| <= |s| && s[k..k + |p|] == p
  }

  /** `p` occurs somewhere in `s`, matched character by character (so
      case-sensitively). */
  function Contains(s: string, p: string): (r: bool)
    ensures r <==> exists k :: OccursAt(s, p, k)
    decreases |s|
  {
    if |p| <= |s| && s[..|p|] == p then
      assert OccursAt(s, p, 0);
      true
    else if |s| <= |p| then
      false
    else
      var r := Contains(s[1..], p);
      assert r ==> exists k :: OccursAt(s, p, k) by {
        if r {
          var k :| OccursAt(s[1..], p, k);
          assert s[1..][k..k + |p|] == s[k + 1..k + 1 + |p|];
          assert OccursAt(s, p, k + 1);
        }
      }
      assert (exists k :: OccursAt(s, p, k)) ==> r by {
        if k :| OccursAt(s, p, k) {
          assert s[1..][k - 1..k - 1 + |p|] == s[k..k + |p|];
          assert OccursAt(s[1..], p, k - 1);
        }
      }
      r
  }

  /** Nanoseconds in one calendar day. */
  const NanosPerDay: nat := 86_400_000_000_000

  /** The calendar day an instant falls on, counted from the epoch; `/`
      rounds down, so instants before the epoch fall on negative days. */
  function DayOf(t: int): (r: int)
    ensures r * NanosPerDay <= t < (r + 1) * NanosPerDay
  {
    t / NanosPerDay
  }

  /** The instant a picked calendar date becomes once it is read back as
      a date/time: midnight at the start of that day. */
  function MidnightOf(day: int): (r: int)
    ensures DayOf(r) == day && r % NanosPerDay == 0
  {
    day * NanosPerDay
  }

  /** The midnight of an instant's own day is at or before it, less than
      a day before, and equal to it exactly when the instant is itself a
      midnight. */
  lemma MidnightOfDay(t: int)
    ensures MidnightOf(DayOf(t)) <= t < MidnightOf(DayOf(t)) + NanosPerDay
    ensures MidnightOf(DayOf(t)) == t <==> t % NanosPerDay == 0
  {
  }

  /** Whether one value passes the test a parameter describes: membership
      for a categorical choice, an inclusive range for numbers, an
      inclusive range from the first picked date's midnight to the
      second's when exactly two dates are picked, and substring
      containment of the value's printed form for non-empty text. */
  function Passes(co: Coercions, p: Param, c: Cell): (r: bool)
    ensures p.Allowed? ==> (r <==> c in p.values)
    ensures c.Missing? && (p.Range? || (p.Dates? && |p.days| == 2)) ==> !r
    ensures r && p.Dates? && |p.days| == 2 ==> c.Stamp? && DayOf(c.t) <= p.days[1]
    ensures p.Dates? && |p.days| != 2 ==> r
    ensures p.Pattern? && p.text == [] ==> r
  {
    match p
    case Allowed(vs) => c in vs
    case Range(lo, hi) => c.Num? && lo <= c.n <= hi
    case Dates(days) => |days| == 2 ==> c.Stamp? && MidnightOf(days[0]) <= c.t <= MidnightOf(days[1])
    case Pattern(text) => text == [] || Contains(co.toText(c), text)
  }

  /** A parameter applied to the column at position `column`. */
  datatype Test = Test(column: nat, param: Param)

  predicate Holds(co: Coercions, test: Test, row: Row) {
    test.column < |row| && Passes(co, test.param, row[test.column])
  }

  /** A row passes every one of the tests. */
  predicate Accepts(co: Coercions, tests: seq<Test>, row: Row) {
    forall k :: 0 <= k < |tests| ==> Holds(co, tests[k], row)
  }

  /** The rows that pass every test, and only those. */
  function Select(co: Coercions, rows: seq<Row>, tests: seq<Test>): (r: seq<Row>)
    ensures forall row :: row in r <==> row in rows && Accepts(co, tests, row)
  {
    if rows == [] then []
    else
      var rest := Select(co, rows[1..], tests);
      assert rows == [rows[0]] + rows[1..];
      if Accepts(co, tests, rows[0]) then [rows[0]] + rest else rest
  }

  /** Narrowing keeps the surviving rows in their original order, each as
      often as it occurs in `rows`. */
  lemma {:induction false} SelectOrderAndCount(co: Coercions, rows: seq<Row>, tests: seq<Test>)
    ensures IsSubseq(Select(co, rows, tests), rows)
    ensures forall row :: multiset(Select(co, rows, tests))[row] == if Accepts(co, tests, row) then multiset(rows)[row] else 0
  {
    if rows != [] {
      SelectOrderAndCount(co, rows[1..], tests);
      assert rows == [rows[0]] + rows[1..];
      var rest := Select(co, rows[1..], tests);
      if Accepts(co, tests, rows[0]) {
        assert ([rows[0]] + rest)[1..] == rest;
      }
    }
  }

  /** Narrowing by one list of tests and then by another is narrowing by
      both at once: applying filters one after another is their AND. */
  lemma {:induction false} SelectFusion(co: Coercions, rows: seq<Row>, ts: seq<Test>, us: seq<Test>)
    ensures Select(co, Select(co, rows, ts), us) == Select(co, rows, ts + us)
  {
    if rows != [] {
      SelectFusion(co, rows[1..], ts, us);
      var row := rows[0];
      assert Accepts(co, ts + us, row) <==> Accepts(co, ts, row) && Accepts(co, us, row) by {
        if Accepts(co, ts, row) && Accepts(co, us, row) {
          forall k | 0 <= k < |ts + us| ensures Holds(co, (ts + us)[k], row) {
            if k >= |ts| { assert (ts + us)[k] == us[k - |ts|]; }
          }
        }
        if Accepts(co, ts + us, row) {
          forall k | 0 <= k < |us| ensures Holds(co, us[k], row) {
            assert (ts + us)[|ts| + k] == us[k];
          }
          forall k | 0 <= k < |ts| ensures Holds(co, ts[k], row) {
            assert (ts + us)[k] == ts[k];
          }
        }
      }
      var s := Select(co, rows[1..], ts);
      if Accepts(co, ts, row) {
        assert Select(co, rows, ts) == [row] + s;
        assert ([row] + s)[1..] == s;
      }
    }
  }

  /** Tests every row already passes remove nothing. */
  lemma {:induction false} SelectKeepsAccepted(co: Coercions, rows: seq<Row>, ts: seq<Test>)
    requires forall i :: 0 <= i < |rows| ==> Accepts(co, ts, rows[i])
    ensures Select(co, rows, ts) == rows
  {
    if rows != [] {
      SelectKeepsAccepted(co, rows[1..], ts);
      assert Accepts(co, ts, rows[0]);
      assert rows == [rows[0]] + rows[1..];
    }
  }

  /** A test no row passes removes every row. */
  lemma {:induction false} SelectDropsRejected(co: Coercions, rows: seq<Row>, ts: seq<Test>)
    requires forall i :: 0 <= i < |rows| ==> !Accepts(co, ts, rows[i])
    ensures Select(co, rows, ts) == []
  {
    if rows != [] {
      SelectDropsRejected(co, rows[1..], ts);
      assert !Accepts(co, ts, rows[0]);
    }
  }

  /** Narrowing twice by the same tests is narrowing once. */
  lemma SelectIdempotent(co: Coercions, rows: seq<Row>, ts: seq<Test>)
    ensures Select(co, Select(co, rows, ts), ts) == Select(co, rows, ts)
  {
    var r := Select(co, rows, ts);
    assert forall i :: 0 <= i < |r| ==> r[i] in r;
    SelectKeepsAccepted(co, r, ts);
  }

  /** The categorical default, every value the column currently holds
      (missing ones included), removes no row. */
  lemma CategoricalDefaultKeepsAll(co: Coercions, rows: seq<Row>, c: nat)
    requires HasColumn(rows, c)
    ensures Select(co, rows, [Test(c, Allowed(set v | v in ColumnOf(rows, c)))]) == rows
  {
    var test := Test(c, Allowed(set v | v in ColumnOf(rows, c)));
    forall i | 0 <= i < |rows| ensures Accepts(co, [test], rows[i]) {
      assert rows[i] in rows;
      assert ColumnOf(rows, c)[i] == rows[i][c];
    }
    SelectKeepsAccepted(co, rows, [test]);
  }

  /** Choosing no categorical value removes every row. */
  lemma CategoricalNoneRemovesAll(co: Coercions, rows: seq<Row>, c: nat)
    ensures Select(co, rows, [Test(c, Allowed({}))]) == []
  {
    var test := Test(c, Allowed({}));
    forall i | 0 <= i < |rows| ensures !Accepts(co, [test], rows[i]) {
      assert !Holds(co, [test][0], rows[i]);
    }
    SelectDropsRejected(co, rows, [test]);
  }

  /** A numeric range keeps exactly the rows whose number lies between
      the two ends, both included; a missing number never does. */
  lemma RangeKeepsInside(co: Coercions, rows: seq<Row>, c: nat, lo: int, hi: int)
    requires HasColumn(rows, c)
    ensures forall row: Row :: row in Select(co, rows, [Test(c, Range(lo, hi))]) <==>
      row in rows && row[c].Num? && lo <= row[c].n <= hi
  {
    forall row: Row | row in rows ensures Accepts(co, [Test(c, Range(lo, hi))], row) <==> row[c].Num? && lo <= row[c].n <= hi {
      assert [Test(c, Range(lo, hi))][0] == Test(c, Range(lo, hi));
    }
  }

  /** Two picked dates keep exactly the rows whose instant lies between
      the first date's midnight and the second date's midnight, both
      included; a missing instant never does. */
  lemma DatesKeepInside(co: Coercions, rows: seq<Row>, c: nat, start: int, end: int)
    requires HasColumn(rows, c)
    ensures forall row: Row :: row in Select(co, rows, [Test(c, Dates([start, end]))]) <==>
      row in rows && row[c].Stamp? && MidnightOf(start) <= row[c].t <= MidnightOf(end)
  {
    forall row: Row | row in rows
      ensures Accepts(co, [Test(c, Dates([start, end]))], row) <==> row[c].Stamp? && MidnightOf(start) <= row[c].t <= MidnightOf(end)
    {
      assert [Test(c, Dates([start, end]))][0] == Test(c, Dates([start, end]));
    }
  }

  /** A categorical choice keeps exactly the rows whose value is one of
      the chosen values. */
  lemma CategoricalKeepsMembers(co: Coercions, rows: seq<Row>, c: nat, chosen: set<Cell>)
    requires HasColumn(rows, c)
    ensures forall row: Row :: row in Select(co, rows, [Test(c, Allowed(chosen))]) <==>
      row in rows && row[c] in chosen
  {
    forall row: Row | row in rows ensures Accepts(co, [Test(c, Allowed(chosen))], row) <==> row[c] in chosen {
      assert [Test(c, Allowed(chosen))][0] == Test(c, Allowed(chosen));
    }
  }

  /** A non-empty text keeps exactly the rows whose value, printed,
      contains it. */
  lemma PatternKeepsMatches(co: Coercions, rows: seq<Row>, c: nat, text: string)
    requires HasColumn(rows, c) && text != []
    ensures forall row: Row :: row in Select(co, rows, [Test(c, Pattern(text))]) <==>
      row in rows && exists k :: OccursAt(co.toText(row[c]), text, k)
  {
    forall row: Row | row in rows ensures Accepts(co, [Test(c, Pattern(text))], row) <==> Contains(co.toText(row[c]), text) {
      assert [Test(c, Pattern(text))][0] == Test(c, Pattern(text));
    }
  }

  /** The numeric value or instant a cell holds, if any. */
  function Magnitude(c: Cell): Option<int> {
    match c
    case Num(n) => Some(n)
    case Stamp(t) => Some(t)
    case _ => None
  }

  /** The smallest and largest magnitude among the values, skipping the
      rest; none when there is no magnitude at all. These are the default
      ends of the numeric slider and of the date picker. */
  function Bounds(vs: seq<Cell>): (r: Option<(int, int)>)
    ensures r.None? <==> forall i :: 0 <= i < |vs| ==> Magnitude(vs[i]).None?
    ensures r.Some? ==> forall i :: 0 <= i < |vs| && Magnitude(vs[i]).Some? ==>
      r.value.0 <= Magnitude(vs[i]).value <= r.value.1
    ensures r.Some? ==> exists i :: 0 <= i < |vs| && Magnitude(vs[i]) == Some(r.value.0)
    ensures r.Some? ==> exists i :: 0 <= i < |vs| && Magnitude(vs[i]) == Some(r.value.1)
  {
    if vs == [] then None
    else
      var rest := Bounds(vs[1..]);
      assert forall i :: 1 <= i < |vs| ==> vs[i] == vs[1..][i - 1];
      match Magnitude(vs[0])
      case None => rest
      case Some(m) =>
        match rest
        case None => Some((m, m))
        case Some((lo, hi)) => Some((if m < lo then m else lo, if m > hi then m else hi))
  }

  /** The numeric default, the column's own minimum and maximum, keeps
      every row of a column with no missing number. */
  lemma NumericDefaultKeepsAll(co: Coercions, rows: seq<Row>, c: nat, lo: int, hi: int)
    requires HasColumn(rows, c)
    requires forall i :: 0 <= i < |rows| ==> rows[i][c].Num?
    requires Bounds(ColumnOf(rows, c)) == Some((lo, hi))
    ensures Select(co, rows, [Test(c, Range(lo, hi))]) == rows
  {
    var vs := ColumnOf(rows, c);
    forall i | 0 <= i < |rows| ensures Accepts(co, [Test(c, Range(lo, hi))], rows[i]) {
      assert rows[i] in rows;
      assert vs[i] == rows[i][c];
      assert Magnitude(vs[i]).Some?;
    }
    SelectKeepsAccepted(co, rows, [Test(c, Range(lo, hi))]);
  }

  /** The date default: the picker starts on the calendar days of the
      column's earliest and latest instants, and those days are read back
      as their midnights. It keeps exactly the rows with an instant no
      later than the midnight that starts the latest day, so every row
      after midnight on that day is dropped. */
  lemma TemporalDefaultKeeps(co: Coercions, rows: seq<Row>, c: nat, lo: int, hi: int)
    requires HasColumn(rows, c)
    requires Bounds(ColumnOf(rows, c)) == Some((lo, hi))
    ensures forall row: Row :: row in Select(co, rows, [Test(c, Dates([DayOf(lo), DayOf(hi)]))]) <==>
      row in rows && row[c].Stamp? && row[c].t <= MidnightOf(DayOf(hi))
  {
    var vs := ColumnOf(rows, c);
    var test := Test(c, Dates([DayOf(lo), DayOf(hi)]));
    MidnightOfDay(lo);
    forall row: Row | row in rows
      ensures Accepts(co, [test], row) <==> row[c].Stamp? && row[c].t <= MidnightOf(DayOf(hi))
    {
      assert [test][0] == test;
      var i :| 0 <= i < |rows| && rows[i] == row;
      assert vs[i] == row[c];
    }
  }

  /** With no missing instant in the column, the date default keeps every
      row exactly when the latest instant is itself a midnight. */
  lemma TemporalDefaultKeepsAll(co: Coercions, rows: seq<Row>, c: nat, lo: int, hi: int)
    requires HasColumn(rows, c)
    requires forall i :: 0 <= i < |rows| ==> rows[i][c].Stamp?
    requires Bounds(ColumnOf(rows, c)) == Some((lo, hi))
    ensures Select(co, rows, [Test(c, Dates([DayOf(lo), DayOf(hi)]))]) == rows <==> hi % NanosPerDay == 0
  {
    var vs := ColumnOf(rows, c);
    var test := Test(c, Dates([DayOf(lo), DayOf(hi)]));
    TemporalDefaultKeeps(co, rows, c, lo, hi);
    MidnightOfDay(hi);
    if hi % NanosPerDay == 0 {
      forall i | 0 <= i < |rows| ensures Accepts(co, [test], rows[i]) {
        assert rows[i] in rows;
        assert vs[i] == rows[i][c];
        assert Magnitude(vs[i]).Some?;
      }
      SelectKeepsAccepted(co, rows, [test]);
    } else {
      var i :| 0 <= i < |vs| && Magnitude(vs[i]) == Some(hi);
      assert rows[i] in rows && rows[i][c] == vs[i];
      assert rows[i] !in Select(co, rows, [test]);
    }
  }

  /** A date choice with other than two ends (a half-picked range) is not
      applied. */
  lemma PartialDatesKeepAll(co: Coercions, rows: seq<Row>, c: nat, ends: seq<int>)
    requires HasColumn(rows, c)
    requires |ends| != 2
    ensures Select(co, rows, [Test(c, Dates(ends))]) == rows
  {
    forall i | 0 <= i < |rows| ensures Accepts(co, [Test(c, Dates(ends))], rows[i]) {
      assert rows[i] in rows;
    }
    SelectKeepsAccepted(co, rows, [Test(c, Dates(ends))]);
  }

  /** An empty text box is not applied. */
  lemma EmptyPatternKeepsAll(co: Coercions, rows: seq<Row>, c: nat)
    requires HasColumn(rows, c)
    ensures Select(co, rows, [Test(c, Pattern(""))]) == rows
  {
    forall i | 0 <= i < |rows| ensures Accepts(co, [Test(c, Pattern(""))], rows[i]) {
      assert rows[i] in rows;
    }
    SelectKeepsAccepted(co, rows, [Test(c, Pattern(""))]);
  }
}
