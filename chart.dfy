/**
  The merged chart table: one row per distinct date found in any member's
  history, in increasing date order, each row holding for every member the
  weight of that member's first entry on exactly that date, or nothing.
 */
module Chart {
  import opened Options
  import opened Members
  import opened Entries
  import opened Ledger

  /** One chart point: the raw date and, per member, a weight or `null`. */
  datatype ChartRow = ChartRow(date: Date, values: map<Member, Option<real>>)

  /** The position `list.find(e => e.date === d)` stops at: the first entry
      dated `d`, or `|s|` when there is none. */
  function FindDate(s: seq<Entry>, d: Date): (k: nat)
    ensures k <= |s|
    ensures forall j :: 0 <= j < k ==> s[j].date != d
    ensures k < |s| ==> s[k].date == d
  {
    if s == [] || s[0].date == d then 0 else 1 + FindDate(s[1..], d)
  }

  /** The value a member gets in the row of date `d`: the weight of the first
      entry on exactly that date, and nothing when there is no such entry (no
      interpolation, no carrying forward). */
  function FirstWeightOn(s: seq<Entry>, d: Date): (r: Option<real>)
    ensures r.None? <==> forall i :: 0 <= i < |s| ==> s[i].date != d
    ensures r.Some? ==>
      exists i :: 0 <= i < |s| && s[i].date == d && s[i].weight == r.value &&
        forall j :: 0 <= j < i ==> s[j].date != d
  {
    var k := FindDate(s, d);
    if k < |s| then Some(s[k].weight) else None
  }

  function DatesIn(s: seq<Entry>): (r: set<Date>)
    ensures forall d :: d in r <==> exists i :: 0 <= i < |s| && s[i].date == d
  {
    set i | 0 <= i < |s| :: s[i].date
  }

  /** Every date that occurs in the lists of the given members. */
  function DatesAcross(h: WeightHistory, ms: seq<Member>): set<Date>
  {
    if ms == [] then {} else DatesAcross(h, ms[..|ms| - 1]) + DatesIn(h.Of(ms[|ms| - 1]))
  }

  /** A date occurs in some member's list exactly when that member's row
      value for the date is a weight. */
  lemma {:induction false} DatesAcrossMembers(h: WeightHistory, ms: seq<Member>, d: Date)
    ensures d in DatesAcross(h, ms) <==> exists k :: 0 <= k < |ms| && FirstWeightOn(h.Of(ms[k]), d).Some?
  {
    if ms != [] {
      var init := ms[..|ms| - 1];
      DatesAcrossMembers(h, init, d);
      if d in DatesAcross(h, ms) && d !in DatesAcross(h, init) {
        assert FirstWeightOn(h.Of(ms[|ms| - 1]), d).Some?;
      }
      if k :| 0 <= k < |ms| && FirstWeightOn(h.Of(ms[k]), d).Some? {
        if k < |ms| - 1 {
          assert ms[k] == init[k];
        }
      }
    }
  }

  /** The chart has no dates at all exactly when every list is empty. */
  lemma NoDatesIffEmpty(h: WeightHistory)
    ensures DatesAcross(h, AllMembers) == {} <==> forall m: Member :: h.Of(m) == []
  {
    assert AllMembers[..2] == [Ritvik, Lovely];
    assert [Ritvik, Lovely][..1] == [Ritvik];
    assert [Ritvik][..0] == [];
    assert DatesAcross(h, [Ritvik]) == DatesIn(h.Of(Ritvik));
    assert DatesAcross(h, [Ritvik, Lovely]) == DatesIn(h.Of(Ritvik)) + DatesIn(h.Of(Lovely));
    assert DatesAcross(h, AllMembers)
      == DatesIn(h.Of(Ritvik)) + DatesIn(h.Of(Lovely)) + DatesIn(h.Of(Anu));
    forall m: Member ensures DatesIn(h.Of(m)) == {} ==> h.Of(m) == [] {
      if h.Of(m) != [] {
        assert h.Of(m)[0].date in DatesIn(h.Of(m));
      }
    }
  }

  ghost predicate StrictlyIncreasing(s: seq<Date>) {
    forall i, j :: 0 <= i < j < |s| ==> s[i] < s[j]
  }

  ghost predicate NoDuplicates(s: seq<Date>) {
    forall i, j :: 0 <= i < j < |s| ==> s[i] != s[j]
  }

  /** Inserts `x` before the first date greater than it. */
  function InsertDate(s: seq<Date>, x: Date): (r: seq<Date>)
    ensures |r| == |s| + 1
    ensures forall y :: y in r <==> y in s || y == x
    ensures StrictlyIncreasing(s) && x !in s ==> StrictlyIncreasing(r)
  {
    if s == [] || x < s[0] then [x] + s
    else
      var rest := InsertDate(s[1..], x);
      assert StrictlyIncreasing(s) && x !in s ==> forall i :: 0 <= i < |rest| ==> s[0] < rest[i] by {
        if StrictlyIncreasing(s) && x !in s {
          forall i | 0 <= i < |rest| ensures s[0] < rest[i] {
            assert rest[i] in rest;
            if rest[i] != x {
              var j :| 0 <= j < |s[1..]| && s[1..][j] == rest[i];
              assert s[j + 1] == rest[i];
            }
          }
        }
      }
      [s[0]] + rest
  }

  /** `.sort()` of the dates: an insertion sort. The dates of a JavaScript
      `Set` are distinct, and then the result is strictly increasing. */
  function SortDates(s: seq<Date>): (r: seq<Date>)
    ensures |r| == |s|
    ensures forall y :: y in r <==> y in s
    ensures NoDuplicates(s) ==> StrictlyIncreasing(r)
  {
    if s == [] then []
    else
      var init := s[..|s| - 1];
      assert NoDuplicates(s) ==> NoDuplicates(init) && s[|s| - 1] !in init;
      InsertDate(SortDates(init), s[|s| - 1])
  }

  /** A strictly increasing list is fixed by its elements: the chart's date
      column is the one strictly increasing listing of the dates. */
  lemma {:induction false} StrictlyIncreasingUnique(a: seq<Date>, b: seq<Date>)
    requires StrictlyIncreasing(a) && StrictlyIncreasing(b)
    requires forall y :: y in a <==> y in b
    ensures a == b
  {
    SameElementsBothEmpty(a, b);
    if a != [] {
      assert a[0] in b && b[0] in a;
      assert a[0] == b[0];
      forall y ensures y in a[1..] <==> y in b[1..] {
        assert y in a[1..] <==> y in a && y != a[0];
        assert y in b[1..] <==> y in b && y != b[0];
      }
      StrictlyIncreasingUnique(a[1..], b[1..]);
      assert a == [a[0]] + a[1..] && b == [b[0]] + b[1..];
    }
  }

  lemma SameElementsBothEmpty(a: seq<Date>, b: seq<Date>)
    requires forall y :: y in a <==> y in b
    ensures a == [] <==> b == []
  {
    if a != [] {
      var y := a[0];
      assert y in a;
      assert y in b;
    }
    if b != [] {
      var y := b[0];
      assert y in b;
      assert y in a;
    }
  }

  /** The date column of a table. */
  function RowDates(rows: seq<ChartRow>): (r: seq<Date>)
    ensures |r| == |rows|
    ensures forall j :: 0 <= j < |rows| ==> r[j] == rows[j].date
  {
    if rows == [] then [] else [rows[0].date] + RowDates(rows[1..])
  }

  /** What `getChartData` promises about the table it builds from `h`: the
      dates strictly increase, they are exactly the dates that occur in some
      member's list, and each row gives every member the weight of that
      member's first entry on the row's date, or nothing. */
  ghost predicate IsChartOf(h: WeightHistory, rows: seq<ChartRow>) {
    && StrictlyIncreasing(RowDates(rows))
    && (forall d :: d in RowDates(rows) <==> d in DatesAcross(h, AllMembers))
    && (forall j :: 0 <= j < |rows| ==> RowOf(h, rows[j]))
  }

  /** A row gives every member the weight of that member's first entry on
      the row's date, or nothing. */
  ghost predicate RowOf(h: WeightHistory, row: ChartRow) {
    forall m :: m in row.values && row.values[m] == FirstWeightOn(h.Of(m), row.date)
  }

  /** The chart of a history is unique: two tables meeting the promise are
      the same table. */
  lemma ChartUnique(h: WeightHistory, a: seq<ChartRow>, b: seq<ChartRow>)
    requires IsChartOf(h, a) && IsChartOf(h, b)
    ensures a == b
  {
    StrictlyIncreasingUnique(RowDates(a), RowDates(b));
    assert |a| == |b|;
    forall j | 0 <= j < |a| ensures a[j] == b[j] {
      assert a[j].date == RowDates(a)[j] == RowDates(b)[j] == b[j].date;
      SameDateSameRow(h, a[j], b[j]);
    }
  }

  lemma SameDateSameRow(h: WeightHistory, r1: ChartRow, r2: ChartRow)
    requires RowOf(h, r1) && RowOf(h, r2) && r1.date == r2.date
    ensures r1 == r2
  {
    assert r1.values == r2.values;
  }

  /** Ritvik has 88 on day 5 and 87 on day 10, Lovely 102 on day 10, Anu
      nothing. */
  function ExampleHistory(id1: int, id2: int, id3: int): WeightHistory
  {
    WeightHistory([Entry(5, 88.0, id1), Entry(10, 87.0, id2)], [Entry(10, 102.0, id3)], [])
  }

  lemma ExampleDates(id1: int, id2: int, id3: int)
    ensures DatesAcross(ExampleHistory(id1, id2, id3), AllMembers) == {5, 10}
  {
    var h := ExampleHistory(id1, id2, id3);
    assert h.ritvik[0].date == 5 && h.ritvik[1].date == 10 && h.lovely[0].date == 10;
    assert DatesIn(h.ritvik) == {5, 10};
    assert DatesIn(h.lovely) == {10};
    assert DatesIn(h.anu) == {};
    assert AllMembers[..2] == [Ritvik, Lovely];
    assert [Ritvik, Lovely][..1] == [Ritvik];
    assert [Ritvik][..0] == [];
    assert DatesAcross(h, [Ritvik]) == {5, 10};
    assert DatesAcross(h, [Ritvik, Lovely]) == {5, 10};
  }

  lemma ExampleRows(id1: int, id2: int, id3: int)
    ensures RowOf(ExampleHistory(id1, id2, id3), ChartRow(5, map[Ritvik := Some(88.0), Lovely := None, Anu := None]))
    ensures RowOf(ExampleHistory(id1, id2, id3), ChartRow(10, map[Ritvik := Some(87.0), Lovely := Some(102.0), Anu := None]))
  {
    var h := ExampleHistory(id1, id2, id3);
    var r5 := ChartRow(5, map[Ritvik := Some(88.0), Lovely := None, Anu := None]);
    var r10 := ChartRow(10, map[Ritvik := Some(87.0), Lovely := Some(102.0), Anu := None]);
    assert FindDate(h.ritvik, 5) == 0;
    assert FindDate(h.ritvik, 10) == 1;
    assert FindDate(h.lovely, 10) == 0;
    forall m ensures m in r5.values && r5.values[m] == FirstWeightOn(h.Of(m), 5)
      && m in r10.values && r10.values[m] == FirstWeightOn(h.Of(m), 10)
    {
      match m
      case Ritvik =>
      case Lovely =>
      case Anu =>
    }
  }

  /** The chart of the example history has a row for day 5 (Ritvik only)
      and one for day 10 (Ritvik and Lovely), and no other. */
  lemma TwoMemberChartExample(rows: seq<ChartRow>, id1: int, id2: int, id3: int)
    requires IsChartOf(ExampleHistory(id1, id2, id3), rows)
    ensures rows == [
      ChartRow(5, map[Ritvik := Some(88.0), Lovely := None, Anu := None]),
      ChartRow(10, map[Ritvik := Some(87.0), Lovely := Some(102.0), Anu := None])]
  {
    var h := ExampleHistory(id1, id2, id3);
    var r5 := ChartRow(5, map[Ritvik := Some(88.0), Lovely := None, Anu := None]);
    var r10 := ChartRow(10, map[Ritvik := Some(87.0), Lovely := Some(102.0), Anu := None]);
    var expected := [r5, r10];
    ExampleDates(id1, id2, id3);
    ExampleRows(id1, id2, id3);
    ExampleIsChart(h, r5, r10);
    ChartUnique(h, rows, expected);
  }

  lemma ExampleIsChart(h: WeightHistory, r5: ChartRow, r10: ChartRow)
    requires r5.date == 5 && r10.date == 10
    requires DatesAcross(h, AllMembers) == {5, 10}
    requires RowOf(h, r5) && RowOf(h, r10)
    ensures IsChartOf(h, [r5, r10])
  {
    ExampleRowDates(r5, r10);
    assert forall j :: 0 <= j < 2 ==> RowOf(h, [r5, r10][j]);
  }

  lemma ExampleRowDates(r5: ChartRow, r10: ChartRow)
    requires r5.date == 5 && r10.date == 10
    ensures StrictlyIncreasing(RowDates([r5, r10]))
    ensures forall d :: d in RowDates([r5, r10]) <==> d in {5, 10}
  {
    assert RowDates([r5, r10]) == [5, 10];
  }
}
