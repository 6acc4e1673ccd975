/**
  The dashboard's weight-tracking state: one object holding the weight
  history, updated in place by adding and deleting entries, and read to build
  the chart table.
 */
module Tracker {
  import opened Options
  import opened Members
  import opened Entries
  import opened Ledger
  import opened Chart

  class FamilyFitnessTracker {
    var weightHistory: WeightHistory

    /** Every member's list is in date order: each insertion re-sorts the
        list, and deletion keeps the order of what remains. */
    ghost predicate Valid()
      reads this
    {
      AllSorted(weightHistory)
    }

    /** The initial state: no entries for any member. */
    constructor ()
      ensures Valid()
      ensures weightHistory == EmptyHistory
    {
      weightHistory := EmptyHistory;
    }

    /** `addWeight`: when the member, the weight and the date fields are all
        filled in, appends a new entry to that member's list and re-sorts the
        list by date; otherwise does nothing. An empty form field is `None`. */
    method AddWeight(selectedMember: Option<Member>, newWeight: Option<real>, weightDate: Option<Date>, id: int)
      requires Valid()
      modifies this
      ensures Valid()
      ensures selectedMember.None? || newWeight.None? || weightDate.None? ==>
        weightHistory == old(weightHistory)
      ensures selectedMember.Some? && newWeight.Some? && weightDate.Some? ==>
        weightHistory == Added(old(weightHistory), selectedMember.value, Entry(weightDate.value, newWeight.value, id))
    {
      if selectedMember.Some? && newWeight.Some? && weightDate.Some? {
        var weightEntry := Entry(weightDate.value, newWeight.value, id);
        weightHistory := Added(weightHistory, selectedMember.value, weightEntry);
      }
    }

    /** `deleteWeight`: drops every entry of `member` whose id is `id`. */
    method DeleteWeight(member: Member, id: int)
      requires Valid()
      modifies this
      ensures Valid()
      ensures weightHistory == Deleted(old(weightHistory), member, id)
    {
      weightHistory := Deleted(weightHistory, member, id);
    }

    /** The first loop of `getChartData`: every date of every member's list
        added to a `Set`, which keeps each date once, in first-seen order. */
    method CollectDates() returns (allDates: seq<Date>)
      ensures NoDuplicates(allDates)
      ensures forall d :: d in allDates <==> d in DatesAcross(weightHistory, AllMembers)
    {
      allDates := [];
      for k := 0 to |AllMembers|
        invariant NoDuplicates(allDates)
        invariant forall d :: d in allDates <==> d in DatesAcross(weightHistory, AllMembers[..k])
      {
        allDates := AddDates(allDates, weightHistory.Of(AllMembers[k]));
        assert AllMembers[..k + 1][..k] == AllMembers[..k];
        assert DatesAcross(weightHistory, AllMembers[..k + 1])
          == DatesAcross(weightHistory, AllMembers[..k]) + DatesIn(weightHistory.Of(AllMembers[k]));
      }
      assert AllMembers[..|AllMembers|] == AllMembers;
    }

    /** One chart point: for each member, in key order, the weight of the
        entry `find` returns for `date`, or nothing. */
    method DataPoint(date: Date) returns (dataPoint: map<Member, Option<real>>)
      ensures forall m :: m in dataPoint && dataPoint[m] == FirstWeightOn(weightHistory.Of(m), date)
    {
      dataPoint := map[];
      for k := 0 to |AllMembers|
        invariant forall m :: m in AllMembers[..k] ==>
          m in dataPoint && dataPoint[m] == FirstWeightOn(weightHistory.Of(m), date)
      {
        var member := AllMembers[k];
        var entry := Find(weightHistory.Of(member), date);
        dataPoint := dataPoint[member := entry];
        assert AllMembers[..k + 1] == AllMembers[..k] + [member];
      }
      forall m: Member ensures m in dataPoint && dataPoint[m] == FirstWeightOn(weightHistory.Of(m), date) {
        AllMembersListsEveryMember(m);
        assert AllMembers[..|AllMembers|] == AllMembers;
      }
    }

    /** `getChartData`: the distinct dates of all members, sorted, and one
        data point per date. */
    method GetChartData() returns (rows: seq<ChartRow>)
      ensures IsChartOf(weightHistory, rows)
      ensures rows == [] <==> forall m: Member :: weightHistory.Of(m) == []
    {
      var allDates := CollectDates();
      var sortedDates := SortDates(allDates);
      rows := [];
      for j := 0 to |sortedDates|
        invariant |rows| == j
        invariant forall t :: 0 <= t < j ==> rows[t].date == sortedDates[t]
        invariant forall t :: 0 <= t < j ==> RowOf(weightHistory, rows[t])
      {
        var dataPoint := DataPoint(sortedDates[j]);
        assert RowOf(weightHistory, ChartRow(sortedDates[j], dataPoint));
        rows := rows + [ChartRow(sortedDates[j], dataPoint)];
      }
      assert RowDates(rows) == sortedDates;
      NoDatesIffEmpty(weightHistory);
      if rows != [] {
        assert rows[0].date in DatesAcross(weightHistory, AllMembers);
      }
      if rows == [] {
        forall d ensures d !in DatesAcross(weightHistory, AllMembers) {
          assert d !in sortedDates;
        }
      }
    }
  }

  /** The inner loop of the date collection: `allDates.add(entry.date)` for
      each entry of one member's list, in list order. */
  method AddDates(allDates: seq<Date>, history: seq<Entry>) returns (r: seq<Date>)
    requires NoDuplicates(allDates)
    ensures NoDuplicates(r)
    ensures forall d :: d in r <==> d in allDates || d in DatesIn(history)
  {
    r := allDates;
    for i := 0 to |history|
      invariant NoDuplicates(r)
      invariant forall d :: d in r <==> d in allDates || d in DatesIn(history[..i])
    {
      if history[i].date !in r {
        r := r + [history[i].date];
      }
      assert history[..i + 1] == history[..i] + [history[i]];
    }
    assert history[..|history|] == history;
  }

  /** `history.find(e => e.date === date)`, giving the entry's weight: a scan
      that stops at the first entry dated `date`. */
  method Find(history: seq<Entry>, date: Date) returns (weight: Option<real>)
    ensures weight == FirstWeightOn(history, date)
  {
    var i := 0;
    while i < |history| && history[i].date != date
      invariant 0 <= i <= |history|
      invariant forall t :: 0 <= t < i ==> history[t].date != date
    {
      i := i + 1;
    }
    weight := if i < |history| then Some(history[i].weight) else None;
  }
}
