/**
  The per-member weight history and the values derived from it. The history
  is the record `{ ritvik: [...], lovely: [...], anu: [...] }`; the two
  updaters below are the functions `addWeight` and `deleteWeight` hand to the
  state setter, each replacing one member's list and keeping the others.
 */
module Ledger {
  import opened Members
  import opened Entries
  import Progress

  datatype WeightHistory = WeightHistory(ritvik: seq<Entry>, lovely: seq<Entry>, anu: seq<Entry>)
  {
    /** `history[member]` */
    function Of(m: Member): seq<Entry>
    {
      match m
      case Ritvik => ritvik
      case Lovely => lovely
      case Anu => anu
    }

    /** `{ ...history, [member]: list }` */
    function With(m: Member, list: seq<Entry>): (h: WeightHistory)
      ensures h.Of(m) == list
      ensures forall n :: n != m ==> h.Of(n) == Of(n)
    {
      match m
      case Ritvik => this.(ritvik := list)
      case Lovely => this.(lovely := list)
      case Anu => this.(anu := list)
    }
  }

  /** The history every member starts with: no entries. */
  const EmptyHistory := WeightHistory([], [], [])

  ghost predicate AllSorted(h: WeightHistory) {
    forall m: Member :: SortedByDate(h.Of(m))
  }

  /** The updater of `addWeight`: append the entry to the member's list and
      stable-sort the list by date. */
  function Added(h: WeightHistory, m: Member, e: Entry): (r: WeightHistory)
    ensures forall n :: n != m ==> r.Of(n) == h.Of(n)
    ensures SortedByDate(r.Of(m))
    ensures multiset(r.Of(m)) == multiset(h.Of(m)) + multiset{e}
    ensures |r.Of(m)| == |h.Of(m)| + 1
  {
    var sorted := SortByDate(h.Of(m) + [e]);
    assert |sorted| == |multiset(sorted)|;
    h.With(m, sorted)
  }

  /** The re-sort is stable: on every date, the member's entries keep their
      order, with the new entry after the ones already there. */
  lemma AddedStable(h: WeightHistory, m: Member, e: Entry, d: Date)
    ensures OnDate(Added(h, m, e).Of(m), d) == OnDate(h.Of(m), d) + OnDate([e], d)
  {
    SortByDateStable(h.Of(m) + [e], d);
    OnDateConcat(h.Of(m), [e], d);
  }

  /** When the member's list was sorted, the new entry lands after every
      entry with an equal or earlier date and before every later one. */
  lemma AddedToSorted(h: WeightHistory, m: Member, e: Entry)
    requires SortedByDate(h.Of(m))
    ensures Added(h, m, e).Of(m) == InsertByDate(h.Of(m), e)
    ensures var s, k := h.Of(m), InsertIndex(h.Of(m), e);
      && Added(h, m, e).Of(m) == s[..k] + [e] + s[k..]
      && (forall i :: 0 <= i < k ==> s[i].date <= e.date)
      && (forall i :: k <= i < |s| ==> e.date < s[i].date)
  {
    AddedIsInsert(h, m, e);
    LaterAfterIndex(h.Of(m), e);
  }

  lemma AddedIsInsert(h: WeightHistory, m: Member, e: Entry)
    requires SortedByDate(h.Of(m))
    ensures Added(h, m, e).Of(m) == InsertByDate(h.Of(m), e)
  {
    SortAfterAppend(h.Of(m), e);
  }

  /** The updater of `deleteWeight`: keep the member's entries whose id
      differs from `id`. */
  function Deleted(h: WeightHistory, m: Member, id: int): (r: WeightHistory)
    ensures forall n :: n != m ==> r.Of(n) == h.Of(n)
    ensures forall e :: e in r.Of(m) <==> e in h.Of(m) && e.id != id
    ensures SortedByDate(h.Of(m)) ==> SortedByDate(r.Of(m))
  {
    RemoveIdSorted(h.Of(m), id);
    h.With(m, RemoveId(h.Of(m), id))
  }

  /** Deleting the same id a second time changes nothing. */
  lemma DeletedIdempotent(h: WeightHistory, m: Member, id: int)
    ensures Deleted(Deleted(h, m, id), m, id) == Deleted(h, m, id)
  {
    RemoveIdIdempotent(h.Of(m), id);
    SameLists(Deleted(Deleted(h, m, id), m, id), Deleted(h, m, id));
  }

  /** Deleting an id that none of the member's entries carries changes
      nothing. */
  lemma DeletedAbsent(h: WeightHistory, m: Member, id: int)
    requires forall i :: 0 <= i < |h.Of(m)| ==> h.Of(m)[i].id != id
    ensures Deleted(h, m, id) == h
  {
    RemoveAbsentId(h.Of(m), id);
    SameLists(Deleted(h, m, id), h);
  }

  lemma SameLists(a: WeightHistory, b: WeightHistory)
    requires forall m: Member :: a.Of(m) == b.Of(m)
    ensures a == b
  {
    assert a.Of(Ritvik) == b.Of(Ritvik);
    assert a.Of(Lovely) == b.Of(Lovely);
    assert a.Of(Anu) == b.Of(Anu);
  }

  /** `getLatestWeight`: the weight of the last entry of the member's list,
      or the member's starting weight while the list is empty. When the list
      is sorted, the last entry carries the latest date. */
  function LatestWeight(h: WeightHistory, m: Member): (w: real)
    ensures h.Of(m) == [] ==> w == StartWeight(m)
    ensures h.Of(m) != [] ==>
      exists i :: 0 <= i < |h.Of(m)| && h.Of(m)[i].weight == w &&
        (SortedByDate(h.Of(m)) ==> forall j :: 0 <= j < |h.Of(m)| ==> h.Of(m)[j].date <= h.Of(m)[i].date)
  {
    var list := h.Of(m);
    if |list| > 0 then list[|list| - 1].weight else StartWeight(m)
  }

  /** After an insertion into a sorted list, the latest weight is the new
      weight when no existing entry is dated later (ties go to the newest
      entry), and the previous latest weight otherwise. Other members are
      unaffected (`Added` leaves their lists as they were). */
  lemma LatestAfterAdded(h: WeightHistory, m: Member, e: Entry)
    requires SortedByDate(h.Of(m))
    ensures LatestWeight(Added(h, m, e), m) ==
      if NoneLater(h.Of(m), e) then e.weight
      else LatestWeight(h, m)
  {
    var s, h' := h.Of(m), Added(h, m, e);
    AddedIsInsert(h, m, e);
    LastOfInsert(s, e);
    var r := InsertByDate(s, e);
    assert h'.Of(m) == r;
    assert LatestWeight(h', m) == r[|r| - 1].weight;
    if !NoneLater(s, e) {
      assert LatestWeight(h, m) == s[|s| - 1].weight;
    }
  }

  /** `getWeightProgress`: the share of the planned loss reached by the
      latest weight, in percent, clamped to [0, 100]. */
  function WeightProgress(h: WeightHistory, m: Member): (p: real)
    ensures 0.0 <= p <= 100.0
    ensures LatestWeight(h, m) <= TargetWeight(m) ==> p == 100.0
    ensures LatestWeight(h, m) >= StartWeight(m) ==> p == 0.0
    ensures TargetWeight(m) <= LatestWeight(h, m) <= StartWeight(m) ==>
      p == (StartWeight(m) - LatestWeight(h, m)) / (StartWeight(m) - TargetWeight(m)) * 100.0
  {
    var start, target, current := StartWeight(m), TargetWeight(m), LatestWeight(h, m);
    Progress.PercentageCases(start, target, current);
    Progress.Percentage(start, target, current)
  }

  /** The first entry of an empty list becomes the whole list and its
      weight the latest weight. */
  lemma AddedToEmpty(h: WeightHistory, m: Member, e: Entry)
    requires h.Of(m) == []
    ensures Added(h, m, e).Of(m) == [e]
    ensures LatestWeight(Added(h, m, e), m) == e.weight
  {
    assert h.Of(m) + [e] == [e];
    SortByDateOfSorted([e]);
  }

  /** At a latest weight of 87, Ritvik has lost 2 of the planned 8 kg: 25%. */
  lemma RitvikProgress(h: WeightHistory)
    requires LatestWeight(h, Ritvik) == 87.0
    ensures WeightProgress(h, Ritvik) == 25.0
  {
    assert (89.0 - 87.0) / (89.0 - 81.0) * 100.0 == 25.0;
  }

  /** With one entry of 87 in Ritvik's list, logging 88 on an earlier day
      puts the new entry in front, so the latest weight stays 87. */
  lemma RitvikEarlierEntry(h1: WeightHistory, e1: Entry, e2: Entry)
    requires h1.Of(Ritvik) == [e1] && e1.weight == 87.0
    requires e2.date < e1.date
    ensures Added(h1, Ritvik, e2).Of(Ritvik) == [e2, e1]
    ensures LatestWeight(Added(h1, Ritvik, e2), Ritvik) == 87.0
  {
    var s, r := h1.Of(Ritvik), Added(h1, Ritvik, e2).Of(Ritvik);
    AddedToSorted(h1, Ritvik, e2);
    assert InsertIndex(s, e2) == 0;
    assert s[..0] == [] && s[0..] == [e1];
    assert r == [e2, e1];
    assert LatestWeight(Added(h1, Ritvik, e2), Ritvik) == r[1].weight;
  }

  /** Ritvik (start 89, target 81) logs 87 on day 10 into an empty history,
      reaching 25% progress, and then 88 on the earlier day 5: the list is
      ordered by date and the latest weight stays 87. */
  lemma RitvikExample(id1: int, id2: int)
    ensures var e1, e2 := Entry(10, 87.0, id1), Entry(5, 88.0, id2);
      var h2 := Added(Added(EmptyHistory, Ritvik, e1), Ritvik, e2);
      && WeightProgress(Added(EmptyHistory, Ritvik, e1), Ritvik) == 25.0
      && h2.Of(Ritvik) == [e2, e1]
      && LatestWeight(h2, Ritvik) == 87.0
  {
    var e1, e2 := Entry(10, 87.0, id1), Entry(5, 88.0, id2);
    AddedToEmpty(EmptyHistory, Ritvik, e1);
    RitvikProgress(Added(EmptyHistory, Ritvik, e1));
    RitvikEarlierEntry(Added(EmptyHistory, Ritvik, e1), e1, e2);
  }
}
