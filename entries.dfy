/**
  Weight entries and the two list transformations the ledger applies to a
  member's history: the stable re-sort by date after an insertion, and the
  removal of entries by id.
 */
module Entries {

  /** A calendar date as a day number. ISO `YYYY-MM-DD` strings, as produced
      by a date input, order the same way lexicographically and
      chronologically. */
  type Date = int

  /** One dated weight measurement; `id` only serves to target deletion. */
  datatype Entry = Entry(date: Date, weight: real, id: int)

  ghost predicate SortedByDate(s: seq<Entry>) {
    forall i, j :: 0 <= i < j < |s| ==> s[i].date <= s[j].date
  }

  /** The entries of `s` dated exactly `d`, in their order in `s`. A sort is
      stable exactly when it keeps every one of these subsequences. */
  function OnDate(s: seq<Entry>, d: Date): (r: seq<Entry>)
    ensures |r| <= |s|
  {
    if s == [] then []
    else (if s[0].date == d then [s[0]] else []) + OnDate(s[1..], d)
  }

  /** `OnDate` keeps exactly the entries dated `d`. */
  lemma {:induction false} OnDateMembers(s: seq<Entry>, d: Date)
    ensures forall e :: e in OnDate(s, d) <==> e in s && e.date == d
  {
    if s != [] {
      OnDateMembers(s[1..], d);
      assert s == [s[0]] + s[1..];
    }
  }

  lemma {:induction false} OnDateConcat(a: seq<Entry>, b: seq<Entry>, d: Date)
    ensures OnDate(a + b, d) == OnDate(a, d) + OnDate(b, d)
  {
    if a == [] {
      assert a + b == b;
    } else {
      var head := if a[0].date == d then [a[0]] else [];
      assert (a + b)[0] == a[0];
      assert (a + b)[1..] == a[1..] + b;
      assert OnDate(a + b, d) == head + OnDate(a[1..] + b, d);
      OnDateConcat(a[1..], b, d);
      assert OnDate(a, d) == head + OnDate(a[1..], d);
    }
  }

  /** How many leading entries of `s` are dated no later than `e`. */
  function InsertIndex(s: seq<Entry>, e: Entry): (k: nat)
    ensures k <= |s|
    ensures forall i :: 0 <= i < k ==> s[i].date <= e.date
    ensures k < |s| ==> e.date < s[k].date
  {
    if s == [] || e.date < s[0].date then 0 else 1 + InsertIndex(s[1..], e)
  }

  /** Inserts `e` after every leading entry dated no later than `e`: in a
      sorted list, after all entries with an equal or earlier date. */
  function InsertByDate(s: seq<Entry>, e: Entry): (r: seq<Entry>)
    ensures |r| == |s| + 1
    ensures multiset(r) == multiset(s) + multiset{e}
  {
    var k := InsertIndex(s, e);
    assert s == s[..k] + s[k..];
    s[..k] + [e] + s[k..]
  }

  /** In a sorted list every entry from the insertion index on is dated
      strictly later than the new entry. */
  lemma LaterAfterIndex(s: seq<Entry>, e: Entry)
    requires SortedByDate(s)
    ensures forall i :: InsertIndex(s, e) <= i < |s| ==> e.date < s[i].date
  {
  }

  /** Joining two sorted lists, the first dated no later than the second,
      gives a sorted list. */
  lemma SortedJoin(a: seq<Entry>, b: seq<Entry>)
    requires SortedByDate(a) && SortedByDate(b)
    requires forall i, j :: 0 <= i < |a| && 0 <= j < |b| ==> a[i].date <= b[j].date
    ensures SortedByDate(a + b)
  {
    var r := a + b;
    forall i, j | 0 <= i < j < |r| ensures r[i].date <= r[j].date {
      if j < |a| {
        assert r[i] == a[i] && r[j] == a[j];
      } else if i < |a| {
        assert r[i] == a[i] && r[j] == b[j - |a|];
      } else {
        assert r[i] == b[i - |a|] && r[j] == b[j - |a|];
      }
    }
  }

  /** Inserting into a sorted list keeps it sorted. */
  lemma InsertByDateSorted(s: seq<Entry>, e: Entry)
    requires SortedByDate(s)
    ensures SortedByDate(InsertByDate(s, e))
  {
    var k := InsertIndex(s, e);
    var before, after := s[..k], s[k..];
    LaterAfterIndex(s, e);
    assert forall i :: 0 <= i < |after| ==> e.date < after[i].date by {
      forall i | 0 <= i < |after| ensures e.date < after[i].date {
        assert after[i] == s[k + i];
      }
    }
    assert SortedByDate(before) by {
      forall i, j | 0 <= i < j < |before| ensures before[i].date <= before[j].date {
        assert before[i] == s[i] && before[j] == s[j];
      }
    }
    assert SortedByDate(after) by {
      forall i, j | 0 <= i < j < |after| ensures after[i].date <= after[j].date {
        assert after[i] == s[k + i] && after[j] == s[k + j];
      }
    }
    SortedJoin(before, [e]);
    SortedJoin(before + [e], after);
  }

  lemma {:induction false} NoneOnDate(s: seq<Entry>, d: Date)
    requires forall i :: 0 <= i < |s| ==> s[i].date != d
    ensures OnDate(s, d) == []
  {
    if s != [] {
      NoneOnDate(s[1..], d);
    }
  }

  lemma OnDateOfInsert(s: seq<Entry>, e: Entry, d: Date)
    ensures OnDate(InsertByDate(s, e), d)
      == OnDate(s[..InsertIndex(s, e)], d) + OnDate([e], d) + OnDate(s[InsertIndex(s, e)..], d)
    ensures OnDate(s, d) == OnDate(s[..InsertIndex(s, e)], d) + OnDate(s[InsertIndex(s, e)..], d)
  {
    var k := InsertIndex(s, e);
    var before, after := s[..k], s[k..];
    assert before + after == s;
    OnDateConcat(before + [e], after, d);
    OnDateConcat(before, [e], d);
    OnDateConcat(before, after, d);
  }

  /** Inserting into a sorted list appends `e` to the entries dated `e.date`
      and leaves every other date's entries as they were. */
  lemma InsertByDateOnDate(s: seq<Entry>, e: Entry, d: Date)
    requires SortedByDate(s)
    ensures OnDate(InsertByDate(s, e), d) == OnDate(s, d) + OnDate([e], d)
  {
    var k := InsertIndex(s, e);
    OnDateOfInsert(s, e, d);
    if e.date == d {
      var after := s[k..];
      LaterAfterIndex(s, e);
      forall i | 0 <= i < |after| ensures after[i].date != d {
        assert after[i] == s[k + i];
      }
      NoneOnDate(after, d);
    } else {
      assert OnDate([e], d) == [];
    }
  }

  /** The stable sort by date that `addWeight` applies to the list with the
      new entry appended, written as an insertion sort that inserts each
      entry, left to right, after the entries already placed with an equal or
      earlier date. */
  function SortByDate(s: seq<Entry>): (r: seq<Entry>)
    ensures SortedByDate(r)
    ensures multiset(r) == multiset(s)
  {
    if s == [] then []
    else
      assert s == s[..|s| - 1] + [s[|s| - 1]];
      InsertByDateSorted(SortByDate(s[..|s| - 1]), s[|s| - 1]);
      InsertByDate(SortByDate(s[..|s| - 1]), s[|s| - 1])
  }

  /** The sort is stable: for every date, the entries on that date keep their
      relative order. */
  lemma {:induction false} SortByDateStable(s: seq<Entry>, d: Date)
    ensures OnDate(SortByDate(s), d) == OnDate(s, d)
  {
    if s != [] {
      var p, x := s[..|s| - 1], s[|s| - 1];
      assert s == p + [x];
      SortByDateStable(p, d);
      InsertByDateOnDate(SortByDate(p), x, d);
      OnDateConcat(p, [x], d);
    }
  }

  /** No entry of `s` is dated later than `e`. */
  ghost predicate NoneLater(s: seq<Entry>, e: Entry) {
    forall i :: 0 <= i < |s| ==> s[i].date <= e.date
  }

  lemma AppendLatest(s: seq<Entry>, e: Entry)
    requires NoneLater(s, e)
    ensures InsertByDate(s, e) == s + [e]
  {
    assert InsertIndex(s, e) == |s|;
    assert s[..|s|] == s;
  }

  /** Sorting a list that is already sorted leaves it unchanged. */
  lemma {:induction false} SortByDateOfSorted(s: seq<Entry>)
    requires SortedByDate(s)
    ensures SortByDate(s) == s
  {
    if s != [] {
      var p, x := s[..|s| - 1], s[|s| - 1];
      SortByDateOfSorted(p);
      AppendLatest(p, x);
      assert p + [x] == s;
    }
  }

  /** Re-sorting after appending to a sorted list is the same as inserting
      the new entry after every entry with an equal or earlier date. */
  lemma SortAfterAppend(s: seq<Entry>, e: Entry)
    requires SortedByDate(s)
    ensures SortByDate(s + [e]) == InsertByDate(s, e)
  {
    assert (s + [e])[..|s|] == s;
    SortByDateOfSorted(s);
  }

  lemma {:induction false} OnDateCons(s: seq<Entry>, d: Date)
    requires s != []
    ensures OnDate(s, d) == (if s[0].date == d then [s[0]] else []) + OnDate(s[1..], d)
  {
  }

  /** Two sorted lists that agree on the entries of every date are equal. */
  lemma {:induction false} SortedOnDateUnique(a: seq<Entry>, b: seq<Entry>)
    requires SortedByDate(a) && SortedByDate(b)
    requires forall d :: OnDate(a, d) == OnDate(b, d)
    ensures a == b
  {
    if a == [] {
      if b != [] {
        assert false;
      }
    } else if b == [] {
      OnDateCons(a, a[0].date);
      assert false;
    } else {
      SameFirstDate(a, b);
      var d0 := a[0].date;
      OnDateCons(a, d0);
      OnDateCons(b, d0);
      assert a[0] == OnDate(a, d0)[0] == OnDate(b, d0)[0] == b[0];
      forall d ensures OnDate(a[1..], d) == OnDate(b[1..], d) {
        OnDateCons(a, d);
        OnDateCons(b, d);
        var head := if a[0].date == d then [a[0]] else [];
        assert OnDate(a[1..], d) == OnDate(a, d)[|head|..];
        assert OnDate(b[1..], d) == OnDate(b, d)[|head|..];
      }
      SortedOnDateUnique(a[1..], b[1..]);
      assert a == [a[0]] + a[1..] && b == [b[0]] + b[1..];
    }
  }

  lemma SameFirstDate(a: seq<Entry>, b: seq<Entry>)
    requires a != [] && b != []
    requires SortedByDate(a) && SortedByDate(b)
    requires forall d :: OnDate(a, d) == OnDate(b, d)
    ensures a[0].date == b[0].date
  {
    OnDateMembers(a, a[0].date);
    OnDateMembers(b, a[0].date);
    OnDateMembers(a, b[0].date);
    OnDateMembers(b, b[0].date);
    assert a[0] in OnDate(b, a[0].date);
    assert b[0] in OnDate(a, b[0].date);
  }

  /** Any stable sort by date computes `SortByDate`: a sorted list that keeps
      each date's entries in their original order is exactly `SortByDate(s)`. */
  lemma StableSortUnique(s: seq<Entry>, r: seq<Entry>)
    requires SortedByDate(r)
    requires forall d :: OnDate(r, d) == OnDate(s, d)
    ensures r == SortByDate(s)
  {
    forall d ensures OnDate(r, d) == OnDate(SortByDate(s), d) {
      SortByDateStable(s, d);
    }
    SortedOnDateUnique(r, SortByDate(s));
  }

  /** The list left by `filter(entry => entry.id !== id)`. */
  function RemoveId(s: seq<Entry>, id: int): (r: seq<Entry>)
    ensures |r| <= |s|
    ensures forall e :: e in r <==> e in s && e.id != id
  {
    if s == [] then []
    else (if s[0].id != id then [s[0]] else []) + RemoveId(s[1..], id)
  }

  /** Removal works entry by entry, keeping the survivors in order. */
  lemma {:induction false} RemoveIdConcat(a: seq<Entry>, b: seq<Entry>, id: int)
    ensures RemoveId(a + b, id) == RemoveId(a, id) + RemoveId(b, id)
  {
    if a == [] {
      assert a + b == b;
    } else {
      assert (a + b)[1..] == a[1..] + b;
      RemoveIdConcat(a[1..], b, id);
    }
  }

  /** Removing an id that no entry carries changes nothing. */
  lemma {:induction false} RemoveAbsentId(s: seq<Entry>, id: int)
    requires forall i :: 0 <= i < |s| ==> s[i].id != id
    ensures RemoveId(s, id) == s
  {
    if s != [] {
      RemoveAbsentId(s[1..], id);
    }
  }

  /** Removing the same id twice is the same as removing it once. */
  lemma RemoveIdIdempotent(s: seq<Entry>, id: int)
    ensures RemoveId(RemoveId(s, id), id) == RemoveId(s, id)
  {
    var r := RemoveId(s, id);
    forall i | 0 <= i < |r| ensures r[i].id != id {
      assert r[i] in r;
    }
    RemoveAbsentId(r, id);
  }

  /** The survivors of a removal keep their relative order, so a sorted list
      stays sorted. */
  lemma {:induction false} RemoveIdSorted(s: seq<Entry>, id: int)
    ensures SortedByDate(s) ==> SortedByDate(RemoveId(s, id))
  {
    if s != [] && SortedByDate(s) {
      RemoveIdSorted(s[1..], id);
      var t := RemoveId(s[1..], id);
      forall i | 0 <= i < |t| ensures s[0].date <= t[i].date {
        assert t[i] in t;
        var j :| 0 <= j < |s[1..]| && s[1..][j] == t[i];
        assert s[j + 1] == t[i];
      }
    }
  }

  /** A removal takes out exactly the entries with that id. */
  lemma {:induction false} RemoveIdMultiset(s: seq<Entry>, id: int)
    ensures multiset(RemoveId(s, id)) + multiset(WithId(s, id)) == multiset(s)
  {
    if s != [] {
      var x, t := s[0], s[1..];
      RemoveIdMultiset(t, id);
      assert s == [x] + t;
      SplitStep(x, t, id, RemoveId(s, id), WithId(s, id), RemoveId(t, id), WithId(t, id));
    }
  }

  /** One step of the split: the head goes to exactly one side. */
  lemma SplitStep(x: Entry, t: seq<Entry>, id: int, kept: seq<Entry>, taken: seq<Entry>,
                  keptTail: seq<Entry>, takenTail: seq<Entry>)
    requires kept == (if x.id != id then [x] else []) + keptTail
    requires taken == (if x.id == id then [x] else []) + takenTail
    requires multiset(keptTail) + multiset(takenTail) == multiset(t)
    ensures multiset(kept) + multiset(taken) == multiset([x] + t)
  {
    if x.id == id {
      assert multiset(taken) == multiset{x} + multiset(takenTail);
      assert kept == keptTail;
    } else {
      assert multiset(kept) == multiset{x} + multiset(keptTail);
      assert taken == takenTail;
    }
  }

  /** The entries of `s` that carry `id`, in order. */
  function WithId(s: seq<Entry>, id: int): (r: seq<Entry>)
    ensures forall e :: e in r <==> e in s && e.id == id
  {
    if s == [] then []
    else (if s[0].id == id then [s[0]] else []) + WithId(s[1..], id)
  }

  /** The last entry after inserting into a list: the new entry when no entry
      is dated later, the old last entry otherwise. */
  lemma LastOfInsert(s: seq<Entry>, e: Entry)
    ensures var r := InsertByDate(s, e);
      r[|r| - 1] == if NoneLater(s, e) then e else s[|s| - 1]
  {
    var k := InsertIndex(s, e);
    var r := InsertByDate(s, e);
    if k < |s| {
      var after := s[k..];
      assert r == (s[..k] + [e]) + after;
      assert r[|r| - 1] == after[|after| - 1] == s[|s| - 1];
      assert !(s[k].date <= e.date);
    } else {
      assert r == s[..k] + [e];
    }
  }
}
