# Family fitness tracker: weight ledger

A Dafny model of the weight-tracking core of the family fitness dashboard
(`pages/index.js`). Three family members (Ritvik, Lovely and Anu) each have a
starting weight, a target weight and a list of weight entries. An entry is a
date, a weight and an id. The dashboard:

- adds an entry when the member, weight and date fields are all filled in,
  then re-sorts that member's list by date;
- deletes every entry of a member that carries a given id;
- reports the latest weight (the last entry of the list, or the starting
  weight while the list is empty);
- reports progress, as the share of the planned loss reached, clamped to
  0–100 %;
- builds the chart table: one row per distinct date of any member, in
  increasing date order. Each row gives every member the weight of their
  first entry on exactly that date, or nothing.

The model is split into modules:

- `Members`: the three members and their fixed start and target weights.
- `Entries`: entries, the stable sort by date and the filter by id.
- `Progress`: the clamped percentage, in exact arithmetic.
- `Ledger`: the three-list history, the two updaters handed to the state
  setter, the latest weight and progress.
- `Chart`: the chart table and the property that defines it (`IsChartOf`).
- `Tracker`: the component's state as a class. `AddWeight` and
  `DeleteWeight` update the history in place. `GetChartData` builds the
  table with the component's loops and is proved against `IsChartOf`.

Dates are whole day numbers. The component works on ISO `YYYY-MM-DD`
strings, whose string order and calendar order agree. An empty form field is
`None`.

Where the code checks less than one might expect, the model follows the code:

- `addWeight` checks only that each of the three fields is non-empty. It
  does not require a positive weight or a unique id, so the model does not
  either: ids are a parameter, and several entries may share one.
- `deleteWeight` removes every entry with the id.
- `getWeightProgress` falls back to 0 exactly when `start - target` is not
  positive.

## Model

| member | source | states |
|---|---|---|
| Members.StartWeight | pages/index.js:66-94 | each member's starting weight (89, 104, 75) is positive |
| Members.TargetWeight | pages/index.js:66-94 | each member's target weight (81, 95, 72) is positive and strictly below the starting weight, so every plan asks for a loss |
| Members.AllMembersListsEveryMember | pages/index.js:11-15 | proof helper: the history's key order ritvik, lovely, anu lists every member |
| Entries.OnDate | pages/index.js:496-501 | the entries of one date, in list order, are never more than the list |
| Entries.OnDateMembers | pages/index.js:496-501 | an entry is among a date's entries exactly when it is in the list and carries that date |
| Entries.OnDateConcat | pages/index.js:496-501 | a date's entries of a concatenation are those of the first part followed by those of the second |
| Entries.InsertIndex | pages/index.js:496-501 | the insertion point ends the leading run of entries dated no later than the new entry, and the entry at that point, if any, is dated later; in a sorted list this puts it after every entry dated no later (see `LaterAfterIndex`) |
| Entries.InsertByDate | pages/index.js:496-501 | inserting adds exactly one entry: the result is a permutation of the list plus the new entry |
| Entries.LaterAfterIndex | pages/index.js:496-501 | in a sorted list, every entry from the insertion point on is dated strictly later than the new entry |
| Entries.SortedJoin | pages/index.js:496-501 | two sorted lists, the first no later than the second, join into a sorted list |
| Entries.InsertByDateSorted | pages/index.js:496-501 | inserting into a sorted list keeps it sorted |
| Entries.NoneOnDate | pages/index.js:496-501 | when no entry carries a date, that date's entries are the empty list |
| Entries.OnDateOfInsert | pages/index.js:496-501 | a date's entries after an insertion are those before the insertion point, then the new entry if it is on that date, then those after |
| Entries.InsertByDateOnDate | pages/index.js:496-501 | inserting into a sorted list appends the new entry to its own date's entries and leaves every other date's entries as they were |
| Entries.SortByDate | pages/index.js:496-501 | the re-sort returns a list sorted by date that is a permutation of its input |
| Entries.SortByDateStable | pages/index.js:496-501 | the re-sort is stable: the entries of every date keep their relative order |
| Entries.AppendLatest | pages/index.js:496-501 | an entry dated no earlier than every entry goes at the end |
| Entries.SortByDateOfSorted | pages/index.js:496-501 | re-sorting a sorted list changes nothing |
| Entries.SortAfterAppend | pages/index.js:496-501 | appending to a sorted list and re-sorting equals inserting the entry after every entry with an equal or earlier date |
| Entries.OnDateCons | pages/index.js:496-501 | proof helper: a date's entries of a non-empty list are the head, if it is on that date, then the tail's entries on that date |
| Entries.SortedOnDateUnique | pages/index.js:496-501 | two sorted lists with the same entries, in the same order, on every date are equal |
| Entries.SameFirstDate | pages/index.js:496-501 | two non-empty sorted lists with the same entries on every date start with the same date |
| Entries.StableSortUnique | pages/index.js:496-501 | any list sorted by date that keeps every date's entries in their original order is the re-sort's result, so the model stands for any stable sort |
| Entries.LastOfInsert | pages/index.js:496-501 | after an insertion, the last entry is the new one when no entry is dated later, and the old last entry otherwise |
| Entries.RemoveId | pages/index.js:512 | the filter keeps exactly the entries whose id differs from the given id, and never lengthens the list |
| Entries.RemoveIdConcat | pages/index.js:512 | the filter works entry by entry: filtering a concatenation concatenates the filtered parts |
| Entries.RemoveAbsentId | pages/index.js:512 | filtering out an id that no entry carries changes nothing |
| Entries.RemoveIdIdempotent | pages/index.js:512 | filtering the same id twice equals filtering it once |
| Entries.RemoveIdSorted | pages/index.js:512 | filtering a sorted list leaves it sorted |
| Entries.WithId | pages/index.js:512 | the entries carrying an id are exactly those in the list with that id |
| Entries.SplitStep | pages/index.js:512 | proof helper: the head of a list goes to exactly one side of the split by id |
| Entries.RemoveIdMultiset | pages/index.js:512 | the kept entries and the entries carrying the id together make up the original list, with multiplicities |
| Ledger.WeightHistory.With | pages/index.js:496-501 | `{ ...prev, [member]: list }` replaces that member's list and keeps the other two |
| Ledger.Added | pages/index.js:496-501 | the add updater leaves other members' lists unchanged; the member's list gains exactly the new entry (as a permutation) and is sorted by date |
| Ledger.AddedStable | pages/index.js:496-501 | after an add, each date's entries of the member are the old ones in their old order, followed by the new entry if it is on that date |
| Ledger.AddedToSorted | pages/index.js:496-501 | adding to a sorted list inserts the new entry after every entry dated no later and before every later one, keeping the rest in order |
| Ledger.AddedIsInsert | pages/index.js:496-501 | adding to a sorted list equals inserting the new entry after every entry dated no later |
| Ledger.AddedToEmpty | pages/index.js:496-501 | the first entry of an empty list becomes the whole list and its weight the latest weight |
| Ledger.Deleted | pages/index.js:509-514 | the delete updater leaves other members' lists unchanged, keeps exactly the member's entries with a different id, and keeps a sorted list sorted |
| Ledger.DeletedIdempotent | pages/index.js:509-514 | deleting the same id twice equals deleting it once |
| Ledger.DeletedAbsent | pages/index.js:509-514 | deleting an id none of the member's entries carries leaves the history as it was |
| Ledger.SameLists | pages/index.js:11-15 | two histories with the same three lists are equal |
| Ledger.LatestWeight | pages/index.js:516-522 | with no entries, the latest weight is the starting weight; otherwise it is the weight of an entry of the list, and in a sorted list that entry carries the latest date |
| Ledger.LatestAfterAdded | pages/index.js:496-522 | after an add to a sorted list, the latest weight is the new weight when no entry is dated later (ties go to the new entry), and the previous latest weight otherwise |
| Ledger.WeightProgress | pages/index.js:524-532 | progress lies in [0, 100]; it is 100 at or below the target, 0 at or above the start, and between them the exact share of the planned loss |
| Ledger.RitvikProgress | pages/index.js:524-532 | at a latest weight of 87, Ritvik (89 to 81) stands at 25 % |
| Ledger.RitvikEarlierEntry | pages/index.js:496-522 | adding an earlier-dated entry to a one-entry list puts it in front, and the latest weight does not change |
| Ledger.RitvikExample | pages/index.js:488-532 | logging 87 on day 10 then 88 on day 5 gives the list [day 5, day 10], 25 % progress after the first entry, and a latest weight that stays 87 |
| Progress.Percentage | pages/index.js:524-532 | the clamped percentage lies in [0, 100] and is 0 whenever the plan asks for no loss |
| Progress.DivideByPositive | pages/index.js:529-530 | proof helper: dividing by a positive total keeps order, the sign, and the comparison with the total |
| Progress.PercentageInBand | pages/index.js:524-532 | between target and start, the percentage is the exact share of the planned loss |
| Progress.PercentageAtTarget | pages/index.js:524-532 | at or below the target, the percentage is 100 |
| Progress.PercentageAtStart | pages/index.js:524-532 | at or above the start, the percentage is 0 |
| Progress.PercentageCases | pages/index.js:524-532 | the three bands of a plan that asks for a loss |
| Progress.PercentageMonotone | pages/index.js:524-532 | a lighter current weight never gives a lower percentage |
| Chart.FindDate | pages/index.js:547 | `find` stops at the first entry on the date, or past the end when there is none |
| Chart.FirstWeightOn | pages/index.js:547-548 | a member's cell is empty exactly when no entry is on the date; otherwise it is the weight of the first entry on that date |
| Chart.DatesIn | pages/index.js:537-539 | the dates of one list are exactly the dates its entries carry |
| Chart.DatesAcrossMembers | pages/index.js:536-539 | a date occurs in the listed members' histories exactly when one of them has a non-empty cell for it |
| Chart.NoDatesIffEmpty | pages/index.js:535-553 | the chart has no dates exactly when every member's list is empty |
| Chart.InsertDate | pages/index.js:541 | inserting a new date into a strictly increasing list keeps it strictly increasing and adds exactly that date |
| Chart.SortDates | pages/index.js:541 | sorting the distinct dates gives the same dates, strictly increasing |
| Chart.StrictlyIncreasingUnique | pages/index.js:541 | a strictly increasing list is fixed by its set of elements |
| Chart.SameElementsBothEmpty | pages/index.js:541 | two lists with the same elements are empty together |
| Chart.RowDates | pages/index.js:543-552 | the date column has one date per row, in row order |
| Chart.ChartUnique | pages/index.js:535-553 | the chart is fixed by the history: two tables meeting the chart property are equal |
| Chart.SameDateSameRow | pages/index.js:544-551 | two correct rows for the same date are equal |
| Chart.ExampleDates | pages/index.js:536-539 | the example history (Ritvik on days 5 and 10, Lovely on day 10) has dates {5, 10} |
| Chart.ExampleRows | pages/index.js:544-551 | the example's day-5 row holds only Ritvik's 88; its day-10 row holds Ritvik's 87 and Lovely's 102 |
| Chart.ExampleRowDates | pages/index.js:541 | the example's date column [5, 10] is strictly increasing and holds exactly the dates 5 and 10 |
| Chart.ExampleIsChart | pages/index.js:535-553 | the two example rows in date order form a chart of the example history |
| Chart.TwoMemberChartExample | pages/index.js:535-553 | every chart of the example history is exactly those two rows |
| Tracker.FamilyFitnessTracker.constructor | pages/index.js:11-15 | the initial history has an empty list for every member |
| Tracker.FamilyFitnessTracker.AddWeight | pages/index.js:488-507 | with any field empty, nothing changes; otherwise the history becomes the add updater's result, and every list stays sorted |
| Tracker.FamilyFitnessTracker.DeleteWeight | pages/index.js:509-514 | the history becomes the delete updater's result, and every list stays sorted |
| Tracker.FamilyFitnessTracker.CollectDates | pages/index.js:536-539 | the collected dates have no duplicates and are exactly the dates of all members' lists |
| Tracker.AddDates | pages/index.js:538 | adding one list's dates to a duplicate-free collection keeps it duplicate-free and adds exactly that list's dates |
| Tracker.FamilyFitnessTracker.DataPoint | pages/index.js:544-551 | the data point has a cell for every member, equal to that member's first weight on the date or nothing |
| Tracker.Find | pages/index.js:547 | the scan returns the weight of the first entry on the date, or nothing |
| Tracker.FamilyFitnessTracker.GetChartData | pages/index.js:535-553 | the returned table meets the chart property (and so is the unique chart), and it is empty exactly when every list is empty |

## Left out

- Loading and saving the history through the browser's `localStorage` and the
  optional cloud sync (pages/index.js:21-57) are I/O and are not modelled.
  This includes the quirk that a history whose lists are all empty is never
  saved.
- Ids come from `Date.now()`, a clock. In the model the id is a parameter of
  `AddWeight`, with no uniqueness assumed.
- `parseFloat` of the weight field is not modelled, so the model has no
  `NaN` weight. A filled-in weight is a `real`.
- Weights and the percentage are computed in exact `real` arithmetic. The
  browser's IEEE double rounding is not modelled.
- Dates are whole day numbers. Parsing of the date string by `new Date(...)`
  and the string comparison of the chart's `.sort()` are not modelled. For
  well-formed ISO dates both order the same way as day numbers.
- `Chart.ChartRow`: a row keeps its raw date. The `toLocaleDateString` label
  the chart shows is presentation and is not modelled.
- Closing the modal and resetting the form fields after an add
  (pages/index.js:503-505) are UI state and are not modelled. So are the
  rendering, the recharts chart, `toFixed` formatting, and the static
  workout, meal and supplement plans.
- `Entries.SortByDate` is one stable sort, an insertion sort. It stands for
  JavaScript's stable `Array.prototype.sort` through
  `Entries.StableSortUnique`. The engine's own algorithm is not modelled.
