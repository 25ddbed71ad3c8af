# DataTable sort/filter engine — a Dafny model

This project models the logic inside the generic `DataTable` React component
of react-sortable-table. The component exists twice: `src/components/DataTable.tsx`
is the typed version and `src/components/DataTable.jsx` is an older near-copy.
The logic is modelled once, and the places where the two files differ are
recorded below. The model covers four pure pieces:

- **Search filter** (`filteredData`). An empty query returns the rows unchanged.
  Otherwise a row is kept when some field is truthy and its lower-cased text
  contains the lower-cased query. Every field counts, displayed or not.
- **Sort engine** (`sortData`). The rows are copied and sorted with a ranked
  comparator, where the first matching rule wins:
  1. nulls go last;
  2. numeric, decided by the first value only;
  3. `start_date` by time value;
  4. `$`-prefixed `money` by amount;
  5. lower-cased string order.

  `desc` negates every rule except the null rule. With no key, an empty key or
  no direction, the input is returned unchanged.
- **Sort-state controller** (`handleSort`). A click on a new column sorts it
  `asc`. Clicking the same column again goes `asc` → `desc` → unsorted.
  Disabled columns are ignored.
- **Presentation mapping**. This covers `displayValue`, the active / hidden /
  neutral classes of the two sort arrows, and the row classes that stripe the
  body.

Files and modules:

| file | module | contents |
|---|---|---|
| `js_values.dfy` | `JsValues` | cell values, `Number`, `String`, truthiness, `toLowerCase`, `includes`, `replace`, `localeCompare`, date parsing |
| `stable_sort.dfy` | `StableSort` | a generic stable insertion sort: permutation, sortedness, stability |
| `sort_state.dfy` | `SortState` | `SortConfig`, `handleSort`, header clicks |
| `row_order.dfy` | `RowOrder` | the comparator and its rules; the column kinds on which it is a total preorder |
| `data_table.dfy` | `DataTable` | `sortData`, `filteredData`, `sortedData`, scenarios |
| `presentation.dfy` | `Presentation` | `displayValue`, arrow classes, row classes |

Modelling choices:

- **Values.** A field value is `Null | Missing | Num(int) | Str(string)`.
  `Missing` is `undefined`, which is what reading an absent key gives.
  The code checks for null with `=== null`, so `Missing` is *not* null. It falls
  through to the other comparator rules, and a cell for it shows the text
  "undefined".
- **Numbers.** A JavaScript number is `NaN | Int(int)`. The comparator returns
  such a number. `Array.prototype.sort` reads a NaN result as 0 (the SortCompare
  operation of ECMA-262), and `SortCompare` models that step.
- **Sort algorithm.** The sort is a stable insertion sort. ECMA-262 requires
  `Array.prototype.sort` to be stable. The order is fully determined only when
  the comparator is consistent.
- **When the comparator is inconsistent.** The numeric rule tests only the
  first value, so a column that mixes numbers and non-numeric text gets an
  inconsistent comparator (`RowOrder.MixedColumnIsInconsistent`). There the
  engine's order is implementation-defined. The model therefore proves:
  - permutation and nulls-last for **every** input. On a mixed column,
    nulls-last is a property of the insertion sort modelled here: ECMA-262
    leaves the order under an inconsistent comparator implementation-defined,
    so a real engine need not keep it;
  - sortedness and stability only for columns whose values share one kind
    (`RowOrder.ColumnKind`: numeric, text, currency, calendar).

## Where the two source files differ

- **Disabled columns.** DataTable.jsx checks for them inside `handleSort`
  (line 77), and every header has a click handler. DataTable.tsx gives a
  disabled header no click handler (lines 137-141), and its `handleSort` has no
  check. The composite click behaviour is the same; `SortState.ClickHeader`
  models it, and `SortState.HandleSort` is the transition alone.
- **Money rule.** DataTable.tsx converts both values with `String(...)` before
  `startsWith` and `replace`. DataTable.jsx calls `valueA.startsWith` and
  `valueB.replace` directly, which throws on non-strings. The model follows the
  .tsx.
- **Date rule.** DataTable.tsx subtracts `getTime()` values and DataTable.jsx
  subtracts the `Date` objects. Both give the same number.
- **Loading.** Only DataTable.tsx has the `isLoading` placeholder.

## What the code does at the edges

- **Missing fields are not null.** `undefined` is not `=== null`, so a missing
  field goes through the numeric, date, money and string rules. The search
  skips it only because it is falsy.
- **The search skips every falsy value**, including `0` and `""`
  (`DataTable.ZeroScenario`).
- **The search reads every field** of the row (`Object.values`), `id`
  included, whether or not a column displays it.
- **The numeric test reads only `valueA`.** The second value is converted with
  `Number` whatever it holds.

## Model

| member | source | states |
|---|---|---|
| `JsValues.ShowInt` | src/components/DataTable.tsx:105 | `String(n)` of an integer is its canonical decimal: a minus sign exactly when `n` is negative, then digits with no leading zero (only 0 itself is "0"), and `Number` reads it back as `n` |
| `JsValues.ParseDateOrder` | src/components/DataTable.tsx:40-45 | two real calendar dates written `YYYY-MM-DD` get time values ordered exactly as the dates are: by year, then month, then day |
| `JsValues.MakeDayOrder` | src/components/DataTable.tsx:41-44 | the day numbers of real calendar dates are ordered by year, then month, then day |
| `JsValues.DayFromYearIncreasing` | src/components/DataTable.tsx:41-44 | a year starts at least one full year of days after any earlier year does |
| `JsValues.EpochIsZero` | src/components/DataTable.tsx:41-44 | "1970-01-01" reads as time value 0 |
| `JsValues.MidJanuary2023` | src/components/DataTable.tsx:41-44 | "2023-01-15" reads as 1673740800000, midnight UTC of that day |
| `JsValues.Includes` | src/components/DataTable.tsx:78 | `s.includes(sub)` holds exactly when `sub` occurs in `s` at some position |
| `JsValues.RemoveFirst` | src/components/DataTable.tsx:53-54 | `replace("$", "")` removes only the first `$`, and leaves a string without `$` unchanged |
| `JsValues.FirstIndex` | src/components/DataTable.tsx:53 | the position `replace` acts on holds the character, and no earlier position does |
| `JsValues.CollateAntisymmetric` | src/components/DataTable.tsx:63-67 | swapping the operands of the string comparison negates it, which is what `desc` does in the string rule |
| `JsValues.CollateZeroIffEqual` | src/components/DataTable.tsx:60-64 | the string comparison reports a tie exactly for equal lower-cased strings |
| `JsValues.CollateTransitive` | src/components/DataTable.tsx:60-64 | "no later than" under the string comparison is transitive |
| `StableSort.Insert` | src/components/DataTable.tsx:23 | inserting one element adds exactly that element: the multiset grows by it |
| `StableSort.InsertionSort` | src/components/DataTable.tsx:23 | the sorted copy is a permutation of the input: same multiset of rows |
| `StableSort.InsertSorted` | src/components/DataTable.tsx:23 | inserting into a sorted sequence under a total-preorder comparator keeps it sorted |
| `StableSort.InsertionSortSorted` | src/components/DataTable.tsx:23 | under a comparator that is a total preorder on the input, every pair of output rows is in comparator order |
| `StableSort.InsertTies` | src/components/DataTable.tsx:23 | an inserted element goes after every element it ties with and before none of them |
| `StableSort.TiesAboveInserted` | src/components/DataTable.tsx:23 | an element placed before the head of a sorted sequence ties with nothing in it |
| `StableSort.InsertionSortTies` | src/components/DataTable.tsx:23 | for each element, the elements tied with it appear in the output in their input order |
| `StableSort.InsertionSortStable` | src/components/DataTable.tsx:23 | the sort is stable: rows the comparator ties keep their relative input order |
| `SortState.HandleSort` | src/components/DataTable.tsx:87-101 | the next configuration always has key null exactly when direction is null; its key, if any, is the clicked column; a different column always starts at `asc` |
| `SortState.ClickHeader` | src/components/DataTable.jsx:76-93 | a click on a disabled column leaves the configuration as it was; any other click yields a well-formed configuration |
| `SortState.SameColumnCycle` | src/components/DataTable.jsx:79-92 | on the same column: unsorted → `asc`, `asc` → `desc`, `desc` → unsorted (key and direction both null) |
| `SortState.ThreeClicksRestore` | src/components/DataTable.tsx:87-101 | three clicks on an enabled column starting from unsorted return to unsorted |
| `SortState.ClickCycleHasPeriodThree` | src/components/DataTable.tsx:87-101 | from any state, the fourth click on a column gives the same configuration as the first |
| `SortState.DisabledClicksAreNoOps` | src/components/DataTable.tsx:137-141 | any series of clicks on disabled columns leaves the configuration unchanged |
| `SortState.DisabledNeverBecomesKey` | src/components/DataTable.jsx:77 | from a well-formed state whose key is enabled, no series of clicks makes a disabled column the sort key, and the state stays well-formed |
| `RowOrder.NullPlacementIgnoresDirection` | src/components/DataTable.jsx:20-22 | when a value is null the comparator `RowOrder.CompareValues` gives is the same in both directions: two nulls tie, a null goes after a non-null, a non-null before a null |
| `RowOrder.DescNegatesAsc` | src/components/DataTable.tsx:33-67 | for two non-null values, the `desc` result of `RowOrder.CompareValues` is exactly the negation of the `asc` result in the numeric, date, money and string rules |
| `RowOrder.NumericRuleDecidedByFirst` | src/components/DataTable.tsx:33-36 | if the first value is numeric, the result is `Number(a) - Number(b)` (reversed for `desc`), whatever the key and the second value; a non-numeric second value makes it NaN, read as a tie |
| `RowOrder.MoneyComparesAmounts` | src/components/DataTable.tsx:49-56 | under key `money`, `"$" + a` against `"$" + b` compares as `Number(a) - Number(b)` ascending and `Number(b) - Number(a)` descending |
| `RowOrder.MoneyRule` | src/components/DataTable.tsx:49-56 | once the first value is a non-numeric string starting with `$`, key `money` compares the two values with their first `$` removed, numerically, in the sort direction |
| `RowOrder.DollarAmount` | src/components/DataTable.tsx:52-54 | a `$`-prefixed text is not numeric, passes the `startsWith("$")` test, and `replace` removes exactly its leading `$` |
| `RowOrder.DateAgainstNumber` | src/components/DataTable.tsx:40-45 | under key `start_date`, "2023-01-15" against the number 100000000 compares as 1673740800000 - 100000000, on the one millisecond scale |
| `RowOrder.MixedColumnIsInconsistent` | src/components/DataTable.jsx:25-29 | with the number 30 and the text "n/a", the comparator reports a tie one way round and "after" the other way round |
| `RowOrder.CompareWithinKind` | src/components/DataTable.tsx:28-67 | on two non-null values of one column kind, the comparator `RowOrder.CompareValues` is a signed difference of ranks, or the string comparison of the lower-cased texts |
| `RowOrder.KindAntisymmetric` | src/components/DataTable.tsx:28-67 | on one column kind, a goes strictly before b exactly when b goes strictly after a |
| `RowOrder.KindTransitive` | src/components/DataTable.tsx:28-67 | on one column kind, "no later than" is transitive, nulls included |
| `RowOrder.ColumnOrderIsTotalPreorder` | src/components/DataTable.tsx:23-68 | on rows whose values at the key share one kind, the row comparator is a total preorder in both directions |
| `DataTable.SortData` | src/components/DataTable.tsx:20-23 | the result is a permutation of the input; with no key, an empty key or no direction it is the input itself; otherwise null rows come last |
| `DataTable.InsertKeepsNullsLast` | src/components/DataTable.tsx:28-30 | inserting any row into a sequence whose null rows are last keeps them last, whatever the other values |
| `DataTable.NullsLastCons` | src/components/DataTable.tsx:28-30 | putting a row in front keeps nulls last when, if it is null, everything after it is null |
| `DataTable.SortKeepsNullsLast` | src/components/DataTable.tsx:28-30 | after sorting, in either direction and for any values, every null row comes after every non-null row |
| `DataTable.SortDataOrderedAndStable` | src/components/DataTable.jsx:13-57 | on a column of one kind, the sorted rows are in comparator order and rows that tie keep their input order |
| `DataTable.KeepMatching` | src/components/DataTable.tsx:74-80 | the kept rows are input rows that match the query, and there are no more of them than input rows |
| `DataTable.FilterRows` | src/components/DataTable.tsx:71-81 | an empty query returns the input unchanged; otherwise every returned row matches; every returned row comes from the input |
| `DataTable.FilterKeepsExactlyMatches` | src/components/DataTable.jsx:62-70 | for a non-empty query, the result lists the input at strictly increasing positions, and a position is listed exactly when its row matches (`DataTable.RowMatches`) |
| `DataTable.KeepMatchingIndices` | src/components/DataTable.tsx:74-80 | the kept rows are the input rows at increasing positions, namely exactly the positions whose rows match |
| `DataTable.ShiftIndices` | src/components/DataTable.tsx:74-80 | a selection of the tail, moved one position along, selects the same rows from the whole input, skipping the head |
| `DataTable.ListsExactlyCons` | src/components/DataTable.tsx:74-80 | keeping or dropping the head row extends an order-preserving selection of the tail to one of the whole input |
| `DataTable.FalsyFieldsNeverMatch` | src/components/DataTable.tsx:77 | a row whose fields are all falsy matches no query under `DataTable.RowMatches` |
| `DataTable.FieldContainingQueryMatches` | src/components/DataTable.tsx:75-78 | a row with a truthy field whose lower-cased text contains the lower-cased query matches (`DataTable.RowMatches`), whichever field it is |
| `DataTable.VisibleRows` | src/components/DataTable.tsx:83-85 | the rendered rows are a permutation of the filtered rows; they are input rows that match the query (when there is one), there are no more of them than input rows, null rows come last under an active sort, and without one they are exactly the filtered rows |
| `DataTable.MatchingRowsAreVisible` | src/components/DataTable.tsx:71-85 | under any sort configuration, a row is rendered exactly when it is an input row that matches the query (any input row, for an empty query) |
| `DataTable.NumbersCompare` | src/components/DataTable.tsx:33-36 | two rows holding numbers at the key compare by their difference, reversed for `desc` |
| `DataTable.NullComparesAfter` | src/components/DataTable.tsx:28-30 | a row holding null at the key goes after a row that does not, in both directions and both argument orders |
| `DataTable.AgeScenario` | src/components/DataTable.tsx:28-36 | any rows with ages 30, null, 25 sort ascending as 25, 30, null and descending as 30, 25, null |
| `DataTable.MoneyScenario` | src/components/DataTable.tsx:49-56 | money "$50", "$10" sort ascending as "$10", "$50" |
| `DataTable.SearchScenario` | src/components/DataTable.tsx:74-80 | the query "gith" finds a row whose `github_username` is "GitHubAnn" |
| `DataTable.ZeroScenario` | src/components/DataTable.jsx:67 | the number 0 shows as "0", yet the query "0" does not find a row whose only field is 0 |
| `Presentation.CellText` | src/components/DataTable.tsx:187 | a null field shows the placeholder, and an absent field shows "undefined" |
| `Presentation.PlaceholderMeansNull` | src/components/DataTable.jsx:95-97 | `Presentation.DisplayValue` shows a value as the placeholder "——" exactly when it is null or is that very text |
| `Presentation.DisplayedNumberReadsBack` | src/components/DataTable.tsx:104-106 | a number shown by `Presentation.DisplayValue` converts back, through `Number`, to the same number |
| `Presentation.HeaderArrows` | src/components/DataTable.tsx:145-170 | a header has sort arrows exactly when its column is not disabled |
| `Presentation.ArrowsAgree` | src/components/DataTable.jsx:122-129 | of `Presentation.UpArrow` and `Presentation.DownArrow`, at most one is active; an arrow is hidden exactly when the other is active; a column that is not the sort key has both arrows neutral |
| `Presentation.ArrowsShowSortState` | src/components/DataTable.tsx:147-168 | the up arrow (`Presentation.UpArrow`) is active exactly when sorted `asc` by the column, the down arrow (`Presentation.DownArrow`) exactly when sorted `desc` |
| `Presentation.ArrowsFollowClicks` | src/components/DataTable.tsx:147-168 | clicks on a column that is not the sort key show up-active, then down-active, then both neutral |
| `Presentation.RowClassesAlternate` | src/components/DataTable.tsx:181-183 | neighbouring rows get different stripes, the first row is odd, and only the last row lacks the `data-row` divider in its `Presentation.RowClass` |

## Left out

- `Number(...)` on strings is a stand-in. It gives 0 for `""`, and the integer
  for an optional sign followed by decimal digits; all other text is NaN.
  Leading and trailing whitespace, fractions, exponents, hex, `Infinity` and
  IEEE-754 rounding are not modelled. All numbers are integers.
- `new Date(s).getTime()` on a string is modelled for the date-only ISO form
  `YYYY-MM-DD` alone. Such a string is read as midnight UTC of that day, in
  milliseconds since 1970-01-01, using ECMA-262's `DayFromYear` and `MakeDay`
  arithmetic, so date strings and numbers are compared on one scale. A day
  from 29 to 31 past the end of its month runs on into the next month, as
  `MakeDay` computes; some engines return NaN for such a string instead. Any
  other text is an invalid date (NaN), including date-times, local-time forms
  and the non-ISO formats that engines accept as an extension. A number is
  used as a time value unchanged, without `TimeClip`.
- `localeCompare` is lexicographic code-point order, not locale collation.
  `toLowerCase` lowers ASCII letters only.
- Boolean and `Date`-object field values are not modelled. `src/types/index.ts`
  types `start_date` as `Date | string | null`, and both row types extend
  `Record<string, unknown>`, but rows parsed from JSON never hold a `Date`. A
  `Date` would take the numeric rule, because `Number(date)` is its time value.
- A direction is `Asc`, `Desc` or null. A direction string other than
  `"asc"`/`"desc"` cannot be expressed, because the `SortConfig` type in
  `src/types/index.ts` rules it out.
- `StableSort.InsertionSortSorted`: sortedness and stability are stated only
  for comparators that are a total preorder on the input. For the mixed columns
  where the source comparator is inconsistent, ECMA-262 leaves the order
  implementation-defined, and only permutation and nulls-last are claimed.
- The jsx money rule throws a TypeError when `valueA` is not a string or
  `valueB` has no `replace`. These crash paths are not modelled; the model
  follows the .tsx money rule.
- The `isLoading` early return in DataTable.tsx is left out: it is rendering,
  not logic.
- The "No data found" placeholder row, JSX markup, CSS, React hooks and
  memoisation are left out, because they are rendering glue.
- `src/App.tsx` and `src/App.jsx` load static JSON and define column lists.
  They are not part of this model. `src/types/index.ts` contributes only the
  `SortConfig` shape.
- The uniqueness of the `id` row key is a rendering concern and is not
  modelled.
