# Data-table core, modelled in Dafny

This project models the non-visual logic of a React data table built on
TanStack Table (`advanced-react-data-table`). The model covers:

- **The `advanced` column filter function** (`FilterFns`). It takes a row value and a filter
  `{operator, value, variant}` and decides whether the row is kept. It handles the
  emptiness operators, the text, number, date, select and boolean variants, and the
  permissive fallbacks.
- **The column header menu** (`ColumnHeader`). This covers the sort upsert and removal, the
  label rule, the default filter variant, and the values the menu stores for
  select, multi-select and date filters. It also covers the resizer's memo comparator.
- **The column order panel** (`ViewOptions`). A class `DataTableViewOptions` holds the
  panel's local order and the table's column order. Its methods are the two sync
  effects and the drag-end handler. Pure functions model the splice move, the merge
  into the table's order and the ordered column list.
- **The filter value widget** (`FilterInput`). This covers which widget a filter row
  shows, how a date operand is normalised, and what the calendars write back.
- **Search highlighting** (`HighlightCell`). It covers the escaping of the search term, the regex split
  with a capture group, and the mark decision for each piece.
- **Export** (`Export`, `ExportOptions`). It covers the row source, the one record built per row
  with the header-key rule, the XLSX column width, and the file names.

JavaScript values and coercions live in `JsValues`. This covers `String`, `Number`, truthiness,
`new Date`, `toLowerCase`, strict equality and ordering on numbers with NaN, and
the decimal form of an integer time value. The date-fns day functions live in `DayTime`.
How the host prints a non-integer number or a valid date, reads a string as a
number, or parses a date string is not interpreted. These are fields of a
`Runtime` record that every evaluator function takes. Where a property needs the
host to read decimal integers correctly, it says so with `ReadsDecimalTimes`.

Days are fixed 86 400 000 ms blocks counted from the epoch. This is UTC, with no time zone and no
daylight saving. `toLowerCase` and the regex `i` flag are modelled on ASCII letters.

The evaluator has no `range` case, so a filter with the range variant keeps every
present row (`FilterFns.UnknownVariantPasses`). The column header menu stores raw values through `column.setFilterValue`,
not descriptors. The files modelled here do not say which filter function the
product columns register. The model assumes it is `filterFns.advanced`, so the
header's raw values reach the evaluator's substring fallback
(`ColumnHeader.HeaderSelectIsSubstringTest`, `ColumnHeader.HeaderSingleDateIsSubstringTest`).

## Model

| member | source | states |
|---|---|---|
| FilterFns.EmptinessIsExact | src/lib/filter-fns.ts:30-45 | `isEmpty` holds exactly for null, undefined, "" and `[]`, for every variant; `isNotEmpty` is its exact negation |
| FilterFns.MissingRowValueFails | src/lib/filter-fns.ts:47-50 | every operator other than the emptiness tests rejects a null or undefined row value, whatever the variant |
| FilterFns.TextOperators | src/lib/filter-fns.ts:53-64 | `iLike` is a case-insensitive substring test of the string forms, `eq` is case-insensitive equality, and `notILike` and `ne` are their negations |
| FilterFns.TextEqImpliesILike | src/lib/filter-fns.ts:57-62 | a text row that passes `eq` also passes `iLike` |
| FilterFns.TextILikeExample | src/lib/filter-fns.ts:57-58 | "Pro" finds "Product A" |
| FilterFns.NonNumericRowFails | src/lib/filter-fns.ts:70-72 | a row value that `Number` turns into NaN fails every non-emptiness operator of the number variant |
| FilterFns.NumberBetween | src/lib/filter-fns.ts:87-95 | number `isBetween` holds iff the operand is an array, both bounds are numbers, and min ≤ v ≤ max inclusive |
| FilterFns.NumberBetweenFinite | src/lib/filter-fns.ts:87-95 | with finite bounds and a finite row value, `isBetween [lo, hi]` holds iff lo ≤ v ≤ hi |
| FilterFns.PriceScenario | src/lib/filter-fns.ts:87-95 | against `isBetween [20, 80]`, only 50 of the prices 10, 50 and 90 is kept |
| FilterFns.InvalidRowDateFails | src/lib/filter-fns.ts:103-108 | a row value that is not a valid date fails every non-emptiness operator of the date variants |
| FilterFns.MissingOperandDatePasses | src/lib/filter-fns.ts:116-152 | with no operand date every comparison passes, and `isBetween` passes as soon as either bound is missing |
| FilterFns.DateComparisonOrder | src/lib/filter-fns.ts:123-141 | date `gt` implies `gte` and `lt` implies `lte`, and with an operand date `lt` and `gte` never hold together |
| FilterFns.DateBranch | src/lib/filter-fns.ts:100-108 | for the date and dateRange variants, every operator but the emptiness tests reaches the date branch with a present row value |
| FilterFns.DateCompareOrder | src/lib/filter-fns.ts:123-141 | on a valid row date, the date switch's `gt` implies `gte`, `lt` implies `lte`, and with an operand date `lt` and `gte` exclude each other |
| FilterFns.DateBetweenIsInclusive | src/lib/filter-fns.ts:142-152 | with valid bounds a and b, `isBetween` holds iff startOfDay(a) ≤ d ≤ endOfDay(b) |
| FilterFns.DateBetweenOneDayIsEq | src/lib/filter-fns.ts:116-152 | `isBetween [a, a]` agrees with `eq a` on every row |
| FilterFns.MsOperandDates | src/lib/filter-fns.ts:116-121 | operands given as millisecond numbers (array or scalar) become exactly those instants, and the scalar leaves the end missing |
| FilterFns.SameDayScenario | src/lib/filter-fns.ts:124-125 | `eq` at noon of 2024-01-01 keeps a row at 23:00 that day and drops one at 01:00 the next day |
| FilterFns.ScalarOperandIsSingleton | src/lib/filter-fns.ts:160 | for select and multiSelect a scalar operand behaves exactly as the one-element list holding it |
| FilterFns.SelectMembership | src/lib/filter-fns.ts:163-180 | `eq` and `ne` test membership of the row's string form in the operand list, and so do `inArray` and `notInArray` on a scalar row |
| FilterFns.InArrayOnArrayRow | src/lib/filter-fns.ts:168-174 | `inArray` on an array row holds iff some element's string form is in the list |
| FilterFns.NotInArrayNegates | src/lib/filter-fns.ts:168-180 | `notInArray` is the negation of `inArray` on every present row value |
| FilterFns.TagsScenario | src/lib/filter-fns.ts:172-173 | tags ["red", "blue"] match `inArray ["blue"]` but not `inArray ["green"]` |
| FilterFns.BooleanOperators | src/lib/filter-fns.ts:184-193 | boolean `eq` compares the row's truthiness with operand === "true"; any other operand acts as "false"; `ne` negates `eq` |
| FilterFns.UnknownOperatorPasses | src/lib/filter-fns.ts:52-198 | an operator that a variant's switch has no case for, whether an unknown name or a known one such as `lt` on text, keeps every present row (numeric for number, a valid date for the date variants) |
| FilterFns.UnknownVariantPasses | src/lib/filter-fns.ts:196-197 | a variant the evaluator does not list (range among them) keeps every present row |
| FilterFns.RawValueIsSubstringTest | src/lib/filter-fns.ts:13-23 | a filter value without an operator is a case-insensitive substring test of string forms, so "" keeps every row |
| FilterFns.GteMissesStartOfDay | src/lib/filter-fns.ts:132-141 | as written, a row at the first millisecond of the operand's day passes `eq` but fails `gte`, and a row at its last millisecond passes `eq` but fails `lte` |
| FilterFns.InclusiveDateOrder | src/lib/filter-fns.ts:123-141 | with inclusive day boundaries `lt` and `gte` are complements, so are `gt` and `lte`, and `eq` is `lte` and `gte` together |
| FilterFns.EvaluatorAgreesAwayFromBoundaries | src/lib/filter-fns.ts:123-141 | the evaluator's date comparisons equal the inclusive ones for every row except the two boundary instants of the operand's day |
| FilterFns.CorrectedIsInclusive | src/lib/filter-fns.ts:132-141 | the corrected date switch is the inclusive comparison on every valid row and millisecond operand |
| FilterFns.CorrectedDateOrder | src/lib/filter-fns.ts:123-141 | the corrected comparisons partition the time line: `lt`/`gte` and `gt`/`lte` are complements and `eq` is `lte` and `gte` together |
| FilterFns.CorrectedKeepsBoundaries | src/lib/filter-fns.ts:132-141 | the corrected `gte` keeps the row at the start of the day and the corrected `lte` the row at its end |
| DayTime.DayBounds | src/lib/filter-fns.ts:128-141 | startOfDay(t) ≤ t ≤ endOfDay(t), and the start of a day is a whole number of days |
| DayTime.SameDayIffWithin | src/lib/filter-fns.ts:124-127 | isSameDay(d, f) holds iff startOfDay(f) ≤ d ≤ endOfDay(f) |
| DayTime.DayStartWithin | src/lib/filter-fns.ts:124-127 | every instant inside the day of f has that day's start as its own day start |
| DayTime.StartOfDay | src/lib/filter-fns.ts:128-133 | `startOfDay` keeps an invalid date invalid and never moves a valid one later |
| DayTime.EndOfDay | src/lib/filter-fns.ts:134-141 | `endOfDay` keeps an invalid date invalid and never moves a valid one earlier |
| JsValues.TimeClip | src/lib/filter-fns.ts:117-120 | `new Date(n)` of an integer n within ±8.64e15 is the instant n |
| JsValues.Lower | src/lib/filter-fns.ts:54-55 | `toLowerCase` keeps the length and maps each character on its own |
| JsValues.LowerSlice | src/lib/filter-fns.ts:57-58 | lower-casing commutes with taking a slice |
| JsValues.LowerConcat | src/lib/filter-fns.ts:57-58 | lower-casing distributes over concatenation |
| JsValues.ContainsEmpty | src/lib/filter-fns.ts:20-22 | every string includes "" |
| JsValues.JoinWith | src/lib/filter-fns.ts:161-173 | joining no strings gives "" and joining one gives it unchanged |
| JsValues.NatText | src/components/data-table/data-table-filter-input.tsx:292-293 | the decimal text of a natural number is non-empty, all digits and has no leading zero |
| JsValues.ParseNatText | src/components/data-table/data-table-filter-input.tsx:292-293 | reading the digits of a natural number gives it back |
| JsValues.IntTextRoundTrip | src/components/data-table/data-table-filter-input.tsx:292-293 | reading the decimal text of an integer time value gives the integer back |
| JsValues.IntTextInjective | src/components/data-table/data-table-filter-input.tsx:310 | distinct time values print as distinct strings |
| ColumnHeader.FindSortIndex | src/components/data-table/data-table-column-header.tsx:83-85 | `findIndex` gives -1 iff the column has no sort, and otherwise the first entry with the column's id |
| ColumnHeader.OnSortingChange | src/components/data-table/data-table-column-header.tsx:83-97 | an existing sort is overwritten at its index with length unchanged; otherwise `{id, desc: direction === "desc"}` is appended; every other entry is untouched in place |
| ColumnHeader.OnSortRemove | src/components/data-table/data-table-column-header.tsx:103-107 | removal keeps exactly the entries of other columns and leaves no entry for this column |
| ColumnHeader.SortingChangeKeepsOthers | src/components/data-table/data-table-column-header.tsx:83-97 | the other entries keep their order: removing the column after the change gives what removing it before gives |
| ColumnHeader.SortingChangeKeepsUnique | src/components/data-table/data-table-column-header.tsx:83-97 | unique sort ids stay unique, and the column's one entry carries the chosen direction |
| ColumnHeader.SortRemoveKeepsUnique | src/components/data-table/data-table-column-header.tsx:103-107 | removing a sort keeps unique ids unique |
| ColumnHeader.RemoveOverAppend | src/components/data-table/data-table-column-header.tsx:104-105 | removal distributes over concatenation |
| ColumnHeader.RemoveIgnoresOverwrite | src/components/data-table/data-table-column-header.tsx:92-93 | overwriting the column's entry is invisible once the column is removed |
| ColumnHeader.HeaderLabel | src/components/data-table/data-table-column-header.tsx:64-68 | the label is a truthy `meta.label`, else a string header, else the column id |
| ColumnHeader.FilterVariant | src/components/data-table/data-table-column-header.tsx:305 | the filter variant is `meta.variant`, defaulting to text |
| ColumnHeader.WithoutOption | src/components/data-table/data-table-column-header.tsx:452 | `filter((v) => v !== option)` keeps exactly the entries other than the option, and never grows the list |
| ColumnHeader.WithoutAbsentOption | src/components/data-table/data-table-column-header.tsx:452 | filtering out an option that is absent leaves the list unchanged |
| ColumnHeader.WithoutOverAppend | src/components/data-table/data-table-column-header.tsx:452 | filtering out an option distributes over concatenation |
| ColumnHeader.ToggleMulti | src/components/data-table/data-table-column-header.tsx:447-455 | an absent option is appended, a present one removed in every occurrence, and the result is never `[]` but `undefined` |
| ColumnHeader.ToggleSingle | src/components/data-table/data-table-column-header.tsx:456-460 | choosing the selected option clears the value to `undefined`, any other option becomes the value |
| ColumnHeader.ToggleFlipsSelection | src/components/data-table/data-table-column-header.tsx:438-460 | choosing an option flips whether it shows as selected, for both kinds of select |
| ColumnHeader.ToggleTwiceRestores | src/components/data-table/data-table-column-header.tsx:447-460 | choosing an option twice restores a stored multi-select value that lacked it, and a single-select value of `undefined` |
| ColumnHeader.SingleDateValue | src/components/data-table/data-table-column-header.tsx:368-375 | a picked date is stored as `[iso, iso]` with `iso` the picked instant's ISO text; a cleared one is stored as `undefined` |
| ColumnHeader.SingleDateShowsBack | src/components/data-table/data-table-column-header.tsx:363-375 | when the host parses the ISO text back to the instant, the calendar's `selected` is the picked date again, and nothing after a clear |
| ColumnHeader.HeaderSingleDateIsSubstringTest | src/components/data-table/data-table-column-header.tsx:368-372 | the evaluator reads the stored pair as a case-insensitive substring test of `"iso,iso"`, not as a day comparison |
| ColumnHeader.RangeDateValueClears | src/components/data-table/data-table-column-header.tsx:390-405 | the stored range is `undefined` exactly when the selection is cleared or has neither end, and otherwise `[fromIso or "", toIso or ""]` |
| ColumnHeader.HeaderSelectIsSubstringTest | src/components/data-table/data-table-column-header.tsx:314-317 | a single-select choice from the menu reaches the evaluator raw, so it keeps every row whose string form contains the option, ignoring case |
| ColumnHeader.ResizerComparatorIsEquality | src/components/data-table/data-table-column-header.tsx:499-516 | the memo skips a re-render iff resizing state, size and label are all equal; a NaN size always re-renders; the comparator is symmetric and transitive |
| ViewOptions.HidableColumns | src/components/data-table/data-table-view-options.tsx:107-116 | the listed columns are exactly those with an accessor that can be hidden |
| ViewOptions.LabelsAgreeButForEmptyMetaLabel | src/components/data-table/data-table-view-options.tsx:58-62 | the panel label uses `??`, so it equals the header label except for an empty `meta.label`, which the panel keeps |
| ViewOptions.RelevantOrder | src/components/data-table/data-table-view-options.tsx:132-134 | the filtered order holds exactly the ids of the order that name one of the columns |
| ViewOptions.RelevantOrderOverAppend | src/components/data-table/data-table-view-options.tsx:132-134 | the filter distributes over concatenation |
| ViewOptions.RelevantOrderKeepsAll | src/components/data-table/data-table-view-options.tsx:132-134 | an order whose ids all name columns is kept whole |
| ViewOptions.RelevantOrderDropsAll | src/components/data-table/data-table-view-options.tsx:132-134 | an order whose ids name no column becomes empty |
| ViewOptions.WithoutIds | src/components/data-table/data-table-view-options.tsx:176-179 | the filter keeps exactly the ids not in the excluded list, in their order (a subsequence), and never grows the list |
| ViewOptions.WithoutIdsOverAppend | src/components/data-table/data-table-view-options.tsx:176-179 | the filter distributes over concatenation, so every kept id keeps its place and its number of occurrences |
| ViewOptions.IndexOf | src/components/data-table/data-table-view-options.tsx:161-162 | `indexOf` is -1 iff the id is absent, and otherwise the first position of the id |
| ViewOptions.SpliceStart | src/components/data-table/data-table-view-options.tsx:165-166 | `splice` reads a negative start from the end and clamps it to the list, so an in-range start is used as given |
| ViewOptions.SpliceOut | src/components/data-table/data-table-view-options.tsx:165 | `splice(start, 1)` with a start below the length drops one element, and what remains plus that element is the old list as a multiset |
| ViewOptions.SpliceIn | src/components/data-table/data-table-view-options.tsx:166 | `splice(start, 0, x)` adds exactly x |
| ViewOptions.MoveIsPermutation | src/components/data-table/data-table-view-options.tsx:161-166 | the drag move yields a permutation of the local order |
| ViewOptions.MovePlacesActive | src/components/data-table/data-table-view-options.tsx:161-166 | with both ids present the moved id lands at `newIndex`, and removing it there gives the old order without it, so every other id keeps its relative order |
| ViewOptions.MoveIsSpliceIn | src/components/data-table/data-table-view-options.tsx:161-166 | with both ids present, the move is the old order without the active id, with the active id inserted at `newIndex` |
| ViewOptions.SpliceOutAt | src/components/data-table/data-table-view-options.tsx:165 | `splice(k, 1)` with k in range removes exactly the entry at k and returns it |
| ViewOptions.SpliceInAt | src/components/data-table/data-table-view-options.tsx:166 | `splice(k, 0, x)` with k in range puts x at k, and deleting position k gives the list back |
| ViewOptions.MoveKeepsUnique | src/components/data-table/data-table-view-options.tsx:161-166 | a move keeps unique ids unique |
| ViewOptions.MergeOrderContents | src/components/data-table/data-table-view-options.tsx:171-181 | the merged order holds exactly the global and local ids, ends with the new local order, and before it holds no local id and keeps the global ids in the global order's order |
| ViewOptions.SyncAfterDragReturnsLocal | src/components/data-table/data-table-view-options.tsx:127-181 | when the table order holds no other hidable id, filtering the merged order back to the hidable columns gives the new local order |
| ViewOptions.FindColumn | src/components/data-table/data-table-view-options.tsx:197 | `find` gives the first column with the id when one exists, and nothing otherwise |
| ViewOptions.OrderedColumns | src/components/data-table/data-table-view-options.tsx:194-200 | every listed column is one of the table's columns |
| ViewOptions.OrderedColumnsFollowOrder | src/components/data-table/data-table-view-options.tsx:194-200 | `orderedColumns` keeps the id order and drops exactly the ids with no matching column |
| ViewOptions.SyncUpdateResult | src/components/data-table/data-table-view-options.tsx:127-149 | the local order becomes the table order filtered to hidable ids when that is non-empty and is unchanged otherwise; an element-wise equal list leaves the state alone |
| ViewOptions.DefaultUpdate | src/components/data-table/data-table-view-options.tsx:151-155 | with an empty table order the local order becomes all hidable ids; otherwise nothing happens |
| ViewOptions.DataTableViewOptions.constructor | src/components/data-table/data-table-view-options.tsx:119-124 | the panel mounts with the hidable ids as its local order |
| ViewOptions.DataTableViewOptions.SyncWithTable | src/components/data-table/data-table-view-options.tsx:127-149 | the first sync effect's new local state, with the table order untouched |
| ViewOptions.DataTableViewOptions.SyncWhenUnordered | src/components/data-table/data-table-view-options.tsx:151-155 | the second sync effect's new local state, with the table order untouched |
| ViewOptions.DataTableViewOptions.HandleDragEnd | src/components/data-table/data-table-view-options.tsx:157-182 | no target, or a target equal to the active id, changes nothing; otherwise the local order is the move and the table order the merge of the old table order (or all column ids) with it |
| ViewOptions.DataTableViewOptions.ListedColumns | src/components/data-table/data-table-view-options.tsx:194-200 | the listed columns' ids are the local order filtered to the hidable columns |
| FilterInput.EmptinessShowsStatus | src/components/data-table/data-table-filter-input.tsx:60-72 | `isEmpty` and `isNotEmpty` show the value-less status box whatever the variant and operand |
| FilterInput.TextLikeWidgets | src/components/data-table/data-table-filter-input.tsx:74-114 | for text, number and range, `isBetween` gets the range filter; other operators get an input that is numeric iff the variant is not text, with a default value only for a string operand |
| FilterInput.BooleanWidget | src/components/data-table/data-table-filter-input.tsx:116-147 | boolean renders nothing for an array operand and the select otherwise |
| FilterInput.SelectWidget | src/components/data-table/data-table-filter-input.tsx:149-160 | select renders single and multiSelect multiple; the selection is the array (or `[]`) when multiple and the string (or `undefined`) when single |
| FilterInput.UnknownVariantRendersNothing | src/components/data-table/data-table-filter-input.tsx:321-322 | an unrecognised variant renders `null` |
| FilterInput.TruthyEntries | src/components/data-table/data-table-filter-input.tsx:225 | `filter(Boolean)` keeps exactly the truthy entries |
| FilterInput.DateEntries | src/components/data-table/data-table-filter-input.tsx:224-226 | every normalised entry is truthy, and a scalar operand becomes `[v, v]`, or `[]` when falsy |
| FilterInput.TruthyEntriesKeepOrder | src/components/data-table/data-table-filter-input.tsx:225 | a truthy head stays first, and an all-truthy array is kept whole |
| FilterInput.RangeLabelOnlyForDistinctDays | src/components/data-table/data-table-filter-input.tsx:228-246 | the range label appears exactly for `isBetween` over two entries on different days, and "Pick a date" exactly when no entry is left |
| FilterInput.PickerStartIsFilterDate | src/components/data-table/data-table-filter-input.tsx:228-230 | the date the picker shows first is the evaluator's `filterDate` for a scalar operand or an array with a truthy first entry |
| FilterInput.PickerShowsIgnoredEnd | src/components/data-table/data-table-filter-input.tsx:224-230 | for `["", "5"]` the picker shows a date while the evaluator has no `filterDate` |
| FilterInput.RangeSelectValue | src/components/data-table/data-table-filter-input.tsx:288-297 | the range calendar writes two strings, or `[]` when cleared |
| FilterInput.SingleSelectValue | src/components/data-table/data-table-filter-input.tsx:308-313 | the single calendar writes a string that is "" exactly when the date is cleared |
| FilterInput.MsTextOperand | src/components/data-table/data-table-filter-input.tsx:292-293 | the written time text is truthy and reads back, through `new Date(Number(...))`, as the same instant |
| FilterInput.RangeSelectionRoundTrip | src/components/data-table/data-table-filter-input.tsx:288-297 | a chosen range reads back as its two instants, and `isBetween` then keeps exactly the rows from the start of the first day to the end of the last |
| FilterInput.PartialRangePassesAll | src/components/data-table/data-table-filter-input.tsx:288-297 | a cleared range, or one with a missing end, keeps every valid row |
| FilterInput.SingleSelectionRoundTrip | src/components/data-table/data-table-filter-input.tsx:308-313 | a chosen day reads back as that instant, and `eq` then keeps exactly the rows on that day |
| FilterInput.RangeSelectionShowsBack | src/components/data-table/data-table-filter-input.tsx:271-298 | after a range is chosen the calendar shows both ends and the button shows the range, or one day when both ends fall on it |
| FilterInput.SingleSelectionShowsBack | src/components/data-table/data-table-filter-input.tsx:300-314 | after a day is chosen the button and the calendar show that day |
| HighlightCell.EscapeIsLiteral | src/components/data-table/data-table-highlight-cell.tsx:22 | the escaped term is a literal pattern that matches exactly the term, metacharacters included |
| HighlightCell.Escape | src/components/data-table/data-table-highlight-cell.tsx:22 | escaping only adds characters |
| HighlightCell.FirstMatch | src/components/data-table/data-table-highlight-cell.tsx:23 | the next match position is -1 or a position at or after the start where the whole term fits |
| HighlightCell.FirstMatchIsLeftmost | src/components/data-table/data-table-highlight-cell.tsx:23 | the split finds the leftmost case-insensitive occurrence at or after a position, or reports that there is none |
| HighlightCell.EqualIgnoringCaseIsLower | src/components/data-table/data-table-highlight-cell.tsx:23-28 | the regex `i` flag's character-by-character comparison agrees with comparing the `toLowerCase` forms |
| HighlightCell.SplitFromStep | src/components/data-table/data-table-highlight-cell.tsx:23 | each step of the split yields the text before the next match and the match itself, or the rest of the text when no match is left |
| HighlightCell.SplitFromConcat | src/components/data-table/data-table-highlight-cell.tsx:23 | the split pieces put back together give the text |
| HighlightCell.SplitFromShape | src/components/data-table/data-table-highlight-cell.tsx:23 | there is an odd number of pieces: the odd-numbered ones are the matches and the even-numbered ones hold no occurrence of the term |
| HighlightCell.GapHasNoOccurrence | src/components/data-table/data-table-highlight-cell.tsx:23 | a stretch with no match starting in it holds no occurrence |
| HighlightCell.NoOccurrenceDiffers | src/components/data-table/data-table-highlight-cell.tsx:28 | a piece with no occurrence of a non-empty term does not equal it, ignoring case |
| HighlightCell.MarkParts | src/components/data-table/data-table-highlight-cell.tsx:27-38 | marking keeps the pieces and their order, and marks a piece iff it equals the term ignoring case |
| HighlightCell.EmptyTermOrValueIsPlain | src/components/data-table/data-table-highlight-cell.tsx:13-19 | an empty or missing term, or an empty, null or undefined value, renders the whole text unmarked |
| HighlightCell.HighlightReassembles | src/components/data-table/data-table-highlight-cell.tsx:15-38 | the rendered pieces put back together give the cell text exactly |
| HighlightCell.HighlightMarksMatches | src/components/data-table/data-table-highlight-cell.tsx:23-38 | the marked pieces are exactly the odd-numbered ones, each equal to the term ignoring case, and no unmarked piece contains the term |
| HighlightCell.HighlightOfString | src/components/data-table/data-table-highlight-cell.tsx:13-38 | for a non-empty string and term, the rendered pieces are the marked pieces of the split by the unescaped term |
| HighlightCell.DotSplit | src/components/data-table/data-table-highlight-cell.tsx:23 | "xA.By" splits around "a.b" into "x", "A.B" and "y" |
| HighlightCell.DotMatchesItself | src/components/data-table/data-table-highlight-cell.tsx:22-28 | the term "a.b" marks "A.B" in "xA.By" |
| HighlightCell.DotIsNoWildcard | src/components/data-table/data-table-highlight-cell.tsx:22-28 | the term "a.b" marks nothing in "aXb" |
| Export.Lookup | src/lib/export.ts:32 | a property is absent iff its key is not among the record's keys |
| Export.Assign | src/lib/export.ts:32 | assigning an existing key keeps the key order; a new key is appended |
| Export.AssignLookup | src/lib/export.ts:32 | after an assignment the key holds the new value and every other key is unchanged |
| Export.AssignKeepsUnique | src/lib/export.ts:32 | assignment keeps keys unique |
| Export.HeaderKeyRule | src/lib/export.ts:27-30 | the key is the id for a function header, the header string when non-empty, and the id otherwise |
| Export.RowRecordUnique | src/lib/export.ts:21-34 | a row's record never holds a key twice |
| Export.RowRecordKeys | src/lib/export.ts:23-32 | a key is present iff some cell of a non-excluded column has it, so excluded columns never contribute |
| Export.RowRecordKeysStep | src/lib/export.ts:25-32 | the last cell adds its key to the record unless its column is excluded, and removes none |
| Export.RowRecordLastWrite | src/lib/export.ts:23-32 | a present key holds the value of the last non-excluded cell with that key |
| Export.BuildRowData | src/lib/export.ts:22-34 | the `forEach` loop builds the row's record as specified |
| Export.BuildData | src/lib/export.ts:21-35 | the `map` loop builds exactly one record per exported row, in row order |
| Export.ExportRecordsSnoc | src/lib/export.ts:21-35 | the records of one more row are the records so far followed by that row's record |
| Export.ExportRecords | src/lib/export.ts:21-35 | one record per row, each the row's record |
| Export.SelectedRows | src/lib/export.ts:17-18 | the selected rows are exactly the filtered rows that are selected, in the filtered rows' order (a subsequence) |
| Export.SelectedRowsOverAppend | src/lib/export.ts:17-18 | the selection distributes over concatenation, so each selected row keeps its place and its number of occurrences |
| Export.ExportRowsSelection | src/lib/export.ts:17-19 | rows are the selected filtered rows when `onlySelected`, all filtered rows otherwise |
| Export.MaxWidthFrom | src/lib/export.ts:80-83 | the width is at least 10, at least every record's serialised length, and equal to 10 or one of them |
| Export.MaxWidthIsLeastBound | src/lib/export.ts:80-83 | the width is at most any bound that is at least 10 and every length |
| Export.WithDefaults | src/lib/export.ts:7-15 | a given option is used as given |
| Export.Defaults | src/lib/export.ts:8-10 | the defaults are filename "export", exclusion ["select", "actions"] and onlySelected false |
| Export.ExportTableToCSV | src/lib/export.ts:5-41 | the CSV export's sheet, records, lack of width, and name `filename.csv` |
| Export.ExportTableToXLSX | src/lib/export.ts:43-87 | the XLSX export's sheet, records, width and name `filename.xlsx` |
| Export.CsvAndXlsxAgree | src/lib/export.ts:5-87 | both exports hold the same records; only the XLSX one sets a width of at least 10; the default names are export.csv and export.xlsx |
| Export.DefaultExclusion | src/lib/export.ts:9-32 | with the default exclusion no record holds a key that only the select or actions column writes |
| ExportOptions.DisplayColumnsAreSkipped | src/components/data-table/data-table-export-options.tsx:33 | the skipped columns are exactly `actions` and `select` |
| ExportOptions.HandleExport | src/components/data-table/data-table-export-options.tsx:25-58 | the menu export holds one record per filtered row without display columns, always sets the width, and is named `export.<type>` |
| ExportOptions.MenuMatchesLibraryDefaults | src/components/data-table/data-table-export-options.tsx:25-58 | the menu's Excel export equals `exportTableToXLSX` with its defaults; its CSV export has the same records and name as `exportTableToCSV` but also a width |
| ExportOptions.MenuExclusion | src/components/data-table/data-table-export-options.tsx:33 | skipping `actions` and `select` in the menu builds the same records as the library's default exclusion |
| ExportOptions.FileNames | src/components/data-table/data-table-export-options.tsx:57 | `export.${type}` is the library's default file name for both types |
| ExportOptions.SameExclusion | src/components/data-table/data-table-export-options.tsx:33 | two exclusion lists with the same members build the same record |
| ExportOptions.RecordKeys | src/components/data-table/data-table-export-options.tsx:30-41 | each record lists exactly the keys of its row's non-display cells |

## Left out

- Rendering: JSX, the widgets' own behaviour, dnd-kit sensors, popovers, tooltips, styling and ARIA text are UI only.
- TanStack Table itself is not modelled: how the column filters are combined, row models, `setSorting`, `pin`, `toggleVisibility`, `resetColumnOrder` and `handleReset`. The filtered and selected row lists are inputs.
- The filter list, the sort list, the query-string synchroniser and the debounce timers are imported modules that are not part of this model.
- XLSX `json_to_sheet`, `book_new` and `writeFile` just write files. The model stops at the workbook content that is passed to them.
- `JSON.stringify(r).length` for the XLSX width is a parameter `len` of the width fold.
- How the host prints a non-integer number, prints a valid date, reads a string as a number and parses a date string are fields of `Runtime`. `toISOString` is a parameter `iso` of the header's date values.
- Local time zones and daylight saving are not modelled: days are fixed UTC blocks of 86 400 000 ms.
- Non-ASCII case mapping: `toLowerCase` and the regex `i` flag map only `A`–`Z`.
- Property order of a JS object puts integer-like keys first. The record model keeps plain insertion order.
- Export.Assign: treats `"__proto__"` as an ordinary key. In JavaScript, `rowData["__proto__"] = v` sets the prototype and creates no own property, so such a header would not be exported.
- Negative zero: `Num` has no −0. `String(-0)` is `"0"`, and every comparison and truthiness test in this core treats −0 as 0, so no result depends on it.
- The filter function that the product's columns register is not in the modelled files. The model assumes `filterFns.advanced` wherever the header menu's raw values are evaluated.
- `new Date()` in the range calendar's default selection is the clock reading `now`, a parameter.
- The identity updates are not modelled: the text input's `onChange`, the boolean select's `onValueChange`, the faceted select's `onValueChange` and the text reset of the header menu all pass a value through unchanged.
- ViewOptions.DataTableViewOptions.HandleDragEnd: requires a non-empty local order when a move happens. dnd-kit reports only ids of the listed items, so an empty list never produces a drag. JavaScript would insert `undefined`.
- ViewOptions.SpliceOut: requires a start below the list's length. JavaScript's `splice(len, 1)` removes nothing, but the only caller passes an `indexOf` result, which is at most the last index.
- The drag ids are taken to be strings (`active.id as string`); numeric dnd-kit ids are not modelled.
- `FilterInput.DatePickerFor` returns the label as instants; `formatDate` output is not modelled.

## Findings

| source | as written | input that shows it | evidently intended | confidence | as-written member | corrected member |
|---|---|---|---|---|---|---|
| src/lib/filter-fns.ts:132-141 | `gte` tests `isAfter(date, startOfDay(f))` and `lte` tests `isBefore(date, endOfDay(f))`, both strict | a row dated exactly at the start of the operand's day, such as a date-only value read as midnight, passes `eq` but fails `gte`; a row at 23:59:59.999 of that day passes `eq` but fails `lte` | "on or after" and "on or before" include the whole day, as the `isBetween` branch does with its `isSameDay` disjuncts | not executed | FilterFns.GteMissesStartOfDay | FilterFns.CorrectedDateOrder |

`FilterFns.Matches` models the evaluator as written. The corrected date switch is
`FilterFns.CorrectedDateCompare`, with `FilterFns.CorrectedDateMatches` as its evaluator branch.
It differs only in `lte` and `gte`. `FilterFns.CorrectedIsInclusive` and
`FilterFns.CorrectedKeepsBoundaries` prove the intended inclusive behaviour of the corrected switch.
`FilterFns.EvaluatorAgreesAwayFromBoundaries` shows that the two boundary instants are the only rows where the as-written switch disagrees with it.
