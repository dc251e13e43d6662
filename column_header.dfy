/**
 * The column header menu: sorting updates, the header label, the filter
 * values the menu stores with `column.setFilterValue`, and the resizer's
 * memo comparator.
 */
module ColumnHeader {
  import opened JsValues
  import opened FilterModel
  import opened Columns
  import FilterFns

  // ---------------------------------------------------------------------
  // Sorting
  // ---------------------------------------------------------------------

  datatype SortDirection = Asc | Desc

  /** A TanStack `ColumnSort`. */
  datatype ColumnSort = ColumnSort(id: string, desc: bool)

  predicate HasSort(sorts: seq<ColumnSort>, id: string)
  {
    exists k | 0 <= k < |sorts| :: sorts[k].id == id
  }

  predicate UniqueSortIds(sorts: seq<ColumnSort>)
  {
    forall i, j | 0 <= i < j < |sorts| :: sorts[i].id != sorts[j].id
  }

  /** `prev.findIndex((sort) => sort.id === id)`. */
  function FindSortIndex(sorts: seq<ColumnSort>, id: string): (i: int)
    ensures -1 <= i < |sorts|
    ensures i < 0 <==> !HasSort(sorts, id)
    ensures i >= 0 ==> sorts[i].id == id && forall k | 0 <= k < i :: sorts[k].id != id
  {
    if sorts == [] then -1
    else if sorts[0].id == id then 0
    else
      var j := FindSortIndex(sorts[1..], id);
      if j < 0 then
        assert forall k | 1 <= k < |sorts| :: sorts[k] == sorts[1..][k - 1];
        -1
      else j + 1
  }

  /**
   * The updater `onSortingChange(direction)` passes to `table.setSorting`: the
   * entry for this column is overwritten in place when present, appended otherwise.
   */
  function OnSortingChange(prev: seq<ColumnSort>, columnId: string, direction: SortDirection): (next: seq<ColumnSort>)
    ensures HasSort(prev, columnId) ==> |next| == |prev|
    ensures HasSort(prev, columnId) ==>
              next[FindSortIndex(prev, columnId)] == ColumnSort(columnId, direction == Desc)
    ensures !HasSort(prev, columnId) ==> next == prev + [ColumnSort(columnId, direction == Desc)]
    ensures forall k | 0 <= k < |prev| && prev[k].id != columnId :: next[k] == prev[k]
  {
    var existingSortIndex := FindSortIndex(prev, columnId);
    var newSort := ColumnSort(columnId, direction == Desc);
    if existingSortIndex >= 0 then prev[existingSortIndex := newSort]
    else prev + [newSort]
  }

  /** The updater of `onSortRemove`: `prev.filter((sort) => sort.id !== columnId)`. */
  function OnSortRemove(prev: seq<ColumnSort>, columnId: string): (next: seq<ColumnSort>)
    ensures |next| <= |prev|
    ensures forall s :: s in next <==> s in prev && s.id != columnId
    ensures !HasSort(next, columnId)
  {
    if prev == [] then []
    else
      var rest := OnSortRemove(prev[1..], columnId);
      assert forall s :: s in prev <==> s == prev[0] || s in prev[1..];
      if prev[0].id != columnId then [prev[0]] + rest else rest
  }

  lemma RemoveOverAppend(xs: seq<ColumnSort>, ys: seq<ColumnSort>, columnId: string)
    ensures OnSortRemove(xs + ys, columnId) == OnSortRemove(xs, columnId) + OnSortRemove(ys, columnId)
  {
    if xs == [] {
      assert xs + ys == ys;
    } else {
      assert (xs + ys)[1..] == xs[1..] + ys;
      RemoveOverAppend(xs[1..], ys, columnId);
    }
  }

  /** Overwriting an entry of the column by another entry of the column is invisible once the column is removed. */
  lemma RemoveIgnoresOverwrite(xs: seq<ColumnSort>, i: int, s: ColumnSort, columnId: string)
    requires 0 <= i < |xs| && xs[i].id == columnId && s.id == columnId
    ensures OnSortRemove(xs[i := s], columnId) == OnSortRemove(xs, columnId)
  {
    assert xs == xs[..i] + [xs[i]] + xs[i + 1..];
    assert xs[i := s] == xs[..i] + [s] + xs[i + 1..];
    RemoveOverAppend(xs[..i] + [xs[i]], xs[i + 1..], columnId);
    RemoveOverAppend(xs[..i], [xs[i]], columnId);
    RemoveOverAppend(xs[..i] + [s], xs[i + 1..], columnId);
    RemoveOverAppend(xs[..i], [s], columnId);
  }

  /** Every other entry is untouched and keeps its order: removing the column afterwards gives what removing it before gives. */
  lemma SortingChangeKeepsOthers(prev: seq<ColumnSort>, columnId: string, direction: SortDirection)
    ensures OnSortRemove(OnSortingChange(prev, columnId, direction), columnId) == OnSortRemove(prev, columnId)
  {
    var newSort := ColumnSort(columnId, direction == Desc);
    if HasSort(prev, columnId) {
      RemoveIgnoresOverwrite(prev, FindSortIndex(prev, columnId), newSort, columnId);
    } else {
      RemoveOverAppend(prev, [newSort], columnId);
    }
  }

  /** With unique ids before, ids stay unique, and the column's one entry carries the chosen direction. */
  lemma SortingChangeKeepsUnique(prev: seq<ColumnSort>, columnId: string, direction: SortDirection)
    requires UniqueSortIds(prev)
    ensures var next := OnSortingChange(prev, columnId, direction);
            UniqueSortIds(next) && HasSort(next, columnId)
            && forall k | 0 <= k < |next| && next[k].id == columnId :: next[k].desc == (direction == Desc)
  {
    var next := OnSortingChange(prev, columnId, direction);
    if HasSort(prev, columnId) {
      var i := FindSortIndex(prev, columnId);
      assert forall k | 0 <= k < |next| && k != i :: next[k] == prev[k];
    } else {
      assert next[|prev|].id == columnId;
    }
  }

  /** Removing a sort keeps unique ids unique. */
  lemma SortRemoveKeepsUnique(prev: seq<ColumnSort>, columnId: string)
    requires UniqueSortIds(prev)
    ensures UniqueSortIds(OnSortRemove(prev, columnId))
  {
    if prev != [] {
      assert UniqueSortIds(prev[1..]);
      SortRemoveKeepsUnique(prev[1..], columnId);
      var rest := OnSortRemove(prev[1..], columnId);
      if prev[0].id != columnId {
        assert forall s | s in rest :: s in prev[1..];
        assert forall k | 0 <= k < |rest| :: rest[k].id != prev[0].id;
        assert forall k | 1 <= k < |[prev[0]] + rest| :: ([prev[0]] + rest)[k] == rest[k - 1];
      }
    }
  }

  // ---------------------------------------------------------------------
  // Label and filter variant
  // ---------------------------------------------------------------------

  /** The header label: a truthy `meta.label`, else a string `header`, else the column id. */
  function HeaderLabel(c: Column): (text: string)
    ensures c.def.meta.labelText.Some? && c.def.meta.labelText.value != "" ==> text == c.def.meta.labelText.value
    ensures (c.def.meta.labelText.None? || c.def.meta.labelText.value == "") && c.def.header.HeaderText?
            ==> text == c.def.header.text
    ensures (c.def.meta.labelText.None? || c.def.meta.labelText.value == "") && !c.def.header.HeaderText?
            ==> text == c.id
  {
    if c.def.meta.labelText.Some? && c.def.meta.labelText.value != "" then c.def.meta.labelText.value
    else if c.def.header.HeaderText? then c.def.header.text
    else c.id
  }

  /** `column.columnDef.meta?.variant ?? "text"`. */
  function FilterVariant(c: Column): (v: Variant)
    ensures c.def.meta.variant.None? ==> v == Text
    ensures c.def.meta.variant.Some? ==> v == c.def.meta.variant.value
  {
    if c.def.meta.variant.Some? then c.def.meta.variant.value else Text
  }

  // ---------------------------------------------------------------------
  // Filter values stored by the header menu
  // ---------------------------------------------------------------------

  /** `current.filter((v) => v !== option)`. */
  function WithoutOption(current: seq<Value>, option: string): (r: seq<Value>)
    ensures |r| <= |current|
    ensures forall v :: v in r <==> v in current && v != JString(option)
  {
    if current == [] then []
    else
      var rest := WithoutOption(current[1..], option);
      assert forall v :: v in current <==> v == current[0] || v in current[1..];
      if current[0] != JString(option) then [current[0]] + rest else rest
  }

  lemma WithoutAbsentOption(current: seq<Value>, option: string)
    requires JString(option) !in current
    ensures WithoutOption(current, option) == current
  {
    if current != [] {
      WithoutAbsentOption(current[1..], option);
    }
  }

  lemma WithoutOverAppend(xs: seq<Value>, ys: seq<Value>, option: string)
    ensures WithoutOption(xs + ys, option) == WithoutOption(xs, option) + WithoutOption(ys, option)
  {
    if xs == [] {
      assert xs + ys == ys;
    } else {
      assert (xs + ys)[1..] == xs[1..] + ys;
      WithoutOverAppend(xs[1..], ys, option);
    }
  }

  /** The multi-select toggle: an absent option is appended, a present one removed; an empty list is stored as `undefined`. */
  function ToggleMulti(value: Value, option: string): (next: Value)
    ensures next != JArray([])
    ensures next.JUndefined? || next.JArray?
    ensures var current := if value.JArray? then value.items else [];
            JString(option) !in current ==> next == JArray(current + [JString(option)])
    ensures var current := if value.JArray? then value.items else [];
            JString(option) in current ==>
              forall v :: (next.JArray? && v in next.items) <==> v in current && v != JString(option)
  {
    var current := if value.JArray? then value.items else [];
    var next := if JString(option) in current then WithoutOption(current, option) else current + [JString(option)];
    if |next| > 0 then JArray(next) else JUndefined
  }

  /** The single-select toggle: choosing the selected option clears the value, any other option becomes the value. */
  function ToggleSingle(value: Value, option: string): (next: Value)
    ensures next == JUndefined <==> value == JString(option)
    ensures next != JUndefined ==> next == JString(option)
  {
    if value == JString(option) then JUndefined else JString(option)
  }

  /** Whether an option shows as checked. */
  predicate IsOptionSelected(value: Value, option: string, isMulti: bool)
  {
    if isMulti then value.JArray? && JString(option) in value.items
    else value == JString(option)
  }

  /** Choosing an option flips its checked state, for both kinds of select. */
  lemma ToggleFlipsSelection(value: Value, option: string)
    ensures IsOptionSelected(ToggleMulti(value, option), option, true) == !IsOptionSelected(value, option, true)
    ensures IsOptionSelected(ToggleSingle(value, option), option, false) == !IsOptionSelected(value, option, false)
  {
    var current := if value.JArray? then value.items else [];
    assert JString(option) in current + [JString(option)];
  }

  /** Choosing the same option twice restores a stored value (an empty selection is stored as `undefined`). */
  lemma ToggleTwiceRestores(value: Value, option: string)
    requires value == JUndefined || (value.JArray? && value.items != [] && JString(option) !in value.items)
    ensures ToggleMulti(ToggleMulti(value, option), option) == value
    ensures ToggleSingle(ToggleSingle(JUndefined, option), option) == JUndefined
  {
    var current := if value.JArray? then value.items else [];
    var once := current + [JString(option)];
    assert ToggleMulti(value, option) == JArray(once);
    assert JString(option) in once;
    WithoutOverAppend(current, [JString(option)], option);
    WithoutAbsentOption(current, option);
    assert WithoutOption([JString(option)], option) == [];
    assert WithoutOption(once, option) == current;
  }

  /** The single calendar stores a picked date as `[iso, iso]` and a cleared one as `undefined`. */
  function SingleDateValue(selected: Option<int>, iso: int -> string): (next: Value)
    ensures selected.None? <==> next == JUndefined
    ensures selected.Some? ==> next.JArray? && |next.items| == 2 && next.items[0] == next.items[1]
                               && next.items[0] == JString(iso(selected.value))
  {
    if selected.Some? then
      var s := iso(selected.value);
      JArray([JString(s), JString(s)])
    else JUndefined
  }

  /** The single calendar's `selected`: `new Date(value[0])` when the value is an array with a truthy first entry. */
  function SingleCalendarSelected(rt: Runtime, value: Value): Option<Instant>
  {
    if value.JArray? && |value.items| > 0 && Truthy(value.items[0]) then Some(ToDate(rt, value.items[0]))
    else None
  }

  /**
   * Round trip with the calendar: when the host parses the ISO text of the
   * picked instant back to it, the calendar shows the picked date again, and
   * nothing once the date is cleared.
   */
  lemma SingleDateShowsBack(rt: Runtime, selected: Option<int>, iso: int -> string)
    requires selected.Some? ==> iso(selected.value) != "" && rt.parseDate(iso(selected.value)) == At(selected.value)
    ensures SingleCalendarSelected(rt, SingleDateValue(selected, iso))
            == if selected.Some? then Some(At(selected.value)) else None
  {
  }

  /**
   * The evaluator reads the stored pair through its fallback: `String([iso, iso])`
   * is `"iso,iso"`, so a row passes only when its string form contains that
   * text, ignoring case, rather than when it falls on the picked day.
   */
  lemma HeaderSingleDateIsSubstringTest(rt: Runtime, rowValue: Value, t: int, iso: int -> string)
    ensures FilterFns.Matches(rt, rowValue, Raw(SingleDateValue(Some(t), iso)))
            <==> Contains(Lower(ToStr(rt, rowValue)), Lower(iso(t) + "," + iso(t)))
  {
    var s := iso(t);
    var v := JArray([JString(s), JString(s)]);
    assert ToStr(rt, v) == s + "," + s by {
      var parts := seq(|v.items|, i requires 0 <= i < |v.items| =>
        if v.items[i].JNull? || v.items[i].JUndefined? then "" else ToStr(rt, v.items[i]));
      assert parts == [s, s];
      assert JoinWith(",", [s, s]) == s + "," + JoinWith(",", [s]);
    }
    FilterFns.RawValueIsSubstringTest(rt, rowValue, v);
  }

  /** A range the calendar reports, with either end possibly missing. */
  datatype CalendarRange = CalendarRange(from: Option<int>, to: Option<int>)

  /** The range calendar stores `[fromIso, toIso]` with "" for a missing end, or `undefined` when both ends are "". */
  function RangeDateValue(selected: Option<CalendarRange>, iso: int -> string): Value
  {
    if selected.Some? then
      var range := selected.value;
      var newValue := [if range.from.Some? then iso(range.from.value) else "",
                       if range.to.Some? then iso(range.to.value) else ""];
      if newValue[0] == "" && newValue[1] == "" then JUndefined
      else JArray([JString(newValue[0]), JString(newValue[1])])
    else JUndefined
  }

  /** Since an ISO string is never empty, the stored range is `undefined` exactly when the selection is cleared or has no end at all. */
  lemma RangeDateValueClears(selected: Option<CalendarRange>, iso: int -> string)
    requires forall t: int :: iso(t) != ""
    ensures RangeDateValue(selected, iso) == JUndefined
            <==> selected.None? || (selected.value.from.None? && selected.value.to.None?)
    ensures RangeDateValue(selected, iso) != JUndefined ==>
              RangeDateValue(selected, iso) == JArray([
                JString(if selected.value.from.Some? then iso(selected.value.from.value) else ""),
                JString(if selected.value.to.Some? then iso(selected.value.to.value) else "")])
  {
    if selected.Some? {
      var range := selected.value;
      if range.from.Some? {
        var t := range.from.value;
        assert iso(t) != "";
      }
      if range.to.Some? {
        var t := range.to.value;
        assert iso(t) != "";
      }
    }
  }

  /**
   * The menu stores raw values, so the evaluator reads them through its
   * fallback: a single-select choice keeps every row whose string form
   * contains the option, ignoring case, not only the rows equal to it.
   */
  lemma HeaderSelectIsSubstringTest(rt: Runtime, rowValue: Value, option: string)
    ensures FilterFns.Matches(rt, rowValue, Raw(ToggleSingle(JUndefined, option)))
            <==> Contains(Lower(ToStr(rt, rowValue)), Lower(option))
  {
    FilterFns.RawValueIsSubstringTest(rt, rowValue, JString(option));
  }

  // ---------------------------------------------------------------------
  // Resizer memo comparator
  // ---------------------------------------------------------------------

  /** What the resizer's comparator reads from its props. */
  datatype ResizerProps = ResizerProps(isResizing: bool, size: Num, labelText: string)

  /** The memo comparator: true (skip the re-render) iff resizing state, size and label are all equal. */
  predicate ResizerPropsEqual(prev: ResizerProps, next: ResizerProps)
  {
    if prev.isResizing != next.isResizing || !NumEq(prev.size, next.size) then false
    else if prev.labelText != next.labelText then false
    else true
  }

  /**
   * On props with a numeric size the comparator is an equivalence relation
   * that holds exactly for equal props; a NaN size is never equal to itself,
   * so such props always re-render.
   */
  lemma ResizerComparatorIsEquality(p: ResizerProps, q: ResizerProps, r: ResizerProps)
    ensures p.size != NaN ==> (ResizerPropsEqual(p, q) <==> p == q)
    ensures p.size == NaN ==> !ResizerPropsEqual(p, q)
    ensures ResizerPropsEqual(p, q) ==> ResizerPropsEqual(q, p)
    ensures ResizerPropsEqual(p, q) && ResizerPropsEqual(q, r) ==> ResizerPropsEqual(p, r)
  {
  }
}
