/**
 * `DataTableFilterInput`: which value widget a filter row shows for its
 * operator, variant and operand, how a date operand is normalised for the
 * date picker, and the values the calendars write back.
 */
module FilterInput {
  import opened JsValues
  import opened DayTime
  import opened FilterModel
  import opened FilterFns
  import ColumnHeader

  /** The date picker's button text; `formatDate` on these instants is not modelled. */
  datatype DateLabel = RangeLabel(from: Instant, to: Instant) | DayLabel(day: Instant) | PickADate

  /** The calendar inside the popover and what it shows as selected. */
  datatype Calendar = RangeCalendar(from: Instant, to: Instant) | SingleCalendar(selected: Option<Instant>)

  datatype Widget =
    | EmptinessStatus(isEmpty: bool)                      // the value-less status box
    | RangeFilter                                         // `DataTableRangeFilter`
    | TextBox(numeric: bool, defaultValue: Option<string>) // `Input`, `type="number"` when numeric
    | BooleanSelect(value: Value)
    | FacetedSelect(multiple: bool, selected: Value)
    | DatePicker(caption: DateLabel, calendar: Calendar)
    | Nothing                                             // `null`

  /** `xs.filter(Boolean)`. */
  function TruthyEntries(xs: seq<Value>): (r: seq<Value>)
    ensures |r| <= |xs|
    ensures forall x :: x in r <==> x in xs && Truthy(x)
  {
    if xs == [] then []
    else
      var rest := TruthyEntries(xs[1..]);
      assert forall x :: x in xs <==> x == xs[0] || x in xs[1..];
      if Truthy(xs[0]) then [xs[0]] + rest else rest
  }

  /** `dateValue`: an array operand without its falsy entries, a scalar one as `[v, v]` without them. */
  function DateEntries(value: Value): (r: seq<Value>)
    ensures forall x | x in r :: Truthy(x)
    ensures !value.JArray? ==> r == (if Truthy(value) then [value, value] else [])
  {
    if value.JArray? then TruthyEntries(value.items)
    else
      var pair := [value, value];
      assert pair[1..] == [value] && pair[1..][1..] == [];
      assert TruthyEntries(pair[1..]) == if Truthy(value) then [value] else [];
      TruthyEntries(pair)
  }

  /** `startDate.toDateString() === endDate.toDateString()`: two Invalid Dates print alike; valid ones print their day. */
  predicate SameDateString(a: Instant, b: Instant)
  {
    (a.Invalid? && b.Invalid?) || (a.At? && b.At? && SameDayMs(a.ms, b.ms))
  }

  /** `startDate` and `endDate`: `new Date(Number(dateValue[i]))` when that entry is truthy. */
  function EntryDate(rt: Runtime, dateValue: seq<Value>, i: nat): Option<Instant>
  {
    if i < |dateValue| && Truthy(dateValue[i]) then Some(OperandInstant(rt, dateValue[i])) else None
  }

  /** The date and dateRange widget; `now` is the clock reading `new Date()` takes. */
  function DatePickerFor(rt: Runtime, op: Operator, value: Value, now: int): Widget
  {
    var dateValue := DateEntries(value);
    var startDate := EntryDate(rt, dateValue, 0);
    var endDate := EntryDate(rt, dateValue, 1);
    var isSameDate := startDate.Some? && endDate.Some? && SameDateString(startDate.value, endDate.value);
    var caption :=
      if op == IsBetween && |dateValue| == 2 && !isSameDate && startDate.Some? && endDate.Some?
      then RangeLabel(startDate.value, endDate.value)
      else if startDate.Some? then DayLabel(startDate.value)
      else PickADate;
    var calendar :=
      if op == IsBetween then
        if |dateValue| == 2 then RangeCalendar(OperandInstant(rt, dateValue[0]), OperandInstant(rt, dateValue[1]))
        else RangeCalendar(At(now), At(now))
      else SingleCalendar(startDate);
    DatePicker(caption, calendar)
  }

  /** `selectedValues`: an array (or `[]`) for multiSelect, a string (or `undefined`) for select. */
  function SelectedValues(value: Value, multiple: bool): Value
  {
    if multiple then (if value.JArray? then value else JArray([]))
    else if value.JString? then value else JUndefined
  }

  /** The component's dispatch. */
  function Resolve(rt: Runtime, op: Operator, value: Value, variant: Variant, now: int): Widget
  {
    if op == IsEmpty || op == IsNotEmpty then EmptinessStatus(op == IsEmpty)
    else
      match variant
      case Text | Number | Range =>
        if (variant == Range && op == IsBetween) || op == IsBetween then RangeFilter
        else TextBox(variant == Number || variant == Range, if value.JString? then Some(value.s) else None)
      case Boolean => if value.JArray? then Nothing else BooleanSelect(value)
      case Select | MultiSelect =>
        var multiple := variant == MultiSelect;
        FacetedSelect(multiple, SelectedValues(value, multiple))
      case Date | DateRange => DatePickerFor(rt, op, value, now)
      case OtherVariant(_) => Nothing
  }

  // ---------------------------------------------------------------------
  // Properties of the dispatch
  // ---------------------------------------------------------------------

  /** The emptiness operators show the status box whatever the variant and operand. */
  lemma EmptinessShowsStatus(rt: Runtime, op: Operator, value: Value, variant: Variant, now: int)
    requires IsEmptinessOperator(op)
    ensures Resolve(rt, op, value, variant, now) == EmptinessStatus(op == IsEmpty)
  {
  }

  /**
   * Text, number and range: `isBetween` gets the range filter; any other
   * operator an input that is numeric iff the variant is not text and that
   * starts from the operand only when it is a string.
   */
  lemma TextLikeWidgets(rt: Runtime, op: Operator, value: Value, variant: Variant, now: int)
    requires variant == Text || variant == Number || variant == Range
    requires !IsEmptinessOperator(op)
    ensures var w := Resolve(rt, op, value, variant, now);
            (w == RangeFilter <==> op == IsBetween)
            && (op != IsBetween ==>
                  (w.TextBox? && (w.numeric <==> variant != Text)
                   && (forall s :: w.defaultValue == Some(s) <==> value == JString(s))))
  {
  }

  /** Boolean: nothing for an array operand, the select otherwise. */
  lemma BooleanWidget(rt: Runtime, op: Operator, value: Value, now: int)
    requires !IsEmptinessOperator(op)
    ensures var w := Resolve(rt, op, value, Boolean, now);
            (w == Nothing <==> value.JArray?) && (!value.JArray? ==> w == BooleanSelect(value))
  {
  }

  /**
   * Select renders single and multiSelect multiple; the selection is the
   * array operand (or `[]`) when multiple, the string operand (or
   * `undefined`) when single.
   */
  lemma SelectWidget(rt: Runtime, op: Operator, value: Value, variant: Variant, now: int)
    requires IsSelectVariant(variant) && !IsEmptinessOperator(op)
    ensures var w := Resolve(rt, op, value, variant, now);
            w.FacetedSelect? && (w.multiple <==> variant == MultiSelect)
            && (w.multiple ==> w.selected.JArray? && (value.JArray? ==> w.selected == value)
                               && (!value.JArray? ==> w.selected.items == []))
            && (!w.multiple ==> (value.JString? ==> w.selected == value)
                                && (!value.JString? ==> w.selected == JUndefined))
  {
  }

  /** An unrecognised variant renders nothing. */
  lemma UnknownVariantRendersNothing(rt: Runtime, op: Operator, value: Value, name: string, now: int)
    requires !IsEmptinessOperator(op)
    ensures Resolve(rt, op, value, OtherVariant(name), now) == Nothing
  {
  }

  // ---------------------------------------------------------------------
  // Date operands
  // ---------------------------------------------------------------------

  /** An array operand keeps its truthy entries, in order. */
  lemma {:induction false} TruthyEntriesKeepOrder(xs: seq<Value>)
    ensures |xs| > 0 && Truthy(xs[0]) ==> TruthyEntries(xs) == [xs[0]] + TruthyEntries(xs[1..])
    ensures (forall i | 0 <= i < |xs| :: Truthy(xs[i])) ==> TruthyEntries(xs) == xs
  {
    if xs != [] {
      TruthyEntriesKeepOrder(xs[1..]);
    }
  }

  /**
   * The range label appears exactly for `isBetween` over two entries whose
   * dates print as different days.
   */
  lemma RangeLabelOnlyForDistinctDays(rt: Runtime, op: Operator, value: Value, now: int)
    ensures var w := DatePickerFor(rt, op, value, now);
            var dv := DateEntries(value);
            w.caption.RangeLabel? <==>
              op == IsBetween && |dv| == 2
              && !SameDateString(OperandInstant(rt, dv[0]), OperandInstant(rt, dv[1]))
    ensures var w := DatePickerFor(rt, op, value, now);
            w.caption == PickADate <==> DateEntries(value) == []
  {
  }

  /**
   * The date the picker shows first is the evaluator's `filterDate` as soon
   * as the operand is a scalar or an array whose first entry is truthy.
   */
  lemma PickerStartIsFilterDate(rt: Runtime, value: Value)
    requires !value.JArray? || (|value.items| > 0 && Truthy(value.items[0]))
    ensures EntryDate(rt, DateEntries(value), 0) == OperandDates(rt, value).start
  {
    if value.JArray? {
      TruthyEntriesKeepOrder(value.items);
    }
  }

  /**
   * With a falsy first entry they part: `["", "5"]` shows a date in the
   * picker while the evaluator has no `filterDate` and so passes every row.
   */
  lemma PickerShowsIgnoredEnd(rt: Runtime)
    requires rt.parseNumber("5") == Finite(5.0)
    ensures EntryDate(rt, DateEntries(JArray([JString(""), JString("5")])), 0) == Some(At(5))
    ensures OperandDates(rt, JArray([JString(""), JString("5")])).start == None
  {
    assert DateEntries(JArray([JString(""), JString("5")])) == [JString("5")];
  }

  // ---------------------------------------------------------------------
  // What the calendars write back
  // ---------------------------------------------------------------------

  /** `(ms ?? "").toString()`. */
  function MsText(ms: Option<int>): string
  {
    if ms.Some? then IntText(ms.value) else ""
  }

  /** The range calendar's `onSelect`: `[from, to]` as strings, `[]` when cleared. */
  function RangeSelectValue(date: Option<ColumnHeader.CalendarRange>): (v: Value)
    ensures date.None? ==> v == JArray([])
    ensures date.Some? ==> v.JArray? && |v.items| == 2
  {
    if date.Some? then JArray([JString(MsText(date.value.from)), JString(MsText(date.value.to))])
    else JArray([])
  }

  /** The single calendar's `onSelect`: the time value as a string, `""` when cleared. */
  function SingleSelectValue(date: Option<int>): (v: Value)
    ensures v.JString? && (v.s == "" <==> date.None?)
  {
    JString(MsText(date))
  }

  predicate ValidTime(ms: int)
  {
    -MaxTime <= ms <= MaxTime
  }

  lemma MsTextOperand(rt: Runtime, ms: int)
    requires ReadsDecimalTimes(rt) && ValidTime(ms)
    ensures Truthy(JString(IntText(ms)))
    ensures OperandInstant(rt, JString(IntText(ms))) == At(ms)
  {
    assert rt.parseNumber(IntText(ms)) == Finite(ms as real);
  }

  /** A chosen range reads back as the two instants, and the evaluator's `isBetween` is then the inclusive day range. */
  lemma RangeSelectionRoundTrip(rt: Runtime, a: int, b: int, rowValue: Value, variant: Variant)
    requires ReadsDecimalTimes(rt) && ValidTime(a) && ValidTime(b)
    requires IsDateVariant(variant) && IsPresent(rowValue) && ToDate(rt, rowValue).At?
    ensures var v := RangeSelectValue(Some(ColumnHeader.CalendarRange(Some(a), Some(b))));
            OperandDates(rt, v) == DateOperands(Some(At(a)), Some(At(b)))
            && (Matches(rt, rowValue, Descriptor(IsBetween, v, variant))
                <==> DayStart(a) <= ToDate(rt, rowValue).ms <= DayEnd(b))
  {
    MsTextOperand(rt, a);
    MsTextOperand(rt, b);
    var v := RangeSelectValue(Some(ColumnHeader.CalendarRange(Some(a), Some(b))));
    DateBetweenIsInclusive(rt, rowValue, v, variant, a, b);
  }

  /** A cleared range, or one with a missing end, filters nothing out. */
  lemma PartialRangePassesAll(rt: Runtime, date: Option<ColumnHeader.CalendarRange>, rowValue: Value, variant: Variant)
    requires date.None? || date.value.from.None? || date.value.to.None?
    requires IsDateVariant(variant) && IsPresent(rowValue) && ToDate(rt, rowValue).At?
    ensures Matches(rt, rowValue, Descriptor(IsBetween, RangeSelectValue(date), variant))
  {
  }

  /** A chosen day reads back as that instant, and `eq` then keeps exactly the rows on that day. */
  lemma SingleSelectionRoundTrip(rt: Runtime, ms: int, rowValue: Value, variant: Variant)
    requires ReadsDecimalTimes(rt) && ValidTime(ms)
    requires IsDateVariant(variant) && IsPresent(rowValue) && ToDate(rt, rowValue).At?
    ensures OperandDates(rt, SingleSelectValue(Some(ms))).start == Some(At(ms))
    ensures Matches(rt, rowValue, Descriptor(Eq, SingleSelectValue(Some(ms)), variant))
            <==> DayStart(ms) <= ToDate(rt, rowValue).ms <= DayEnd(ms)
  {
    MsTextOperand(rt, ms);
    SameDayIffWithin(ToDate(rt, rowValue).ms, ms);
  }

  /** After a range is chosen the picker shows it back: both ends in the calendar, one day or the range on the button. */
  lemma RangeSelectionShowsBack(rt: Runtime, a: int, b: int, now: int)
    requires ReadsDecimalTimes(rt) && ValidTime(a) && ValidTime(b)
    ensures var v := RangeSelectValue(Some(ColumnHeader.CalendarRange(Some(a), Some(b))));
            DatePickerFor(rt, IsBetween, v, now)
            == DatePicker(if SameDayMs(a, b) then DayLabel(At(a)) else RangeLabel(At(a), At(b)),
                          RangeCalendar(At(a), At(b)))
  {
    MsTextOperand(rt, a);
    MsTextOperand(rt, b);
    var v := RangeSelectValue(Some(ColumnHeader.CalendarRange(Some(a), Some(b))));
    TruthyEntriesKeepOrder(v.items);
    TruthyEntriesKeepOrder(v.items[1..]);
    assert DateEntries(v) == v.items;
  }

  /** After a day is chosen the picker shows that day, on the button and in the calendar. */
  lemma SingleSelectionShowsBack(rt: Runtime, ms: int, op: Operator, now: int)
    requires ReadsDecimalTimes(rt) && ValidTime(ms) && op != IsBetween
    ensures DatePickerFor(rt, op, SingleSelectValue(Some(ms)), now)
            == DatePicker(DayLabel(At(ms)), SingleCalendar(Some(At(ms))))
  {
    MsTextOperand(rt, ms);
  }
}
