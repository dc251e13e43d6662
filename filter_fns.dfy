/**
 * The `advanced` column filter function: given the row's value for a column
 * and the column's filter value, decides whether the row is kept.
 */
module FilterFns {
  import opened JsValues
  import opened DayTime
  import opened FilterModel

  /** The universal `isEmpty` test: null, undefined, "" or an empty array. */
  predicate IsEmptyValue(v: Value)
  {
    v == JNull || v == JUndefined || v == JString("") || (v.JArray? && |v.items| == 0)
  }

  /** The universal `isNotEmpty` test, written out as the source does. */
  predicate IsNotEmptyValue(v: Value)
  {
    v != JNull && v != JUndefined && v != JString("") && (!v.JArray? || |v.items| > 0)
  }

  /** The text variant: both sides are lower-cased string forms. */
  function TextMatches(rt: Runtime, rowValue: Value, op: Operator, value: Value): bool
  {
    var strValue := Lower(ToStr(rt, rowValue));
    var filterStr := Lower(ToStr(rt, value));
    match op
    case ILike => Contains(strValue, filterStr)
    case NotILike => !Contains(strValue, filterStr)
    case Eq => strValue == filterStr
    case Ne => strValue != filterStr
    case _ => true
  }

  /** `value.map(Number)[i]`; a missing element reads as `Number(undefined)`, which is NaN. */
  function BoundAt(rt: Runtime, xs: seq<Value>, i: nat): Num
  {
    if i < |xs| then ToNumber(rt, xs[i]) else NaN
  }

  /** The number variant; a row value that is not a number fails every operator. */
  function NumberMatches(rt: Runtime, rowValue: Value, op: Operator, value: Value): bool
  {
    var numValue := ToNumber(rt, rowValue);
    var filterNum := ToNumber(rt, value);
    if numValue == NaN then false
    else
      match op
      case Eq => NumEq(numValue, filterNum)
      case Ne => !NumEq(numValue, filterNum)
      case Lt => NumLt(numValue, filterNum)
      case Lte => NumLe(numValue, filterNum)
      case Gt => NumLt(filterNum, numValue)
      case Gte => NumLe(filterNum, numValue)
      case IsBetween =>
        if value.JArray? then
          var min := BoundAt(rt, value.items, 0);
          var max := BoundAt(rt, value.items, 1);
          if min != NaN && max != NaN then NumLe(min, numValue) && NumLe(numValue, max) else false
        else false
      case _ => true
  }

  /** `filterDate` and `filterDateEnd`: each is absent, or a Date object (possibly an Invalid Date). */
  datatype DateOperands = DateOperands(start: Option<Instant>, end: Option<Instant>)

  /** `new Date(Number(x))`. */
  function OperandInstant(rt: Runtime, x: Value): Instant
  {
    TimeClip(ToNumber(rt, x))
  }

  function OperandDates(rt: Runtime, value: Value): DateOperands
  {
    if value.JArray? then
      var xs := value.items;
      DateOperands(
        if |xs| > 0 && Truthy(xs[0]) then Some(OperandInstant(rt, xs[0])) else None,
        if |xs| > 1 && Truthy(xs[1]) then Some(OperandInstant(rt, xs[1])) else None)
    else if Truthy(value) then DateOperands(Some(OperandInstant(rt, value)), None)
    else DateOperands(None, None)
  }

  /** The operator switch of the date branch, on a valid row date. */
  function DateCompare(dateValue: Instant, operands: DateOperands, op: Operator): bool
  {
    var filterDate := operands.start;
    var filterDateEnd := operands.end;
    match op
    case Eq => if filterDate.Some? then IsSameDay(dateValue, filterDate.value) else true
    case Ne => if filterDate.Some? then !IsSameDay(dateValue, filterDate.value) else true
    case Lt => if filterDate.Some? then IsBefore(dateValue, StartOfDay(filterDate.value)) else true
    case Lte => if filterDate.Some? then IsBefore(dateValue, EndOfDay(filterDate.value)) else true
    case Gt => if filterDate.Some? then IsAfter(dateValue, EndOfDay(filterDate.value)) else true
    case Gte => if filterDate.Some? then IsAfter(dateValue, StartOfDay(filterDate.value)) else true
    case IsBetween =>
      if filterDate.Some? && filterDateEnd.Some? then
        (IsAfter(dateValue, StartOfDay(filterDate.value)) || IsSameDay(dateValue, filterDate.value))
        && (IsBefore(dateValue, EndOfDay(filterDateEnd.value)) || IsSameDay(dateValue, filterDateEnd.value))
      else true
    case _ => true
  }

  /** The date and dateRange variants, comparing against the day boundaries of the operand dates. */
  function DateMatches(rt: Runtime, rowValue: Value, op: Operator, value: Value): bool
  {
    var dateValue := ToDate(rt, rowValue);
    if dateValue.Invalid? then false
    else DateCompare(dateValue, OperandDates(rt, value), op)
  }

  /** `filterValues.includes(s)`: strict equality with a string only holds for that same string. */
  predicate IncludesString(filterValues: seq<Value>, s: string)
  {
    JString(s) in filterValues
  }

  /** `rowValue.some((v) => filterValues.includes(String(v)))`. */
  predicate SomeItemIncluded(rt: Runtime, items: seq<Value>, filterValues: seq<Value>)
  {
    exists i | 0 <= i < |items| :: IncludesString(filterValues, ToStr(rt, items[i]))
  }

  /** The select and multiSelect variants: membership of string forms in the operand list. */
  function SelectMatches(rt: Runtime, rowValue: Value, op: Operator, value: Value): bool
  {
    var filterValues := if value.JArray? then value.items else [value];
    var rowValueStr := ToStr(rt, rowValue);
    match op
    case Eq => IncludesString(filterValues, rowValueStr)
    case Ne => !IncludesString(filterValues, rowValueStr)
    case InArray =>
      if rowValue.JArray? then SomeItemIncluded(rt, rowValue.items, filterValues)
      else IncludesString(filterValues, rowValueStr)
    case NotInArray =>
      if rowValue.JArray? then !SomeItemIncluded(rt, rowValue.items, filterValues)
      else !IncludesString(filterValues, rowValueStr)
    case _ => true
  }

  /** The boolean variant: the row's truthiness against `value === "true"`. */
  function BooleanMatches(rowValue: Value, op: Operator, value: Value): bool
  {
    var rowBool := Truthy(rowValue);
    var filterBool := value == JString("true");
    match op
    case Eq => rowBool == filterBool
    case Ne => rowBool != filterBool
    case _ => true
  }

  /** `filterFns.advanced(row, columnId, filterValue)`, with `rowValue` the row's value for the column. */
  function Matches(rt: Runtime, rowValue: Value, filterValue: FilterArg): bool
  {
    match filterValue
    case Raw(v) =>
      Contains(Lower(ToStr(rt, rowValue)), Lower(ToStr(rt, v)))
    case Descriptor(operator, value, variant) =>
      if operator == IsEmpty then IsEmptyValue(rowValue)
      else if operator == IsNotEmpty then IsNotEmptyValue(rowValue)
      else if rowValue == JNull || rowValue == JUndefined then false
      else
        match variant
        case Text => TextMatches(rt, rowValue, operator, value)
        case Number => NumberMatches(rt, rowValue, operator, value)
        case Date => DateMatches(rt, rowValue, operator, value)
        case DateRange => DateMatches(rt, rowValue, operator, value)
        case Select => SelectMatches(rt, rowValue, operator, value)
        case MultiSelect => SelectMatches(rt, rowValue, operator, value)
        case Boolean => BooleanMatches(rowValue, operator, value)
        case _ => true
  }

  predicate IsPresent(v: Value)
  {
    v != JNull && v != JUndefined
  }

  predicate IsEmptinessOperator(op: Operator)
  {
    op == IsEmpty || op == IsNotEmpty
  }

  // ---------------------------------------------------------------------
  // Emptiness and missing row values
  // ---------------------------------------------------------------------

  /** `isEmpty` holds exactly for null, undefined, "" and []; `isNotEmpty` is its exact negation, for every variant. */
  lemma EmptinessIsExact(rt: Runtime, rowValue: Value, value: Value, variant: Variant)
    ensures Matches(rt, rowValue, Descriptor(IsEmpty, value, variant))
            <==> rowValue in {JNull, JUndefined, JString(""), JArray([])}
    ensures Matches(rt, rowValue, Descriptor(IsNotEmpty, value, variant))
            == !Matches(rt, rowValue, Descriptor(IsEmpty, value, variant))
  {
    if rowValue.JArray? && |rowValue.items| == 0 {
      assert rowValue == JArray([]);
    }
  }

  /** Every other operator rejects a null or undefined row value, whatever the variant. */
  lemma MissingRowValueFails(rt: Runtime, rowValue: Value, op: Operator, value: Value, variant: Variant)
    requires !IsPresent(rowValue) && !IsEmptinessOperator(op)
    ensures !Matches(rt, rowValue, Descriptor(op, value, variant))
  {
  }

  // ---------------------------------------------------------------------
  // Text
  // ---------------------------------------------------------------------

  /** `iLike` is a case-insensitive substring test; `notILike` and `ne` are the negations of `iLike` and `eq`. */
  lemma TextOperators(rt: Runtime, rowValue: Value, value: Value)
    requires IsPresent(rowValue)
    ensures Matches(rt, rowValue, Descriptor(ILike, value, Text))
            <==> Contains(Lower(ToStr(rt, rowValue)), Lower(ToStr(rt, value)))
    ensures Matches(rt, rowValue, Descriptor(NotILike, value, Text))
            == !Matches(rt, rowValue, Descriptor(ILike, value, Text))
    ensures Matches(rt, rowValue, Descriptor(Eq, value, Text))
            <==> Lower(ToStr(rt, rowValue)) == Lower(ToStr(rt, value))
    ensures Matches(rt, rowValue, Descriptor(Ne, value, Text))
            == !Matches(rt, rowValue, Descriptor(Eq, value, Text))
  {
  }

  /** A text `eq` match is in particular an `iLike` match. */
  lemma TextEqImpliesILike(rt: Runtime, rowValue: Value, value: Value)
    requires Matches(rt, rowValue, Descriptor(Eq, value, Text))
    ensures Matches(rt, rowValue, Descriptor(ILike, value, Text))
  {
    var s := Lower(ToStr(rt, rowValue));
    assert OccursAt(s, s, 0);
  }

  /** The search "Pro" finds "Product A". */
  lemma TextILikeExample(rt: Runtime)
    ensures Matches(rt, JString("Product A"), Descriptor(ILike, JString("Pro"), Text))
  {
    assert OccursAt(Lower("Product A"), Lower("Pro"), 0);
  }

  // ---------------------------------------------------------------------
  // Number
  // ---------------------------------------------------------------------

  /** A row value that `Number` turns into NaN fails every operator but the emptiness tests. */
  lemma NonNumericRowFails(rt: Runtime, rowValue: Value, op: Operator, value: Value)
    requires ToNumber(rt, rowValue) == NaN && !IsEmptinessOperator(op)
    ensures !Matches(rt, rowValue, Descriptor(op, value, Number))
  {
  }

  /** `isBetween` is inclusive at both ends and fails when the operand is not an array or a bound is not a number. */
  lemma NumberBetween(rt: Runtime, rowValue: Value, value: Value)
    requires IsPresent(rowValue)
    ensures Matches(rt, rowValue, Descriptor(IsBetween, value, Number))
            <==> value.JArray?
                 && BoundAt(rt, value.items, 0) != NaN && BoundAt(rt, value.items, 1) != NaN
                 && NumLe(BoundAt(rt, value.items, 0), ToNumber(rt, rowValue))
                 && NumLe(ToNumber(rt, rowValue), BoundAt(rt, value.items, 1))
  {
  }

  /** With finite bounds `[lo, hi]` and a finite row value `v`, `isBetween` holds iff `lo <= v <= hi`. */
  lemma NumberBetweenFinite(rt: Runtime, v: real, lo: real, hi: real)
    ensures Matches(rt, JNumber(Finite(v)),
                    Descriptor(IsBetween, JArray([JNumber(Finite(lo)), JNumber(Finite(hi))]), Number))
            <==> lo <= v <= hi
  {
    NumberBetween(rt, JNumber(Finite(v)), JArray([JNumber(Finite(lo)), JNumber(Finite(hi))]));
  }

  /** Prices 10, 50 and 90 against `isBetween [20, 80]`: only 50 is kept. */
  lemma PriceScenario(rt: Runtime)
    ensures var f := Descriptor(IsBetween, JArray([JNumber(Finite(20.0)), JNumber(Finite(80.0))]), Number);
            !Matches(rt, JNumber(Finite(10.0)), f) && Matches(rt, JNumber(Finite(50.0)), f)
            && !Matches(rt, JNumber(Finite(90.0)), f)
  {
    NumberBetweenFinite(rt, 10.0, 20.0, 80.0);
    NumberBetweenFinite(rt, 50.0, 20.0, 80.0);
    NumberBetweenFinite(rt, 90.0, 20.0, 80.0);
  }

  // ---------------------------------------------------------------------
  // Date
  // ---------------------------------------------------------------------

  predicate IsDateVariant(variant: Variant)
  {
    variant == Date || variant == DateRange
  }

  predicate IsComparison(op: Operator)
  {
    op in {Eq, Ne, Lt, Lte, Gt, Gte}
  }

  /** A row value that is not a valid date fails every operator but the emptiness tests. */
  lemma InvalidRowDateFails(rt: Runtime, rowValue: Value, op: Operator, value: Value, variant: Variant)
    requires IsDateVariant(variant) && ToDate(rt, rowValue) == Invalid && !IsEmptinessOperator(op)
    ensures !Matches(rt, rowValue, Descriptor(op, value, variant))
  {
  }

  /** Without an operand date every comparison passes; `isBetween` passes as soon as one bound is missing. */
  lemma MissingOperandDatePasses(rt: Runtime, rowValue: Value, op: Operator, value: Value, variant: Variant)
    requires IsDateVariant(variant) && IsPresent(rowValue) && ToDate(rt, rowValue).At?
    ensures OperandDates(rt, value).start == None && IsComparison(op)
            ==> Matches(rt, rowValue, Descriptor(op, value, variant))
    ensures (OperandDates(rt, value).start == None || OperandDates(rt, value).end == None)
            ==> Matches(rt, rowValue, Descriptor(IsBetween, value, variant))
  {
  }

  /** On a date variant, every operator but the emptiness tests goes to the date branch. */
  lemma DateBranch(rt: Runtime, rowValue: Value, op: Operator, value: Value, variant: Variant)
    requires IsDateVariant(variant) && IsPresent(rowValue) && !IsEmptinessOperator(op)
    ensures Matches(rt, rowValue, Descriptor(op, value, variant)) == DateMatches(rt, rowValue, op, value)
  {
  }

  lemma DateCompareOrder(d: Instant, ops: DateOperands)
    requires d.At?
    ensures DateCompare(d, ops, Gt) ==> DateCompare(d, ops, Gte)
    ensures DateCompare(d, ops, Lt) ==> DateCompare(d, ops, Lte)
    ensures !(DateCompare(d, ops, Lt) && DateCompare(d, ops, Gte) && ops.start.Some?)
  {
    if ops.start.Some? && ops.start.value.At? {
      DayBounds(ops.start.value.ms);
    }
  }

  /** `gt` implies `gte`, `lt` implies `lte`, and `lt` and `gte` never hold together. */
  lemma DateComparisonOrder(rt: Runtime, rowValue: Value, value: Value, variant: Variant)
    requires IsDateVariant(variant) && IsPresent(rowValue)
    ensures Matches(rt, rowValue, Descriptor(Gt, value, variant)) ==> Matches(rt, rowValue, Descriptor(Gte, value, variant))
    ensures Matches(rt, rowValue, Descriptor(Lt, value, variant)) ==> Matches(rt, rowValue, Descriptor(Lte, value, variant))
    ensures !(Matches(rt, rowValue, Descriptor(Lt, value, variant)) && Matches(rt, rowValue, Descriptor(Gte, value, variant))
              && OperandDates(rt, value).start.Some?)
  {
    DateBranch(rt, rowValue, Gt, value, variant);
    DateBranch(rt, rowValue, Gte, value, variant);
    DateBranch(rt, rowValue, Lt, value, variant);
    DateBranch(rt, rowValue, Lte, value, variant);
    var d := ToDate(rt, rowValue);
    if d.At? {
      DateCompareOrder(d, OperandDates(rt, value));
    }
  }

  /** With valid bounds `a` and `b`, `isBetween` holds iff `startOfDay(a) <= d <= endOfDay(b)`. */
  lemma DateBetweenIsInclusive(rt: Runtime, rowValue: Value, value: Value, variant: Variant, a: int, b: int)
    requires IsDateVariant(variant) && IsPresent(rowValue) && ToDate(rt, rowValue).At?
    requires OperandDates(rt, value) == DateOperands(Some(At(a)), Some(At(b)))
    ensures Matches(rt, rowValue, Descriptor(IsBetween, value, variant))
            <==> DayStart(a) <= ToDate(rt, rowValue).ms <= DayEnd(b)
  {
    var d := ToDate(rt, rowValue).ms;
    SameDayIffWithin(d, a);
    SameDayIffWithin(d, b);
    DayBounds(a);
    DayBounds(b);
  }

  /** `isBetween [a, a]` agrees with `eq a`. */
  lemma DateBetweenOneDayIsEq(rt: Runtime, rowValue: Value, x: Value, variant: Variant)
    requires IsDateVariant(variant) && IsPresent(rowValue)
    ensures Matches(rt, rowValue, Descriptor(IsBetween, JArray([x, x]), variant))
            == Matches(rt, rowValue, Descriptor(Eq, JArray([x, x]), variant))
  {
    var d := ToDate(rt, rowValue);
    var ops := OperandDates(rt, JArray([x, x]));
    if d.At? && ops.start.Some? && ops.start.value.At? {
      var a := ops.start.value.ms;
      SameDayIffWithin(d.ms, a);
      DayBounds(a);
    }
  }

  /** Operands written as millisecond numbers read back as those instants. */
  lemma MsOperandDates(rt: Runtime, a: int, b: int)
    requires a != 0 && b != 0 && -MaxTime <= a <= MaxTime && -MaxTime <= b <= MaxTime
    ensures OperandDates(rt, JArray([JNumber(Finite(a as real)), JNumber(Finite(b as real))]))
            == DateOperands(Some(At(a)), Some(At(b)))
    ensures OperandDates(rt, JNumber(Finite(a as real))) == DateOperands(Some(At(a)), None)
  {
  }

  /**
   * Rows at 2024-01-01T23:00Z and 2024-01-02T01:00Z against `eq` 2024-01-01T12:00Z:
   * only the first is on that day.
   */
  lemma SameDayScenario(rt: Runtime)
    ensures var f := Descriptor(Eq, JNumber(Finite(1_704_110_400_000.0)), Date);
            Matches(rt, JDate(At(1_704_150_000_000)), f) && !Matches(rt, JDate(At(1_704_157_200_000)), f)
  {
    MsOperandDates(rt, 1_704_110_400_000, 1_704_110_400_000);
  }

  // ---------------------------------------------------------------------
  // Select and multiSelect
  // ---------------------------------------------------------------------

  predicate IsSelectVariant(variant: Variant)
  {
    variant == Select || variant == MultiSelect
  }

  /** A scalar operand behaves exactly as the one-element list holding it. */
  lemma ScalarOperandIsSingleton(rt: Runtime, rowValue: Value, op: Operator, value: Value, variant: Variant)
    requires IsSelectVariant(variant) && !value.JArray?
    ensures Matches(rt, rowValue, Descriptor(op, value, variant))
            == Matches(rt, rowValue, Descriptor(op, JArray([value]), variant))
  {
  }

  /** `eq` and `ne` test membership of the row's string form; so do `inArray` and `notInArray` on a scalar row. */
  lemma SelectMembership(rt: Runtime, rowValue: Value, values: seq<Value>, variant: Variant)
    requires IsSelectVariant(variant) && IsPresent(rowValue)
    ensures Matches(rt, rowValue, Descriptor(Eq, JArray(values), variant)) <==> JString(ToStr(rt, rowValue)) in values
    ensures Matches(rt, rowValue, Descriptor(Ne, JArray(values), variant)) <==> JString(ToStr(rt, rowValue)) !in values
    ensures !rowValue.JArray? ==>
              (Matches(rt, rowValue, Descriptor(InArray, JArray(values), variant)) <==> JString(ToStr(rt, rowValue)) in values)
    ensures !rowValue.JArray? ==>
              (Matches(rt, rowValue, Descriptor(NotInArray, JArray(values), variant)) <==> JString(ToStr(rt, rowValue)) !in values)
  {
  }

  /** `inArray` on an array row holds iff the string form of some element is in the list. */
  lemma InArrayOnArrayRow(rt: Runtime, items: seq<Value>, values: seq<Value>, variant: Variant)
    requires IsSelectVariant(variant)
    ensures Matches(rt, JArray(items), Descriptor(InArray, JArray(values), variant))
            <==> exists i | 0 <= i < |items| :: JString(ToStr(rt, items[i])) in values
  {
  }

  /** `notInArray` is the negation of `inArray` on every present row value. */
  lemma NotInArrayNegates(rt: Runtime, rowValue: Value, value: Value, variant: Variant)
    requires IsSelectVariant(variant) && IsPresent(rowValue)
    ensures Matches(rt, rowValue, Descriptor(NotInArray, value, variant))
            == !Matches(rt, rowValue, Descriptor(InArray, value, variant))
  {
  }

  /** Tags ["red", "blue"]: `inArray ["blue"]` matches, `inArray ["green"]` does not. */
  lemma TagsScenario(rt: Runtime)
    ensures var row := JArray([JString("red"), JString("blue")]);
            Matches(rt, row, Descriptor(InArray, JArray([JString("blue")]), MultiSelect))
            && !Matches(rt, row, Descriptor(InArray, JArray([JString("green")]), MultiSelect))
  {
    var row := JArray([JString("red"), JString("blue")]);
    assert ToStr(rt, row.items[1]) == "blue";
    InArrayOnArrayRow(rt, row.items, [JString("green")], MultiSelect);
    assert ToStr(rt, row.items[0]) == "red";
  }

  // ---------------------------------------------------------------------
  // Boolean
  // ---------------------------------------------------------------------

  /** `eq` compares the row's truthiness with `value === "true"`; any other operand acts as false; `ne` negates `eq`. */
  lemma BooleanOperators(rt: Runtime, rowValue: Value, value: Value)
    requires IsPresent(rowValue)
    ensures Matches(rt, rowValue, Descriptor(Eq, value, Boolean)) <==> (Truthy(rowValue) <==> value == JString("true"))
    ensures value != JString("true") ==>
              Matches(rt, rowValue, Descriptor(Eq, value, Boolean)) == Matches(rt, rowValue, Descriptor(Eq, JString("false"), Boolean))
    ensures Matches(rt, rowValue, Descriptor(Ne, value, Boolean)) == !Matches(rt, rowValue, Descriptor(Eq, value, Boolean))
  {
  }

  // ---------------------------------------------------------------------
  // Permissive fallbacks
  // ---------------------------------------------------------------------

  /** The operators a variant's `switch` has a case for; every other operator reaches its `default`. */
  predicate HandledBy(variant: Variant, op: Operator)
  {
    match variant
    case Text => op in {ILike, NotILike, Eq, Ne}
    case Number => IsComparison(op) || op == IsBetween
    case Date => IsComparison(op) || op == IsBetween
    case DateRange => IsComparison(op) || op == IsBetween
    case Select => op in {Eq, Ne, InArray, NotInArray}
    case MultiSelect => op in {Eq, Ne, InArray, NotInArray}
    case Boolean => op in {Eq, Ne}
    case _ => false
  }

  /**
   * An operator a variant's switch leaves to its `default` (an unknown name,
   * or a known one such as `lt` on text) lets every present row through; a
   * number row must still be numeric and a date row valid.
   */
  lemma UnknownOperatorPasses(rt: Runtime, rowValue: Value, op: Operator, value: Value, variant: Variant)
    requires IsPresent(rowValue) && !IsEmptinessOperator(op) && !HandledBy(variant, op)
    requires variant == Number ==> ToNumber(rt, rowValue) != NaN
    requires IsDateVariant(variant) ==> ToDate(rt, rowValue).At?
    ensures Matches(rt, rowValue, Descriptor(op, value, variant))
  {
  }

  /** The variants the evaluator does not list (`range` among them) let every present row through. */
  lemma UnknownVariantPasses(rt: Runtime, rowValue: Value, op: Operator, value: Value, variant: Variant)
    requires IsPresent(rowValue) && !IsEmptinessOperator(op)
    requires variant == Range || variant.OtherVariant?
    ensures Matches(rt, rowValue, Descriptor(op, value, variant))
  {
  }

  /** A filter value without an `operator` is a case-insensitive substring test of string forms, so "" keeps every row. */
  lemma RawValueIsSubstringTest(rt: Runtime, rowValue: Value, v: Value)
    ensures Matches(rt, rowValue, Raw(v)) <==> Contains(Lower(ToStr(rt, rowValue)), Lower(ToStr(rt, v)))
    ensures Matches(rt, rowValue, Raw(JString("")))
  {
    ContainsEmpty(Lower(ToStr(rt, rowValue)));
  }

  // ---------------------------------------------------------------------
  // The day boundaries of `gte` and `lte`
  // ---------------------------------------------------------------------

  /**
   * As written, `gte` tests `isAfter(d, startOfDay(f))`, which is strict: a row
   * dated exactly at the start of the operand's day is on that day (`eq` holds)
   * yet fails `gte`. Symmetrically `lte` misses the last millisecond of the day.
   */
  lemma GteMissesStartOfDay(rt: Runtime, f: int)
    requires f != 0 && -MaxTime <= f <= MaxTime
    ensures var operand := JNumber(Finite(f as real));
            var row := JDate(At(DayStart(f)));
            Matches(rt, row, Descriptor(Eq, operand, Date)) && !Matches(rt, row, Descriptor(Gte, operand, Date))
    ensures var operand := JNumber(Finite(f as real));
            var row := JDate(At(DayEnd(f)));
            Matches(rt, row, Descriptor(Eq, operand, Date)) && !Matches(rt, row, Descriptor(Lte, operand, Date))
  {
    MsOperandDates(rt, f, f);
    DayBounds(f);
    SameDayIffWithin(DayStart(f), f);
    SameDayIffWithin(DayEnd(f), f);
  }

  /** The comparisons with both ends of the day inclusive, as the `isBetween` branch already treats them. */
  predicate InclusiveDateCompare(op: Operator, d: int, f: int)
  {
    match op
    case Eq => SameDayMs(d, f)
    case Ne => !SameDayMs(d, f)
    case Lt => d < DayStart(f)
    case Lte => d <= DayEnd(f)
    case Gt => d > DayEnd(f)
    case Gte => d >= DayStart(f)
    case _ => true
  }

  /**
   * With inclusive day boundaries the comparisons form a partition of the time
   * line: `lt` and `gte` are complements, so are `gt` and `lte`, and `eq` is
   * exactly `lte` and `gte` together.
   */
  lemma InclusiveDateOrder(d: int, f: int)
    ensures InclusiveDateCompare(Lt, d, f) == !InclusiveDateCompare(Gte, d, f)
    ensures InclusiveDateCompare(Gt, d, f) == !InclusiveDateCompare(Lte, d, f)
    ensures InclusiveDateCompare(Eq, d, f) == (InclusiveDateCompare(Lte, d, f) && InclusiveDateCompare(Gte, d, f))
  {
    SameDayIffWithin(d, f);
  }

  /** The evaluator agrees with the inclusive comparisons everywhere except at the two boundary instants of the operand's day. */
  lemma EvaluatorAgreesAwayFromBoundaries(rt: Runtime, d: int, op: Operator, f: int)
    requires IsComparison(op) && f != 0 && -MaxTime <= f <= MaxTime
    requires d != DayStart(f) && d != DayEnd(f)
    ensures Matches(rt, JDate(At(d)), Descriptor(op, JNumber(Finite(f as real)), Date)) == InclusiveDateCompare(op, d, f)
  {
    MsOperandDates(rt, f, f);
  }

  /** `isEqual(a, b)` of date-fns: two valid dates with the same time value. */
  predicate IsSameInstant(a: Instant, b: Instant)
  {
    a.At? && b.At? && a.ms == b.ms
  }

  /**
   * The date switch with `lte` and `gte` made inclusive of the boundary
   * instants (`isBefore || isEqual`, `isAfter || isEqual`); every other
   * operator is as written.
   */
  function CorrectedDateCompare(dateValue: Instant, operands: DateOperands, op: Operator): bool
  {
    var filterDate := operands.start;
    if filterDate.Some? && op == Lte then
      var end := EndOfDay(filterDate.value);
      IsBefore(dateValue, end) || IsSameInstant(dateValue, end)
    else if filterDate.Some? && op == Gte then
      var start := StartOfDay(filterDate.value);
      IsAfter(dateValue, start) || IsSameInstant(dateValue, start)
    else DateCompare(dateValue, operands, op)
  }

  /** The date branch with the corrected switch. */
  function CorrectedDateMatches(rt: Runtime, rowValue: Value, op: Operator, value: Value): bool
  {
    var dateValue := ToDate(rt, rowValue);
    if dateValue.Invalid? then false
    else CorrectedDateCompare(dateValue, OperandDates(rt, value), op)
  }

  /** On a valid row date and a millisecond operand the corrected branch is the inclusive comparison. */
  lemma CorrectedIsInclusive(rt: Runtime, d: int, op: Operator, f: int)
    requires IsComparison(op) && f != 0 && -MaxTime <= f <= MaxTime
    ensures CorrectedDateMatches(rt, JDate(At(d)), op, JNumber(Finite(f as real))) == InclusiveDateCompare(op, d, f)
  {
    MsOperandDates(rt, f, f);
    SameDayIffWithin(d, f);
  }

  /**
   * With a valid operand date the corrected comparisons partition the time
   * line: `lt` and `gte` are complements, so are `gt` and `lte`, and `eq` is
   * `lte` and `gte` together.
   */
  lemma CorrectedDateOrder(d: int, f: int, end: Option<Instant>)
    ensures var dv, ops := At(d), DateOperands(Some(At(f)), end);
            CorrectedDateCompare(dv, ops, Lt) == !CorrectedDateCompare(dv, ops, Gte)
            && CorrectedDateCompare(dv, ops, Gt) == !CorrectedDateCompare(dv, ops, Lte)
            && CorrectedDateCompare(dv, ops, Eq) == (CorrectedDateCompare(dv, ops, Lte) && CorrectedDateCompare(dv, ops, Gte))
  {
    DayBounds(f);
    SameDayIffWithin(d, f);
  }

  /** The corrected `gte` and `lte` keep the two boundary rows that the evaluator as written drops. */
  lemma CorrectedKeepsBoundaries(rt: Runtime, f: int)
    requires f != 0 && -MaxTime <= f <= MaxTime
    ensures CorrectedDateMatches(rt, JDate(At(DayStart(f))), Gte, JNumber(Finite(f as real)))
    ensures CorrectedDateMatches(rt, JDate(At(DayEnd(f))), Lte, JNumber(Finite(f as real)))
  {
    CorrectedIsInclusive(rt, DayStart(f), Gte, f);
    CorrectedIsInclusive(rt, DayEnd(f), Lte, f);
  }
}
