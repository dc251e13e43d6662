/**
 * The filter vocabulary: the operators and variants the evaluator and the
 * filter widgets dispatch on, and the value TanStack Table hands to a
 * column's filter function.
 */
module FilterModel {
  import opened JsValues

  /** The operator names the code compares against; `OtherOperator` is any other string (such as "isRelativeToToday"). */
  datatype Operator =
    | ILike | NotILike
    | Eq | Ne
    | Lt | Lte | Gt | Gte
    | IsBetween
    | InArray | NotInArray
    | IsEmpty | IsNotEmpty
    | OtherOperator(name: string)

  /** The filter variants; `OtherVariant` is any other value, a missing variant included. */
  datatype Variant =
    | Text | Number | Range
    | Date | DateRange
    | Select | MultiSelect
    | Boolean
    | OtherVariant(name: string)

  /**
   * What a column filter receives as `filterValue`: either an object with an
   * `operator` key (a filter descriptor `{operator, value, variant}`), or any
   * other value, such as the raw values the column header menu stores.
   */
  datatype FilterArg =
    | Raw(v: Value)
    | Descriptor(operator: Operator, value: Value, variant: Variant)
}
