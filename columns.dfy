/**
 * The parts of a TanStack Table column definition the data-table components
 * read: its id, its `header` (a string, a render function or nothing), the
 * `meta` label and filter variant, and the accessor and hiding flags.
 */
module Columns {
  import opened JsValues
  import opened FilterModel

  datatype HeaderDef = HeaderText(text: string) | HeaderRenderer | NoHeader

  datatype ColumnMeta = ColumnMeta(labelText: Option<string>, variant: Option<Variant>)

  datatype ColumnDef = ColumnDef(header: HeaderDef, meta: ColumnMeta)

  /** A table column; `hasAccessor` is `typeof column.accessorFn !== "undefined"`, `canHide` is `getCanHide()`. */
  datatype Column = Column(id: string, def: ColumnDef, hasAccessor: bool, canHide: bool)

  function Ids(cols: seq<Column>): (ids: seq<string>)
    ensures |ids| == |cols|
    ensures forall i :: 0 <= i < |cols| ==> ids[i] == cols[i].id
  {
    seq(|cols|, i requires 0 <= i < |cols| => cols[i].id)
  }
}
