/**
 * The column visibility and order panel. It keeps a local order of the
 * hidable columns, re-syncs it from the table's column order, and on a drag
 * moves one id and writes a merged order back to the table.
 */
module ViewOptions {
  import opened JsValues
  import opened Columns
  import ColumnHeader

  // ---------------------------------------------------------------------
  // Hidable columns and labels
  // ---------------------------------------------------------------------

  predicate IsHidable(c: Column)
  {
    c.hasAccessor && c.canHide
  }

  /** `table.getAllColumns().filter((column) => typeof column.accessorFn !== "undefined" && column.getCanHide())`. */
  function HidableColumns(cols: seq<Column>): (r: seq<Column>)
    ensures |r| <= |cols|
    ensures forall c :: c in r <==> c in cols && IsHidable(c)
  {
    if cols == [] then []
    else
      var rest := HidableColumns(cols[1..]);
      assert forall c :: c in cols <==> c == cols[0] || c in cols[1..];
      if IsHidable(cols[0]) then [cols[0]] + rest else rest
  }

  /** The panel's label: `meta.label ?? (header if it is a string, else the id)`. */
  function ItemLabel(c: Column): string
  {
    if c.def.meta.labelText.Some? then c.def.meta.labelText.value
    else if c.def.header.HeaderText? then c.def.header.text
    else c.id
  }

  /** The panel and the column header show the same label, except for an empty `meta.label`, which only the panel keeps. */
  lemma LabelsAgreeButForEmptyMetaLabel(c: Column)
    ensures c.def.meta.labelText != Some("") ==> ItemLabel(c) == ColumnHeader.HeaderLabel(c)
    ensures c.def.meta.labelText == Some("") ==> ItemLabel(c) == ""
  {
  }

  // ---------------------------------------------------------------------
  // Filtering id lists
  // ---------------------------------------------------------------------

  /** `cols.some((c) => c.id === id)`. */
  predicate HasColumn(cols: seq<Column>, id: string)
  {
    exists i | 0 <= i < |cols| :: cols[i].id == id
  }

  /** `currentOrder.filter((id) => allColumns.some((c) => c.id === id))`. */
  function RelevantOrder(order: seq<string>, cols: seq<Column>): (r: seq<string>)
    ensures |r| <= |order|
    ensures forall id :: id in r <==> id in order && HasColumn(cols, id)
  {
    if order == [] then []
    else
      var rest := RelevantOrder(order[1..], cols);
      assert forall id :: id in order <==> id == order[0] || id in order[1..];
      if HasColumn(cols, order[0]) then [order[0]] + rest else rest
  }

  lemma RelevantOrderOverAppend(xs: seq<string>, ys: seq<string>, cols: seq<Column>)
    ensures RelevantOrder(xs + ys, cols) == RelevantOrder(xs, cols) + RelevantOrder(ys, cols)
  {
    if xs == [] {
      assert xs + ys == ys;
    } else {
      assert (xs + ys)[1..] == xs[1..] + ys;
      RelevantOrderOverAppend(xs[1..], ys, cols);
    }
  }

  lemma RelevantOrderKeepsAll(xs: seq<string>, cols: seq<Column>)
    requires forall id | id in xs :: HasColumn(cols, id)
    ensures RelevantOrder(xs, cols) == xs
  {
    if xs != [] {
      RelevantOrderKeepsAll(xs[1..], cols);
    }
  }

  lemma RelevantOrderDropsAll(xs: seq<string>, cols: seq<Column>)
    requires forall id | id in xs :: !HasColumn(cols, id)
    ensures RelevantOrder(xs, cols) == []
  {
    if xs != [] {
      RelevantOrderDropsAll(xs[1..], cols);
    }
  }

  /** `order.filter((id) => !exclude.includes(id))`: the kept ids stay in their order. */
  function WithoutIds(order: seq<string>, exclude: seq<string>): (r: seq<string>)
    ensures |r| <= |order|
    ensures forall id :: id in r <==> id in order && id !in exclude
    ensures IsSubsequence(r, order)
  {
    if order == [] then []
    else
      var rest := WithoutIds(order[1..], exclude);
      assert forall id :: id in order <==> id == order[0] || id in order[1..];
      if order[0] !in exclude then [order[0]] + rest
      else
        assert rest != [] ==> rest[0] != order[0] by {
          if rest != [] {
            assert rest[0] in rest;
          }
        }
        rest
  }

  /** The filter distributes over concatenation, so each kept id is kept once per occurrence. */
  lemma {:induction false} WithoutIdsOverAppend(xs: seq<string>, ys: seq<string>, exclude: seq<string>)
    ensures WithoutIds(xs + ys, exclude) == WithoutIds(xs, exclude) + WithoutIds(ys, exclude)
  {
    if xs == [] {
      assert xs + ys == ys;
    } else {
      assert (xs + ys)[0] == xs[0];
      assert (xs + ys)[1..] == xs[1..] + ys;
      WithoutIdsOverAppend(xs[1..], ys, exclude);
    }
  }

  // ---------------------------------------------------------------------
  // Array.prototype.indexOf and splice
  // ---------------------------------------------------------------------

  /** `order.indexOf(id)`: the first position of `id`, or -1. */
  function IndexOf(order: seq<string>, id: string): (i: int)
    ensures -1 <= i < |order|
    ensures i < 0 <==> id !in order
    ensures i >= 0 ==> order[i] == id && id !in order[..i]
  {
    if order == [] then -1
    else if order[0] == id then 0
    else
      var j := IndexOf(order[1..], id);
      assert order == [order[0]] + order[1..];
      if j < 0 then -1
      else
        assert order[..j + 1] == [order[0]] + order[1..][..j];
        j + 1
  }

  /** Where `splice` starts for a `start` argument: a negative start counts from the end, and it is clamped to the length. */
  function SpliceStart(start: int, len: nat): (k: nat)
    ensures k <= len
    ensures 0 <= start <= len ==> k == start
  {
    if start < 0 then (if len + start < 0 then 0 else len + start)
    else if start > len then len
    else start
  }

  /**
   * `const [moved] = s.splice(start, 1)`, for a start below the length so that
   * an element is removed (`indexOf` never returns more than the last index).
   */
  function SpliceOut(s: seq<string>, start: int): (r: (seq<string>, string))
    requires |s| > 0 && start < |s|
    ensures |r.0| == |s| - 1
    ensures multiset(r.0) + multiset{r.1} == multiset(s)
  {
    var k := SpliceStart(start, |s|);
    assert s == s[..k] + [s[k]] + s[k + 1..];
    (s[..k] + s[k + 1..], s[k])
  }

  /** `s.splice(start, 0, x)`. */
  function SpliceIn(s: seq<string>, start: int, x: string): (r: seq<string>)
    ensures |r| == |s| + 1
    ensures multiset(r) == multiset(s) + multiset{x}
  {
    var k := SpliceStart(start, |s|);
    assert s == s[..k] + s[k..];
    s[..k] + [x] + s[k..]
  }

  /** The drag move: take out the entry at `indexOf(activeId)`, put it back at `indexOf(overId)`. */
  function MoveId(order: seq<string>, activeId: string, overId: string): seq<string>
    requires |order| > 0
  {
    var oldIndex := IndexOf(order, activeId);
    var newIndex := IndexOf(order, overId);
    var out := SpliceOut(order, oldIndex);
    SpliceIn(out.0, newIndex, out.1)
  }

  /** Whatever the ids, the move yields a permutation of the local order. */
  lemma MoveIsPermutation(order: seq<string>, activeId: string, overId: string)
    requires |order| > 0
    ensures multiset(MoveId(order, activeId, overId)) == multiset(order)
  {
  }

  /** `r` is `rest` with `x` inserted at `j`: deleting position `j` of `r` gives `rest` back. */
  predicate PlacedAt(r: seq<string>, j: int, x: string, rest: seq<string>)
  {
    |r| == |rest| + 1 && 0 <= j < |r| && r[j] == x && r[..j] + r[j + 1..] == rest
  }

  /**
   * When both ids are in the list, the active id lands at the over id's old
   * position, and deleting it there gives the old list with it deleted: every
   * other id keeps its relative order.
   */
  lemma MovePlacesActive(order: seq<string>, activeId: string, overId: string)
    requires activeId in order && overId in order
    ensures var i := IndexOf(order, activeId);
            PlacedAt(MoveId(order, activeId, overId), IndexOf(order, overId), activeId, order[..i] + order[i + 1..])
  {
    var i := IndexOf(order, activeId);
    var j := IndexOf(order, overId);
    MoveIsSpliceIn(order, activeId, overId, i, j);
    SpliceInAt(order[..i] + order[i + 1..], j, activeId);
  }

  /** With both ids present, the move is an insertion into the list without the active id. */
  lemma MoveIsSpliceIn(order: seq<string>, activeId: string, overId: string, i: int, j: int)
    requires |order| > 0 && 0 <= i < |order| && i == IndexOf(order, activeId) && j == IndexOf(order, overId)
    ensures MoveId(order, activeId, overId) == SpliceIn(order[..i] + order[i + 1..], j, activeId)
  {
    SpliceOutAt(order, i);
  }

  /** Taking out the entry at an index in range removes exactly that entry. */
  lemma SpliceOutAt(s: seq<string>, k: int)
    requires 0 <= k < |s|
    ensures SpliceOut(s, k) == (s[..k] + s[k + 1..], s[k])
  {
    assert SpliceStart(k, |s|) == k;
  }

  /** Inserting at an index in range puts the entry there, and deleting it there gives the list back. */
  lemma SpliceInAt(s: seq<string>, k: int, x: string)
    requires 0 <= k <= |s|
    ensures PlacedAt(SpliceIn(s, k, x), k, x, s)
  {
    assert SpliceStart(k, |s|) == k;
    var r := SpliceIn(s, k, x);
    assert r == s[..k] + [x] + s[k..];
    assert r[..k] == s[..k];
    assert r[k + 1..] == s[k..];
  }

  predicate UniqueIds(order: seq<string>)
  {
    forall i, j | 0 <= i < j < |order| :: order[i] != order[j]
  }

  lemma UniqueByMultiset(order: seq<string>)
    ensures UniqueIds(order) <==> forall id | id in order :: multiset(order)[id] == 1
  {
    if order != [] {
      UniqueByMultiset(order[1..]);
      assert order == [order[0]] + order[1..];
      assert multiset(order) == multiset{order[0]} + multiset(order[1..]);
      if UniqueIds(order) {
        assert order[0] !in order[1..] by {
          forall k | 0 <= k < |order[1..]| ensures order[1..][k] != order[0] {
            assert order[1..][k] == order[k + 1];
          }
        }
        assert UniqueIds(order[1..]) by {
          forall i, j | 0 <= i < j < |order[1..]| ensures order[1..][i] != order[1..][j] {
            assert order[1..][i] == order[i + 1] && order[1..][j] == order[j + 1];
          }
        }
      }
      if forall id | id in order :: multiset(order)[id] == 1 {
        assert multiset(order)[order[0]] == 1;
        assert order[0] !in multiset(order[1..]);
        assert forall id | id in order[1..] :: multiset(order[1..])[id] == 1 by {
          forall id | id in order[1..] ensures multiset(order[1..])[id] == 1 {
            assert id in order;
          }
        }
        forall i, j | 0 <= i < j < |order| ensures order[i] != order[j] {
          if i == 0 {
            assert order[j] == order[1..][j - 1];
          } else {
            assert order[i] == order[1..][i - 1] && order[j] == order[1..][j - 1];
          }
        }
      }
    }
  }

  /** A move keeps unique ids unique. */
  lemma MoveKeepsUnique(order: seq<string>, activeId: string, overId: string)
    requires |order| > 0 && UniqueIds(order)
    ensures UniqueIds(MoveId(order, activeId, overId))
  {
    var r := MoveId(order, activeId, overId);
    MoveIsPermutation(order, activeId, overId);
    UniqueByMultiset(order);
    UniqueByMultiset(r);
    assert forall id :: id in r <==> id in multiset(r);
    assert forall id :: id in order <==> id in multiset(order);
  }

  // ---------------------------------------------------------------------
  // Merging with the table's order, and the order of the listed columns
  // ---------------------------------------------------------------------

  /** `table.getState().columnOrder`, or all column ids when it is empty. */
  function GlobalBase(tableOrder: seq<string>, tableColumns: seq<Column>): seq<string>
  {
    if |tableOrder| > 0 then tableOrder else Ids(tableColumns)
  }

  /** `[...nonHidable, ...newLocalOrder]`, where `nonHidable` keeps the global ids not in the old local order. */
  function MergeOrder(globalOrder: seq<string>, oldLocal: seq<string>, newLocal: seq<string>): seq<string>
  {
    WithoutIds(globalOrder, oldLocal) + newLocal
  }

  /**
   * When the move permutes the local order, the merged order holds exactly
   * the global ids and the local ids, ends with the new local order, and
   * before it holds no local id, in the global order's own order.
   */
  lemma MergeOrderContents(globalOrder: seq<string>, oldLocal: seq<string>, newLocal: seq<string>)
    requires multiset(newLocal) == multiset(oldLocal)
    ensures var r := MergeOrder(globalOrder, oldLocal, newLocal);
            (forall id :: id in r <==> id in globalOrder || id in oldLocal)
            && r[|r| - |newLocal|..] == newLocal
            && IsSubsequence(r[..|r| - |newLocal|], globalOrder)
            && forall k | 0 <= k < |r| - |newLocal| :: r[k] !in oldLocal
  {
    var r := MergeOrder(globalOrder, oldLocal, newLocal);
    var front := WithoutIds(globalOrder, oldLocal);
    assert r[|r| - |newLocal|..] == newLocal;
    assert r[..|r| - |newLocal|] == front;
    assert forall id :: id in newLocal <==> id in multiset(newLocal);
    assert forall id :: id in oldLocal <==> id in multiset(oldLocal);
    forall k | 0 <= k < |r| - |newLocal| ensures r[k] !in oldLocal {
      assert r[k] == front[k];
      assert front[k] in front;
    }
  }

  /**
   * Round trip with the sync effect: when the local order lists the hidable
   * columns and the global order has no other hidable id, filtering the
   * merged order back to the hidable columns gives the new local order.
   */
  lemma SyncAfterDragReturnsLocal(globalOrder: seq<string>, oldLocal: seq<string>, newLocal: seq<string>, hidable: seq<Column>)
    requires forall id | id in newLocal :: HasColumn(hidable, id)
    requires forall id | id in globalOrder && HasColumn(hidable, id) :: id in oldLocal
    ensures RelevantOrder(MergeOrder(globalOrder, oldLocal, newLocal), hidable) == newLocal
  {
    var front := WithoutIds(globalOrder, oldLocal);
    RelevantOrderOverAppend(front, newLocal, hidable);
    RelevantOrderDropsAll(front, hidable);
    RelevantOrderKeepsAll(newLocal, hidable);
  }

  /** `cols.find((col) => col.id === id)`. */
  function FindColumn(cols: seq<Column>, id: string): (r: Option<Column>)
    ensures r.Some? ==> r.value in cols && r.value.id == id
    ensures r.None? <==> !HasColumn(cols, id)
    ensures forall k | 0 <= k < |cols| && cols[k].id == id && (forall j | 0 <= j < k :: cols[j].id != id) ::
              r == Some(cols[k])
  {
    if cols == [] then None
    else if cols[0].id == id then Some(cols[0])
    else
      var r := FindColumn(cols[1..], id);
      FirstInTail(cols, id, r);
      assert HasColumn(cols, id) ==> cols[0].id == id || HasColumn(cols[1..], id) by {
        if HasColumn(cols, id) {
          var i :| 0 <= i < |cols| && cols[i].id == id;
          if i > 0 {
            assert cols[1..][i - 1].id == id;
          }
        }
      }
      assert HasColumn(cols[1..], id) ==> HasColumn(cols, id) by {
        if HasColumn(cols[1..], id) {
          var i :| 0 <= i < |cols[1..]| && cols[1..][i].id == id;
          assert cols[i + 1].id == id;
        }
      }
      r
  }

  /** When the head has another id, the first column with the id in the tail is the first one in the whole list. */
  lemma FirstInTail(cols: seq<Column>, id: string, r: Option<Column>)
    requires |cols| > 0 && cols[0].id != id
    requires forall k | 0 <= k < |cols[1..]| && cols[1..][k].id == id && (forall j | 0 <= j < k :: cols[1..][j].id != id) ::
               r == Some(cols[1..][k])
    ensures forall k | 0 <= k < |cols| && cols[k].id == id && (forall j | 0 <= j < k :: cols[j].id != id) ::
              r == Some(cols[k])
  {
    forall k | 0 <= k < |cols| && cols[k].id == id && (forall j | 0 <= j < k :: cols[j].id != id)
      ensures r == Some(cols[k])
    {
      assert cols[1..][k - 1] == cols[k];
      forall j | 0 <= j < k - 1 ensures cols[1..][j].id != id {
        assert cols[1..][j] == cols[j + 1];
      }
    }
  }

  /** `orderedColumns`: `order.map((id) => cols.find(...)).filter(Boolean)`. */
  function OrderedColumns(order: seq<string>, cols: seq<Column>): (r: seq<Column>)
    ensures forall c | c in r :: c in cols
  {
    if order == [] then []
    else
      var rest := OrderedColumns(order[1..], cols);
      match FindColumn(cols, order[0])
      case Some(c) => [c] + rest
      case None => rest
  }

  /** The listed columns follow the id order and drop exactly the ids with no matching column. */
  lemma {:induction false} OrderedColumnsFollowOrder(order: seq<string>, cols: seq<Column>)
    ensures Ids(OrderedColumns(order, cols)) == RelevantOrder(order, cols)
  {
    if order != [] {
      OrderedColumnsFollowOrder(order[1..], cols);
      var rest := OrderedColumns(order[1..], cols);
      match FindColumn(cols, order[0])
      case Some(c) =>
        assert Ids([c] + rest) == [c.id] + Ids(rest);
      case None =>
    }
  }

  // ---------------------------------------------------------------------
  // The sync effects
  // ---------------------------------------------------------------------

  /** What a `setColumnOrder` call does to the local state: nothing, or a new order. */
  datatype OrderUpdate = KeepOrder | SetOrder(order: seq<string>)

  function ApplyUpdate(u: OrderUpdate, prev: seq<string>): seq<string>
  {
    if u.SetOrder? then u.order else prev
  }

  /** `prev.length === relevantOrder.length && prev.every((val, index) => val === relevantOrder[index])`. */
  predicate ElementwiseEqual(prev: seq<string>, relevant: seq<string>)
  {
    |prev| == |relevant| && forall i | 0 <= i < |prev| :: prev[i] == relevant[i]
  }

  /** The first sync effect. */
  function SyncUpdate(prev: seq<string>, tableOrder: seq<string>, hidable: seq<Column>): OrderUpdate
  {
    if |tableOrder| > 0 then
      var relevantOrder := RelevantOrder(tableOrder, hidable);
      if |relevantOrder| > 0 then
        if ElementwiseEqual(prev, relevantOrder) then KeepOrder else SetOrder(relevantOrder)
      else KeepOrder
    else KeepOrder
  }

  /**
   * After the first sync the local order is the table's order filtered to the
   * hidable columns when that is non-empty, and unchanged otherwise; a list
   * that is already element-wise equal leaves the state alone.
   */
  lemma SyncUpdateResult(prev: seq<string>, tableOrder: seq<string>, hidable: seq<Column>)
    ensures var relevant := RelevantOrder(tableOrder, hidable);
            ApplyUpdate(SyncUpdate(prev, tableOrder, hidable), prev)
            == if |tableOrder| > 0 && |relevant| > 0 then relevant else prev
    ensures SyncUpdate(prev, tableOrder, hidable).SetOrder? ==> prev != RelevantOrder(tableOrder, hidable)
  {
  }

  /** The second sync effect: with no table order, the local order becomes all hidable ids. */
  function DefaultUpdate(tableOrder: seq<string>, hidable: seq<Column>): (u: OrderUpdate)
    ensures |tableOrder| == 0 ==> u == SetOrder(Ids(hidable))
    ensures |tableOrder| > 0 ==> u == KeepOrder
  {
    if |tableOrder| == 0 then SetOrder(Ids(hidable)) else KeepOrder
  }

  // ---------------------------------------------------------------------
  // The component's state
  // ---------------------------------------------------------------------

  class DataTableViewOptions {
    /** `table.getAllColumns()`. */
    const tableColumns: seq<Column>
    /** The component's `columnOrder` state. */
    var columnOrder: seq<string>
    /** `table.getState().columnOrder`. */
    var tableColumnOrder: seq<string>

    /** The memoised `allColumns`: the hidable columns. */
    function AllColumns(): seq<Column>
    {
      HidableColumns(tableColumns)
    }

    /** The component mounts with the hidable ids as its local order. */
    constructor (tableColumns: seq<Column>, tableColumnOrder: seq<string>)
      ensures this.tableColumns == tableColumns && this.tableColumnOrder == tableColumnOrder
      ensures columnOrder == Ids(HidableColumns(tableColumns))
    {
      this.tableColumns := tableColumns;
      this.tableColumnOrder := tableColumnOrder;
      columnOrder := Ids(HidableColumns(tableColumns));
    }

    method SyncWithTable()
      modifies this
      ensures tableColumnOrder == old(tableColumnOrder)
      ensures columnOrder == ApplyUpdate(SyncUpdate(old(columnOrder), tableColumnOrder, AllColumns()), old(columnOrder))
    {
      var update := SyncUpdate(columnOrder, tableColumnOrder, AllColumns());
      if update.SetOrder? {
        columnOrder := update.order;
      }
    }

    method SyncWhenUnordered()
      modifies this
      ensures tableColumnOrder == old(tableColumnOrder)
      ensures columnOrder == ApplyUpdate(DefaultUpdate(tableColumnOrder, AllColumns()), old(columnOrder))
    {
      if |tableColumnOrder| == 0 {
        columnOrder := Ids(AllColumns());
      }
    }

    /** `handleDragEndBetter`; `overId` is `None` when the drag ends over no item. */
    method HandleDragEnd(activeId: string, overId: Option<string>)
      requires overId.Some? && overId.value != activeId ==> |columnOrder| > 0
      modifies this
      ensures overId.None? || overId.value == activeId ==>
                columnOrder == old(columnOrder) && tableColumnOrder == old(tableColumnOrder)
      ensures overId.Some? && overId.value != activeId ==>
                columnOrder == MoveId(old(columnOrder), activeId, overId.value)
                && tableColumnOrder == MergeOrder(GlobalBase(old(tableColumnOrder), tableColumns), old(columnOrder), columnOrder)
    {
      if overId.None? || activeId == overId.value {
        return;
      }
      var oldIndex := IndexOf(columnOrder, activeId);
      var newIndex := IndexOf(columnOrder, overId.value);

      var newLocalOrder := columnOrder;
      var moved;
      newLocalOrder, moved := SpliceOut(newLocalOrder, oldIndex).0, SpliceOut(newLocalOrder, oldIndex).1;
      newLocalOrder := SpliceIn(newLocalOrder, newIndex, moved);

      var currentGlobalOrder := GlobalBase(tableColumnOrder, tableColumns);
      var nonHidable := WithoutIds(currentGlobalOrder, columnOrder);
      columnOrder := newLocalOrder;
      tableColumnOrder := nonHidable + newLocalOrder;
    }

    /** The columns the panel lists, in the local order. */
    function ListedColumns(): (r: seq<Column>)
      reads this
      ensures Ids(r) == RelevantOrder(columnOrder, AllColumns())
    {
      OrderedColumnsFollowOrder(columnOrder, AllColumns());
      OrderedColumns(columnOrder, AllColumns())
    }
  }
}
