/**
 * `exportTableToCSV` and `exportTableToXLSX`: the rows to export, the record
 * built for each row from its visible cells, the column width, and the file
 * name. Writing the workbook is not modelled; the result is the workbook's
 * content.
 */
module Export {
  import opened JsValues
  import opened Columns

  /** A visible cell: its column and `cell.getValue()`. */
  datatype Cell = Cell(column: Column, value: Value)

  /** A row of the filtered row model: whether it is selected, and its visible cells. */
  datatype TableRow = TableRow(selected: bool, cells: seq<Cell>)

  /** One property of a `Record<string, any>`. */
  datatype Field = Field(key: string, value: Value)

  /** A plain object, as its properties in insertion order. */
  type Record = seq<Field>

  // ---------------------------------------------------------------------
  // Records
  // ---------------------------------------------------------------------

  function Keys(rec: Record): (ks: seq<string>)
    ensures |ks| == |rec|
    ensures forall i | 0 <= i < |rec| :: ks[i] == rec[i].key
  {
    if rec == [] then [] else [rec[0].key] + Keys(rec[1..])
  }

  predicate UniqueKeys(rec: Record)
  {
    forall i, j | 0 <= i < j < |rec| :: rec[i].key != rec[j].key
  }

  /** `rec[key]`, or `None` when the property is absent. */
  function Lookup(rec: Record, key: string): (r: Option<Value>)
    ensures r.None? <==> key !in Keys(rec)
  {
    if rec == [] then None
    else if rec[0].key == key then Some(rec[0].value)
    else
      assert Keys(rec) == [rec[0].key] + Keys(rec[1..]);
      Lookup(rec[1..], key)
  }

  /** `rec[key] = value`: an existing property keeps its place, a new one goes last. */
  function Assign(rec: Record, key: string, value: Value): (r: Record)
    ensures key in Keys(rec) ==> Keys(r) == Keys(rec)
    ensures key !in Keys(rec) ==> Keys(r) == Keys(rec) + [key]
  {
    if rec == [] then [Field(key, value)]
    else
      assert Keys(rec) == [rec[0].key] + Keys(rec[1..]);
      if rec[0].key == key then [Field(key, value)] + rec[1..]
      else
        var r := [rec[0]] + Assign(rec[1..], key, value);
        assert Keys(r) == [rec[0].key] + Keys(Assign(rec[1..], key, value));
        r
  }

  /** After an assignment the property holds the new value and every other property is unchanged. */
  lemma {:induction false} AssignLookup(rec: Record, key: string, value: Value, other: string)
    ensures Lookup(Assign(rec, key, value), key) == Some(value)
    ensures other != key ==> Lookup(Assign(rec, key, value), other) == Lookup(rec, other)
  {
    if rec != [] && rec[0].key != key {
      AssignLookup(rec[1..], key, value, other);
      assert Assign(rec, key, value)[1..] == Assign(rec[1..], key, value);
    }
  }

  /** A record with unique names splits into a first property whose name the rest does not use and a rest with unique names. */
  lemma UniqueTail(rec: Record)
    requires rec != [] && UniqueKeys(rec)
    ensures UniqueKeys(rec[1..]) && rec[0].key !in Keys(rec[1..])
  {
    forall i, j | 0 <= i < j < |rec[1..]| ensures rec[1..][i].key != rec[1..][j].key {
      assert rec[1..][i] == rec[i + 1] && rec[1..][j] == rec[j + 1];
    }
    forall k | 0 <= k < |rec[1..]| ensures Keys(rec[1..])[k] != rec[0].key {
      assert Keys(rec[1..])[k] == rec[k + 1].key;
    }
  }

  /** Putting a property in front of a record that does not use its name keeps names unique. */
  lemma UniqueCons(f: Field, rest: Record)
    requires UniqueKeys(rest) && f.key !in Keys(rest)
    ensures UniqueKeys([f] + rest)
  {
    var r := [f] + rest;
    forall i, j | 0 <= i < j < |r| ensures r[i].key != r[j].key {
      assert r[j] == rest[j - 1];
      if i == 0 {
        assert Keys(rest)[j - 1] == rest[j - 1].key;
      } else {
        assert r[i] == rest[i - 1];
      }
    }
  }

  /** Assignment keeps property names unique. */
  lemma {:induction false} AssignKeepsUnique(rec: Record, key: string, value: Value)
    requires UniqueKeys(rec)
    ensures UniqueKeys(Assign(rec, key, value))
  {
    if rec != [] {
      UniqueTail(rec);
      assert Keys(rec) == [rec[0].key] + Keys(rec[1..]);
      if rec[0].key == key {
        UniqueCons(Field(key, value), rec[1..]);
      } else {
        var tail := Assign(rec[1..], key, value);
        AssignKeepsUnique(rec[1..], key, value);
        assert rec[0].key !in Keys(tail);
        UniqueCons(rec[0], tail);
      }
    }
  }

  // ---------------------------------------------------------------------
  // The record of one row
  // ---------------------------------------------------------------------

  /** `typeof header === "function" ? column.id : (header as string) || column.id`. */
  function HeaderKey(c: Column): string
  {
    if c.def.header.HeaderRenderer? then c.id
    else if c.def.header.HeaderText? && c.def.header.text != "" then c.def.header.text
    else c.id
  }

  /** The key is the id for a rendered header, the header text when non-empty, the id otherwise. */
  lemma HeaderKeyRule(c: Column)
    ensures HeaderKey(c) == c.id <== c.def.header.HeaderRenderer? || c.def.header.NoHeader? || c.def.header == HeaderText("")
    ensures c.def.header.HeaderText? && c.def.header.text != "" ==> HeaderKey(c) == c.def.header.text
    ensures HeaderKey(c) != "" <== c.id != ""
  {
  }

  /** The cell is written into the record under `key`. */
  predicate Contributes(cell: Cell, exclude: seq<string>, key: string)
  {
    cell.column.id !in exclude && HeaderKey(cell.column) == key
  }

  /** The record the `forEach` over `cells` leaves behind. */
  function RowRecord(cells: seq<Cell>, exclude: seq<string>): Record
    decreases |cells|
  {
    if cells == [] then []
    else
      var before := RowRecord(cells[..|cells| - 1], exclude);
      var cell := cells[|cells| - 1];
      if cell.column.id in exclude then before
      else Assign(before, HeaderKey(cell.column), cell.value)
  }

  /** `cells[i]` writes `key` and no later cell does. */
  predicate IsLastWrite(cells: seq<Cell>, exclude: seq<string>, key: string, i: int)
  {
    0 <= i < |cells| && Contributes(cells[i], exclude, key)
    && forall j | i < j < |cells| :: !Contributes(cells[j], exclude, key)
  }

  /** The record never holds a property twice. */
  lemma {:induction false} RowRecordUnique(cells: seq<Cell>, exclude: seq<string>)
    decreases |cells|
    ensures UniqueKeys(RowRecord(cells, exclude))
  {
    if cells != [] {
      var n := |cells| - 1;
      RowRecordUnique(cells[..n], exclude);
      if cells[n].column.id !in exclude {
        AssignKeepsUnique(RowRecord(cells[..n], exclude), HeaderKey(cells[n].column), cells[n].value);
      }
    }
  }

  /** The last cell adds its key to the record, unless its column is excluded. */
  lemma RowRecordKeysStep(cells: seq<Cell>, exclude: seq<string>, key: string)
    requires cells != []
    ensures key in Keys(RowRecord(cells, exclude))
            <==> key in Keys(RowRecord(cells[..|cells| - 1], exclude)) || Contributes(cells[|cells| - 1], exclude, key)
  {
  }

  /** Some cell contributes iff some earlier cell does or the last one does. */
  lemma ContributesStep(cells: seq<Cell>, init: seq<Cell>, exclude: seq<string>, key: string)
    requires cells != [] && init == cells[..|cells| - 1]
    ensures (exists i | 0 <= i < |cells| :: Contributes(cells[i], exclude, key))
            <==> (exists i | 0 <= i < |init| :: Contributes(init[i], exclude, key))
                 || Contributes(cells[|cells| - 1], exclude, key)
  {
    assert forall i | 0 <= i < |init| :: init[i] == cells[i];
  }

  /** A key is present iff some non-excluded cell has it; an excluded column never contributes. */
  lemma {:induction false} RowRecordKeys(cells: seq<Cell>, exclude: seq<string>, key: string)
    decreases |cells|
    ensures key in Keys(RowRecord(cells, exclude))
            <==> exists i | 0 <= i < |cells| :: Contributes(cells[i], exclude, key)
  {
    if cells != [] {
      RowRecordKeys(cells[..|cells| - 1], exclude, key);
      RowRecordKeysStep(cells, exclude, key);
      ContributesStep(cells, cells[..|cells| - 1], exclude, key);
    }
  }

  /** A present key holds the value of the last cell that writes it. */
  lemma {:induction false} RowRecordLastWrite(cells: seq<Cell>, exclude: seq<string>, key: string, i: int)
    requires IsLastWrite(cells, exclude, key, i)
    decreases |cells|
    ensures Lookup(RowRecord(cells, exclude), key) == Some(cells[i].value)
  {
    var n := |cells| - 1;
    var init := cells[..n];
    var cell := cells[n];
    var before := RowRecord(init, exclude);
    if i < n {
      assert !Contributes(cell, exclude, key);
      assert IsLastWrite(init, exclude, key, i) by {
        assert forall j | i < j < n :: init[j] == cells[j];
      }
      RowRecordLastWrite(init, exclude, key, i);
      if cell.column.id !in exclude {
        AssignLookup(before, HeaderKey(cell.column), cell.value, key);
      }
    } else {
      AssignLookup(before, key, cell.value, key);
    }
  }

  /** The `forEach` over the visible cells, filling `rowData` by assignment. */
  method BuildRowData(cells: seq<Cell>, excludeColumns: seq<string>) returns (rowData: Record)
    ensures rowData == RowRecord(cells, excludeColumns)
  {
    rowData := [];
    var i := 0;
    while i < |cells|
      invariant 0 <= i <= |cells|
      invariant rowData == RowRecord(cells[..i], excludeColumns)
    {
      assert cells[..i + 1][..i] == cells[..i];
      var column := cells[i].column;
      if column.id !in excludeColumns {
        var header := HeaderKey(column);
        rowData := Assign(rowData, header, cells[i].value);
      }
      i := i + 1;
    }
    assert cells[..i] == cells;
  }

  /** `rows.map(...)`: one record per exported row, in row order. */
  method BuildData(rows: seq<TableRow>, excludeColumns: seq<string>) returns (data: seq<Record>)
    ensures data == ExportRecords(rows, excludeColumns)
  {
    data := [];
    var i := 0;
    while i < |rows|
      invariant 0 <= i <= |rows|
      invariant data == ExportRecords(rows[..i], excludeColumns)
    {
      var rowData := BuildRowData(rows[i].cells, excludeColumns);
      ExportRecordsSnoc(rows, i, excludeColumns);
      data := data + [rowData];
      i := i + 1;
    }
    assert rows[..i] == rows;
  }

  function ExportRecords(rows: seq<TableRow>, excludeColumns: seq<string>): (data: seq<Record>)
    ensures |data| == |rows|
    ensures forall i | 0 <= i < |rows| :: data[i] == RowRecord(rows[i].cells, excludeColumns)
  {
    seq(|rows|, i requires 0 <= i < |rows| => RowRecord(rows[i].cells, excludeColumns))
  }

  /** The records of one more row are the records so far and that row's record. */
  lemma ExportRecordsSnoc(rows: seq<TableRow>, i: nat, excludeColumns: seq<string>)
    requires i < |rows|
    ensures ExportRecords(rows[..i + 1], excludeColumns)
            == ExportRecords(rows[..i], excludeColumns) + [RowRecord(rows[i].cells, excludeColumns)]
  {
    var x := ExportRecords(rows[..i + 1], excludeColumns);
    var y := ExportRecords(rows[..i], excludeColumns) + [RowRecord(rows[i].cells, excludeColumns)];
    forall k | 0 <= k <= i ensures x[k] == y[k] {
      assert rows[..i + 1][k] == rows[k];
      if k < i {
        assert rows[..i][k] == rows[k];
      }
    }
  }

  // ---------------------------------------------------------------------
  // Rows, width, options and the workbook
  // ---------------------------------------------------------------------

  /** `getFilteredSelectedRowModel().rows`: the selected filtered rows, in order. */
  function SelectedRows(rows: seq<TableRow>): (r: seq<TableRow>)
    ensures |r| <= |rows|
    ensures forall x :: x in r <==> x in rows && x.selected
    ensures IsSubsequence(r, rows)
  {
    if rows == [] then []
    else
      var rest := SelectedRows(rows[1..]);
      assert forall x :: x in rows <==> x == rows[0] || x in rows[1..];
      if rows[0].selected then [rows[0]] + rest
      else
        assert rest != [] ==> rest[0] != rows[0] by {
          if rest != [] {
            assert rest[0] in rest;
          }
        }
        rest
  }

  /** The selection distributes over concatenation, so each selected row is kept once per occurrence. */
  lemma {:induction false} SelectedRowsOverAppend(xs: seq<TableRow>, ys: seq<TableRow>)
    ensures SelectedRows(xs + ys) == SelectedRows(xs) + SelectedRows(ys)
  {
    if xs == [] {
      assert xs + ys == ys;
    } else {
      assert (xs + ys)[0] == xs[0];
      assert (xs + ys)[1..] == xs[1..] + ys;
      SelectedRowsOverAppend(xs[1..], ys);
    }
  }

  /** The row source: the selected filtered rows when `onlySelected`, all filtered rows otherwise. */
  function ExportRows(rows: seq<TableRow>, onlySelected: bool): seq<TableRow>
  {
    if onlySelected then SelectedRows(rows) else rows
  }

  lemma ExportRowsSelection(rows: seq<TableRow>, onlySelected: bool)
    ensures !onlySelected ==> ExportRows(rows, onlySelected) == rows
    ensures onlySelected ==> forall x :: x in ExportRows(rows, onlySelected) <==> x in rows && x.selected
  {
  }

  /** `data.reduce((w, r) => Math.max(w, len(r)), 10)`, where `len(r)` is `JSON.stringify(r).length`. */
  function MaxWidthFrom(w: nat, data: seq<Record>, len: Record -> nat): (m: nat)
    decreases |data|
    ensures m >= w
    ensures forall r | r in data :: m >= len(r)
    ensures m == w || exists r | r in data :: m == len(r)
  {
    if data == [] then w
    else
      var m := MaxWidthFrom(if len(data[0]) > w then len(data[0]) else w, data[1..], len);
      assert forall r :: r in data <==> r == data[0] || r in data[1..];
      m
  }

  /** The XLSX width is the least number that is at least 10 and at least every record's length. */
  lemma MaxWidthIsLeastBound(data: seq<Record>, len: Record -> nat, b: nat)
    requires b >= 10 && forall r | r in data :: b >= len(r)
    ensures 10 <= MaxWidthFrom(10, data, len) <= b
  {
  }

  /** The options as passed: `None` is a missing property. */
  datatype ExportArgs = ExportArgs(filename: Option<string>, excludeColumns: Option<seq<string>>, onlySelected: Option<bool>)

  datatype ExportSettings = ExportSettings(filename: string, excludeColumns: seq<string>, onlySelected: bool)

  /** The destructuring defaults. */
  function WithDefaults(args: ExportArgs): (o: ExportSettings)
    ensures args.filename.Some? ==> o.filename == args.filename.value
    ensures args.excludeColumns.Some? ==> o.excludeColumns == args.excludeColumns.value
    ensures args.onlySelected.Some? ==> o.onlySelected == args.onlySelected.value
  {
    ExportSettings(
      if args.filename.Some? then args.filename.value else "export",
      if args.excludeColumns.Some? then args.excludeColumns.value else ["select", "actions"],
      if args.onlySelected.Some? then args.onlySelected.value else false)
  }

  lemma Defaults()
    ensures WithDefaults(ExportArgs(None, None, None)) == ExportSettings("export", ["select", "actions"], false)
  {
  }

  /** What is written: one sheet named "Data", its records, the column width if set, and the file name. */
  datatype Workbook = Workbook(sheetName: string, data: seq<Record>, colWidth: Option<nat>, fileName: string)

  function CsvWorkbook(rows: seq<TableRow>, args: ExportArgs): Workbook
  {
    var o := WithDefaults(args);
    Workbook("Data", ExportRecords(ExportRows(rows, o.onlySelected), o.excludeColumns), None, o.filename + ".csv")
  }

  function XlsxWorkbook(rows: seq<TableRow>, args: ExportArgs, len: Record -> nat): Workbook
  {
    var o := WithDefaults(args);
    var data := ExportRecords(ExportRows(rows, o.onlySelected), o.excludeColumns);
    Workbook("Data", data, Some(MaxWidthFrom(10, data, len)), o.filename + ".xlsx")
  }

  method ExportTableToCSV(rows: seq<TableRow>, args: ExportArgs) returns (wb: Workbook)
    ensures wb == CsvWorkbook(rows, args)
  {
    var o := WithDefaults(args);
    var exported := if o.onlySelected then SelectedRows(rows) else rows;
    var data := BuildData(exported, o.excludeColumns);
    wb := Workbook("Data", data, None, o.filename + ".csv");
  }

  method ExportTableToXLSX(rows: seq<TableRow>, args: ExportArgs, len: Record -> nat) returns (wb: Workbook)
    ensures wb == XlsxWorkbook(rows, args, len)
  {
    var o := WithDefaults(args);
    var exported := if o.onlySelected then SelectedRows(rows) else rows;
    var data := BuildData(exported, o.excludeColumns);
    var maxWidth := MaxWidthFrom(10, data, len);
    wb := Workbook("Data", data, Some(maxWidth), o.filename + ".xlsx");
  }

  /**
   * The CSV and XLSX exports hold the same records; only the XLSX one sets a
   * width, and the names differ in their extension.
   */
  lemma CsvAndXlsxAgree(rows: seq<TableRow>, args: ExportArgs, len: Record -> nat)
    ensures CsvWorkbook(rows, args).data == XlsxWorkbook(rows, args, len).data
    ensures CsvWorkbook(rows, args).colWidth.None? && XlsxWorkbook(rows, args, len).colWidth.Some?
    ensures XlsxWorkbook(rows, args, len).colWidth.value >= 10
    ensures args.filename.None? ==>
              CsvWorkbook(rows, args).fileName == "export.csv" && XlsxWorkbook(rows, args, len).fileName == "export.xlsx"
  {
    DefaultFileNames();
  }

  lemma DefaultFileNames()
    ensures "export" + ".csv" == "export.csv" && "export" + ".xlsx" == "export.xlsx"
  {
  }

  /** With the default exclusion, no record holds a key that only the select or actions column writes. */
  lemma DefaultExclusion(rows: seq<TableRow>, args: ExportArgs, len: Record -> nat, r: nat, key: string)
    requires args.excludeColumns.None? && !WithDefaults(args).onlySelected && r < |rows|
    requires forall c | c in rows[r].cells && HeaderKey(c.column) == key :: c.column.id in ["select", "actions"]
    ensures key !in Keys(XlsxWorkbook(rows, args, len).data[r])
  {
    var cells := rows[r].cells;
    RowRecordKeys(cells, ["select", "actions"], key);
    forall i | 0 <= i < |cells| ensures !Contributes(cells[i], ["select", "actions"], key) {
      assert cells[i] in cells;
    }
  }
}
