/**
 * `DataTableExportOptions`: the menu's `handleExport`, which always exports
 * every filtered row, skips the display-only columns, always sets the column
 * width and names the file `export.<type>`.
 */
module ExportOptions {
  import opened JsValues
  import opened Export

  datatype FileType = Csv | Xlsx

  function Extension(t: FileType): string
  {
    if t == Csv then "csv" else "xlsx"
  }

  predicate IsDisplayColumn(id: string)
  {
    id == "actions" || id == "select"
  }

  /** The columns `handleExport` skips, as an exclusion list. */
  const DisplayColumns: seq<string> := ["actions", "select"]

  lemma DisplayColumnsAreSkipped(id: string)
    ensures id in DisplayColumns <==> IsDisplayColumn(id)
  {
  }

  function ExportWorkbook(rows: seq<TableRow>, t: FileType, len: Record -> nat): Workbook
  {
    var data := ExportRecords(rows, DisplayColumns);
    Workbook("Data", data, Some(MaxWidthFrom(10, data, len)), "export." + Extension(t))
  }

  /** `handleExport(type)` over the filtered rows `rows`. */
  method HandleExport(rows: seq<TableRow>, t: FileType, len: Record -> nat) returns (wb: Workbook)
    ensures wb == ExportWorkbook(rows, t, len)
  {
    var data := BuildData(rows, DisplayColumns);
    var maxWidth := MaxWidthFrom(10, data, len);
    wb := Workbook("Data", data, Some(maxWidth), "export." + Extension(t));
  }

  /**
   * The menu's Excel export is `exportTableToXLSX` with its defaults, whatever
   * rows are selected; its CSV export holds the same records and, unlike
   * `exportTableToCSV`, also sets the width.
   */
  lemma MenuMatchesLibraryDefaults(rows: seq<TableRow>, len: Record -> nat)
    ensures ExportWorkbook(rows, Xlsx, len) == XlsxWorkbook(rows, ExportArgs(None, None, None), len)
    ensures ExportWorkbook(rows, Csv, len).data == CsvWorkbook(rows, ExportArgs(None, None, None)).data
    ensures ExportWorkbook(rows, Csv, len).fileName == CsvWorkbook(rows, ExportArgs(None, None, None)).fileName
    ensures ExportWorkbook(rows, Csv, len).colWidth.Some? && CsvWorkbook(rows, ExportArgs(None, None, None)).colWidth.None?
  {
    var data := ExportRecords(rows, DisplayColumns);
    assert XlsxWorkbook(rows, ExportArgs(None, None, None), len).data == data by {
      Defaults();
      assert ExportRows(rows, false) == rows;
      MenuExclusion(rows);
    }
    assert CsvWorkbook(rows, ExportArgs(None, None, None)).data == data by {
      Defaults();
      assert ExportRows(rows, false) == rows;
      MenuExclusion(rows);
    }
    FileNames();
  }

  /** The menu's file names are the library's default ones. */
  lemma FileNames()
    ensures "export." + Extension(Xlsx) == "export" + ".xlsx"
    ensures "export." + Extension(Csv) == "export" + ".csv"
  {
  }

  /** Excluding the display columns in the menu's order or the library's builds the same records. */
  lemma MenuExclusion(rows: seq<TableRow>)
    ensures ExportRecords(rows, DisplayColumns) == ExportRecords(rows, ["select", "actions"])
  {
    var x := ExportRecords(rows, DisplayColumns);
    var y := ExportRecords(rows, ["select", "actions"]);
    forall i | 0 <= i < |rows| ensures x[i] == y[i] {
      SameExclusion(rows[i].cells, DisplayColumns, ["select", "actions"]);
    }
  }

  /** Two exclusion lists with the same members build the same record. */
  lemma {:induction false} SameExclusion(cells: seq<Cell>, a: seq<string>, b: seq<string>)
    requires forall id :: id in a <==> id in b
    decreases |cells|
    ensures RowRecord(cells, a) == RowRecord(cells, b)
  {
    if cells != [] {
      SameExclusion(cells[..|cells| - 1], a, b);
    }
  }

  /** Every record lists exactly the keys of its row's non-display cells. */
  lemma RecordKeys(rows: seq<TableRow>, t: FileType, len: Record -> nat, r: nat, key: string)
    requires r < |rows|
    ensures key in Keys(ExportWorkbook(rows, t, len).data[r])
            <==> exists i | 0 <= i < |rows[r].cells| ::
                   !IsDisplayColumn(rows[r].cells[i].column.id) && HeaderKey(rows[r].cells[i].column) == key
  {
    RowRecordKeys(rows[r].cells, DisplayColumns, key);
  }
}
