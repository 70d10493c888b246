/**
  The workbook as the spreadsheet reader hands it to the validator: the list
  of sheet names in workbook order and, for each name, the sheet's table (a
  header of column labels and data rows of possibly blank cells) or the
  reason that sheet could not be read.
 */
module Spreadsheet {
  import opened Wrappers

  /** A cell as read: None for a blank cell or one read as NaN. */
  type Cell = Option<string>

  type Row = seq<Cell>

  predicate Distinct<T(==)>(s: seq<T>) {
    forall i, j :: 0 <= i < j < |s| ==> s[i] != s[j]
  }

  datatype Sheet =
    | Table(columns: seq<string>, rows: seq<Row>)
    | Unparsable(reason: string)

  /** The cell of a row under header position j; a row shorter than the header reads blank there. */
  function CellAt(row: Row, j: nat): Cell {
    if j < |row| then row[j] else None
  }

  /** Some data row has a blank cell under a column labelled `field`. */
  predicate HasNull(columns: seq<string>, rows: seq<Row>, field: string) {
    exists i, j :: 0 <= i < |rows| && 0 <= j < |columns| && columns[j] == field && CellAt(rows[i], j).None?
  }

  /** A table counts as empty when it has no data rows or no columns at all. */
  predicate IsEmpty(columns: seq<string>, rows: seq<Row>) {
    |columns| == 0 || |rows| == 0
  }

  datatype WorkbookData = WorkbookData(sheetNames: seq<string>, sheets: map<string, Sheet>) {
    /** Sheet names are distinct and every listed name, and only those, has contents. */
    predicate WellFormed() {
      Distinct(sheetNames) && sheets.Keys == (set n | n in sheetNames)
    }
  }

  type Workbook = w: WorkbookData | w.WellFormed() witness WorkbookData([], map[])

  /** What opening the uploaded file yields: a workbook, or the reader's failure text. */
  datatype Upload =
    | Unreadable(reason: string)
    | Opened(book: Workbook)
}
