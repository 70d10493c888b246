/**
  The workbook validator: a fixed checklist that stops at the first failure.
  The sheet count comes first, then the presence of the four required sheets
  in declared order, then, sheet by sheet in that order, the required
  columns, the presence of data rows and the absence of blank cells in the
  required columns.
 */
module Validation {
  import opened Wrappers
  import opened Spreadsheet

  const RequiredSheets: seq<string> := ["Course", "Topic", "Resource", "Learner"]

  /** The required columns of each required sheet, in declared order. */
  function RequiredFields(sheet: string): (fields: seq<string>)
    requires sheet in RequiredSheets
    ensures |fields| > 0 && Distinct(fields)
  {
    if sheet == "Course" then ["Course ID", "Course Name"]
    else if sheet == "Topic" then ["Topic ID", "Topic Name", "Description"]
    else if sheet == "Resource" then
      ["Resource ID", "Resource Name", "Resource Content", "Module ID", "Module Name", "Sub Module ID"]
    else ["Learner ID", "Name", "Essay", "Module ID", "Submodule ID"]
  }

  /** The outcome of validation, before it is rendered as a message. */
  datatype Verdict =
    | Valid
    | WrongSheetCount
    | MissingSheet(sheet: string)
    | MissingFields(sheet: string, fields: seq<string>)
    | EmptySheet(sheet: string)
    | NullValues(field: string, sheet: string)
    | ProcessingError(reason: string)

  // ---------------------------------------------------------------------------
  // What a conforming workbook is, stated independently of the checklist

  predicate HasAllFields(name: string, columns: seq<string>)
    requires name in RequiredSheets
  {
    forall f :: f in RequiredFields(name) ==> f in columns
  }

  predicate NoNulls(name: string, columns: seq<string>, rows: seq<Row>)
    requires name in RequiredSheets
  {
    forall f :: f in RequiredFields(name) ==> !HasNull(columns, rows, f)
  }

  predicate SheetConforms(name: string, sheet: Sheet)
    requires name in RequiredSheets
  {
    && sheet.Table?
    && HasAllFields(name, sheet.columns)
    && !IsEmpty(sheet.columns, sheet.rows)
    && NoNulls(name, sheet.columns, sheet.rows)
  }

  /** Exactly four sheets, every required sheet present, and every required sheet conforming. */
  predicate Conforms(book: Workbook) {
    && |book.sheetNames| == 4
    && forall s :: s in RequiredSheets ==> s in book.sheetNames && SheetConforms(s, book.sheets[s])
  }

  // ---------------------------------------------------------------------------
  // The checklist

  /** The first name of `required` that is not among `names`. */
  function FirstMissing(required: seq<string>, names: seq<string>): (r: Option<string>)
    ensures r.None? <==> forall s :: s in required ==> s in names
    ensures r.Some? ==>
      exists k :: 0 <= k < |required| && required[k] == r.value && r.value !in names
                  && forall j :: 0 <= j < k ==> required[j] in names
  {
    if required == [] then None
    else if required[0] !in names then Some(required[0])
    else
      var r := FirstMissing(required[1..], names);
      assert r.Some? ==> exists k :: 1 <= k < |required| && required[k] == r.value && r.value !in names
                                     && forall j :: 1 <= j < k ==> required[j] in names;
      r
  }

  /** The required fields that are not column labels, keeping their declared order. */
  function Absent(required: seq<string>, columns: seq<string>): (missing: seq<string>)
    ensures forall f :: f in missing <==> f in required && f !in columns
    ensures |missing| <= |required|
  {
    if required == [] then []
    else (if required[0] in columns then [] else [required[0]]) + Absent(required[1..], columns)
  }

  /** The first of `fields` under which some row holds a blank cell. */
  function FirstNullField(fields: seq<string>, columns: seq<string>, rows: seq<Row>): (r: Option<string>)
    ensures r.None? <==> forall f :: f in fields ==> !HasNull(columns, rows, f)
    ensures r.Some? ==>
      exists k :: 0 <= k < |fields| && fields[k] == r.value && HasNull(columns, rows, r.value)
                  && forall j :: 0 <= j < k ==> !HasNull(columns, rows, fields[j])
  {
    if fields == [] then None
    else if HasNull(columns, rows, fields[0]) then Some(fields[0])
    else
      var r := FirstNullField(fields[1..], columns, rows);
      assert r.Some? ==> exists k :: 1 <= k < |fields| && fields[k] == r.value && HasNull(columns, rows, r.value)
                                     && forall j :: 1 <= j < k ==> !HasNull(columns, rows, fields[j]);
      r
  }

  /**
    The checks on one required sheet: required columns, then data rows, then
    blank cells, in that order. A sheet the reader fails on is a processing error.
   */
  function CheckSheet(name: string, sheet: Sheet): (v: Verdict)
    requires name in RequiredSheets
    ensures v.Valid? <==> SheetConforms(name, sheet)
    ensures v.ProcessingError? <==> sheet.Unparsable?
    ensures sheet.Unparsable? ==> v.reason == sheet.reason
    ensures v.MissingFields? <==> sheet.Table? && !HasAllFields(name, sheet.columns)
    ensures v.MissingFields? ==>
      v.sheet == name && v.fields != [] &&
      forall f :: f in v.fields <==> f in RequiredFields(name) && f !in sheet.columns
    ensures v.EmptySheet? <==> sheet.Table? && HasAllFields(name, sheet.columns) && sheet.rows == []
    ensures v.EmptySheet? ==> v.sheet == name
    ensures v.NullValues? <==>
      sheet.Table? && HasAllFields(name, sheet.columns) && sheet.rows != []
      && !NoNulls(name, sheet.columns, sheet.rows)
    ensures v.NullValues? ==>
      v.sheet == name &&
      exists k :: 0 <= k < |RequiredFields(name)| && RequiredFields(name)[k] == v.field
                  && HasNull(sheet.columns, sheet.rows, v.field)
                  && forall j :: 0 <= j < k ==> !HasNull(sheet.columns, sheet.rows, RequiredFields(name)[j])
    ensures !v.WrongSheetCount? && !v.MissingSheet?
  {
    match sheet
    case Unparsable(reason) => ProcessingError(reason)
    case Table(columns, rows) =>
      var missing := Absent(RequiredFields(name), columns);
      assert missing != [] ==> missing[0] in missing;
      if missing != [] then MissingFields(name, missing)
      else if IsEmpty(columns, rows) then EmptySheet(name)
      else match FirstNullField(RequiredFields(name), columns, rows)
        case Some(field) => NullValues(field, name)
        case None => Valid
  }

  /** The per-sheet checks over `todo`, in order, stopping at the first sheet that fails. */
  function CheckSheets(book: Workbook, todo: seq<string>): (v: Verdict)
    requires forall s :: s in todo ==> s in RequiredSheets && s in book.sheets
    ensures v.Valid? <==> forall s :: s in todo ==> SheetConforms(s, book.sheets[s])
    ensures !v.WrongSheetCount? && !v.MissingSheet?
  {
    if todo == [] then Valid
    else
      var v := CheckSheet(todo[0], book.sheets[todo[0]]);
      if !v.Valid? then v else CheckSheets(book, todo[1..])
  }

  /** The whole checklist, with any failure of the reader turned into a processing error. */
  function Validate(upload: Upload): (v: Verdict)
    ensures upload.Unreadable? ==> v == ProcessingError(upload.reason)
    ensures upload.Opened? && |upload.book.sheetNames| != 4 ==> v == WrongSheetCount
    ensures v.Valid? <==> upload.Opened? && Conforms(upload.book)
    ensures v.MissingSheet? ==>
      upload.Opened? && |upload.book.sheetNames| == 4 &&
      exists k :: 0 <= k < |RequiredSheets| && RequiredSheets[k] == v.sheet
                  && v.sheet !in upload.book.sheetNames
                  && forall j :: 0 <= j < k ==> RequiredSheets[j] in upload.book.sheetNames
  {
    match upload
    case Unreadable(reason) => ProcessingError(reason)
    case Opened(book) =>
      if |book.sheetNames| != 4 then WrongSheetCount
      else match FirstMissing(RequiredSheets, book.sheetNames)
        case Some(name) => MissingSheet(name)
        case None => CheckSheets(book, RequiredSheets)
  }

  // ---------------------------------------------------------------------------
  // Messages

  const ValidMessage := "File is valid."
  const InvalidPrefix := "Invalid file format: "
  const ErrorPrefix := "Error processing the file: "

  /** The items separated by `sep`, first to last. */
  function Join(items: seq<string>, sep: string): (s: string)
    ensures items == [] ==> s == []
    ensures |items| == 1 ==> s == items[0]
  {
    if items == [] then ""
    else if |items| == 1 then items[0]
    else items[0] + sep + Join(items[1..], sep)
  }

  /** The text after the "invalid" prefix, for a verdict that rejects the workbook's structure. */
  function Detail(v: Verdict): string
    requires !v.Valid? && !v.ProcessingError?
  {
    match v
    case WrongSheetCount => "The file must contain exactly 4 sheets."
    case MissingSheet(s) => "Missing required sheet '" + s + "'."
    case MissingFields(s, fields) =>
      "The sheet '" + s + "' is missing the following fields: " + Join(fields, ", ")
    case EmptySheet(s) => "The sheet '" + s + "' is empty."
    case NullValues(f, s) => "The field '" + f + "' in sheet '" + s + "' contains empty values."
  }

  /** The message the validator returns for a verdict; its first word tells success, rejection and error apart. */
  function Message(v: Verdict): (msg: string)
    ensures v.Valid? <==> msg == ValidMessage
    ensures v.ProcessingError? <==> ErrorPrefix <= msg
    ensures !v.Valid? && !v.ProcessingError? <==> InvalidPrefix <= msg
    ensures v.ProcessingError? ==> msg[|ErrorPrefix|..] == v.reason
  {
    if v.Valid? then ValidMessage
    else if v.ProcessingError? then
      var msg := ErrorPrefix + v.reason;
      assert msg[..|ErrorPrefix|] == ErrorPrefix && msg[0] == 'E';
      msg
    else
      var msg := InvalidPrefix + Detail(v);
      assert msg[..|InvalidPrefix|] == InvalidPrefix && msg[0] == 'I';
      msg
  }

  /** The validator's answer for an uploaded file, as a message. */
  function ValidateFile(upload: Upload): (msg: string)
    ensures msg == ValidMessage <==> upload.Opened? && Conforms(upload.book)
    ensures upload.Unreadable? ==> msg == ErrorPrefix + upload.reason
    ensures upload.Opened? && |upload.book.sheetNames| != 4 ==>
      msg == InvalidPrefix + "The file must contain exactly 4 sheets."
  {
    Message(Validate(upload))
  }
}

/** Properties of the validator that relate several checks or several workbooks. */
module ValidationFacts {
  import opened Spreadsheet
  import opened Validation

  /** With four sheets, the reported missing sheet is the first required one absent, whatever the sheets hold. */
  lemma FirstMissingSheetIsReported(book: Workbook, k: nat)
    requires |book.sheetNames| == 4
    requires k < |RequiredSheets| && RequiredSheets[k] !in book.sheetNames
    requires forall j :: 0 <= j < k ==> RequiredSheets[j] in book.sheetNames
    ensures ValidateFile(Opened(book)) == InvalidPrefix + "Missing required sheet '" + RequiredSheets[k] + "'."
  {
  }

  /** The per-sheet loop reports the verdict of the first sheet that does not conform. */
  lemma {:induction false} CheckSheetsStopsAtFirstFailure(book: Workbook, todo: seq<string>, k: nat)
    requires forall s :: s in todo ==> s in RequiredSheets && s in book.sheets
    requires k < |todo| && !SheetConforms(todo[k], book.sheets[todo[k]])
    requires forall j :: 0 <= j < k ==> SheetConforms(todo[j], book.sheets[todo[j]])
    ensures CheckSheets(book, todo) == CheckSheet(todo[k], book.sheets[todo[k]])
  {
    if k > 0 {
      assert SheetConforms(todo[0], book.sheets[todo[0]]);
      var rest := todo[1..];
      assert forall j :: 0 <= j < k - 1 ==> rest[j] == todo[j + 1];
      CheckSheetsStopsAtFirstFailure(book, rest, k - 1);
    }
  }

  /**
    Once the sheet count and sheet names pass, the message is that of the first
    required sheet, in declared order, that fails its own checks.
   */
  lemma FirstFailingSheetIsReported(book: Workbook, k: nat)
    requires |book.sheetNames| == 4
    requires forall s :: s in RequiredSheets ==> s in book.sheetNames
    requires k < |RequiredSheets| && !SheetConforms(RequiredSheets[k], book.sheets[RequiredSheets[k]])
    requires forall j :: 0 <= j < k ==> SheetConforms(RequiredSheets[j], book.sheets[RequiredSheets[j]])
    ensures Validate(Opened(book)) == CheckSheet(RequiredSheets[k], book.sheets[RequiredSheets[k]])
    ensures ValidateFile(Opened(book)) != ValidMessage
  {
    CheckSheetsStopsAtFirstFailure(book, RequiredSheets, k);
  }

  /**
    When the first failing sheet lacks required columns, the message lists all
    of them, comma-separated; the list holds exactly the absent required fields
    (Absent) in declared order (AbsentInDeclaredOrder).
   */
  lemma MissingFieldsAreReported(book: Workbook, k: nat)
    requires |book.sheetNames| == 4
    requires forall s :: s in RequiredSheets ==> s in book.sheetNames
    requires k < |RequiredSheets| && book.sheets[RequiredSheets[k]].Table?
    requires !HasAllFields(RequiredSheets[k], book.sheets[RequiredSheets[k]].columns)
    requires forall j :: 0 <= j < k ==> SheetConforms(RequiredSheets[j], book.sheets[RequiredSheets[j]])
    ensures ValidateFile(Opened(book)) ==
      InvalidPrefix + ("The sheet '" + RequiredSheets[k] + "' is missing the following fields: "
      + Join(Absent(RequiredFields(RequiredSheets[k]), book.sheets[RequiredSheets[k]].columns), ", "))
  {
    var name := RequiredSheets[k];
    var sheet := book.sheets[name];
    var missing := Absent(RequiredFields(name), sheet.columns);
    assert missing != [] by {
      var f :| f in RequiredFields(name) && f !in sheet.columns;
      assert f in missing;
    }
    assert CheckSheet(name, sheet) == MissingFields(name, missing) by {
      assert sheet.Table?;
    }
    FirstFailingSheetIsReported(book, k);
  }

  /** A first failing sheet that has every required column but no data row is reported as empty. */
  lemma EmptySheetIsReported(book: Workbook, k: nat)
    requires |book.sheetNames| == 4
    requires forall s :: s in RequiredSheets ==> s in book.sheetNames
    requires k < |RequiredSheets| && book.sheets[RequiredSheets[k]].Table?
    requires HasAllFields(RequiredSheets[k], book.sheets[RequiredSheets[k]].columns)
    requires book.sheets[RequiredSheets[k]].rows == []
    requires forall j :: 0 <= j < k ==> SheetConforms(RequiredSheets[j], book.sheets[RequiredSheets[j]])
    ensures ValidateFile(Opened(book)) == InvalidPrefix + ("The sheet '" + RequiredSheets[k] + "' is empty.")
  {
    FirstFailingSheetIsReported(book, k);
  }

  /**
    When the first failing sheet has its columns and rows but blank cells, the
    message names the first required field, in declared order, holding one.
   */
  lemma NullFieldIsReported(book: Workbook, k: nat, m: nat)
    requires |book.sheetNames| == 4
    requires forall s :: s in RequiredSheets ==> s in book.sheetNames
    requires k < |RequiredSheets| && book.sheets[RequiredSheets[k]].Table?
    requires HasAllFields(RequiredSheets[k], book.sheets[RequiredSheets[k]].columns)
    requires book.sheets[RequiredSheets[k]].rows != []
    requires m < |RequiredFields(RequiredSheets[k])|
    requires HasNull(book.sheets[RequiredSheets[k]].columns, book.sheets[RequiredSheets[k]].rows,
                     RequiredFields(RequiredSheets[k])[m])
    requires forall j :: 0 <= j < m ==>
      !HasNull(book.sheets[RequiredSheets[k]].columns, book.sheets[RequiredSheets[k]].rows,
               RequiredFields(RequiredSheets[k])[j])
    requires forall j :: 0 <= j < k ==> SheetConforms(RequiredSheets[j], book.sheets[RequiredSheets[j]])
    ensures ValidateFile(Opened(book)) ==
      InvalidPrefix + ("The field '" + RequiredFields(RequiredSheets[k])[m] + "' in sheet '"
                       + RequiredSheets[k] + "' contains empty values.")
  {
    var name := RequiredSheets[k];
    var sheet := book.sheets[name];
    var fields := RequiredFields(name);
    assert fields[m] in fields;
    assert CheckSheet(name, sheet) == NullValues(fields[m], name);
    FirstFailingSheetIsReported(book, k);
  }

  /** Sheets after the first failing one are never inspected: changing them leaves the message unchanged. */
  lemma LaterSheetsNeverInspected(book: Workbook, other: Workbook, k: nat)
    requires book.sheetNames == other.sheetNames && |book.sheetNames| == 4
    requires forall s :: s in RequiredSheets ==> s in book.sheetNames
    requires k < |RequiredSheets| && !SheetConforms(RequiredSheets[k], book.sheets[RequiredSheets[k]])
    requires forall j :: 0 <= j < k ==> SheetConforms(RequiredSheets[j], book.sheets[RequiredSheets[j]])
    requires forall j :: 0 <= j <= k ==> other.sheets[RequiredSheets[j]] == book.sheets[RequiredSheets[j]]
    ensures ValidateFile(Opened(other)) == ValidateFile(Opened(book))
  {
    FirstFailingSheetIsReported(book, k);
    FirstFailingSheetIsReported(other, k);
  }

  lemma {:induction false} DistinctCardinality(s: seq<string>)
    requires Distinct(s)
    ensures |set n | n in s| == |s|
  {
    if s != [] {
      var tail := s[1..];
      assert Distinct(tail);
      DistinctCardinality(tail);
      assert (set n | n in s) == {s[0]} + (set n | n in tail);
      assert s[0] !in tail;
    }
  }

  /** A workbook that passes the count and name checks has exactly the four required sheets. */
  lemma SheetNamesAreExactlyRequired(book: Workbook)
    requires |book.sheetNames| == 4
    requires forall s :: s in RequiredSheets ==> s in book.sheetNames
    ensures (set n | n in book.sheetNames) == (set s | s in RequiredSheets)
  {
    var names := set n | n in book.sheetNames;
    var required := set s | s in RequiredSheets;
    DistinctCardinality(book.sheetNames);
    DistinctCardinality(RequiredSheets);
    assert required <= names;
    assert |names - required| == 0 by {
      assert |names| == |required| + |names - required|;
    }
    assert names - required == {};
  }

  /** A valid workbook consists of exactly the four required sheets. */
  lemma ValidWorkbookHasOnlyRequiredSheets(book: Workbook)
    requires ValidateFile(Opened(book)) == ValidMessage
    ensures book.sheets.Keys == (set s | s in RequiredSheets)
  {
    SheetNamesAreExactlyRequired(book);
  }

  /** `sub` is `s` with some elements left out and the rest kept in order. */
  predicate IsSubsequence(sub: seq<string>, s: seq<string>) {
    if sub == [] then true
    else if s == [] then false
    else if sub[0] == s[0] then IsSubsequence(sub[1..], s[1..])
    else IsSubsequence(sub, s[1..])
  }

  /** Missing fields are listed in the order the required fields are declared. */
  lemma {:induction false} AbsentInDeclaredOrder(required: seq<string>, columns: seq<string>)
    ensures IsSubsequence(Absent(required, columns), required)
  {
    if required != [] {
      var rest := Absent(required[1..], columns);
      AbsentInDeclaredOrder(required[1..], columns);
      if required[0] in columns {
        assert Absent(required, columns) == rest;
        assert rest != [] ==> rest[0] in rest && rest[0] != required[0];
      } else {
        assert Absent(required, columns) == [required[0]] + rest;
        assert ([required[0]] + rest)[1..] == rest;
      }
    }
  }

  /** Joining one more item appends the separator and that item: the items appear in order, separated by `sep`. */
  lemma {:induction false} JoinSnoc(items: seq<string>, x: string, sep: string)
    requires items != []
    ensures Join(items + [x], sep) == Join(items, sep) + sep + x
  {
    if |items| > 1 {
      assert (items + [x])[1..] == items[1..] + [x];
      JoinSnoc(items[1..], x, sep);
    }
  }

  /** A row shorter than the header reads as blank, so the field of each column it lacks has a blank cell. */
  lemma ShortRowHasNull(columns: seq<string>, rows: seq<Row>, i: nat, j: nat)
    requires i < |rows| && j < |columns| && |rows[i]| <= j
    ensures HasNull(columns, rows, columns[j])
  {
    assert CellAt(rows[i], j).None?;
  }

  /** A field without blank cells has, in every data row, a filled cell under every column with its label. */
  lemma NullFreeFieldIsFilled(columns: seq<string>, rows: seq<Row>, field: string, i: nat, j: nat)
    requires !HasNull(columns, rows, field)
    requires i < |rows| && j < |columns| && columns[j] == field
    ensures j < |rows[i]| && rows[i][j].Some?
  {
    assert !CellAt(rows[i], j).None?;
  }

  /** With no column labels at all, every required field is reported missing, in declared order. */
  lemma {:induction false} AbsentFromNoColumns(required: seq<string>)
    ensures Absent(required, []) == required
  {
    if required != [] {
      AbsentFromNoColumns(required[1..]);
    }
  }

  /**
    A sheet without a single filled cell has no header: it is reported as
    missing every required field rather than as empty.
   */
  lemma BlankSheetReportsEveryField(name: string, rows: seq<Row>)
    requires name in RequiredSheets
    ensures CheckSheet(name, Table([], rows)) == MissingFields(name, RequiredFields(name))
  {
    AbsentFromNoColumns(RequiredFields(name));
  }
}
