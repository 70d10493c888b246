# Workbook upload validator

A Dafny model of a small upload service that accepts a spreadsheet workbook
and checks it against a fixed schema. The workbook must contain exactly four
sheets, `Course`, `Topic`, `Resource` and `Learner`. Each of them must carry
its required columns, hold at least one data row, and have no blank cell in a
required column. The validator answers with one message string and stops at
the first failure. The upload endpoint rejects a request without a `file`
part or with an empty filename. Otherwise it saves the file under the
client's filename. If the save succeeds it answers with the validator's
message and a success status, whether the workbook passed or not. If the save
raises, the exception escapes the handler and the framework answers with an
internal server error.

Files:

- `wrappers.dfy` (module `Wrappers`): the `Option` type.
- `spreadsheet.dfy` (module `Spreadsheet`): the workbook as the reader
  delivers it. It has the sheet names in workbook order and a map from each
  name to its sheet. A sheet is either a table or the reason it could not be
  read. A table is a header of column labels plus data rows of cells, and a
  blank cell is `None`. `Workbook` is a subset type: its names are distinct
  and the map has exactly the listed names as keys. `Upload` is either a
  readable workbook or the reader's failure text.
- `validation.dfy`: module `Validation` holds the checklist. `Validate`
  returns a structured `Verdict`, `Message` renders it as the exact strings that
  check.py returns, and `ValidateFile` composes the two. Module `ValidationFacts`
  holds the lemmas that relate the checks to each other.
- `endpoint.dfy` (module `Endpoint`): the endpoint's two request guards and its
  response. The response is either a status, a JSON key and a text, or the
  framework's internal-error answer. Whether the save succeeds is an input.

The conforming workbook is also defined independently of the checklist, by
`Conforms` and `SheetConforms`. `ValidateFile` is proved to return
`"File is valid."` exactly when `Conforms` holds.

Behaviour of check.py that the model keeps:

- A table counts as empty when it has no rows or no columns, as a data frame
  does. A sheet with no filled cell at all has no header. The column check
  runs first, so such a sheet is reported as missing every required field,
  not as empty (`BlankSheetReportsEveryField`). Only a sheet that has a
  header and no data rows gets the "is empty" message.
- A data row shorter than the header reads as blank under the columns it
  lacks (`Spreadsheet.CellAt`).
- A sheet the reader fails on while the sheets are being checked becomes a
  processing-error message, just like a file that cannot be opened. The
  whole body of the validator sits inside the catch-all.

## Model

| member | source | states |
|---|---|---|
| Validation.RequiredFields | check.py:56-62 | each required sheet has a non-empty list of distinct required column names, in declared order |
| Validation.FirstMissing | check.py:51-54 | nothing is returned exactly when every required sheet is present; otherwise the result is a required name absent from the workbook, and every required name before it is present |
| Validation.Absent | check.py:68-69 | a field is listed exactly when it is required and is not a column label (exact match) |
| Validation.FirstNullField | check.py:79-82 | nothing is returned exactly when no listed field has a blank cell; otherwise the result is a field with a blank cell, and no field before it has one |
| Validation.CheckSheet | check.py:65-82 | one sheet passes exactly when it conforms. It reports missing fields exactly when a required column is absent, and the list holds exactly those fields. It reports the sheet as empty exactly when all columns exist and there are no rows. It reports a blank cell exactly when columns and rows exist and a required field has a blank cell, naming the first such field in declared order. An unreadable sheet gives a processing error with the reader's reason |
| Validation.CheckSheets | check.py:64-83 | the loop over sheets passes exactly when every sheet it visits conforms, and it never reports a sheet-count or missing-sheet failure |
| Validation.Validate | check.py:38-89 | an unreadable file gives a processing error with the reader's text; a sheet count other than 4 gives the count failure whatever the names or contents; the verdict is Valid exactly when the workbook conforms; a missing-sheet verdict names the first required sheet absent, in declared order |
| Validation.Join | check.py:73 | an empty list gives "", one item gives that item, and (JoinSnoc) each further item follows the separator, so the items appear in order separated by ", " |
| ValidationFacts.JoinSnoc | check.py:73 | for any non-empty list, joining one more item appends the separator and then that item, so the items appear in order with ", " between consecutive ones |
| Validation.Message | check.py:47-89 | the message is "File is valid." exactly for success; it starts with "Error processing the file: " exactly for a processing error and carries the reason after that prefix; it starts with "Invalid file format: " exactly for every structural failure |
| Validation.ValidateFile | check.py:38-89 | the result is "File is valid." exactly when there are 4 sheets, all four required sheets are present, and each has its required columns, at least one row and no blank required cell; an unreadable file gives "Error processing the file: " followed by the reader's text; a count other than 4 gives the exact count message |
| ValidationFacts.FirstMissingSheetIsReported | check.py:47-54 | with 4 sheets, the message names the first required sheet missing in the order Course, Topic, Resource, Learner, whatever the sheets contain |
| ValidationFacts.CheckSheetsStopsAtFirstFailure | check.py:65-82 | the sheet loop returns the verdict of the first non-conforming sheet in its order |
| ValidationFacts.FirstFailingSheetIsReported | check.py:64-85 | once count and names pass, the verdict is that of the first required sheet, in declared order, that fails its own checks, and it is not success |
| ValidationFacts.MissingFieldsAreReported | check.py:68-73 | when the first failing sheet lacks columns, the message is the exact missing-fields text listing the absent required fields joined by ", " |
| ValidationFacts.AbsentInDeclaredOrder | check.py:69 | the missing fields keep the declared order of the required fields (they form a subsequence of it) |
| ValidationFacts.EmptySheetIsReported | check.py:75-77 | when the first failing sheet has all its columns and no row, the message is the exact "is empty" text for that sheet |
| ValidationFacts.NullFieldIsReported | check.py:79-82 | when the first failing sheet has columns and rows, the message names the first required field in declared order that has a blank cell, together with its sheet |
| ValidationFacts.LaterSheetsNeverInspected | check.py:64-82 | changing any sheet after the first failing one leaves the message unchanged |
| ValidationFacts.SheetNamesAreExactlyRequired | check.py:47-54 | when the count and name checks pass, the set of sheet names is exactly {Course, Topic, Resource, Learner} |
| ValidationFacts.ValidWorkbookHasOnlyRequiredSheets | check.py:44-85 | a workbook judged valid holds exactly the four required sheets |
| ValidationFacts.ShortRowHasNull | check.py:81 | a data row shorter than the header counts as having a blank cell under every column it lacks |
| ValidationFacts.NullFreeFieldIsFilled | check.py:80-82 | a field that passes the blank-cell check has, in every data row, a filled cell under its column |
| ValidationFacts.BlankSheetReportsEveryField | check.py:66-77 | a sheet without any header is reported as missing all its required fields, not as empty |
| Endpoint.HandleUpload | check.py:17-34 | status 400 exactly when the file part is absent or its filename is empty. A missing part gives error "No file part", and this check comes first. An empty filename gives error "No selected file". Otherwise a failed save gives an internal server error, and a successful save gives status 200 with the validator's message under "message" |
| Endpoint.RejectedFileStillSucceeds | check.py:29-34 | a named and saved file that fails validation is still answered with status 200 and the validator's failure message (not "File is valid.") under "message" |

## Left out

- Flask routing, `jsonify` and the HTTP objects are not modelled. A response
  is reduced to a status, the single JSON key and its text. `app.run` is left
  out as well.
- Endpoint.HandleUpload: building the save path, `file.save` and creating the
  upload directory at startup are filesystem I/O and are not modelled. Whether
  the save succeeds is an input, not derived from the filename. A filename
  naming a missing sub-folder or a directory makes the save raise, which the
  model shows only as a failed save and an internal server error. The model
  takes the workbook read back from the saved file to be the uploaded one.
- Concurrent uploads with the same filename race on one saved file. That is
  concurrency outside the validator and is not modelled.
- Opening and parsing the spreadsheet is done by a foreign library and is not
  modelled. Its result is an input: a readable workbook, an unreadable file
  with an opaque failure text, or an unreadable sheet with such a text. Cell
  values are opaque strings, and a blank or NaN cell is `None`.
- The reader renames duplicate header labels so that they are unique. The
  model does not; for a repeated label, a blank cell under any column with
  that label counts.
- Processing failures other than the reader's are not modelled. Once a
  sheet is read, the lookups in the checks cannot fail in the model.
