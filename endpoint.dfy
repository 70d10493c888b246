/**
  The guards of the upload endpoint. The request is reduced to its uploaded
  file parts, keyed by form field name; the response to the status code, the
  single key of its JSON body and the text under that key.
 */
module Endpoint {
  import opened Spreadsheet
  import opened Validation

  /** An uploaded part: the client's filename and what the spreadsheet reader makes of its bytes. */
  datatype FilePart = FilePart(filename: string, content: Upload)

  datatype Request = Request(files: map<string, FilePart>)

  /**
    A JSON answer with its status, its single key and the text under it, or
    the framework's own internal-error answer for an exception that escapes
    the handler.
   */
  datatype Response =
    | Response(status: nat, key: string, text: string)
    | ServerError

  const BadRequest: nat := 400
  const Ok: nat := 200

  /**
    The handler's answer: a client error for a missing or unnamed file; else,
    once the file is saved under the client's filename, the validator's
    message. `saved` is whether saving succeeds; saving runs outside the
    validator's catch-all, so a failed save escapes as an internal error.
   */
  function HandleUpload(request: Request, saved: bool): (response: Response)
    ensures response.Response? && response.status == BadRequest <==>
      "file" !in request.files || request.files["file"].filename == ""
    ensures "file" !in request.files ==> response == Response(BadRequest, "error", "No file part")
    ensures "file" in request.files && request.files["file"].filename == "" ==>
      response == Response(BadRequest, "error", "No selected file")
    ensures response.ServerError? <==>
      "file" in request.files && request.files["file"].filename != "" && !saved
    ensures response.Response? && response.status != BadRequest ==>
      saved && response == Response(Ok, "message", ValidateFile(request.files["file"].content))
  {
    if "file" !in request.files then Response(BadRequest, "error", "No file part")
    else
      var file := request.files["file"];
      if file.filename == "" then Response(BadRequest, "error", "No selected file")
      else if !saved then ServerError
      else Response(Ok, "message", ValidateFile(file.content))
  }

  /** A saved file that fails validation is still answered with a success status, the failure told only by the message. */
  lemma RejectedFileStillSucceeds(request: Request)
    requires "file" in request.files && request.files["file"].filename != ""
    requires !(request.files["file"].content.Opened? && Conforms(request.files["file"].content.book))
    ensures HandleUpload(request, true).Response?
    ensures HandleUpload(request, true).status == Ok
    ensures HandleUpload(request, true).key == "message"
    ensures HandleUpload(request, true).text == ValidateFile(request.files["file"].content)
    ensures HandleUpload(request, true).text != ValidMessage
  {
  }
}
