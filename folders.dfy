/** `get_folders`: what the folder-picker dialog's response turns into. The dialog itself
    is not modelled; its outcome is the input. */
module Folders {
  import opened Wrappers

  /** The dialog's answer: one folder, several folders, or cancelled. */
  datatype Response = Okay(path: string) | OkayMultiple(paths: seq<string>) | Cancel

  /** The error the dialog call can report, kept opaque. */
  datatype DialogError = DialogError(message: string)

  /** `get_folders`: a dialog error propagates unchanged; otherwise one chosen folder
      becomes a one-element list, several chosen folders are passed on in order, and a
      cancelled dialog gives the empty list. The list is empty exactly when the dialog was
      cancelled or returned no folder, the case the caller answers with "You must pick at
      least one folder." */
  function GetFolders(picked: Result<Response, DialogError>): (r: Result<seq<string>, DialogError>)
    ensures r.Failure? <==> picked.Failure?
    ensures r.Failure? ==> r.error == picked.error
    ensures picked.Success? && picked.value.Okay? ==> r.value == [picked.value.path]
    ensures picked.Success? && picked.value.OkayMultiple? ==> r.value == picked.value.paths
    ensures picked.Success? && picked.value.Cancel? ==> r.value == []
    ensures r.Success? ==> (r.value == [] <==> picked.value.Cancel? || picked.value == OkayMultiple([]))
  {
    match picked
    case Failure(e) => Failure(e)
    case Success(response) =>
      match response
      case Okay(filePath) => Success([filePath])
      case OkayMultiple(files) => Success(files)
      case Cancel => Success([])
  }
}
