/** Outcomes of the service's operations: an optional value, and a result that
    either carries a value or names the failure the HTTP layer reports. */
module Errors {

  datatype Option<T> = None | Some(value: T)

  /** The failures the endpoints raise, one per distinct check. */
  datatype Failure =
    | InvalidName        // space name fails the name check
    | InvalidFileType    // upload is not a .csv file
    | PayloadTooLarge    // upload exceeds the size limit
    | DecodeFailed       // no encoding in the list decodes the upload
    | ParseFailed        // the CSV reader raised; reported as a generic failure
    | InvalidLimit       // page limit outside 1..1000
    | InvalidOffset      // negative page offset
    | NotFound           // delete of a collection that does not exist

  datatype Result<T> = Ok(value: T) | Err(error: Failure)

  /** The HTTP status each failure is reported with. */
  function StatusCode(f: Failure): (code: nat)
    ensures code == 413 <==> f == PayloadTooLarge
    ensures code == 404 <==> f == NotFound
    ensures code == 400 <==> f != PayloadTooLarge && f != NotFound
  {
    match f
    case PayloadTooLarge => 413
    case NotFound => 404
    case _ => 400
  }
}
