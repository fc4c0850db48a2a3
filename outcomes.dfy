/** Option and Result values for the error paths of the model, and the conditions on which
    the fetch tool stops without printing its list. */
module Outcomes {

  datatype Option<+T> = None | Some(value: T)

  datatype Result<+T, +E> = Ok(value: T) | Err(error: E)

  /** Why a run of the tool ends without output. */
  datatype Fatal =
    | MissingArguments  // fetch_page: repository empty or months == 0, then sys.exit(1)
    | NoData            // last_date: the accumulated list is empty, then sys.exit(1)
    | BadTimestamp      // last_date: created_at cannot be parsed or compared, an uncaught exception
}
