/** The optional value used where the pipeline tolerates a missing or failed result. */
module Wrappers {

  datatype Option<+T> = None | Some(value: T) {

    /** The held value; the fallback when there is none (raw_pages = [] after a pdfminer error). */
    function GetOr(fallback: T): T
    {
      if Some? then value else fallback
    }
  }
}
