/** Failure-carrying values shared by the converter's modules: an optional
    value, a value-or-error result, and the errors the converter can see. */
module Outcomes {

  datatype Option<+T> = None | Some(value: T)

  datatype Result<+R> = Success(value: R) | Failure(error: Error)

  /** The errors that reach the converter's code: the configuration library's
      "section does not exist" error, and any error an operating-system call
      (directory or file creation, a write) reports; the converter never
      looks inside the latter. */
  datatype Error =
    | SectionNotFound(section: string)
    | FsError
}
