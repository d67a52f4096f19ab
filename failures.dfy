/** Outcomes of the pipeline's stages. */
module Failures {

  datatype Option<T> = None | Some(value: T)

  /** The two exceptions the sorting stages can raise: a `FileNotFoundException`
      when a file opened for reading does not exist, and a
      `NumberFormatException` when a line is not a decimal `int`. */
  datatype Error = FileNotFound(name: string) | NumberFormat(input: string)

  /** A stage either completes with a value or stops with the first error. */
  datatype Result<T> = Ok(value: T) | Err(error: Error)
}
