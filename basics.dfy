/** Result and error values shared by the modules of the typing tutor. */
module Basics {

  datatype Option<+T> = None | Some(value: T)

  datatype Result<+R, +E> = Success(value: R) | Failure(error: E)

  /** The two kinds of `io::Error` the core raises itself. */
  datatype Error =
    | InvalidData(message: string)   // the piped word list has fewer than two words
    | Interrupted(message: string)   // the user pressed Escape or Ctrl-C during a test

  const NoWordsMessage: string := "Input stream doesn't contain words"
  const CanceledMessage: string := "canceled"
}
