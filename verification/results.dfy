/** Outcome types shared by the snippet generator model.

    The generator has exactly one way to fail inside its pure core: deriving
    an example name calls `toUpperCase` on the first character of every
    space-separated word of the heading, and an empty word has no first
    character, so JavaScript throws a TypeError that ends the whole run. */
module Results {

  /** Present / absent value (a README that could be read, a regex match). */
  datatype Option<+T> = None | Some(value: T)

  /** Why the pure core aborts. */
  datatype Error =
    /** A heading whose `split(" ")` yields an empty word (leading, trailing
        or doubled space, or an empty heading). */
    | EmptyTitleWord(title: string)

  /** Value or the error that aborted the computation. */
  datatype Result<+T> = Success(value: T) | Failure(error: Error)
}
