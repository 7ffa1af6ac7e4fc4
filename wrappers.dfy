/** Optional values and the exceptions the scripts raise, as values. */
module Wrappers {

  datatype Option<+T> = None | Some(value: T)

  /** The exceptions the modelled Python code can raise. */
  datatype Error =
    | CommandFailed(message: string)     // `Exception("Git command failed: ...")`
    | NotAMergeCommit(message: string)   // `Exception("Commit ... is not a merge commit.")`
    | CommitIdMissing(message: string)   // `ValueError("Could not find commit ID in ...")`
    | IndexOutOfRange                    // `IndexError` from `line.split()[1]`
    | NoneNotIterable                    // `TypeError` from iterating over `None`

  datatype Result<+T> = Ok(value: T) | Err(error: Error)

  function Max(a: int, b: int): int { if a < b then b else a }

  function Min(a: int, b: int): int { if a < b then a else b }
}
