/** Outcome types shared by the models of the contract parsers and evaluators. */
module Wrappers {

  /** A TypeScript `T | null` / `T | undefined`, or a Python `Optional[T]`. */
  datatype Option<+T> = None | Some(value: T)

  /** The result of a check that may throw: `at` names the offending field. */
  datatype Result<+T> = Ok(value: T) | Err(at: string) {
    predicate IsFailure() {
      Err?
    }

    function PropagateFailure<U>(): Result<U>
      requires Err?
    {
      Err(at)
    }

    function Extract(): T
      requires Ok?
    {
      value
    }
  }

  /** `Number.MAX_SAFE_INTEGER`: the largest integer a contract `u64` field admits. */
  const MAX_SAFE_INTEGER: nat := 0x1F_FFFF_FFFF_FFFF
}
