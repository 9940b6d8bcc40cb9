/** How the solver's computations end. */
module Results {

  /** A value, or the reason Java would have thrown instead. */
  datatype Result<+T, +E> = Ok(value: T) | Err(error: E)

  /** Why a walk throws before it can count anything. */
  datatype Fault =
    | MissingNode(query: string)  // findIndexOf gave -1 and get(-1) follows
    | ShortName(index: nat)       // charAt(2) on a name with fewer than three characters

  /** The end of a walk bounded by `fuel` loop iterations: the printed step
      count, an exception, or no verdict yet (the source would keep going,
      possibly forever). */
  datatype Outcome = Finished(steps: nat) | Crashed(fault: Fault) | Unfinished
}
