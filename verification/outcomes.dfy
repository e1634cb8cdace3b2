/** The failure-carrying result type of the model and the three ways the
    program stops with an exception. */
module Outcomes {

  /** The exceptions the program raises on its own. */
  datatype Error =
    | BadTag(tag: string)                        // ValueError: an edge tag other than "D" or "U"
    | UnknownNodeId(id: int)                     // KeyError: an arc endpoint with no name
    | EdgeNotInTables(node1: string, node2: string)  // KeyError: a flow arc found in neither table

  datatype Result<+T> = Ok(value: T) | Err(error: Error) {
    predicate IsFailure() {
      Err?
    }

    function PropagateFailure<U>(): Result<U>
      requires Err?
    {
      Err(error)
    }

    function Extract(): T
      requires Ok?
    {
      value
    }
  }
}
