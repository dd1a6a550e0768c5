/** Option and Result, standing in for JavaScript's null/undefined and thrown errors. */
module Wrappers {

  datatype Option<+T> = None | Some(value: T) {
    function GetOr(default: T): T {
      match this
      case Some(v) => v
      case None => default
    }
  }

  /** The errors the core throws, named after the messages in the source. */
  datatype Error =
    | Required(what: string)   // '[<what>] is required' / 'Prop [<what>] is required'
    | ObserverRunning          // 'Observer is running'
    | InvalidNodeType          // Range.setStartBefore / setEndAfter on a node without a parent
    | IndexSizeError           // Range.setStart / setEnd with an offset beyond the node's length
    | TypeError(what: string)  // a member used on undefined or null, or a bad argument to a DOM call

  datatype Result<+T> = Ok(value: T) | Err(error: Error)

  datatype Outcome = Pass | Fail(error: Error)
}
