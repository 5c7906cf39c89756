/** Optional values, results and the error kinds raised by the editing engine.
    Every `throw new Error(...)` of the editor becomes an `Err` carrying one of the
    `Error` values below; `Message` gives the text the editor reports for it. */
module Results {

  datatype Option<+T> = None | Some(value: T)

  datatype Error =
    | NoNodeSelected
    | NoChildren
    | CreateBeforeRoot
    | CreateAfterRoot
    | ReparentRoot
    | RetagRoot
    | RemoveRoot
    | InvalidId
    | DuplicateId
    | AlreadyOldest
    | AlreadyNewest

  datatype Result<+T> = Ok(value: T) | Err(error: Error)

  /** The message each error is reported with. */
  function Message(e: Error): string {
    match e
    case NoNodeSelected => "No node selected"
    case NoChildren => "Node has no children"
    case CreateBeforeRoot => "Cannot create node before root node"
    case CreateAfterRoot => "Cannot create node after root node"
    case ReparentRoot => "Cannot reparent root node"
    case RetagRoot => "Cannot change element type of root node"
    case RemoveRoot => "Cannot remove root node"
    case InvalidId => "IDs must contain no space characters and be non-empty"
    case DuplicateId => "ID already exists in the document"
    case AlreadyOldest => "Already at oldest change"
    case AlreadyNewest => "Already at newest change"
  }
}
