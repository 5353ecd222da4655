/**
 * Shared wrappers: optional values (C# `null`), results of operations that
 * can throw, and the exceptions the graph core raises.
 */
module Base {

  /** A possibly-absent value; `None` stands for a C# `null` reference. */
  datatype Option<+T> = None | Some(value: T) {
    function GetOr(default: T): T {
      match this
      case Some(v) => v
      case None => default
    }
  }

  /** The exceptions of the core, each carrying what its message names. */
  datatype Error =
    | DuplicateKey(key: string)              // Dictionary.Add on a present key
    | ArgumentNull(name: string)             // ArgumentNullException
    | FileNotFound(path: string)             // FileNotFoundException
    | NoNodes(path: string)                  // DGML document without a Nodes section
    | BadNumber(text: string)                // float.Parse / int.Parse FormatException
    | MissingPart(text: string)              // index past the end of a Split result
    | InvalidConnection                      // connection that is not Output -> Input
    | LoadFailed(path: string, cause: Error) // reload failure rethrown with the path
    | NullReference(member: string)          // a member read through an unset reference

  /** Either a value or the exception that replaced it. */
  datatype Result<+T> = Ok(value: T) | Err(error: Error) {
    predicate IsFailure() {
      Err?
    }

    function PropagateFailure<U>(): Result<U>
      requires Err?
    {
      Err(error)
    }

    function Extract(): T
      requires Ok?
    {
      value
    }
  }
}
