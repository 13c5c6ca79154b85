/** Failure-compatible results shared by every module of the model.
    `Error` names the exceptions the Python code raises (or, for `Hang`,
    the loop it never leaves), so that error paths are values, not preconditions. */
module Wrappers {

  datatype Error =
    | Overflow            // int.to_bytes: value does not fit the integer type
    | UnsupportedVersion  // Header.parse: "Archive format is not supported!"
    | UnicodeDecode       // bytes.decode() on a byte the model does not decode
    | ValueErr            // ValueError (bad int literal, empty path name, unpacking, range step 0, ...)
    | IndexErr            // IndexError (list index out of range)
    | KeyErr              // KeyError (missing dict key)
    | FileNotFound        // FileNotFoundError
    | NoElements          // create_archive: "No elements to pack!"
    | NotImplemented      // NotImplementedError (unsupported patch file type)
    | AttributeErr        // AttributeError (e.g. `.items()` on a JSON scalar)
    | TypeErr             // TypeError (indexing what is not a dict, a path that is not text)
    | SyntaxErr           // ElementTree path outside the modelled query shapes
    | Hang                // the source loops forever on this input

  datatype Result<+T> = Ok(value: T) | Err(error: Error) {
    predicate IsFailure() { Err? }
    function PropagateFailure<U>(): Result<U> requires Err? { Err(error) }
    function Extract(): T requires Ok? { value }
  }

  datatype Option<+T> = None | Some(value: T)
}
