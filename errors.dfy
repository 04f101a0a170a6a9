/** The ways a build stops: a value struct cannot pack or unpack, one of the
    splicer's fatal cursor checks, or a malformed input line. */
module Errors {

  /** The fatal cursor checks of stream_copy and pad_to (build_error). */
  datatype CursorFault =
    | SourceCursorMismatch   // src.tell() != start
    | DestCursorMismatch     // dest.tell() != start
    | EmptyRange             // start >= end
    | PadBackward            // f.tell() >= target

  datatype Error =
    | StructError            // struct.pack of a value out of range, or a short struct.unpack
    | BuildError(fault: CursorFault)
    | MissingField(line: nat)          // a manifest line with fewer than three tokens
    | BadInteger(line: nat)            // int() rejects the id token
    | UnknownSectionType(line: nat)    // get_extension returns None
    | MissingFile(line: nat)           // the section's source file does not exist
    | InvalidSettingsLine(text: string)

  datatype Result<T> = Ok(value: T) | Err(error: Error) {
    predicate IsFailure() {
      Err?
    }

    function PropagateFailure<U>(): Result<U>
      requires Err?
    {
      Err(error)
    }

    function Extract(): T
      requires Ok?
    {
      value
    }
  }

  datatype Option<T> = None | Some(value: T)

  /** The result of a step that produces nothing but may stop the build. */
  datatype Outcome = Pass | Fail(error: Error)
}
