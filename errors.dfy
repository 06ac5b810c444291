/**
 * Error codes thrown by the interpreter runtime, and the Option/Result
 * wrappers the model uses in place of C++ exceptions and null pointers.
 *
 * Each constructor of Error is named after the identifier the runtime
 * throws (ERROR_NOT_IN_VAR_CONTEXT becomes NotInVarContext, and so on).
 * Three constructors stand for outcomes that the C++ code does not throw:
 * Diverges (the source loops or recurses without end), UndefinedBehaviour
 * (the source reads memory it does not own) and FuelExhausted (the model's
 * own bound on calls and loop iterations was reached).
 */
module Errors {

  datatype Option<+T> = None | Some(value: T)

  datatype Error =
    | VariableAlreadyDefined   // ERROR_VARIABLE_ALREADY_DEFINED
    | NotInVarContext          // ERROR_NOT_IN_VAR_CONTEXT
    | IndexOutOfRange          // ERROR_INDEX_OUT_OF_RANGE
    | CannotIterateType        // ERROR_CANNOT_ITERATE_TYPE
    | MustHaveDoubleType       // ERROR_MUST_HAVE_DOUBLE_TYPE
    | MustHaveStructType       // ERROR_MUST_HAVE_STRUCT_TYPE
    | IncompatibleValueTypes   // ERROR_INCOMPATIBLE_VALUE_TYPES
    | UnexpectedTok            // ERROR_UNEXPECTED_TOK
    | StructNotFound           // ERROR_STRUCT_NOT_FOUND
    | FunctionNotFound         // ERROR_FUNCTION_NOT_FOUND
    | UnexpectedArgumentLength // ERROR_UNEXPECTED_ARGUMENT_LENGTH
    | FunctionAlreadyDefined   // ERROR_FUNCTION_ALREADY_DEFINED
    | StructAlreadyDefined     // ERROR_STRUCT_ALREADY_DEFINED
    | Diverges                 // not thrown: an endless loop or recursion
    | UndefinedBehaviour       // not thrown: a read of memory the runtime does not own
    | FuelExhausted            // not thrown: the model's bound on calls and loop iterations

  datatype Result<+T> = Ok(value: T) | Err(error: Error) {
    predicate IsFailure() {
      Err?
    }

    function PropagateFailure<U>(): Result<U>
      requires Err?
    {
      Err(error)
    }

    function Extract(): T
      requires Ok?
    {
      value
    }
  }
}
