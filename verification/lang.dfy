/** The parts of java.lang the engines rely on: optional values, the
    exceptions a traversal can raise, and a result type carrying one. */
module Lang {

  datatype Option<+T> = None | Some(value: T)

  /** The exceptions the engines can raise, as the JVM would report them. */
  datatype Failure =
    /** Class.newInstance failed: no accessible no-argument constructor,
        or an abstract class. A ReflectiveOperationException. */
    | Instantiation(cls: string)
    /** A reflective get/set on an object that lacks the field, an array
        access on a non-array, or a value outside its Java type. */
    | IllegalArgument
    /** The superclass walk stepped past a type that has no superclass
        (an interface or a primitive), and dereferenced null. */
    | NullPointer
    /** The class table does not describe a class the walk reached. */
    | NoClassDef(cls: string)
    /** The superclass walk revisited a class, so it would never stop. */
    | StackOverflow
    /** A read past the end of the buffer. */
    | IndexOutOfBounds
    /** An array length read from the buffer was negative. */
    | NegativeArraySize(n: int)
    /** A string payload that is not well-formed UTF-8. */
    | MalformedInput
    /** StreamUtil's wrapper for a failure that is not of the declared type. */
    | UnknownException(cause: Failure)

  /** ReflectiveOperationException and its subclasses: the error type every
      engine passes to StreamUtil.forEachUnchecked. */
  predicate IsReflective(e: Failure) {
    e.Instantiation?
  }

  datatype Result<+T> = Ok(value: T) | Err(error: Failure) {
    predicate IsFailure() {
      Err?
    }

    function PropagateFailure<U>(): Result<U>
      requires Err?
    {
      Err(error)
    }

    function Extract(): T
      requires Ok?
    {
      value
    }
  }
}
