/** Shared result types for the rule-engine model.

    `Option` stands for a JavaScript value that may be missing (`undefined`,
    `null`, or a failed parse); `Completion` stands for an evaluation that
    either returns normally or throws, the way ECMAScript completion records
    do. */
module Common {

  datatype Option<+T> = None | Some(value: T) {

    /** The wrapped value, or `default` when there is none (the `x || d`
        and `x ?? d` idioms of the source). */
    function GetOr(default: T): T {
      match this
      case Some(v) => v
      case None => default
    }
  }

  /** The exceptions the modelled code can raise. */
  datatype ErrorKind = TypeError | SyntaxError

  /** Outcome of an evaluation that may throw. */
  datatype Completion<+T> = Normal(value: T) | Throw(error: ErrorKind)

  /** Which version of a step is meant where the model keeps two: the
      code as written, or the correction described in the Findings
      section of README.md. */
  datatype Reading = AsWritten | Corrected
}
