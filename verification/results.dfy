/** The two ways the inference pipeline can fail. The source panics in both
    cases; here they are values. */
module Results {

  datatype Fault =
    /** A non-empty key made only of underscores: after stripping them the
        name is empty, and taking its first character fails. */
    | EmptyAfterStrip(key: string)
    /** Two nodes at the same position have different kinds; `at` is the
        identity (parent path + name) of the surviving node. */
    | TypeError(at: string)

  datatype Result<+T> = Ok(value: T) | Err(fault: Fault)
}
