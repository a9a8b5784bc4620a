/** An optional value; `None` marks an outcome the model does not continue past. */
module Options {
  datatype Option<T> = None | Some(value: T)

  /** How a call of the program ends: normally, through `syntax` or
      `synopsis` (which report and exit), or in a way the model does not
      follow (undefined behaviour, an uncaught exception, or exhausting
      memory). */
  datatype Status = Ok | Fatal | Undefined
}
