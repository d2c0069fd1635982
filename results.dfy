/** Outcomes of the pipeline's operations: a value, or the exception that
    the Python code raises instead. */
module Results {

  /** The exceptions the modelled code raises. */
  datatype Error =
    | IndexError                 // `[-1]` on an empty list (no taxon segment)
    | KeyError(key: string)      // a missing dictionary key
    | ZeroDivisionError          // a percentage of a zero total
    | NoValidReports             // "Could not find any valid files."
    | SourceTableSchemaError     // "Source table does not follow schema"
    | MissingSampleFile          // "One or more provided sample paths doesn't exist"

  datatype Result<+T> = Ok(value: T) | Err(error: Error)

  /** The result of a check that returns nothing or raises. */
  datatype Outcome = Pass | Fail(error: Error)
}
