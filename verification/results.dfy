/** Failure-compatible result types shared by the population pipeline.
    Every exception the script can raise on its data path becomes an `Error`. */
module Results {

  datatype Option<+T> = None | Some(value: T)

  /** The ways the pipeline fails on a given table.
      - MissingColumn: indexing the table by a column name it lacks (pandas `KeyError`).
      - NotAnInteger: a header prefix that `astype(int)` cannot convert (`ValueError`).
      - NoYears: `min`/`max` of an empty year list when the slider is built (`ValueError`). */
  datatype Error = MissingColumn(name: string) | NotAnInteger(text: string) | NoYears

  datatype Result<+T> = Ok(value: T) | Err(error: Error) {

    predicate IsFailure() {
      Err?
    }

    function PropagateFailure<U>(): Result<U>
      requires Err?
    {
      Err(error)
    }

    function Extract(): T
      requires Ok?
    {
      value
    }
  }
}
