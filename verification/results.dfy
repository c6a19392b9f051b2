/** Failure-carrying values shared by every stage of the cleaning pipeline. */
module Results {

  /** The ways the pipeline can stop. */
  datatype Error =
    | NotFound         // choose_csv: no CSV file under the dataset root
    | ParseError       // the chosen file could not be read as a table
    | DuplicateColumn  // two columns share a name where pandas needs a single column
    | ColumnClash      // a join would produce two columns with the same label
    | NoDatasets       // merge_dataframes was given nothing to merge

  datatype Option<+T> = None | Some(value: T)

  datatype Result<+T> = Ok(value: T) | Err(error: Error) {

    predicate IsFailure() {
      Err?
    }

    function PropagateFailure<U>(): Result<U>
      requires Err?
    {
      Err(error)
    }

    function Extract(): T
      requires Ok?
    {
      value
    }
  }
}
