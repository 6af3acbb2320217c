/** Option and Result with the error kinds the pipeline raises. */
module Wrappers {

  datatype Option<T> = None | Some(value: T)

  /** One constructor per exception the scripts raise (or let escape). */
  datatype Error =
    | MissingConnectionString        // load.to_table: pg_conn_string is None
    | BadDestination(destination: string)  // to_table: "schema.table" does not split into two
    | KeyError(column: string)       // df[...] of a column that is not there
    | TypeError                      // a comparison between a number and a non-number
    | CastError                      // astype(int) of a value that is not an integer
    | AttributeError                 // `.str` on a column that holds no text
    | TableAlreadyExists             // to_sql with if_exists='fail' on an existing table
    | SchemaMismatch                 // COPY into a table whose columns differ from the dataset's
    | UnknownTransform(name: string) // main: "Specified transformation name not found."
    | UnknownSuite(name: string)     // main: "Specified test suite not found."
    | ValidationFailed               // main: assert test_data(...)
    | UsageError                     // wrong number of command-line arguments
    | ExtractFailed                  // the HTTP request or the CSV read failed
    | ScriptUnreadable               // open(script_path) failed
    | SqlFailed(command: string)     // the server rejected an ad hoc command

  datatype Result<T> = Ok(value: T) | Err(error: Error) {

    predicate IsFailure() {
      Err?
    }

    function PropagateFailure<U>(): Result<U>
      requires Err?
    {
      Err(error)
    }

    function Extract(): T
      requires Ok?
    {
      value
    }
  }
}
