/** Outcomes of operations that throw in misFITS. */
module Results {

  datatype Error =
    | BadHdu              // CFITSIO refused to move to the HDU
    | NotATable           // the selected HDU is not a binary table
    | BadColumnNumber     // CFITSIO refused the column number
    | ColumnNotFound      // no column matches the name
    | ColumnNotUnique     // several columns match the name
    | OutOfRange          // std::vector::at on the column cache
    | BadTdim             // the TDIM text is malformed or its product is not the repeat count
    | BadRowNumber        // a row number below one
    | BeyondCell          // an access the store does not serve (see README)
    | NoEntries           // a Row without bound columns
    | WrongType           // a destination type that the column type does not allow
    | MissingInSource     // copy_columns: the source has no such column
    | Duplicate           // copy_columns: the destination has the column already
    | UnknownFlag         // copy_columns: unknown duplicate policy
    | Inconvertible       // CFITSIO refused to convert between two column types

  datatype Result<+T> = Success(value: T) | Failure(error: Error) {
    predicate IsFailure() {
      Failure?
    }

    function PropagateFailure<U>(): Result<U>
      requires Failure?
    {
      Failure(error)
    }

    function Extract(): T
      requires Success?
    {
      value
    }
  }

  type Status = Result<()>

  datatype Option<+T> = None | Some(value: T)
}
