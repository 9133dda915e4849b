/** Option, Result and the ways the script stops. */
module Results {

  datatype Option<T> = None | Some(value: T)

  /** Why the dashboard script stops before it reaches its summary figures. */
  datatype Error =
    | MissingHeaderRow              // `df.iloc[1]` on a table with fewer than two rows (IndexError)
    | HeaderNotText                 // a number in the header row, which `.str.strip()` / `x.strip()` reject
    | MissingColumn(name: string)   // a `df[name]` or `row[name]` lookup of an absent column (KeyError)
    | DivisionByZero                // Python `int / int` with a zero divisor (ZeroDivisionError)

  datatype Result<T> = Success(value: T) | Failure(error: Error)
}
