/** Optional values, the kinds of failure the service raises, and results. */
module Base {

  datatype Option<+T> = None | Some(value: T)

  /**
    The six files `CarService` keeps in its root directory: `models.txt`,
    `cars.txt`, `sales.txt` and their `*_index.txt` companions.
   */
  datatype FileName = ModelsLog | CarsLog | SalesLog | ModelsIndexFile | CarsIndexFile | SalesIndexFile

  /** The exceptions the service lets escape, by kind. */
  datatype Error =
    | FileMissing(name: FileName)     // open(..., 'r' or 'r+') on a file that does not exist
    | BadOffset(text: string)         // int() on the offset part of an index line
    | NegativeSeek(offset: int)       // f.seek() with a negative position
    | CorruptRecord                   // a record read at an offset did not decode
    | CarNotFound(vin: string)
    | CarAlreadySold(vin: string)
    | CarExists(vin: string)
    | SaleNotFound(salesNumber: string)

  /** A failure to read the files, as opposed to a refusal the service raises on purpose. */
  predicate IsReadFailure(e: Error) {
    e.FileMissing? || e.BadOffset? || e.NegativeSeek? || e.CorruptRecord?
  }

  /** The outcome of an operation that may raise. */
  datatype Result<+T> = Ok(value: T) | Fail(error: Error)
}
