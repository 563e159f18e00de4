/** Shared vocabulary of the model: optional values, results, and the
    failures that abort the clustering pipeline. */
module Common {

  datatype Option<+T> = None | Some(value: T)

  /** The failures of the pipeline. Every one of them is fatal in the
      program: it is an `assert` or an exception that ends the run. */
  datatype Error =
    | MissingSource(path: string)          // the corpus file of a basename does not exist
    | MalformedArticle                     // an article without exactly one `++` line
    | CorruptCache(path: string)           // the pickled payload is `None`
    | InsufficientData(rows: nat, n: nat)  // too few rows for the nearest-n selection
    | UnexpectedClusterCount(k: nat)       // the clusterer did not produce 3 distinct labels

  datatype Result<+T> = Ok(value: T) | Err(error: Error)
}
