// The error returns of the storage layers and of the graph.
module Results {
  datatype Error =
    | RowTooLong | NoSpaceOnPage | NoSuchSlot | RowDeleted     // page
    | Panicked                                                  // page: a slice out of range, recovered by the executor
    | AllPinned                                                 // buffer pool
    | WrongColumnCount | EmptyRow | RowCutShort                 // row codec
    | Deadlock                                                  // heap: the call never returns
    | DuplicateValue                                            // executor
    | StoreFailed | NodeNotFound | EdgeNotFound                 // graph

  datatype Result<+T> = Ok(value: T) | Err(error: Error)
}
