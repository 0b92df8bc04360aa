/** The outcome of a read that can fail, with the failures of package pdb told apart. */
module Results {
  import opened Bytes

  datatype PdbError =
    | UnexpectedEof
    | InvalidCompressedInteger
    | BadSignature
    | StreamOutOfBounds
    | TablesStreamNotFound
    | StreamNotFound(name: seq<byte>)
    | RowDataOutOfRange
    | UnsupportedTable(table: nat, rows: uint32)
    | RowOutOfRange(row: int)
    | HeapReferenceOutOfRange
    | InvalidSeparator(separator: byte)
    | GuidIndexOutOfRange(index: uint32)
    | InvalidGuid
    | SourceBlobTooSmall
    | NegativeSourceSize
    | InflateFailed
    | WriteFailed

  datatype Result<+T> = Ok(value: T) | Err(error: PdbError) {
    predicate IsFailure() {
      Err?
    }

    function PropagateFailure<U>(): Result<U>
      requires Err?
    {
      Err(error)
    }

    function Extract(): T
      requires Ok?
    {
      value
    }
  }
}
