/** What a call hands back: a value, or the exception it raised. */
module Outcomes {

  datatype Option<+T> = None | Some(value: T)

  /** One constructor per exception the modelled code can raise. */
  datatype Error =
    | ChunkSizeBelowOne
    | WrongTable
    | NoPrimaryKey
    | NoBusinessColumns
    | NoCaptureInstance
    | CapturedColumnGone(name: string)
    | CapturedColumnDrifted(name: string)
    | KeyNotCaptured(name: string)
    | KeyComputed(name: string)
    | MetadataNameClash(name: string)
    | NoArrowType(name: string)
    | SchemaChanged
    | RetentionExpired
    | NoMinimumLsn
    | NoMaximumLsn
    | LogBelowFloor
    | LsnWidth
    | LsnOverflow
    | BadHex
    | WatermarkTimeout
    | LeadingKeyRepeats
    | LeadingKeyNotInteger
    | NegativeLimit
    | InvertedBounds
    | ColumnRepeats
    | ColumnsDoNotMatch
    | CastFailed(name: string)

  datatype Result<+T> = Success(value: T) | Failure(error: Error) {
    predicate IsFailure() {
      Failure?
    }

    function PropagateFailure<U>(): Result<U>
      requires Failure?
    {
      Failure(error)
    }

    function Extract(): T
      requires Success?
    {
      value
    }
  }
}
